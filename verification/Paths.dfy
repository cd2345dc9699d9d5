/**
 Subknobs: the dotted paths into a structured knob, reading and writing the value
 they address, and their text form.
 */
module Paths {
  import opened Bytes
  import opened Formats

  /** One element of a path: "name", or "name[index]" into an array member. */
  datatype Step = Field(name: string) | Item(name: string, index: nat)

  type Path = seq<Step>

  datatype SubKnob = SubKnob(path: Path, format: Format, leaf: bool)

  function Under(st: Step, sks: seq<SubKnob>): seq<SubKnob> {
    seq(|sks|, i requires 0 <= i < |sks| => sks[i].(path := [st] + sks[i].path))
  }

  /** create_subknobs, with paths relative to the knob. */
  function SubKnobs(f: Format): seq<SubKnob>
    decreases f, 0
  {
    match f
    case StructF(_, ms) => [SubKnob([], f, false)] + MembersSubKnobs(ms)
    case _ => [SubKnob([], f, true)]
  }

  /** The list a Knob keeps: Knob.__init__ puts a struct knob's root in front of the create_subknobs list once more. */
  function OwnSubKnobs(f: Format): (r: seq<SubKnob>)
    ensures forall sk :: sk in r <==> sk in SubKnobs(f)
  {
    if f.StructF? then [SubKnob([], f, false)] + SubKnobs(f) else SubKnobs(f)
  }

  function MembersSubKnobs(ms: seq<Member>): seq<SubKnob>
    decreases ms, 0
  {
    if ms == [] then [] else MemberSubKnobs(ms[0]) + MembersSubKnobs(ms[1..])
  }

  function MemberSubKnobs(m: Member): seq<SubKnob>
    decreases m, 0
  {
    match m.format
    case ArrayF(e, n) => [SubKnob([Field(m.name)], m.format, false)] + ItemsSubKnobs(m.name, SubKnobs(e), n)
    case _ => Under(Field(m.name), SubKnobs(m.format))
  }

  function ItemsSubKnobs(name: string, sks: seq<SubKnob>, n: nat): seq<SubKnob> {
    if n == 0 then [] else ItemsSubKnobs(name, sks, n - 1) + Under(Item(name, n - 1), sks)
  }

  /** The position of a member, or None for a KeyError. */
  function FindMember(ms: seq<Member>, name: string): (r: Option<nat>)
    ensures r.Some? ==> r.value < |ms| && ms[r.value].name == name
    ensures r.None? ==> forall m <- ms :: m.name != name
  {
    if ms == [] then None
    else if ms[0].name == name then Some(0)
    else var r := FindMember(ms[1..], name); if r.None? then None else Some(r.value + 1)
  }

  /** _get_child_value; None stands for KeyError, IndexError or TypeError. */
  function Get(f: Format, v: Value, p: Path): Option<Value>
    decreases |p|
  {
    if p == [] then Some(v)
    else if !f.StructF? || !v.Rec? || |v.fields| != |f.members| then None
    else
      var k := FindMember(f.members, p[0].name);
      if k.None? then None
      else
        var m, w := f.members[k.value].format, v.fields[k.value];
        match p[0]
        case Field(_) => Get(m, w, p[1..])
        case Item(_, i) =>
          if !m.ArrayF? || !w.Arr? || i >= |w.elems| then None else Get(m.elem, w.elems[i], p[1..])
  }

  /**
   The in-place assignment of _set_child_value at the path of a subknob, on a tree without
   shared nodes. (For a last name that is no member the code would add an entry; no subknob
   has such a path.)
   */
  function Set(f: Format, v: Value, p: Path, x: Value): Option<Value>
    decreases |p|
  {
    if p == [] then Some(x)
    else if !f.StructF? || !v.Rec? || |v.fields| != |f.members| then None
    else
      var k := FindMember(f.members, p[0].name);
      if k.None? then None
      else
        var m, w := f.members[k.value].format, v.fields[k.value];
        match p[0]
        case Field(_) =>
          var r := Set(m, w, p[1..], x);
          if r.None? then None else Some(Rec(v.fields[k.value := r.value]))
        case Item(_, i) =>
          if !m.ArrayF? || !w.Arr? || i >= |w.elems| then None
          else
            var r := Set(m.elem, w.elems[i], p[1..], x);
            if r.None? then None else Some(Rec(v.fields[k.value := Arr(w.elems[i := r.value])]))
  }

  /** Neither path passes through the position the other addresses. */
  predicate Disjoint(p: Path, q: Path) {
    && p != [] && q != []
    && if p[0] == q[0] then Disjoint(p[1..], q[1..])
       else p[0].name != q[0].name || (p[0].Item? && q[0].Item?)
  }

  // ---------------------------------------------------------------- lens laws

  /** A successful write is read back. */
  lemma {:induction false} SetGet(f: Format, v: Value, p: Path, x: Value)
    requires Set(f, v, p, x).Some?
    ensures Get(f, Set(f, v, p, x).value, p) == Some(x)
    decreases |p|
  {
    if p != [] {
      var k := FindMember(f.members, p[0].name).value;
      var m, w := f.members[k].format, v.fields[k];
      match p[0]
      case Field(_) => SetGet(m, w, p[1..], x);
      case Item(_, i) => SetGet(m.elem, w.elems[i], p[1..], x);
    }
  }

  /** A write leaves every disjoint position as it was. */
  lemma {:induction false} SetFrame(f: Format, v: Value, p: Path, q: Path, x: Value)
    requires Disjoint(p, q) && Set(f, v, p, x).Some?
    ensures Get(f, Set(f, v, p, x).value, q) == Get(f, v, q)
    decreases |p|
  {
    if p[0] == q[0] {
      var k := FindMember(f.members, p[0].name).value;
      var m, w := f.members[k].format, v.fields[k];
      match p[0]
      case Field(_) => SetFrame(m, w, p[1..], q[1..], x);
      case Item(_, i) => SetFrame(m.elem, w.elems[i], p[1..], q[1..], x);
    }
  }

  // ------------------------------------------------------ which subknobs exist

  /** The part of FormatOk that addressing relies on. */
  predicate Addressable(f: Format) {
    match f
    case ArrayF(e, _) => !e.ArrayF? && Addressable(e)
    case StructF(_, ms) => UniqueNames(ms) && forall i :: 0 <= i < |ms| ==> Addressable(ms[i].format)
    case _ => true
  }

  lemma {:induction false} FormatOkAddressable(f: Format)
    requires FormatOk(f)
    ensures Addressable(f)
  {
    match f
    case ArrayF(e, _) => FormatOkAddressable(e);
    case StructF(_, ms) =>
      forall i | 0 <= i < |ms| ensures Addressable(ms[i].format) {
        assert MemberOk(ms[i]);
        FormatOkAddressable(ms[i].format);
      }
    case _ =>
  }

  lemma FindUnique(ms: seq<Member>, i: nat)
    requires i < |ms| && UniqueNames(ms)
    ensures FindMember(ms, ms[i].name) == Some(i)
  {
    var r := FindMember(ms, ms[i].name);
    assert ms[i] in ms && r.Some?;
  }

  lemma {:induction false} InMembers(ms: seq<Member>, sk: SubKnob)
    ensures sk in MembersSubKnobs(ms) <==> exists i :: 0 <= i < |ms| && sk in MemberSubKnobs(ms[i])
    decreases |ms|
  {
    if ms != [] {
      InMembers(ms[1..], sk);
      if sk in MembersSubKnobs(ms[1..]) {
        var i :| 0 <= i < |ms| - 1 && sk in MemberSubKnobs(ms[1..][i]);
        assert sk in MemberSubKnobs(ms[i + 1]);
      }
      if i :| 0 <= i < |ms| && sk in MemberSubKnobs(ms[i]) {
        if i > 0 {
          assert sk in MemberSubKnobs(ms[1..][i - 1]);
        }
      }
    }
  }

  lemma {:induction false} InItems(name: string, sks: seq<SubKnob>, n: nat, sk: SubKnob)
    ensures sk in ItemsSubKnobs(name, sks, n) <==> exists i :: 0 <= i < n && sk in Under(Item(name, i), sks)
  {
    if n > 0 {
      InItems(name, sks, n - 1, sk);
    }
  }

  lemma InUnder(st: Step, sks: seq<SubKnob>, sk: SubKnob)
    ensures sk in Under(st, sks) <==>
            sk.path != [] && sk.path[0] == st && sk.(path := sk.path[1..]) in sks
  {
    var us := Under(st, sks);
    if sk in us {
      var i :| 0 <= i < |us| && us[i] == sk;
      assert sk.path[1..] == sks[i].path;
    }
    if sk.path != [] && sk.path[0] == st && sk.(path := sk.path[1..]) in sks {
      var i :| 0 <= i < |sks| && sks[i] == sk.(path := sk.path[1..]);
      assert us[i].path == [st] + sk.path[1..] == sk.path;
    }
  }

  function Tail(sk: SubKnob): SubKnob
    requires sk.path != []
  {
    sk.(path := sk.path[1..])
  }

  /** A subknob below the root lies in one member: at the member, or further below it. */
  lemma InMember(m: Member, sk: SubKnob)
    requires sk in MemberSubKnobs(m)
    ensures sk.path != [] && sk.path[0].name == m.name
    ensures !m.format.ArrayF? ==> sk.path[0] == Field(m.name) && Tail(sk) in SubKnobs(m.format)
    ensures m.format.ArrayF? && sk.path[0].Field? ==> sk.path == [Field(m.name)] && sk.format == m.format && !sk.leaf
    ensures m.format.ArrayF? && sk.path[0].Item? ==>
              sk.path[0].index < m.format.count && Tail(sk) in SubKnobs(m.format.elem)
  {
    match m.format
    case ArrayF(e, n) =>
      InItems(m.name, SubKnobs(e), n, sk);
      if sk != SubKnob([Field(m.name)], m.format, false) {
        var i :| 0 <= i < n && sk in Under(Item(m.name, i), SubKnobs(e));
        InUnder(Item(m.name, i), SubKnobs(e), sk);
      }
    case _ => InUnder(Field(m.name), SubKnobs(m.format), sk);
  }

  lemma FieldSubKnob(f: Format, k: nat, sk: SubKnob)
    requires f.StructF? && k < |f.members| && !f.members[k].format.ArrayF? && sk in SubKnobs(f.members[k].format)
    ensures sk.(path := [Field(f.members[k].name)] + sk.path) in SubKnobs(f)
  {
    var m := f.members[k];
    var up := sk.(path := [Field(m.name)] + sk.path);
    assert up.path[1..] == sk.path;
    InUnder(Field(m.name), SubKnobs(m.format), up);
    assert up in MemberSubKnobs(m);
    InMembers(f.members, up);
  }

  lemma ItemSubKnob(f: Format, k: nat, i: nat, sk: SubKnob)
    requires f.StructF? && k < |f.members| && f.members[k].format.ArrayF?
    requires i < f.members[k].format.count && sk in SubKnobs(f.members[k].format.elem)
    ensures sk.(path := [Item(f.members[k].name, i)] + sk.path) in SubKnobs(f)
  {
    var m := f.members[k];
    var up := sk.(path := [Item(m.name, i)] + sk.path);
    assert up.path[1..] == sk.path;
    InUnder(Item(m.name, i), SubKnobs(m.format.elem), up);
    InItems(m.name, SubKnobs(m.format.elem), m.format.count, up);
    assert up in MemberSubKnobs(m);
    InMembers(f.members, up);
  }

  /** The format one step down: of the member, or of its elements. */
  function Below(m: Member): Format {
    if m.format.ArrayF? then m.format.elem else m.format
  }

  /** The member a subknob other than the root lies in. */
  lemma Locate(f: Format, sk: SubKnob) returns (k: nat)
    requires Addressable(f) && f.StructF? && sk in SubKnobs(f) && sk != SubKnob([], f, false)
    ensures k < |f.members| && sk.path != [] && FindMember(f.members, sk.path[0].name) == Some(k)
    ensures Addressable(Below(f.members[k])) && Below(f.members[k]) < f && !Below(f.members[k]).ArrayF?
    ensures var m := f.members[k];
            if m.format.ArrayF? && sk.path[0].Field?
            then sk == SubKnob([Field(m.name)], m.format, false)
            else Tail(sk) in SubKnobs(Below(m)) && (sk.path[0].Item? <==> m.format.ArrayF?)
                 && (sk.path[0].Item? ==> sk.path[0].index < m.format.count)
  {
    InMembers(f.members, sk);
    k :| 0 <= k < |f.members| && sk in MemberSubKnobs(f.members[k]);
    InMember(f.members[k], sk);
    FindUnique(f.members, k);
    assert Addressable(f.members[k].format);
  }

  /** Every subknob can be read in every well-shaped value, and what it reads has its format. */
  lemma {:induction false} SubKnobReadable(f: Format, v: Value, sk: SubKnob)
    requires Addressable(f) && Shaped(f, v) && sk in SubKnobs(f)
    ensures Get(f, v, sk.path).Some? && Shaped(sk.format, Get(f, v, sk.path).value)
    decreases f
  {
    if f.StructF? && sk != SubKnob([], f, false) {
      var k := Locate(f, sk);
      var m, w := f.members[k], v.fields[k];
      assert Shaped(m.format, w);
      if !m.format.ArrayF? {
        SubKnobReadable(m.format, w, Tail(sk));
      } else if sk.path[0].Item? {
        assert w.elems[sk.path[0].index] in w.elems;
        SubKnobReadable(m.format.elem, w.elems[sk.path[0].index], Tail(sk));
      } else {
        assert sk.path[1..] == [];
      }
    }
  }

  /** Every place of a value that a path reads is a subknob. */
  lemma {:induction false} ReadableIsSubKnob(f: Format, v: Value, p: Path) returns (sk: SubKnob)
    requires Addressable(f) && !f.ArrayF? && Shaped(f, v) && Get(f, v, p).Some?
    ensures sk in SubKnobs(f) && sk.path == p
    decreases |p|
  {
    hide SubKnobs;
    if p == [] {
      sk := RootListed(f);
    } else {
      var k := FindMember(f.members, p[0].name).value;
      var m, w := f.members[k], v.fields[k];
      assert Shaped(m.format, w) && Addressable(m.format);
      assert p == [p[0]] + p[1..];
      if p[0].Item? {
        assert w.elems[p[0].index] in w.elems;
        sk := ReadableIsSubKnob(m.format.elem, w.elems[p[0].index], p[1..]);
        ItemSubKnob(f, k, p[0].index, sk);
        sk := sk.(path := p);
      } else if m.format.ArrayF? {
        ArraySubKnob(f, k);
        sk := SubKnob([Field(m.name)], m.format, false);
      } else {
        sk := ReadableIsSubKnob(m.format, w, p[1..]);
        FieldSubKnob(f, k, sk);
        sk := sk.(path := p);
      }
    }
  }

  lemma RootListed(f: Format) returns (sk: SubKnob)
    ensures sk in SubKnobs(f) && sk.path == []
  {
    sk := SubKnob([], f, !f.StructF?);
  }

  lemma ArraySubKnob(f: Format, k: nat)
    requires f.StructF? && k < |f.members| && f.members[k].format.ArrayF?
    ensures SubKnob([Field(f.members[k].name)], f.members[k].format, false) in SubKnobs(f)
  {
    var m := f.members[k];
    var sk := SubKnob([Field(m.name)], m.format, false);
    assert sk in MemberSubKnobs(m);
    InMembers(f.members, sk);
  }

  /** The generated subknobs are exactly the places of a value that a path reads. */
  lemma SubKnobsExact(f: Format, v: Value, p: Path)
    requires Addressable(f) && !f.ArrayF? && Shaped(f, v)
    ensures Get(f, v, p).Some? <==> exists sk <- SubKnobs(f) :: sk.path == p
  {
    hide SubKnobs, Get;
    if Get(f, v, p).Some? {
      var sk := ReadableIsSubKnob(f, v, p);
    }
    if sk :| sk in SubKnobs(f) && sk.path == p {
      SubKnobReadable(f, v, sk);
    }
  }

  /** A leaf is an integer, a bool or an enum. */
  lemma {:induction false} LeafFormat(f: Format, sk: SubKnob)
    requires Addressable(f) && !f.ArrayF? && sk in SubKnobs(f)
    ensures sk.leaf <==> !sk.format.StructF? && !sk.format.ArrayF?
    decreases f
  {
    if f.StructF? && sk != SubKnob([], f, false) {
      var k := Locate(f, sk);
      if !(f.members[k].format.ArrayF? && sk.path[0].Field?) {
        LeafFormat(Below(f.members[k]), Tail(sk));
      }
    }
  }

  lemma {:induction false} SubKnobFormatOk(f: Format, sk: SubKnob)
    requires FormatOk(f) && sk in SubKnobs(f)
    ensures FormatOk(sk.format)
    decreases f
  {
    if f.StructF? && sk != SubKnob([], f, false) {
      FormatOkAddressable(f);
      var k := Locate(f, sk);
      var m := f.members[k];
      assert MemberOk(m);
      assert FormatOk(m.format) && FormatOk(Below(m));
      if !(m.format.ArrayF? && sk.path[0].Field?) {
        SubKnobFormatOk(Below(f.members[k]), Tail(sk));
      }
    }
  }

  /** Leaf paths: no two different leaves overlap, so writing one leaf cannot disturb another. */
  lemma {:induction false} LeavesDisjoint(f: Format, a: SubKnob, b: SubKnob)
    requires Addressable(f) && a in SubKnobs(f) && b in SubKnobs(f) && a.leaf && b.leaf
    requires a.path != b.path
    ensures Disjoint(a.path, b.path)
    decreases f
  {
    if f.StructF? {
      var i := Locate(f, a);
      var j := Locate(f, b);
      if i == j && a.path[0] == b.path[0] {
        assert a.path == [a.path[0]] + a.path[1..] && b.path == [b.path[0]] + b.path[1..];
        LeavesDisjoint(Below(f.members[i]), Tail(a), Tail(b));
      }
    }
  }

  /** The path identifies the subknob. */
  lemma {:induction false} SubKnobAtPath(f: Format, a: SubKnob, b: SubKnob)
    requires Addressable(f) && a in SubKnobs(f) && b in SubKnobs(f) && a.path == b.path
    ensures a == b
    decreases f
  {
    var root := SubKnob([], f, false);
    if f.StructF? && a != root && b != root {
      var i := Locate(f, a);
      var j := Locate(f, b);
      if !(f.members[i].format.ArrayF? && a.path[0].Field?) {
        SubKnobAtPath(Below(f.members[i]), Tail(a), Tail(b));
      }
    } else if f.StructF? && a != root {
      var i := Locate(f, a);
    } else if f.StructF? && b != root {
      var i := Locate(f, b);
    }
  }

  /** Only a struct has subknobs below its root. */
  lemma RootOnly(f: Format)
    ensures forall sk <- SubKnobs(f) :: sk.path != [] ==> f.StructF?
  {}

  lemma RootSubKnob(f: Format, sk: SubKnob)
    requires Addressable(f) && sk in SubKnobs(f) && sk.path == []
    ensures sk.format == f
  {
    if f.StructF? && sk != SubKnob([], f, false) {
      var k := Locate(f, sk);
    }
  }

  /** Writing a well-shaped value at a subknob keeps the whole value well shaped. */
  lemma {:induction false} SetShaped(f: Format, v: Value, sk: SubKnob, x: Value)
    requires Addressable(f) && Shaped(f, v) && sk in SubKnobs(f) && Shaped(sk.format, x)
    ensures Set(f, v, sk.path, x).Some? && Shaped(f, Set(f, v, sk.path, x).value)
    decreases f
  {
    hide SubKnobs, FindMember;
    if sk.path == [] {
      RootSubKnob(f, sk);
    } else {
      RootOnly(f);
      var k := Locate(f, sk);
      var m, w := f.members[k], v.fields[k];
      assert Shaped(m.format, w);
      if !m.format.ArrayF? {
        SetShaped(m.format, w, Tail(sk), x);
      } else if sk.path[0].Item? {
        assert w.elems[sk.path[0].index] in w.elems;
        SetShaped(m.format.elem, w.elems[sk.path[0].index], Tail(sk), x);
      } else {
        assert sk.path[1..] == [];
      }
    }
  }

  /** Every subknob of a well-shaped value can be read and written, and writing what is there changes nothing. */
  lemma {:induction false} GetSet(f: Format, v: Value, sk: SubKnob, x: Value)
    requires Addressable(f) && Shaped(f, v) && sk in SubKnobs(f)
    ensures Get(f, v, sk.path).Some? && Set(f, v, sk.path, x).Some?
    ensures Get(f, v, sk.path) == Some(x) ==> Set(f, v, sk.path, x) == Some(v)
    decreases f
  {
    if f.StructF? && sk != SubKnob([], f, false) {
      var k := Locate(f, sk);
      var m, w := f.members[k], v.fields[k];
      assert Shaped(m.format, w);
      assert v.fields[k := w] == v.fields;
      if !m.format.ArrayF? {
        GetSet(m.format, w, Tail(sk), x);
      } else if sk.path[0].Item? {
        var i := sk.path[0].index;
        assert w.elems[i] in w.elems;
        GetSet(m.format.elem, w.elems[i], Tail(sk), x);
        assert w.elems[i := w.elems[i]] == w.elems;
      } else {
        assert sk.path[1..] == [];
      }
    }
  }

  // -------------------------------------------------------- no path appears twice

  predicate DistinctPaths(sks: seq<SubKnob>) {
    forall i, j :: 0 <= i < j < |sks| ==> sks[i].path != sks[j].path
  }

  lemma DistinctConcat(a: seq<SubKnob>, b: seq<SubKnob>)
    requires DistinctPaths(a) && DistinctPaths(b)
    requires forall x, y | x in a && y in b :: x.path != y.path
    ensures DistinctPaths(a + b)
  {
    forall i, j | 0 <= i < j < |a + b| ensures (a + b)[i].path != (a + b)[j].path {
      if i < |a| <= j {
        assert a[i] in a && b[j - |a|] in b;
      }
    }
  }

  lemma DistinctUnder(st: Step, sks: seq<SubKnob>)
    requires DistinctPaths(sks)
    ensures DistinctPaths(Under(st, sks))
  {
    var us := Under(st, sks);
    forall i, j | 0 <= i < j < |us| ensures us[i].path != us[j].path {
      assert us[i].path[1..] == sks[i].path && us[j].path[1..] == sks[j].path;
    }
  }

  lemma {:induction false} DistinctItems(name: string, sks: seq<SubKnob>, n: nat)
    requires DistinctPaths(sks)
    ensures DistinctPaths(ItemsSubKnobs(name, sks, n))
  {
    if n > 0 {
      DistinctItems(name, sks, n - 1);
      DistinctUnder(Item(name, n - 1), sks);
      var a, b := ItemsSubKnobs(name, sks, n - 1), Under(Item(name, n - 1), sks);
      forall x, y | x in a && y in b ensures x.path != y.path {
        InItems(name, sks, n - 1, x);
        var i :| 0 <= i < n - 1 && x in Under(Item(name, i), sks);
        InUnder(Item(name, i), sks, x);
        InUnder(Item(name, n - 1), sks, y);
      }
      DistinctConcat(a, b);
    }
  }

  lemma {:induction false} DistinctMembers(ms: seq<Member>)
    requires UniqueNames(ms) && forall i :: 0 <= i < |ms| ==> DistinctPaths(MemberSubKnobs(ms[i]))
    ensures DistinctPaths(MembersSubKnobs(ms))
    decreases |ms|
  {
    hide MemberSubKnobs, DistinctPaths;
    if ms == [] {
      DistinctNone();
    } else {
      DistinctMembers(ms[1..]);
      var a, b := MemberSubKnobs(ms[0]), MembersSubKnobs(ms[1..]);
      forall x, y | x in a && y in b ensures x.path != y.path {
        InMember(ms[0], x);
        InMembers(ms[1..], y);
        var i :| 0 <= i < |ms| - 1 && y in MemberSubKnobs(ms[1..][i]);
        InMember(ms[1..][i], y);
        assert ms[1..][i] == ms[i + 1];
      }
      DistinctConcat(a, b);
    }
  }

  lemma DistinctNone()
    ensures DistinctPaths([])
  {}

  /** The subknobs of a format have pairwise distinct paths. */
  lemma {:induction false} SubKnobsDistinct(f: Format)
    requires Addressable(f)
    ensures DistinctPaths(SubKnobs(f))
    decreases f
  {
    if f.StructF? {
      var ms := f.members;
      forall i | 0 <= i < |ms| ensures DistinctPaths(MemberSubKnobs(ms[i])) {
        assert Addressable(ms[i].format);
        MemberDistinct(ms[i]);
      }
      DistinctMembers(ms);
      var root := [SubKnob([], f, false)];
      forall x, y | x in root && y in MembersSubKnobs(ms) ensures x.path != y.path {
        InMembers(ms, y);
        var i :| 0 <= i < |ms| && y in MemberSubKnobs(ms[i]);
        InMember(ms[i], y);
      }
      DistinctConcat(root, MembersSubKnobs(ms));
    }
  }

  lemma {:induction false} MemberDistinct(m: Member)
    requires Addressable(m.format)
    ensures DistinctPaths(MemberSubKnobs(m))
    decreases m
  {
    match m.format
    case ArrayF(e, n) =>
      SubKnobsDistinct(e);
      DistinctItems(m.name, SubKnobs(e), n);
      var self, items := [SubKnob([Field(m.name)], m.format, false)], ItemsSubKnobs(m.name, SubKnobs(e), n);
      forall x, y | x in self && y in items ensures x.path != y.path {
        InItems(m.name, SubKnobs(e), n, y);
        var i :| 0 <= i < n && y in Under(Item(m.name, i), SubKnobs(e));
        InUnder(Item(m.name, i), SubKnobs(e), y);
      }
      DistinctConcat(self, items);
    case _ =>
      SubKnobsDistinct(m.format);
      DistinctUnder(Field(m.name), SubKnobs(m.format));
  }
}
