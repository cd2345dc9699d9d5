/**
 Object graphs that hold values of a format: one format per container, one content per
 identity. Deep copies and in-place assignments keep both, sharing included.
 */
module ObjectTypes {
  import opened Bytes
  import opened Formats
  import opened Paths
  import opened Sharing

  /** The format of each container. */
  type Typing = map<Id, Format>

  function Arity(f: Format): nat {
    match f
    case ArrayF(_, n) => n
    case StructF(_, ms) => |ms|
    case _ => 0
  }

  function KidFormat(f: Format, i: nat): Format
    requires i < Arity(f)
  {
    match f
    case ArrayF(e, _) => e
    case StructF(_, ms) => ms[i].format
  }

  /** The object holds a value of the format, and each of its containers has its one format. */
  predicate Typed(ts: Typing, f: Format, o: Obj)
    decreases o
  {
    match o
    case Scalar(v) => !f.ArrayF? && !f.StructF? && Shaped(f, v)
    case Node(id, isList, kids) =>
      && id in ts && ts[id] == f && (f.ArrayF? || f.StructF?) && isList == f.ArrayF?
      && |kids| == Arity(f) && forall i :: 0 <= i < |kids| ==> Typed(ts, KidFormat(f, i), kids[i])
  }

  /** A Python object of the format: some typing fits, and one identity is one object. */
  ghost predicate Sound(f: Format, o: Obj) {
    Consistent(o) && exists ts :: Typed(ts, f, o)
  }

  lemma {:induction false} TypedShaped(ts: Typing, f: Format, o: Obj)
    requires Typed(ts, f, o)
    ensures Shaped(f, Erase(o))
  {
    if o.Node? {
      forall i | 0 <= i < |o.kids| ensures Shaped(KidFormat(f, i), Erase(o.kids[i])) {
        TypedShaped(ts, KidFormat(f, i), o.kids[i]);
      }
    }
  }

  lemma {:induction false} TypedMore(ts: Typing, more: Typing, f: Format, o: Obj)
    requires Typed(ts, f, o) && forall id :: id in ts ==> id in more && more[id] == ts[id]
    ensures Typed(more, f, o)
  {
    if o.Node? {
      forall i | 0 <= i < |o.kids| ensures Typed(more, KidFormat(f, i), o.kids[i]) {
        TypedMore(ts, more, KidFormat(f, i), o.kids[i]);
      }
    }
  }

  /** Assigning an object of the slot's format keeps the format of every container. */
  lemma {:induction false} AssignTyped(ts: Typing, f: Format, o: Obj, id: Id, slot: nat, x: Obj)
    requires Typed(ts, f, o) && id in ts && slot < Arity(ts[id]) && Typed(ts, KidFormat(ts[id], slot), x)
    ensures Typed(ts, f, Assign(o, id, slot, x))
    decreases o
  {
    if o.Node? {
      forall i | 0 <= i < |o.kids| ensures Typed(ts, KidFormat(f, i), Assign(o.kids[i], id, slot, x)) {
        AssignTyped(ts, KidFormat(f, i), o.kids[i], id, slot, x);
      }
    }
  }

  // ------------------------------------------------------------ one object per identity

  /** What is found in the object after an assignment: an assigned part of it, or a part of the new object. */
  lemma {:induction false} AssignAt(o: Obj, id: Id, slot: nat, x: Obj, p: seq<nat>)
    requires ObjAt(Assign(o, id, slot, x), p).Some?
    ensures var found := ObjAt(Assign(o, id, slot, x), p).value;
            || (ObjAt(o, p).Some? && found == Assign(ObjAt(o, p).value, id, slot, x))
            || exists q :: ObjAt(x, q) == Some(found)
    decreases |p|
  {
    if p != [] {
      var r := Assign(o, id, slot, x);
      assert ObjAt(r, p) == ObjAt(r.kids[p[0]], p[1..]);
      if o.id == id && p[0] == slot {
        assert r.kids[slot] == x;
        assert ObjAt(x, p[1..]) == Some(ObjAt(r, p).value);
      } else {
        AssignAt(o.kids[p[0]], id, slot, x, p[1..]);
      }
    }
  }

  /** No container of one is a container of the other. */
  ghost predicate Apart(o: Obj, x: Obj) {
    forall p, q, id :: !(IsNodeAt(o, p, id) && IsNodeAt(x, q, id))
  }

  lemma AssignNodeAt(o: Obj, id: Id, slot: nat, x: Obj, p: seq<nat>, i: Id)
    requires IsNodeAt(Assign(o, id, slot, x), p, i)
    ensures var r := Assign(o, id, slot, x);
            || (IsNodeAt(o, p, i) && ObjAt(r, p) == Some(Assign(ObjAt(o, p).value, id, slot, x)))
            || exists q :: IsNodeAt(x, q, i) && ObjAt(x, q) == ObjAt(r, p)
  {
    hide ObjAt;
    AssignAt(o, id, slot, x, p);
    var found := ObjAt(Assign(o, id, slot, x), p).value;
    if q :| ObjAt(x, q) == Some(found) {
      assert IsNodeAt(x, q, i);
    }
  }

  lemma AssignConsistent(o: Obj, id: Id, slot: nat, x: Obj)
    requires Consistent(o) && Consistent(x) && Apart(o, x)
    ensures Consistent(Assign(o, id, slot, x))
  {
    hide ObjAt, IsNodeAt, Assign;
    var r := Assign(o, id, slot, x);
    forall p, q, i | IsNodeAt(r, p, i) && IsNodeAt(r, q, i) ensures ObjAt(r, p) == ObjAt(r, q) {
      AssignNodeAt(o, id, slot, x, p, i);
      AssignNodeAt(o, id, slot, x, q, i);
    }
  }

  // ----------------------------------------------------------------------- deepcopy

  /** A copy whose containers are new objects, shared as in the original. */
  function Copy(tag: nat, o: Obj): Obj {
    match o
    case Scalar(_) => o
    case Node(id, isList, kids) =>
      Node(Copied(tag, id), isList, seq(|kids|, i requires 0 <= i < |kids| => Copy(tag, kids[i])))
  }

  lemma {:induction false} CopyErases(tag: nat, o: Obj)
    ensures Erase(Copy(tag, o)) == Erase(o)
  {
    if o.Node? {
      forall i | 0 <= i < |o.kids| ensures Erase(Copy(tag, o.kids[i])) == Erase(o.kids[i]) {
        CopyErases(tag, o.kids[i]);
      }
      assert Kids(Erase(Copy(tag, o))) == Kids(Erase(o));
    }
  }

  lemma {:induction false} CopyAt(tag: nat, o: Obj, p: seq<nat>)
    ensures ObjAt(Copy(tag, o), p) == if ObjAt(o, p).None? then None else Some(Copy(tag, ObjAt(o, p).value))
    decreases |p|
  {
    if p != [] && o.Node? && p[0] < |o.kids| {
      CopyAt(tag, o.kids[p[0]], p[1..]);
    }
  }

  lemma CopyNodeAt(tag: nat, o: Obj, p: seq<nat>, id: Id)
    ensures IsNodeAt(Copy(tag, o), p, id) <==> id.Copied? && id.tag == tag && IsNodeAt(o, p, id.of)
  {
    CopyAt(tag, o, p);
  }

  lemma CopyConsistent(tag: nat, o: Obj)
    requires Consistent(o)
    ensures Consistent(Copy(tag, o))
  {
    hide ObjAt, IsNodeAt, Copy;
    forall p, q, id | IsNodeAt(Copy(tag, o), p, id) && IsNodeAt(Copy(tag, o), q, id)
      ensures ObjAt(Copy(tag, o), p) == ObjAt(Copy(tag, o), q)
    {
      CopyNodeAt(tag, o, p, id);
      CopyNodeAt(tag, o, q, id);
      CopyAt(tag, o, p);
      CopyAt(tag, o, q);
    }
  }

  lemma CopiesApart(o: Obj, x: Obj)
    ensures Apart(Copy(0, o), Copy(1, x))
  {
    hide IsNodeAt, Copy;
    forall p, q, id ensures !(IsNodeAt(Copy(0, o), p, id) && IsNodeAt(Copy(1, x), q, id)) {
      CopyNodeAt(0, o, p, id);
      CopyNodeAt(1, x, q, id);
    }
  }

  /** The copies of two typed objects, typed together. */
  function BothTyped(a: Typing, b: Typing): (ts: Typing)
    ensures forall id :: id in a ==> Copied(0, id) in ts && ts[Copied(0, id)] == a[id]
    ensures forall id :: id in b ==> Copied(1, id) in ts && ts[Copied(1, id)] == b[id]
  {
    var left: Typing := map id | id in Tags(0, a.Keys) :: a[id.of];
    var right: Typing := map id | id in Tags(1, b.Keys) :: b[id.of];
    left + right
  }

  function Tags(tag: nat, ids: set<Id>): (r: set<Id>)
    ensures forall id :: id in ids ==> Copied(tag, id) in r
    ensures forall id :: id in r ==> id.Copied? && id.tag == tag && id.of in ids
  {
    set id | id in ids :: Copied(tag, id)
  }

  lemma {:induction false} CopyTyped(tag: nat, a: Typing, ts: Typing, f: Format, o: Obj)
    requires Typed(a, f, o) && forall id :: id in a ==> Copied(tag, id) in ts && ts[Copied(tag, id)] == a[id]
    ensures Typed(ts, f, Copy(tag, o))
  {
    if o.Node? {
      forall i | 0 <= i < |o.kids| ensures Typed(ts, KidFormat(f, i), Copy(tag, o.kids[i])) {
        CopyTyped(tag, a, ts, KidFormat(f, i), o.kids[i]);
      }
    }
  }

  // ----------------------------------------------------------------- positions, typed

  function FormatAt(f: Format, p: seq<nat>): Option<Format>
    decreases |p|
  {
    if p == [] then Some(f) else if p[0] >= Arity(f) then None else FormatAt(KidFormat(f, p[0]), p[1..])
  }

  lemma {:induction false} TypedAt(ts: Typing, f: Format, o: Obj, p: seq<nat>)
    requires Typed(ts, f, o) && FormatAt(f, p).Some?
    ensures ObjAt(o, p).Some? && Typed(ts, FormatAt(f, p).value, ObjAt(o, p).value)
    decreases |p|
  {
    if p != [] {
      TypedAt(ts, KidFormat(f, p[0]), o.kids[p[0]], p[1..]);
    }
  }

  lemma {:induction false} FormatAtFront(f: Format, p: seq<nat>)
    requires p != [] && FormatAt(f, p).Some?
    ensures FormatAt(f, Front(p)).Some? && Last(p) < Arity(FormatAt(f, Front(p)).value)
    ensures FormatAt(f, p) == Some(KidFormat(FormatAt(f, Front(p)).value, Last(p)))
    decreases |p|
  {
    if |p| > 1 {
      FormatAtFront(KidFormat(f, p[0]), p[1..]);
      assert Front(p)[1..] == Front(p[1..]);
    }
  }

  lemma FormatAtCons(f: Format, k: nat, rest: seq<nat>)
    requires k < Arity(f)
    ensures FormatAt(f, [k] + rest) == FormatAt(KidFormat(f, k), rest)
  {
    assert ([k] + rest)[1..] == rest;
  }

  /** The path of a subknob leads to a position of the subknob's format. */
  lemma {:induction false} SubKnobPositions(f: Format, sk: SubKnob)
    requires Addressable(f) && sk in SubKnobs(f)
    ensures Positions(f, sk.path).Some? && FormatAt(f, Positions(f, sk.path).value) == Some(sk.format)
    ensures sk.path != [] ==> Positions(f, sk.path).value != []
    decreases f
  {
    hide FormatAt, FindMember, SubKnobs;
    if sk.path == [] {
      RootSubKnob(f, sk);
      FormatAtNone(f);
    } else {
      RootOnly(f);
      var k := Locate(f, sk);
      var m := f.members[k];
      if !m.format.ArrayF? {
        SubKnobPositions(m.format, Tail(sk));
        FormatAtCons(f, k, Positions(m.format, Tail(sk).path).value);
      } else if sk.path[0].Item? {
        SubKnobPositions(m.format.elem, Tail(sk));
        var rest := Positions(m.format.elem, Tail(sk).path).value;
        var i := sk.path[0].index;
        FormatAtCons(m.format, i, rest);
        FormatAtCons(f, k, [i] + rest);
        assert [k, i] + rest == [k] + ([i] + rest);
      } else {
        assert sk.path[1..] == [];
        FormatAtCons(f, k, []);
        FormatAtNone(m.format);
      }
    }
  }

  lemma FormatAtNone(f: Format)
    ensures FormatAt(f, []) == Some(f)
  {}

  /** Reading a path of names is reading at its positions. */
  lemma {:induction false} GetIsValueAt(f: Format, v: Value, p: Path)
    requires Get(f, v, p).Some?
    ensures Positions(f, p).Some? && ValueAt(v, Positions(f, p).value) == Get(f, v, p)
    decreases |p|
  {
    hide FindMember;
    if p != [] {
      var k := FindMember(f.members, p[0].name).value;
      var m, w := f.members[k].format, v.fields[k];
      match p[0]
      case Field(_) =>
        GetIsValueAt(m, w, p[1..]);
        var rest := Positions(m, p[1..]).value;
        assert ([k] + rest)[1..] == rest;
      case Item(_, i) =>
        GetIsValueAt(m.elem, w.elems[i], p[1..]);
        var rest := Positions(m.elem, p[1..]).value;
        assert ([k, i] + rest)[1..] == [i] + rest && ([i] + rest)[1..] == rest;
    }
  }

  // ---------------------------------------------------------------- freshly built values

  /** A value built with a new object for every container is a sound object. */
  lemma BuildSound(f: Format, v: Value)
    requires Shaped(f, v)
    ensures Sound(f, Build(v, [])) && Erase(Build(v, [])) == v
  {
    hide Build, ObjAt;
    BuildErases(v, []);
    var ts := BuildTyped(f, v, []);
    var o := Build(v, []);
    forall p, q, id | IsNodeAt(o, p, id) && IsNodeAt(o, q, id) ensures ObjAt(o, p) == ObjAt(o, q) {
      BuildIds(v, [], p);
      BuildIds(v, [], q);
      assert [] + p == p && [] + q == q;
    }
  }

  lemma {:induction false} BuildTyped(f: Format, v: Value, at: seq<nat>) returns (ts: Typing)
    requires Shaped(f, v)
    ensures Typed(ts, f, Build(v, at)) && forall id :: id in ts ==> id.New? && at <= id.at
    decreases v
  {
    ts := map[];
    if f.ArrayF? || f.StructF? {
      KidCount(f, v);
      ts := KidsTyped(f, v, at, |Kids(v)|);
      assert New(Here, at) !in ts;
      var all := ts[New(Here, at) := f];
      var o := Build(v, at);
      forall i | 0 <= i < |o.kids| ensures Typed(all, KidFormat(f, i), o.kids[i]) {
        TypedMore(ts, all, KidFormat(f, i), o.kids[i]);
      }
      ts := all;
    }
  }

  lemma KidShaped(f: Format, v: Value, i: nat)
    requires Shaped(f, v) && (f.ArrayF? || f.StructF?) && i < |Kids(v)|
    ensures i < Arity(f) && Shaped(KidFormat(f, i), Kids(v)[i]) && Kids(v)[i] < v
  {}

  lemma KidCount(f: Format, v: Value)
    requires Shaped(f, v) && (f.ArrayF? || f.StructF?)
    ensures |Kids(v)| == Arity(f)
  {}

  lemma {:induction false} KidsTyped(f: Format, v: Value, at: seq<nat>, n: nat) returns (ts: Typing)
    requires Shaped(f, v) && (f.ArrayF? || f.StructF?) && n <= |Kids(v)| == Arity(f)
    ensures forall i :: 0 <= i < n ==> Typed(ts, KidFormat(f, i), Build(Kids(v)[i], at + [i]))
    ensures forall id :: id in ts ==> id.New? && |id.at| > |at| && id.at[..|at|] == at && id.at[|at|] < n
    decreases v, n
  {
    hide Typed, Shaped, Build;
    ts := map[];
    if n > 0 {
      var i := n - 1;
      var before := KidsTyped(f, v, at, i);
      KidShaped(f, v, i);
      var own := BuildTyped(KidFormat(f, i), Kids(v)[i], at + [i]);
      forall id | id in own ensures |id.at| > |at| && id.at[..|at|] == at && id.at[|at|] == i {
        assert at + [i] <= id.at;
        assert id.at[..|at|] == (at + [i])[..|at|] == at;
      }
      ts := before + own;
      forall j | 0 <= j < n ensures Typed(ts, KidFormat(f, j), Build(Kids(v)[j], at + [j])) {
        if j < i {
          TypedMore(before, ts, KidFormat(f, j), Build(Kids(v)[j], at + [j]));
        } else {
          TypedMore(own, ts, KidFormat(f, j), Build(Kids(v)[j], at + [j]));
        }
      }
    }
  }

  // ------------------------------------------------------------------ repeated elements

  /** The list that an array default and a single-element text build: one sound object in every slot. */
  lemma RepeatedSound(e: Format, n: nat, o: Obj)
    requires Sound(e, o)
    ensures Sound(ArrayF(e, n), Repeated(Copied(1, New(Here, [])), n, Copy(0, o)))
  {
    hide ObjAt, IsNodeAt, Copy, Typed, Consistent;
    var root := Copied(1, New(Here, []));
    var ts :| Typed(ts, e, o);
    var all := BothTyped(ts, map[New(Here, []) := ArrayF(e, n)]);
    CopyTyped(0, ts, all, e, o);
    CopyConsistent(0, o);
    RepeatedTyped(root, all, e, n, Copy(0, o));
    forall p ensures !IsNodeAt(Copy(0, o), p, root) {
      CopyNodeAt(0, o, p, root);
    }
    RepeatedConsistent(root, n, Copy(0, o));
  }

  lemma RepeatedTyped(id: Id, ts: Typing, e: Format, n: nat, o: Obj)
    requires Typed(ts, e, o) && id in ts && ts[id] == ArrayF(e, n)
    ensures Typed(ts, ArrayF(e, n), Repeated(id, n, o))
  {}

  lemma RepeatedConsistent(id: Id, n: nat, o: Obj)
    requires Consistent(o) && forall p :: !IsNodeAt(o, p, id)
    ensures Consistent(Repeated(id, n, o))
  {
    hide ObjAt, IsNodeAt;
    var r := Repeated(id, n, o);
    forall p, q, i | IsNodeAt(r, p, i) && IsNodeAt(r, q, i) ensures ObjAt(r, p) == ObjAt(r, q) {
      RepeatedNodeAt(id, n, o, p, i);
      RepeatedNodeAt(id, n, o, q, i);
    }
  }

  lemma RepeatedNodeAt(id: Id, n: nat, o: Obj, p: seq<nat>, i: Id)
    requires IsNodeAt(Repeated(id, n, o), p, i)
    ensures p == [] ==> i == id
    ensures p != [] ==> IsNodeAt(o, p[1..], i) && ObjAt(Repeated(id, n, o), p) == ObjAt(o, p[1..])
  {}
}
