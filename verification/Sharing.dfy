/**
 Knob values as Python object graphs. A container may occur at several positions of a
 value (an array default repeats one child object, and deepcopy keeps such sharing), so
 the in-place assignment of _set_child_value writes every occurrence. This module says
 exactly when that is the plain tree update of module Paths.
 */
module Sharing {
  import opened Bytes
  import opened Formats
  import opened Paths

  /**
   Whose object a container belongs to: the value at hand; the default of member k of a struct,
   or of the struct itself; the default list of an array format, which member k of a struct owns
   or which is taken by itself.
   */
  datatype Home =
    | Here
    | MemberHome(s: Format, k: nat)
    | StructHome(s: Format)
    | ListHome(s: Format, k: nat)
    | LooseList(f: Format)

  /** The identity of a container: where in its home's object it was made, or what it is a copy of. */
  datatype Id = New(home: Home, at: seq<nat>) | Copied(tag: nat, of: Id)

  datatype Obj = Scalar(v: Value) | Node(id: Id, isList: bool, kids: seq<Obj>)

  /** The value, forgetting which containers are the same object. */
  function Erase(o: Obj): Value {
    match o
    case Scalar(v) => v
    case Node(_, isList, kids) =>
      var vs := seq(|kids|, i requires 0 <= i < |kids| => Erase(kids[i]));
      if isList then Arr(vs) else Rec(vs)
  }

  function Kids(v: Value): seq<Value> {
    match v
    case Arr(es) => es
    case Rec(fs) => fs
    case _ => []
  }

  function WithKids(v: Value, kids: seq<Value>): Value {
    if v.Arr? then Arr(kids) else Rec(kids)
  }

  function ObjAt(o: Obj, p: seq<nat>): Option<Obj>
    decreases |p|
  {
    if p == [] then Some(o)
    else if o.Scalar? || p[0] >= |o.kids| then None
    else ObjAt(o.kids[p[0]], p[1..])
  }

  function ValueAt(v: Value, p: seq<nat>): Option<Value>
    decreases |p|
  {
    if p == [] then Some(v) else if p[0] >= |Kids(v)| then None else ValueAt(Kids(v)[p[0]], p[1..])
  }

  /** The tree update. */
  function SetAt(v: Value, p: seq<nat>, x: Value): Value
    decreases |p|
  {
    if p == [] then x
    else if p[0] >= |Kids(v)| then v
    else WithKids(v, Kids(v)[p[0] := SetAt(Kids(v)[p[0]], p[1..], x)])
  }

  /** container[slot] = x, seen at every position where the container occurs. */
  function Assign(o: Obj, id: Id, slot: nat, x: Obj): Obj {
    match o
    case Scalar(_) => o
    case Node(i, isList, kids) =>
      var ks := seq(|kids|, j requires 0 <= j < |kids| => Assign(kids[j], id, slot, x));
      Node(i, isList, if i == id && slot < |ks| then ks[slot := x] else ks)
  }

  function Front(p: seq<nat>): seq<nat>
    requires p != []
  {
    p[..|p| - 1]
  }

  function Last(p: seq<nat>): nat
    requires p != []
  {
    p[|p| - 1]
  }

  /** A position that can be assigned: a slot of a container. */
  predicate Writable(o: Obj, p: seq<nat>) {
    p != [] && ObjAt(o, Front(p)).Some? && ObjAt(o, Front(p)).value.Node? && Last(p) < |ObjAt(o, Front(p)).value.kids|
  }

  /** _set_child_value after its path walk: assign in the container the walk ended in. */
  function Write(o: Obj, p: seq<nat>, x: Obj): Obj
    requires Writable(o, p)
  {
    Assign(o, ObjAt(o, Front(p)).value.id, Last(p), x)
  }

  predicate IsNodeAt(o: Obj, p: seq<nat>, id: Id) {
    var n := ObjAt(o, p);
    n.Some? && n.value.Node? && n.value.id == id
  }

  /** One object is one object: equal identities mean equal contents. */
  ghost predicate Consistent(o: Obj) {
    forall p, q, id :: IsNodeAt(o, p, id) && IsNodeAt(o, q, id) ==> ObjAt(o, p) == ObjAt(o, q)
  }

  /** The container written through p occurs nowhere else. */
  ghost predicate Unshared(o: Obj, p: seq<nat>)
    requires Writable(o, p)
  {
    forall q :: IsNodeAt(o, q, ObjAt(o, Front(p)).value.id) ==> q == Front(p)
  }

  // -------------------------------------------------------------- structural facts

  lemma {:induction false} ObjAtAppend(o: Obj, p: seq<nat>, q: seq<nat>)
    requires ObjAt(o, p).Some?
    ensures ObjAt(o, p + q) == ObjAt(ObjAt(o, p).value, q)
    decreases |p|
  {
    if p == [] {
      assert p + q == q;
    } else {
      assert (p + q)[1..] == p[1..] + q;
      ObjAtAppend(o.kids[p[0]], p[1..], q);
    }
  }

  lemma {:induction false} EraseAt(o: Obj, p: seq<nat>)
    requires ObjAt(o, p).Some?
    ensures ValueAt(Erase(o), p) == Some(Erase(ObjAt(o, p).value))
    decreases |p|
  {
    if p != [] {
      EraseAt(o.kids[p[0]], p[1..]);
    }
  }

  /** No container contains itself. */
  lemma {:induction false} ProperPart(o: Obj, p: seq<nat>)
    requires p != [] && ObjAt(o, p).Some?
    ensures ObjAt(o, p).value < o
    decreases |p|
  {
    if p[1..] != [] {
      ProperPart(o.kids[p[0]], p[1..]);
    }
  }

  /** Two positions of one object are never above one another. */
  lemma SamePositionsDiverge(o: Obj, p: seq<nat>, q: seq<nat>)
    requires ObjAt(o, p).Some? && ObjAt(o, p) == ObjAt(o, q) && p <= q
    ensures p == q
  {
    var rest := q[|p|..];
    assert q == p + rest;
    ObjAtAppend(o, p, rest);
    if rest != [] {
      ProperPart(ObjAt(o, p).value, rest);
    }
  }

  lemma ChildNode(o: Obj, j: nat, q: seq<nat>, id: Id)
    requires o.Node? && j < |o.kids| && IsNodeAt(o.kids[j], q, id)
    ensures IsNodeAt(o, [j] + q, id)
  {
    assert ([j] + q)[1..] == q;
  }

  // ------------------------------------------------------------- the write, exactly

  lemma {:induction false} AssignAbsent(o: Obj, id: Id, slot: nat, x: Obj)
    requires forall q :: !IsNodeAt(o, q, id)
    ensures Assign(o, id, slot, x) == o
  {
    if o.Node? {
      forall j | 0 <= j < |o.kids| ensures Assign(o.kids[j], id, slot, x) == o.kids[j] {
        forall q ensures !IsNodeAt(o.kids[j], q, id) {
          if IsNodeAt(o.kids[j], q, id) {
            ChildNode(o, j, q, id);
          }
        }
        AssignAbsent(o.kids[j], id, slot, x);
      }
      assert !IsNodeAt(o, [], id);
      assert seq(|o.kids|, j requires 0 <= j < |o.kids| => Assign(o.kids[j], id, slot, x)) == o.kids;
    }
  }

  /** A child off the path of the one occurrence is not touched. */
  lemma AssignElsewhere(o: Obj, c: seq<nat>, j: nat, id: Id, slot: nat, x: Obj)
    requires o.Node? && j < |o.kids| && (c == [] || j != c[0])
    requires forall q :: IsNodeAt(o, q, id) ==> q == c
    ensures Assign(o.kids[j], id, slot, x) == o.kids[j]
  {
    forall q ensures !IsNodeAt(o.kids[j], q, id) {
      if IsNodeAt(o.kids[j], q, id) {
        ChildNode(o, j, q, id);
      }
    }
    AssignAbsent(o.kids[j], id, slot, x);
  }

  lemma AssignHere(o: Obj, slot: nat, x: Obj)
    requires o.Node? && slot < |o.kids|
    requires forall j :: 0 <= j < |o.kids| ==> Assign(o.kids[j], o.id, slot, x) == o.kids[j]
    ensures Erase(Assign(o, o.id, slot, x)) == SetAt(Erase(o), [slot], Erase(x))
  {
    assert [slot][1..] == [];
    assert Kids(Erase(Assign(o, o.id, slot, x))) == Kids(Erase(o))[slot := Erase(x)];
  }

  /** If the container occurs at c only, the write is the tree update at that slot. */
  lemma {:induction false} AssignOnce(o: Obj, c: seq<nat>, slot: nat, x: Obj)
    requires ObjAt(o, c).Some? && ObjAt(o, c).value.Node? && slot < |ObjAt(o, c).value.kids|
    requires forall q :: IsNodeAt(o, q, ObjAt(o, c).value.id) ==> q == c
    ensures Erase(Assign(o, ObjAt(o, c).value.id, slot, x)) == SetAt(Erase(o), c + [slot], Erase(x))
    decreases |c|
  {
    hide Erase, Assign, SetAt;
    var id := ObjAt(o, c).value.id;
    forall j | 0 <= j < |o.kids| && (c == [] || j != c[0])
      ensures Assign(o.kids[j], id, slot, x) == o.kids[j]
    {
      AssignElsewhere(o, c, j, id, slot, x);
    }
    if c == [] {
      AssignHere(o, slot, x);
      assert c + [slot] == [slot];
    } else {
      OnlyBelow(o, c, id);
      AssignOnce(o.kids[c[0]], c[1..], slot, x);
      AssignBelow(o, c, id, slot, x);
    }
  }

  /** One step down the path the container still occurs at the rest of the path only. */
  lemma OnlyBelow(o: Obj, c: seq<nat>, id: Id)
    requires c != [] && o.Node? && c[0] < |o.kids|
    requires forall q :: IsNodeAt(o, q, id) ==> q == c
    ensures o.id != id && forall q :: IsNodeAt(o.kids[c[0]], q, id) ==> q == c[1..]
  {
    assert IsNodeAt(o, [], o.id);
    forall q | IsNodeAt(o.kids[c[0]], q, id) ensures q == c[1..] {
      ChildNode(o, c[0], q, id);
      assert ([c[0]] + q)[1..] == q;
    }
  }

  /** A write in one child is the tree update in that child. */
  lemma AssignBelow(o: Obj, c: seq<nat>, id: Id, slot: nat, x: Obj)
    requires c != [] && o.Node? && c[0] < |o.kids| && o.id != id
    requires forall j | 0 <= j < |o.kids| && j != c[0] :: Assign(o.kids[j], id, slot, x) == o.kids[j]
    requires Erase(Assign(o.kids[c[0]], id, slot, x)) == SetAt(Erase(o.kids[c[0]]), c[1..] + [slot], Erase(x))
    ensures Erase(Assign(o, id, slot, x)) == SetAt(Erase(o), c + [slot], Erase(x))
  {
    assert (c + [slot])[1..] == c[1..] + [slot] && (c + [slot])[0] == c[0];
    var below := SetAt(Erase(o.kids[c[0]]), c[1..] + [slot], Erase(x));
    assert Kids(Erase(Assign(o, id, slot, x))) == Kids(Erase(o))[c[0] := below];
  }

  /** A write shows at every position of its container. */
  lemma {:induction false} AssignShows(o: Obj, q: seq<nat>, id: Id, slot: nat, x: Obj)
    requires IsNodeAt(o, q, id) && slot < |ObjAt(o, q).value.kids|
    requires forall r :: r < q ==> !IsNodeAt(o, r, id)
    ensures ObjAt(Assign(o, id, slot, x), q + [slot]) == Some(x)
    decreases |q|
  {
    var a := Assign(o, id, slot, x);
    if q == [] {
      assert q + [slot] == [slot] && [slot][1..] == [];
      assert a.kids[slot] == x;
    } else {
      assert [] < q && !IsNodeAt(o, [], id);
      forall r | r < q[1..] ensures !IsNodeAt(o.kids[q[0]], r, id) {
        assert [q[0]] + r < q;
        if IsNodeAt(o.kids[q[0]], r, id) {
          ChildNode(o, q[0], r, id);
        }
      }
      AssignShows(o.kids[q[0]], q[1..], id, slot, x);
      assert (q + [slot])[1..] == q[1..] + [slot];
      assert a.kids[q[0]] == Assign(o.kids[q[0]], id, slot, x);
    }
  }

  /** The tree update leaves positions that diverge from its own as they were. */
  lemma {:induction false} SetAtFrame(v: Value, p: seq<nat>, q: seq<nat>, x: Value)
    requires !(p <= q) && !(q <= p)
    ensures ValueAt(SetAt(v, p, x), q) == ValueAt(v, q)
    decreases |p|
  {
    if p[0] < |Kids(v)| && p[0] == q[0] {
      assert p == [p[0]] + p[1..] && q == [q[0]] + q[1..];
      SetAtFrame(Kids(v)[p[0]], p[1..], q[1..], x);
    }
  }

  lemma NoNodeAbove(o: Obj, q: seq<nat>, id: Id)
    requires Consistent(o) && IsNodeAt(o, q, id)
    ensures forall r :: r < q ==> !IsNodeAt(o, r, id)
  {
    forall r | r < q ensures !IsNodeAt(o, r, id) {
      if IsNodeAt(o, r, id) {
        SamePositionsDiverge(o, r, q);
      }
    }
  }

  /** A container with a second position: some write through the first is not the tree update. */
  lemma SharedWriteLeaks(o: Obj, p: seq<nat>, q: seq<nat>) returns (x: Obj)
    requires Consistent(o) && Writable(o, p) && q != Front(p) && IsNodeAt(o, q, ObjAt(o, Front(p)).value.id)
    ensures x.Scalar? && Erase(Write(o, p, x)) != SetAt(Erase(o), p, Erase(x))
  {
    var c, slot := Front(p), Last(p);
    var id := ObjAt(o, c).value.id;
    assert p == c + [slot] && IsNodeAt(o, c, id);
    assert ObjAt(o, c) == ObjAt(o, q);
    var q' := q + [slot];
    ObjAtAppend(o, q, [slot]);
    assert [slot][1..] == [];
    var was := Erase(ObjAt(o, q').value);
    x := Scalar(Num(if was.Num? then was.n + 1 else 0));
    NoNodeAbove(o, q, id);
    AssignShows(o, q, id, slot, x);
    EraseAt(Write(o, p, x), q');
    EraseAt(o, q');
    Diverge(o, c, q, slot);
    SetAtFrame(Erase(o), p, q', Erase(x));
  }

  lemma Diverge(o: Obj, c: seq<nat>, q: seq<nat>, slot: nat)
    requires ObjAt(o, c).Some? && ObjAt(o, c) == ObjAt(o, q) && c != q
    ensures !(c + [slot] <= q + [slot]) && !(q + [slot] <= c + [slot])
  {
    if c + [slot] <= q + [slot] {
      PrefixOfFront(c, q, slot);
      SamePositionsDiverge(o, c, q);
    } else if q + [slot] <= c + [slot] {
      PrefixOfFront(q, c, slot);
      SamePositionsDiverge(o, q, c);
    }
  }

  lemma PrefixOfFront(a: seq<nat>, b: seq<nat>, slot: nat)
    requires a + [slot] <= b + [slot]
    ensures a <= b
  {
    assert forall i :: 0 <= i < |a| ==> a[i] == (a + [slot])[i] == (b + [slot])[i];
  }

  /**
   The in-place assignment of a subknob is the tree update for every new value if and only
   if the container it writes has no other position in the value.
   */
  lemma WriteIsSetIff(o: Obj, p: seq<nat>)
    requires Consistent(o) && Writable(o, p)
    ensures Unshared(o, p) <==> forall x :: Erase(Write(o, p, x)) == SetAt(Erase(o), p, Erase(x))
  {
    var c, slot := Front(p), Last(p);
    assert p == c + [slot];
    if Unshared(o, p) {
      forall x ensures Erase(Write(o, p, x)) == SetAt(Erase(o), p, Erase(x)) {
        AssignOnce(o, c, slot, x);
      }
    } else {
      var q :| IsNodeAt(o, q, ObjAt(o, c).value.id) && q != c;
      var x := SharedWriteLeaks(o, p, q);
    }
  }

  // ------------------------------------------------------ which values are unshared

  /** A value built with a new object for every container, as binary_to_object builds it. */
  function Build(v: Value, at: seq<nat>): Obj {
    match v
    case Arr(es) => Node(New(Here, at), true, seq(|es|, i requires 0 <= i < |es| => Build(es[i], at + [i])))
    case Rec(fs) => Node(New(Here, at), false, seq(|fs|, i requires 0 <= i < |fs| => Build(fs[i], at + [i])))
    case _ => Scalar(v)
  }

  lemma {:induction false} BuildErases(v: Value, at: seq<nat>)
    ensures Erase(Build(v, at)) == v
  {
    match v
    case Arr(es) =>
      forall i | 0 <= i < |es| ensures Erase(Build(es[i], at + [i])) == es[i] { BuildErases(es[i], at + [i]); }
      assert Kids(Erase(Build(v, at))) == es;
    case Rec(fs) =>
      forall i | 0 <= i < |fs| ensures Erase(Build(fs[i], at + [i])) == fs[i] { BuildErases(fs[i], at + [i]); }
      assert Kids(Erase(Build(v, at))) == fs;
    case _ =>
  }

  lemma {:induction false} BuildIds(v: Value, at: seq<nat>, q: seq<nat>)
    requires ObjAt(Build(v, at), q).Some? && ObjAt(Build(v, at), q).value.Node?
    ensures ObjAt(Build(v, at), q).value.id == New(Here, at + q)
    decreases |q|
  {
    if q == [] {
      assert at + q == at;
    } else {
      BuildIds(Kids(v)[q[0]], at + [q[0]], q[1..]);
      assert at + [q[0]] + q[1..] == at + q;
    }
  }

  /** On a freshly decoded value every subknob write is the tree update. */
  lemma FreshWriteIsSet(v: Value, p: seq<nat>, x: Obj)
    requires Writable(Build(v, []), p)
    ensures Erase(Write(Build(v, []), p, x)) == SetAt(v, p, Erase(x))
  {
    hide Build, Assign, SetAt, Erase, ObjAt;
    var o := Build(v, []);
    var c := Front(p);
    BuildErases(v, []);
    BuildIds(v, [], c);
    forall q | IsNodeAt(o, q, ObjAt(o, c).value.id) ensures q == c {
      BuildIds(v, [], q);
      assert [] + q == q && [] + c == c;
    }
    AssignOnce(o, c, Last(p), x);
    assert p == c + [Last(p)];
  }

  /** A list that holds the same object n times, as an array default and a single-element text do. */
  function Repeated(id: Id, n: nat, o: Obj): Obj {
    Node(id, true, seq(n, _ => o))
  }

  lemma RepeatedAt(id: Id, n: nat, o: Obj, i: nat)
    requires i < n
    ensures ObjAt(Repeated(id, n, o), [i]) == Some(o)
  {
    var r := Repeated(id, n, o);
    assert [i][1..] == [] && r.kids[i] == o;
    assert ObjAt(r, [i]) == ObjAt(r.kids[i], [i][1..]);
  }

  /** Writing a member of one element of such a list writes it in every element. */
  lemma RepeatedWriteSpreads(id: Id, n: nat, o: Obj, i: nat, j: nat, slot: nat, x: Obj)
    requires Consistent(Repeated(id, n, o)) && o.Node? && slot < |o.kids| && i < n && j < n
    ensures Writable(Repeated(id, n, o), [i, slot])
    ensures ObjAt(Write(Repeated(id, n, o), [i, slot], x), [j, slot]) == Some(x)
  {
    var r := Repeated(id, n, o);
    RepeatedAt(id, n, o, i);
    RepeatedAt(id, n, o, j);
    assert Front([i, slot]) == [i];
    assert IsNodeAt(r, [j], o.id);
    NoNodeAbove(r, [j], o.id);
    AssignShows(r, [j], o.id, slot, x);
    assert [j] + [slot] == [j, slot];
  }

  // --------------------------------------------- the same positions as module Paths

  /** Where a path of names leads, as positions. */
  function Positions(f: Format, p: Path): Option<seq<nat>>
    decreases |p|
  {
    if p == [] then Some([])
    else if !f.StructF? then None
    else
      var k := FindMember(f.members, p[0].name);
      if k.None? then None
      else
        var m := f.members[k.value].format;
        match p[0]
        case Field(_) =>
          var rest := Positions(m, p[1..]);
          if rest.None? then None else Some([k.value] + rest.value)
        case Item(_, i) =>
          if !m.ArrayF? then None
          else
            var rest := Positions(m.elem, p[1..]);
            if rest.None? then None else Some([k.value, i] + rest.value)
  }

  lemma SetAtEmpty(v: Value, x: Value)
    ensures SetAt(v, [], x) == x
  {}

  lemma SetAtCons(v: Value, k: nat, rest: seq<nat>, x: Value)
    requires k < |Kids(v)|
    ensures SetAt(v, [k] + rest, x) == WithKids(v, Kids(v)[k := SetAt(Kids(v)[k], rest, x)])
  {
    assert ([k] + rest)[1..] == rest;
  }

  /** The tree update of module Paths is the update at those positions. */
  lemma {:induction false} SetIsSetAt(f: Format, v: Value, p: Path, x: Value)
    requires Set(f, v, p, x).Some?
    ensures Positions(f, p).Some? && Set(f, v, p, x).value == SetAt(v, Positions(f, p).value, x)
    decreases |p|
  {
    hide SetAt, FindMember;
    if p == [] {
      SetAtEmpty(v, x);
    } else {
      var k := FindMember(f.members, p[0].name).value;
      var m, w := f.members[k].format, v.fields[k];
      var at := Positions(f, p);
      match p[0]
      case Field(_) =>
        SetIsSetAt(m, w, p[1..], x);
        SetAtCons(v, k, Positions(m, p[1..]).value, x);
      case Item(_, i) =>
        SetIsSetAt(m.elem, w.elems[i], p[1..], x);
        var rest := Positions(m.elem, p[1..]).value;
        assert at.value == [k] + ([i] + rest);
        SetAtCons(v, k, [i] + rest, x);
        SetAtCons(w, i, rest, x);
    }
  }
}
