/**
 Knob values as the tools keep them: Python objects whose containers may occur at several
 places. The checked assignment copies the current object and writes the container its path
 leads to, so a shared container changes everywhere. Over every run the objects stay sound
 and in bounds; the assignment is the tree update exactly when the container is not shared.
 */
module ObjectStore {
  import opened Bytes
  import opened PyText
  import opened Formats
  import opened Text
  import opened SchemaBuild
  import opened Paths
  import opened PathText
  import opened Binary
  import opened VarList
  import opened Sharing
  import opened ObjectTypes
  import opened KnobStore

  /** string_to_object on a text it accepts: which containers of the result are one object is left open. */
  type Maker = (Format, string) -> Obj

  /** A loaded schema: its knobs, their default objects, and how texts become objects. */
  datatype Tools = Tools(knobs: seq<Knob>, deflts: seq<Obj>, make: Maker)

  /** The _value of every knob; None until something assigns it. */
  type Objects = seq<Option<Obj>>

  function Tree(o: Option<Obj>): Option<Value> {
    if o.Some? then Some(Erase(o.value)) else None
  }

  function Trees(os: Objects): (st: State)
    ensures |st| == |os|
  {
    seq(|os|, i requires 0 <= i < |os| => Tree(os[i]))
  }

  /** Every accepted text gives a sound object for the value the text denotes, shared inside in any way. */
  ghost predicate MakerOk(make: Maker) {
    forall f, s | FormatOk(f) && Parse(f, s, Default).Some? ::
      Sound(f, make(f, s)) && Erase(make(f, s)) == Parse(f, s, Default).value
  }

  ghost predicate ToolsOk(y: Tools) {
    && KnobsOk(y.knobs) && |y.deflts| == |y.knobs| && MakerOk(y.make)
    && forall i :: 0 <= i < |y.knobs| ==>
         Sound(y.knobs[i].decl.format, y.deflts[i]) && Erase(y.deflts[i]) == y.knobs[i].decl.deflt
  }

  /** A sound object whose value passes the knob's bounds check. */
  ghost predicate ObjectOk(k: Knob, o: Option<Obj>) {
    o.Some? ==> Sound(k.decl.format, o.value) && InBounds(k.decl.format, Erase(o.value), k.decl.min, k.decl.max)
  }

  ghost predicate ObjectsOk(y: Tools, os: Objects) {
    |os| == |y.knobs| && forall i :: 0 <= i < |os| ==> ObjectOk(y.knobs[i], os[i])
  }

  lemma ObjectOkValue(k: Knob, o: Option<Obj>)
    requires ObjectOk(k, o)
    ensures ValueOk(k, Tree(o))
  {
    if o.Some? {
      var ts :| Typed(ts, k.decl.format, o.value);
      TypedShaped(ts, k.decl.format, o.value);
    }
  }

  lemma ObjectsOkState(y: Tools, os: Objects)
    requires ObjectsOk(y, os)
    ensures StateOk(y.knobs, Trees(os))
  {
    forall i | 0 <= i < |os| ensures ValueOk(y.knobs[i], Trees(os)[i]) {
      ObjectOkValue(y.knobs[i], os[i]);
    }
  }

  lemma KnobFormatOk(k: Knob)
    requires KnobOk(k)
    ensures FormatOk(k.decl.format)
  {}

  // ----------------------------------------------------------------- assignment

  /** What a subknob assignment starts from: the current object, or the default one. */
  function Base(deflt: Obj, cur: Option<Obj>): Obj {
    if cur.Some? then cur.value else deflt
  }

  /**
   SubKnob.value = x: the object itself for the knob's own path, otherwise a deep copy with
   x assigned in the container the path leads to. None: rejected, nothing assigned.
   */
  function StoreObject(k: Knob, deflt: Obj, cur: Option<Obj>, p: Path, x: Obj): Option<Obj> {
    var f := k.decl.format;
    var v := if p == [] then Some(x) else WriteCopy(f, Base(deflt, cur), p, x);
    if v.Some? && InBounds(f, Erase(v.value), k.decl.min, k.decl.max) then v else None
  }

  function WriteCopy(f: Format, base: Obj, p: Path, x: Obj): Option<Obj> {
    var at, copy := Positions(f, p), Copy(0, base);
    if at.None? || !Writable(copy, at.value) then None else Some(Write(copy, at.value, Copy(1, x)))
  }

  /** A path of a subknob below the root leads to a slot of a container, in every sound object. */
  lemma SubKnobWritable(f: Format, base: Obj, sk: SubKnob)
    requires Addressable(f) && sk in SubKnobs(f) && sk.path != [] && Sound(f, base)
    ensures Positions(f, sk.path).Some?
    ensures Writable(base, Positions(f, sk.path).value) && Writable(Copy(0, base), Positions(f, sk.path).value)
  {
    hide Positions, ObjAt, SubKnobs, FormatAt;
    SubKnobPositions(f, sk);
    var at := Positions(f, sk.path).value;
    FormatAtFront(f, at);
    var ts :| Typed(ts, f, base);
    TypedAt(ts, f, base, Front(at));
    CopyAt(0, base, Front(at));
    SlotContainer(ts, FormatAt(f, Front(at)).value, ObjAt(base, Front(at)).value, Last(at));
  }

  lemma SlotContainer(ts: Typing, f: Format, o: Obj, slot: nat)
    requires Typed(ts, f, o) && slot < Arity(f)
    ensures o.Node? && slot < |o.kids| && o.id in ts && ts[o.id] == f
  {}

  /** Writing a sound object of the subknob's format gives a sound object, whatever is shared. */
  lemma WriteCopySound(f: Format, base: Obj, sk: SubKnob, x: Obj)
    requires Addressable(f) && sk in SubKnobs(f) && sk.path != [] && Sound(f, base) && Sound(sk.format, x)
    ensures WriteCopy(f, base, sk.path, x).Some? && Sound(f, WriteCopy(f, base, sk.path, x).value)
  {
    hide Positions, SubKnobs, Copy, Consistent, Typed, Write, Writable;
    SubKnobWritable(f, base, sk);
    var a :| Typed(a, f, base);
    var b :| Typed(b, sk.format, x);
    WriteCopyTyped(f, base, sk, x, a, b);
    WriteCopyConsistent(f, base, sk, x);
  }

  lemma WriteCopyTyped(f: Format, base: Obj, sk: SubKnob, x: Obj, a: Typing, b: Typing)
    requires Addressable(f) && sk in SubKnobs(f) && sk.path != [] && Typed(a, f, base) && Typed(b, sk.format, x)
    requires WriteCopy(f, base, sk.path, x).Some?
    ensures Typed(BothTyped(a, b), f, WriteCopy(f, base, sk.path, x).value)
  {
    hide Positions, ObjAt, SubKnobs, FormatAt, Assign, Copy, Typed, Addressable, BothTyped;
    SubKnobPositions(f, sk);
    var at := Positions(f, sk.path).value;
    FormatAtFront(f, at);
    var ts := BothTyped(a, b);
    CopyTyped(0, a, ts, f, base);
    CopyTyped(1, b, ts, sk.format, x);
    TypedAt(ts, f, Copy(0, base), Front(at));
    var c := ObjAt(Copy(0, base), Front(at)).value;
    SlotContainer(ts, FormatAt(f, Front(at)).value, c, Last(at));
    AssignTyped(ts, f, Copy(0, base), c.id, Last(at), Copy(1, x));
  }

  lemma WriteCopyConsistent(f: Format, base: Obj, sk: SubKnob, x: Obj)
    requires Consistent(base) && Consistent(x) && WriteCopy(f, base, sk.path, x).Some?
    ensures Consistent(WriteCopy(f, base, sk.path, x).value)
  {
    hide Positions, ObjAt, Assign, Copy, Consistent, Apart;
    var at := Positions(f, sk.path).value;
    CopyConsistent(0, base);
    CopyConsistent(1, x);
    CopiesApart(base, x);
    AssignConsistent(Copy(0, base), ObjAt(Copy(0, base), Front(at)).value.id, Last(at), Copy(1, x));
  }

  /** An accepted assignment leaves a sound object in bounds. */
  lemma StoreObjectOk(k: Knob, deflt: Obj, cur: Option<Obj>, sk: SubKnob, x: Obj)
    requires KnobOk(k) && ObjectOk(k, cur) && Sound(k.decl.format, deflt)
    requires sk in SubKnobs(k.decl.format) && Sound(sk.format, x)
    ensures ObjectOk(k, StoreObject(k, deflt, cur, sk.path, x))
  {
    hide Sound, WriteCopy, SubKnobs, InBounds, NamesValid;
    FormatOkAddressable(k.decl.format);
    if sk.path == [] {
      RootSubKnob(k.decl.format, sk);
    } else {
      WriteCopySound(k.decl.format, Base(deflt, cur), sk, x);
    }
  }

  // ------------------------------------------------------- when it is the tree update

  /** The container that a subknob assignment writes occurs once in the object. */
  ghost predicate Alone(f: Format, o: Obj, p: Path) {
    p == [] || (Positions(f, p).Some? && Writable(o, Positions(f, p).value) && Unshared(o, Positions(f, p).value))
  }

  lemma CopyUnshared(o: Obj, at: seq<nat>)
    requires Writable(o, at) && Writable(Copy(0, o), at)
    ensures Unshared(Copy(0, o), at) <==> Unshared(o, at)
  {
    hide ObjAt, IsNodeAt, Copy;
    var c := Front(at);
    CopyAt(0, o, c);
    var id := ObjAt(o, c).value.id;
    assert ObjAt(Copy(0, o), c).value.id == Copied(0, id) by { CopyId(0, ObjAt(o, c).value); }
    forall q ensures IsNodeAt(Copy(0, o), q, Copied(0, id)) <==> IsNodeAt(o, q, id) {
      CopyNodeAt(0, o, q, Copied(0, id));
    }
  }

  lemma CopyId(tag: nat, o: Obj)
    requires o.Node?
    ensures Copy(tag, o).Node? && Copy(tag, o).id == Copied(tag, o.id) && |Copy(tag, o).kids| == |o.kids|
  {}

  /** The tree update at a subknob is the update at its positions. */
  lemma SetIsSetAtPositions(f: Format, base: Obj, sk: SubKnob, x: Value)
    requires Addressable(f) && sk in SubKnobs(f) && Sound(f, base)
    ensures Positions(f, sk.path).Some?
    ensures Set(f, Erase(base), sk.path, x) == Some(SetAt(Erase(base), Positions(f, sk.path).value, x))
  {
    hide Positions, SubKnobs, Erase, SetAt, Set, Consistent, Shaped;
    var ts :| Typed(ts, f, base);
    TypedShaped(ts, f, base);
    GetSet(f, Erase(base), sk, x);
    SetIsSetAt(f, Erase(base), sk.path, x);
  }

  lemma AloneIsSet(f: Format, base: Obj, sk: SubKnob, x: Obj)
    requires Addressable(f) && sk in SubKnobs(f) && sk.path != [] && Sound(f, base) && Alone(f, base, sk.path)
    ensures Tree(WriteCopy(f, base, sk.path, x)) == Set(f, Erase(base), sk.path, Erase(x))
  {
    hide Positions, ObjAt, SubKnobs, Assign, Copy, Erase, SetAt, Set, Sound, Unshared;
    SubKnobWritable(f, base, sk);
    var at, copy := Positions(f, sk.path).value, Copy(0, base);
    CopyUnshared(base, at);
    SoundCopyConsistent(f, base);
    CopyErases(0, base);
    CopyErases(1, x);
    WriteIsSetIff(copy, at);
    SetIsSetAtPositions(f, base, sk, Erase(x));
    assert Erase(Write(copy, at, Copy(1, x))) == SetAt(Erase(copy), at, Erase(Copy(1, x)));
  }

  lemma SoundCopyConsistent(f: Format, base: Obj)
    requires Sound(f, base)
    ensures Consistent(Copy(0, base))
  {
    CopyConsistent(0, base);
  }

  lemma NotAloneDiffers(f: Format, base: Obj, sk: SubKnob) returns (x: Obj)
    requires Addressable(f) && sk in SubKnobs(f) && sk.path != [] && Sound(f, base) && !Alone(f, base, sk.path)
    ensures Tree(WriteCopy(f, base, sk.path, x)) != Set(f, Erase(base), sk.path, Erase(x))
  {
    hide Positions, ObjAt, SubKnobs, Assign, Copy, Erase, SetAt, Set, Sound, Write, IsNodeAt;
    SubKnobWritable(f, base, sk);
    var at, copy := Positions(f, sk.path).value, Copy(0, base);
    CopyUnshared(base, at);
    SoundCopyConsistent(f, base);
    CopyErases(0, base);
    var q :| IsNodeAt(copy, q, ObjAt(copy, Front(at)).value.id) && q != Front(at);
    x := SharedWriteLeaks(copy, at, q);
    ScalarCopies(1, x);
    SetIsSetAtPositions(f, base, sk, Erase(x));
  }

  /**
   The write of a subknob is the tree update, for every new object, if and only if the
   container it writes occurs nowhere else in the object.
   */
  lemma WriteCopyIsSetIff(f: Format, base: Obj, sk: SubKnob)
    requires Addressable(f) && sk in SubKnobs(f) && sk.path != [] && Sound(f, base)
    ensures forall x :: WriteCopy(f, base, sk.path, x).Some?
    ensures Set(f, Erase(base), sk.path, Null).Some?
    ensures Alone(f, base, sk.path) <==>
            forall x :: Tree(WriteCopy(f, base, sk.path, x)) == Set(f, Erase(base), sk.path, Erase(x))
  {
    hide Positions, SubKnobs, Erase, SetAt, Set, Sound, Alone, Tree, Write, Writable;
    SubKnobWritable(f, base, sk);
    SetIsSetAtPositions(f, base, sk, Null);
    if Alone(f, base, sk.path) {
      forall x ensures Tree(WriteCopy(f, base, sk.path, x)) == Set(f, Erase(base), sk.path, Erase(x)) {
        AloneIsSet(f, base, sk, x);
      }
    } else {
      var x := NotAloneDiffers(f, base, sk);
    }
  }

  lemma ScalarCopies(tag: nat, x: Obj)
    requires x.Scalar?
    ensures Copy(tag, x) == x
  {}

  /** The bounds check on what an assignment would store. */
  function Checked(k: Knob, v: Option<Value>): Option<Value> {
    if v.Some? && InBounds(k.decl.format, v.value, k.decl.min, k.decl.max) then v else None
  }

  lemma StoredTree(k: Knob, deflt: Obj, cur: Option<Obj>, p: Path, x: Obj)
    ensures Tree(StoreObject(k, deflt, cur, p, x))
         == Checked(k, if p == [] then Some(Erase(x)) else Tree(WriteCopy(k.decl.format, Base(deflt, cur), p, x)))
    ensures forall c, v ::
              (Store(k, c, p, v)
               == Checked(k, if p == [] then Some(v)
                              else Set(k.decl.format, if c.Some? then c.value else k.decl.deflt, p, v)))
  {
    hide WriteCopy, InBounds, Set, Erase;
  }

  /** Where the container is not shared, storing an object is storing its value, rejections included. */
  lemma StoreErases(k: Knob, deflt: Obj, cur: Option<Obj>, sk: SubKnob, x: Obj)
    requires KnobOk(k) && ObjectOk(k, cur) && Sound(k.decl.format, deflt) && Erase(deflt) == k.decl.deflt
    requires sk in SubKnobs(k.decl.format) && Alone(k.decl.format, Base(deflt, cur), sk.path)
    ensures Tree(StoreObject(k, deflt, cur, sk.path, x)) == Store(k, Tree(cur), sk.path, Erase(x))
  {
    hide Alone, WriteCopy, SubKnobs, InBounds, Set, Sound, KnobOk, Addressable, FormatOk, StoreObject, Store, Checked;
    var f := k.decl.format;
    StoredTree(k, deflt, cur, sk.path, x);
    if sk.path != [] {
      KnobFormatOk(k);
      FormatOkAddressable(f);
      WriteCopyIsSetIff(f, Base(deflt, cur), sk);
      assert Tree(WriteCopy(f, Base(deflt, cur), sk.path, x)) == Set(f, Erase(Base(deflt, cur)), sk.path, Erase(x));
    }
  }

  /**
   The lens laws on objects: a stored subknob is always read back; every other leaf keeps its
   value where the written container is not shared.
   */
  lemma StoreObjectIsLens(k: Knob, deflt: Obj, cur: Option<Obj>, sk: SubKnob, x: Obj, other: SubKnob)
    requires KnobOk(k) && ObjectOk(k, cur) && Sound(k.decl.format, deflt) && Erase(deflt) == k.decl.deflt
    requires sk in SubKnobs(k.decl.format) && Sound(sk.format, x) && other in SubKnobs(k.decl.format)
    requires StoreObject(k, deflt, cur, sk.path, x).Some?
    ensures var f, base := k.decl.format, Base(deflt, cur);
            var v := StoreObject(k, deflt, cur, sk.path, x).value;
            && Get(f, Erase(v), sk.path) == Some(Erase(x))
            && (Alone(f, base, sk.path) && (Disjoint(sk.path, other.path) || (sk.leaf && other.leaf && sk != other)) ==>
                  Get(f, Erase(v), other.path) == Get(f, Erase(base), other.path))
  {
    hide Alone, WriteCopy, SubKnobs, InBounds, Set, Get, Sound, Disjoint, NamesValid, Shaped;
    var f := k.decl.format;
    StoreReadsBack(k, deflt, cur, sk, x);
    if Alone(f, Base(deflt, cur), sk.path) {
      StoreErases(k, deflt, cur, sk, x);
      ObjectOkValue(k, cur);
      StoreIsLens(k, Tree(cur), sk, Erase(x), other);
    }
  }

  lemma StoreReadsBack(k: Knob, deflt: Obj, cur: Option<Obj>, sk: SubKnob, x: Obj)
    requires KnobOk(k) && ObjectOk(k, cur) && Sound(k.decl.format, deflt)
    requires sk in SubKnobs(k.decl.format) && Sound(sk.format, x) && StoreObject(k, deflt, cur, sk.path, x).Some?
    ensures Get(k.decl.format, Erase(StoreObject(k, deflt, cur, sk.path, x).value), sk.path) == Some(Erase(x))
  {
    hide SubKnobs, InBounds, Get, Positions, Erase, ObjAt, Copy, Assign, ValueAt, NamesValid, Shaped, Consistent;
    var f, base := k.decl.format, Base(deflt, cur);
    var v := StoreObject(k, deflt, cur, sk.path, x).value;
    FormatOkAddressable(f);
    if sk.path == [] {
      GetRoot(f, Erase(v));
    } else {
      SubKnobWritable(f, base, sk);
      WriteCopySound(f, base, sk, x);
      var at, copy := Positions(f, sk.path).value, Copy(0, base);
      var c := Front(at);
      CopyConsistent(0, base);
      assert IsNodeAt(copy, c, ObjAt(copy, c).value.id);
      NoNodeAbove(copy, c, ObjAt(copy, c).value.id);
      AssignShows(copy, c, ObjAt(copy, c).value.id, Last(at), Copy(1, x));
      assert c + [Last(at)] == at;
      EraseAt(v, at);
      CopyErases(1, x);
      var ts :| Typed(ts, f, v);
      TypedShaped(ts, f, v);
      SubKnobReadable(f, Erase(v), sk);
      GetIsValueAt(f, Erase(v), sk.path);
    }
  }

  lemma GetRoot(f: Format, v: Value)
    ensures Get(f, v, []) == Some(v)
  {}

  // ------------------------------------------------------------------- CSV rows

  /** The objects reached, the number of knobs updated, and whether no exception ended the reading. */
  datatype Filled = Filled(objects: Objects, updated: nat, ok: bool)

  function FillRow(y: Tools, os: Objects, guid: Option<Guid>, row: Row): (r: Filled)
    requires |os| == |y.knobs| == |y.deflts|
    ensures |r.objects| == |y.knobs|
    ensures !r.ok ==> r.objects == os
  {
    if row.Blank? then Filled(os, 0, true)
    else
      var hit := FindKnob(y.knobs, guid, Strip(row.knob));
      if hit.None? then Filled(os, 0, true)
      else
        var i, sk, text := hit.value.index, hit.value.sub, Strip(row.value);
        var v := if Parse(sk.format, text, Default).None? then None
                 else StoreObject(y.knobs[i], y.deflts[i], os[i], sk.path, y.make(sk.format, text));
        if v.None? then Filled(os, 0, false) else Filled(os[i := v], 1, true)
  }

  /** read_csv after its header: rows in order until one raises. */
  function FillRows(y: Tools, os: Objects, guid: Option<Guid>, rows: seq<Row>): (r: Filled)
    requires |os| == |y.knobs| == |y.deflts|
    ensures |r.objects| == |y.knobs|
    decreases |rows|
  {
    if rows == [] then Filled(os, 0, true)
    else
      var g := NextGuid(guid, rows[0]);
      var one := FillRow(y, os, g, rows[0]);
      if !one.ok then one
      else
        var rest := FillRows(y, one.objects, g, rows[1..]);
        rest.(updated := one.updated + rest.updated)
  }

  /** The namespace in force at row j. */
  function GuidAt(guid: Option<Guid>, rows: seq<Row>, j: nat): Option<Guid>
    requires j < |rows|
    decreases j
  {
    var g := NextGuid(guid, rows[0]);
    if j == 0 then g else GuidAt(g, rows[1..], j - 1)
  }

  /** Row j names knob i or one of its subknobs. */
  predicate NamedAt(knobs: seq<Knob>, guid: Option<Guid>, rows: seq<Row>, j: nat, i: nat) {
    && j < |rows| && rows[j].Row?
    && var hit := FindKnob(knobs, GuidAt(guid, rows, j), Strip(rows[j].knob));
       hit.Some? && hit.value.index == i
  }

  ghost predicate Named(knobs: seq<Knob>, guid: Option<Guid>, rows: seq<Row>, i: nat) {
    exists j: nat :: NamedAt(knobs, guid, rows, j, i)
  }

  /** Reading rows gives a value to exactly the knobs that a row names, and leaves the others alone. */
  lemma {:induction false} FilledIff(y: Tools, os: Objects, guid: Option<Guid>, rows: seq<Row>, i: nat)
    requires |os| == |y.knobs| == |y.deflts| && i < |os| && FillRows(y, os, guid, rows).ok
    ensures var r := FillRows(y, os, guid, rows).objects[i];
            if Named(y.knobs, guid, rows, i) then r.Some? else r == os[i]
    decreases |rows|
  {
    hide FindFrom, Parse, StoreObject, Strip;
    if rows != [] {
      var g := NextGuid(guid, rows[0]);
      var one := FillRow(y, os, g, rows[0]);
      FilledIff(y, one.objects, g, rows[1..], i);
      if Named(y.knobs, g, rows[1..], i) {
        var j: nat :| NamedAt(y.knobs, g, rows[1..], j, i);
        assert NamedAt(y.knobs, guid, rows, j + 1, i);
      }
      if Named(y.knobs, guid, rows, i) {
        var j: nat :| NamedAt(y.knobs, guid, rows, j, i);
        if j > 0 {
          assert NamedAt(y.knobs, g, rows[1..], j - 1, i);
        } else {
          assert one.objects[i].Some?;
        }
      } else {
        assert !NamedAt(y.knobs, guid, rows, 0, i);
        assert one.objects[i] == os[i];
      }
    }
  }

  /** A row that names no knob of the schema is no error. */
  lemma UnknownRowIgnored(y: Tools, os: Objects, guid: Option<Guid>, row: Row)
    requires |os| == |y.knobs| == |y.deflts| && row.Row?
    requires forall i, sk | 0 <= i < |y.knobs| && sk in SubKnobs(y.knobs[i].decl.format) ::
               guid == Some(y.knobs[i].namespace) ==> PathName(y.knobs[i].decl.name, sk.path) != Strip(row.knob)
    ensures FillRow(y, os, guid, row) == Filled(os, 0, true)
  {
    hide Strip, StoreObject, Parse, SubKnobs, PathName;
    FindNone(y.knobs, 0, guid, Strip(row.knob));
  }

  lemma {:induction false} FindNone(knobs: seq<Knob>, i: nat, guid: Option<Guid>, text: string)
    requires i <= |knobs|
    requires forall j, sk | i <= j < |knobs| && sk in SubKnobs(knobs[j].decl.format) ::
               guid == Some(knobs[j].namespace) ==> PathName(knobs[j].decl.name, sk.path) != text
    ensures FindFrom(knobs, i, guid, text).None?
    decreases |knobs| - i
  {
    hide SubKnobs, PathName;
    if i < |knobs| {
      FindNone(knobs, i + 1, guid, text);
    }
  }

  /** The rows that name a knob. */
  ghost function NamingRows(knobs: seq<Knob>, guid: Option<Guid>, rows: seq<Row>): set<nat> {
    set j: nat | j < |rows| && Names(knobs, guid, rows, j)
  }

  predicate Names(knobs: seq<Knob>, guid: Option<Guid>, rows: seq<Row>, j: nat) {
    j < |rows| && rows[j].Row? && FindKnob(knobs, GuidAt(guid, rows, j), Strip(rows[j].knob)).Some?
  }

  function Shifted(s: set<nat>): set<nat> {
    set j | j in s :: j + 1
  }

  lemma {:induction false} ShiftedSize(s: set<nat>)
    ensures |Shifted(s)| == |s|
    decreases s
  {
    if s != {} {
      var x :| x in s;
      ShiftedSize(s - {x});
      assert Shifted(s) == Shifted(s - {x}) + {x + 1} by {
        forall k | k in Shifted(s) ensures k in Shifted(s - {x}) + {x + 1} {
          var j :| j in s && j + 1 == k;
          assert j == x || j in s - {x};
        }
      }
    }
  }

  /** The count of updated knobs is the number of rows that name one. */
  lemma {:induction false} UpdatedExact(y: Tools, os: Objects, guid: Option<Guid>, rows: seq<Row>)
    requires |os| == |y.knobs| == |y.deflts| && FillRows(y, os, guid, rows).ok
    ensures FillRows(y, os, guid, rows).updated == |NamingRows(y.knobs, guid, rows)|
    decreases |rows|
  {
    hide FindFrom, Parse, StoreObject, Strip;
    if rows == [] {
      assert NamingRows(y.knobs, guid, rows) == {};
    } else {
      var g := NextGuid(guid, rows[0]);
      UpdatedExact(y, FillRow(y, os, g, rows[0]).objects, g, rows[1..]);
      NamingShift(y.knobs, guid, rows);
      ShiftedSize(NamingRows(y.knobs, g, rows[1..]));
    }
  }

  lemma NamingShift(knobs: seq<Knob>, guid: Option<Guid>, rows: seq<Row>)
    requires rows != []
    ensures var g := NextGuid(guid, rows[0]);
            NamingRows(knobs, guid, rows)
              == (if Names(knobs, guid, rows, 0) then {0} else {})
                 + Shifted(NamingRows(knobs, g, rows[1..]))
  {
    hide FindFrom, Strip;
    var g := NextGuid(guid, rows[0]);
    forall j: nat | 0 < j < |rows|
      ensures Names(knobs, guid, rows, j) <==> Names(knobs, g, rows[1..], j - 1)
      ensures j in NamingRows(knobs, guid, rows) <==> j - 1 in NamingRows(knobs, g, rows[1..])
    {}
  }

  /** A blank row is as good as none. */
  lemma {:induction false} BlankRowIgnored(y: Tools, os: Objects, guid: Option<Guid>, a: seq<Row>, b: seq<Row>)
    requires |os| == |y.knobs| == |y.deflts|
    ensures FillRows(y, os, guid, a + [Blank] + b) == FillRows(y, os, guid, a + b)
    decreases |a|
  {
    hide FindFrom, Parse, StoreObject, Strip;
    if a == [] {
      assert a + [Blank] + b == [Blank] + b && a + b == b && ([Blank] + b)[1..] == b;
    } else {
      var all, less := a + [Blank] + b, a + b;
      assert all[0] == a[0] == less[0] && all[1..] == a[1..] + [Blank] + b && less[1..] == a[1..] + b;
      var g := NextGuid(guid, a[0]);
      var one := FillRow(y, os, g, a[0]);
      if one.ok {
        BlankRowIgnored(y, one.objects, g, a[1..], b);
      }
    }
  }

  /** One variable of uefi_variables_to_knobs; a decoded value has a new object for every container. */
  function FillVariable(y: Tools, os: Objects, v: Variable): (r: Filled)
    requires |os| == |y.knobs| == |y.deflts|
    ensures |r.objects| == |y.knobs|
    ensures !r.ok ==> r.objects == os
  {
    var hit := FindKnob(y.knobs, Some(v.guid), NameText(v.name));
    if hit.None? then Filled(os, 0, true)
    else
      var i, sk := hit.value.index, hit.value.sub;
      var x := Decode(sk.format, v.data);
      var w := if x.None? then None
               else StoreObject(y.knobs[i], y.deflts[i], os[i], sk.path, Build(x.value, []));
      if w.None? then Filled(os, 0, false) else Filled(os[i := w], 1, true)
  }

  function FillVariables(y: Tools, os: Objects, vs: seq<Variable>): (r: Filled)
    requires |os| == |y.knobs| == |y.deflts|
    ensures |r.objects| == |y.knobs|
    decreases |vs|
  {
    if vs == [] then Filled(os, 0, true)
    else
      var one := FillVariable(y, os, vs[0]);
      if !one.ok then one
      else
        var rest := FillVariables(y, one.objects, vs[1..]);
        rest.(updated := one.updated + rest.updated)
  }

  lemma FillRowOk(y: Tools, os: Objects, guid: Option<Guid>, row: Row)
    requires ToolsOk(y) && ObjectsOk(y, os)
    ensures ObjectsOk(y, FillRow(y, os, guid, row).objects)
  {
    hide Parse, StoreObject, FindFrom, Sound, MemberOk, ObjectOk, Erase, NamesValid;
    if !row.Blank? && FillRow(y, os, guid, row).ok {
      var hit := FindKnob(y.knobs, guid, Strip(row.knob));
      if hit.Some? {
        var i, sk := hit.value.index, hit.value.sub;
        KnobFormatOk(y.knobs[i]);
        SubKnobFormatOk(y.knobs[i].decl.format, sk);
        StoreObjectOk(y.knobs[i], y.deflts[i], os[i], sk, y.make(sk.format, Strip(row.value)));
      }
    }
  }

  lemma {:induction false} FillRowsOk(y: Tools, os: Objects, guid: Option<Guid>, rows: seq<Row>)
    requires ToolsOk(y) && ObjectsOk(y, os)
    ensures ObjectsOk(y, FillRows(y, os, guid, rows).objects)
    decreases |rows|
  {
    hide FillRow, KnobOk, ObjectOk, Sound, MakerOk;
    if rows != [] {
      var g := NextGuid(guid, rows[0]);
      FillRowOk(y, os, g, rows[0]);
      var one := FillRow(y, os, g, rows[0]);
      if one.ok {
        FillRowsOk(y, one.objects, g, rows[1..]);
      }
    }
  }

  lemma FillVariableOk(y: Tools, os: Objects, v: Variable)
    requires ToolsOk(y) && ObjectsOk(y, os)
    ensures ObjectsOk(y, FillVariable(y, os, v).objects)
  {
    hide Decode, StoreObject, FindFrom, Sound, MakerOk, KnobOk, ObjectOk, Erase, Build;
    var hit := FindKnob(y.knobs, Some(v.guid), NameText(v.name));
    if hit.Some? && FillVariable(y, os, v).ok {
      var i, sk := hit.value.index, hit.value.sub;
      DecodeShaped(sk.format, v.data);
      BuildSound(sk.format, Decode(sk.format, v.data).value);
      StoreObjectOk(y.knobs[i], y.deflts[i], os[i], sk, Build(Decode(sk.format, v.data).value, []));
    }
  }

  lemma {:induction false} FillVariablesOk(y: Tools, os: Objects, vs: seq<Variable>)
    requires ToolsOk(y) && ObjectsOk(y, os)
    ensures ObjectsOk(y, FillVariables(y, os, vs).objects)
    decreases |vs|
  {
    hide FillVariable, KnobOk, ObjectOk, Sound, MakerOk;
    if vs != [] {
      FillVariableOk(y, os, vs[0]);
      var one := FillVariable(y, os, vs[0]);
      if one.ok {
        FillVariablesOk(y, one.objects, vs[1..]);
      }
    }
  }

  // ------------------------------------------------------------ reachable states

  function DefaultObjects(y: Tools): (os: Objects)
    ensures |os| == |y.deflts|
  {
    seq(|y.deflts|, i requires 0 <= i < |y.deflts| => Some(y.deflts[i]))
  }

  function NoObjects(y: Tools): (os: Objects)
    ensures |os| == |y.knobs|
  {
    seq(|y.knobs|, _ => None)
  }

  /** Everything the tools do to the values of a loaded schema. */
  datatype Action =
    | ResetToNone
    | ResetToDefaults
    | ReadRows(rows: seq<Row>)
    | LoadVariables(variables: seq<Variable>)
    | AssignText(guid: Guid, path: string, text: string)

  function Act(y: Tools, os: Objects, a: Action): (r: Objects)
    requires |os| == |y.knobs| == |y.deflts|
    ensures |r| == |y.knobs|
  {
    match a
    case ResetToNone => NoObjects(y)
    case ResetToDefaults => DefaultObjects(y)
    case ReadRows(rows) => FillRows(y, os, None, rows).objects
    case LoadVariables(vs) => FillVariables(y, os, vs).objects
    case AssignText(guid, path, text) => FillRow(y, os, Some(guid), Row(Star, path, text)).objects
  }

  function Reached(y: Tools, actions: seq<Action>): (r: Objects)
    requires |y.knobs| == |y.deflts|
    ensures |r| == |y.knobs|
    decreases |actions|
  {
    if actions == [] then NoObjects(y)
    else Act(y, Reached(y, actions[..|actions| - 1]), actions[|actions| - 1])
  }

  lemma DefaultObjectsOk(y: Tools)
    requires ToolsOk(y)
    ensures ObjectsOk(y, DefaultObjects(y)) && Trees(DefaultObjects(y)) == Defaults(y.knobs)
  {
    hide Sound, MakerOk;
    forall i | 0 <= i < |y.knobs| ensures ObjectOk(y.knobs[i], DefaultObjects(y)[i]) {
      assert KnobOk(y.knobs[i]);
    }
  }

  /**
   In every reachable state every knob object is None or sound and in bounds, however its
   containers are shared; so every value is None or well shaped and in bounds.
   */
  lemma {:induction false} ReachableOk(y: Tools, actions: seq<Action>)
    requires ToolsOk(y)
    ensures ObjectsOk(y, Reached(y, actions)) && StateOk(y.knobs, Trees(Reached(y, actions)))
    decreases |actions|
  {
    hide FillRow, FillRows, FillVariables, ObjectOk, KnobOk, MakerOk, ValueOk;
    if actions == [] {
      NoObjectsOk(y);
    } else {
      var os, a := Reached(y, actions[..|actions| - 1]), actions[|actions| - 1];
      ReachableOk(y, actions[..|actions| - 1]);
      match a
      case ReadRows(rows) => FillRowsOk(y, os, None, rows);
      case LoadVariables(vs) => FillVariablesOk(y, os, vs);
      case AssignText(guid, path, text) => FillRowOk(y, os, Some(guid), Row(Star, path, text));
      case ResetToDefaults => DefaultObjectsOk(y);
      case ResetToNone => NoObjectsOk(y);
    }
    ObjectsOkState(y, Reached(y, actions));
  }

  lemma NoObjectsOk(y: Tools)
    ensures ObjectsOk(y, NoObjects(y))
  {}

  /** ... and, with enum numbers in 32 bits, it encodes to exactly its size and decodes to itself. */
  lemma ReachableEncodes(y: Tools, actions: seq<Action>, i: nat)
    requires ToolsOk(y) && i < |y.knobs| && EnumsFit(y.knobs[i].decl.format) && Reached(y, actions)[i].Some?
    ensures var f := y.knobs[i].decl.format;
            var v := Erase(Reached(y, actions)[i].value);
            Encode(f, v).Some? && |Encode(f, v).value| == Size(f) && Decode(f, Encode(f, v).value) == Some(v)
  {
    hide Reached, Encode, Decode, Size, KnobOk, ObjectOk, MakerOk;
    ReachableOk(y, actions);
    StoredEncodes(y.knobs[i], Tree(Reached(y, actions)[i]));
  }

  // ------------------------------------------------- makers, with sharing and without

  /** A maker that shares nothing. */
  function FreshMaker(f: Format, s: string): Obj {
    var v := Parse(f, s, Default);
    if v.Some? then Build(v.value, []) else Scalar(Null)
  }

  lemma FreshMakerOk()
    ensures MakerOk(FreshMaker)
  {
    hide Parse, Build, Sound;
    forall f, s | FormatOk(f) && Parse(f, s, Default).Some?
      ensures Sound(f, FreshMaker(f, s)) && Erase(FreshMaker(f, s)) == Parse(f, s, Default).value
    {
      ParseShaped(f, s, Default);
      BuildSound(f, Parse(f, s, Default).value);
    }
  }

  // ----------------------------------------------------------- profile overrides

  /** The configuration a profile table denotes: its overrides laid over the default objects. */
  function Overlay(y: Tools, os: Objects): (r: Objects)
    requires |os| == |y.deflts|
    ensures |r| == |os|
  {
    seq(|os|, i requires 0 <= i < |os| => Some(Base(y.deflts[i], os[i])))
  }

  lemma OverlayRow(y: Tools, os: Objects, guid: Option<Guid>, row: Row)
    requires |os| == |y.knobs| == |y.deflts|
    ensures var a := FillRow(y, os, guid, row);
            var b := FillRow(y, Overlay(y, os), guid, row);
            a.ok == b.ok && a.updated == b.updated && b.objects == Overlay(y, a.objects)
  {
    hide Parse, WriteCopy, InBounds, FindKnob, Erase;
    if !row.Blank? {
      var hit := FindKnob(y.knobs, guid, Strip(row.knob));
      if hit.Some? {
        var i, sk, text := hit.value.index, hit.value.sub, Strip(row.value);
        if Parse(sk.format, text, Default).Some? {
          var x := y.make(sk.format, text);
          var v := StoreObject(y.knobs[i], y.deflts[i], os[i], sk.path, x);
          assert v == StoreObject(y.knobs[i], y.deflts[i], Overlay(y, os)[i], sk.path, x);
          if v.Some? {
            assert Overlay(y, os)[i := v] == Overlay(y, os[i := v]);
          }
        }
      }
    }
  }

  /**
   Profiles: reading the rows into a schema without values and laying the result over the
   defaults gives the same objects, the same count and the same rejection as reading the rows
   into a schema at its defaults, whatever the objects share.
   */
  lemma {:induction false} OverlaySimulates(y: Tools, os: Objects, guid: Option<Guid>, rows: seq<Row>)
    requires |os| == |y.knobs| == |y.deflts|
    ensures var a := FillRows(y, os, guid, rows);
            var b := FillRows(y, Overlay(y, os), guid, rows);
            a.ok == b.ok && a.updated == b.updated && b.objects == Overlay(y, a.objects)
    decreases |rows|
  {
    hide FillRow, Overlay;
    if rows != [] {
      var g := NextGuid(guid, rows[0]);
      OverlayRow(y, os, g, rows[0]);
      var one := FillRow(y, os, g, rows[0]);
      if one.ok {
        OverlaySimulates(y, one.objects, g, rows[1..]);
      }
    }
  }

  lemma ProfileOverlay(y: Tools, rows: seq<Row>)
    requires |y.knobs| == |y.deflts|
    ensures var profile := FillRows(y, NoObjects(y), None, rows);
            var direct := FillRows(y, DefaultObjects(y), None, rows);
            profile.ok == direct.ok && profile.updated == direct.updated
            && direct.objects == Overlay(y, profile.objects)
  {
    hide FillRows;
    assert Overlay(y, NoObjects(y)) == DefaultObjects(y);
    OverlaySimulates(y, NoObjects(y), None, rows);
  }
}
