/**
 The knobs of a schema and their values as trees: lookup by namespace and path text, the
 checked assignment, CSV rows and binary variables. Module ObjectStore does the same on the
 objects the tools keep.
 */
module KnobStore {
  import opened Bytes
  import opened PyText
  import opened Formats
  import opened Text
  import opened Paths
  import opened PathText
  import opened Binary
  import opened VarList

  datatype Knob = Knob(namespace: Guid, decl: Member)

  /** The _value of every knob, in schema order; None until something assigns it. */
  type State = seq<Option<Value>>

  /** What Knob.__init__ has checked. */
  predicate KnobOk(k: Knob) {
    IsIdent(k.decl.name) && MemberOk(k.decl) && !k.decl.format.ArrayF? && NamesValid(k.decl.format)
  }

  predicate KnobsOk(knobs: seq<Knob>) {
    forall i :: 0 <= i < |knobs| ==> KnobOk(knobs[i])
  }

  predicate ValueOk(k: Knob, v: Option<Value>) {
    v.Some? ==> Shaped(k.decl.format, v.value) && InBounds(k.decl.format, v.value, k.decl.min, k.decl.max)
  }

  /** Every value is None or well shaped and in bounds. */
  predicate StateOk(knobs: seq<Knob>, st: State) {
    |st| == |knobs| && forall i :: 0 <= i < |knobs| ==> ValueOk(knobs[i], st[i])
  }

  function Defaults(knobs: seq<Knob>): (st: State)
    ensures |st| == |knobs|
  {
    seq(|knobs|, i requires 0 <= i < |knobs| => Some(knobs[i].decl.deflt))
  }

  // --------------------------------------------------------------------- lookup

  datatype Found = Found(index: nat, sub: SubKnob)

  function FindInKnob(name: string, sks: seq<SubKnob>, text: string): (r: Option<SubKnob>)
    ensures r.Some? ==> r.value in sks && PathName(name, r.value.path) == text
    ensures r.None? ==> forall sk <- sks :: PathName(name, sk.path) != text
  {
    if sks == [] then None
    else if PathName(name, sks[0].path) == text then Some(sks[0])
    else FindInKnob(name, sks[1..], text)
  }

  function Lookup(k: Knob, guid: Option<Guid>, text: string): Option<SubKnob> {
    if guid == Some(k.namespace) then FindInKnob(k.decl.name, OwnSubKnobs(k.decl.format), text) else None
  }

  /** Schema.get_knob from knob i on: the first subknob with the namespace and the path text. */
  function FindFrom(knobs: seq<Knob>, i: nat, guid: Option<Guid>, text: string): (r: Option<Found>)
    requires i <= |knobs|
    ensures r.Some? ==> i <= r.value.index < |knobs|
                        && r.value.sub in SubKnobs(knobs[r.value.index].decl.format)
                        && guid == Some(knobs[r.value.index].namespace)
    decreases |knobs| - i
  {
    if i == |knobs| then None
    else
      var sk := Lookup(knobs[i], guid, text);
      if sk.Some? then Some(Found(i, sk.value)) else FindFrom(knobs, i + 1, guid, text)
  }

  function FindKnob(knobs: seq<Knob>, guid: Option<Guid>, text: string): (r: Option<Found>)
    ensures r.Some? ==> r.value.index < |knobs|
                        && r.value.sub in SubKnobs(knobs[r.value.index].decl.format)
                        && guid == Some(knobs[r.value.index].namespace)
  {
    FindFrom(knobs, 0, guid, text)
  }

  predicate UniqueKnobs(knobs: seq<Knob>) {
    forall i, j :: 0 <= i < j < |knobs| ==>
      knobs[i].namespace != knobs[j].namespace || knobs[i].decl.name != knobs[j].decl.name
  }

  /** With unique (namespace, name) pairs, looking a subknob up by its own text finds that subknob. */
  lemma FindOwn(knobs: seq<Knob>, k: nat, sk: SubKnob)
    requires KnobsOk(knobs) && UniqueKnobs(knobs) && k < |knobs| && sk in SubKnobs(knobs[k].decl.format)
    ensures FindKnob(knobs, Some(knobs[k].namespace), PathName(knobs[k].decl.name, sk.path)) == Some(Found(k, sk))
  {
    FindOwnFrom(knobs, k, sk, 0);
  }

  lemma {:induction false} FindOwnFrom(knobs: seq<Knob>, k: nat, sk: SubKnob, i: nat)
    requires KnobsOk(knobs) && UniqueKnobs(knobs) && i <= k < |knobs| && sk in SubKnobs(knobs[k].decl.format)
    ensures FindFrom(knobs, i, Some(knobs[k].namespace), PathName(knobs[k].decl.name, sk.path)) == Some(Found(k, sk))
    decreases k - i
  {
    hide PathName, SubKnobs, MemberOk, NamesValid;
    var guid, text := Some(knobs[k].namespace), PathName(knobs[k].decl.name, sk.path);
    var hit := Lookup(knobs[i], guid, text);
    if hit.Some? {
      SameText(knobs[i], hit.value, knobs[k], sk);
    } else if i < k {
      FindOwnFrom(knobs, k, sk, i + 1);
    }
  }

  lemma SameText(a: Knob, x: SubKnob, b: Knob, y: SubKnob)
    requires KnobOk(a) && KnobOk(b) && x in SubKnobs(a.decl.format) && y in SubKnobs(b.decl.format)
    requires PathName(a.decl.name, x.path) == PathName(b.decl.name, y.path)
    ensures a.decl.name == b.decl.name && x.path == y.path
    ensures a == b ==> x == y
  {
    hide PathName, SubKnobs;
    FormatOkAddressable(a.decl.format);
    FormatOkAddressable(b.decl.format);
    SubKnobNamed(a.decl.format, x);
    SubKnobNamed(b.decl.format, y);
    PathNameInjective(a.decl.name, x.path, b.decl.name, y.path);
    if a == b {
      SubKnobAtPath(a.decl.format, x, y);
    }
  }

  // ----------------------------------------------------------------- assignment

  /**
   SubKnob.value = x on values without shared objects: the whole value for the knob's own
   path, otherwise an update of the current value, or of the default if there is none. None:
   rejected, nothing assigned.
   */
  function Store(k: Knob, cur: Option<Value>, p: Path, x: Value): Option<Value> {
    var f := k.decl.format;
    var base := if cur.Some? then cur.value else k.decl.deflt;
    var v := if p == [] then Some(x) else Set(f, base, p, x);
    if v.Some? && InBounds(f, v.value, k.decl.min, k.decl.max) then v else None
  }

  /** A stored subknob is read back, and every leaf it does not overlap keeps its value. */
  lemma StoreIsLens(k: Knob, cur: Option<Value>, sk: SubKnob, x: Value, other: SubKnob)
    requires KnobOk(k) && ValueOk(k, cur) && sk in SubKnobs(k.decl.format) && Store(k, cur, sk.path, x).Some?
    requires other in SubKnobs(k.decl.format)
    ensures var f := k.decl.format;
            var v := Store(k, cur, sk.path, x).value;
            var before := if cur.Some? then cur.value else k.decl.deflt;
            && Get(f, v, sk.path) == Some(x)
            && (Disjoint(sk.path, other.path) ==> Get(f, v, other.path) == Get(f, before, other.path))
            && (sk.leaf && other.leaf && sk != other ==> Get(f, v, other.path) == Get(f, before, other.path))
  {
    var f := k.decl.format;
    var before := if cur.Some? then cur.value else k.decl.deflt;
    FormatOkAddressable(f);
    SetGet(f, before, sk.path, x);
    if sk.leaf && other.leaf && sk != other {
      if sk.path == other.path {
        SubKnobAtPath(f, sk, other);
      }
      LeavesDisjoint(f, sk, other);
    }
    if Disjoint(sk.path, other.path) {
      SetFrame(f, before, sk.path, other.path, x);
    }
  }

  // ------------------------------------------------------------------- CSV rows

  /** A guid cell: '*', or a text that names a namespace (None if it names none). */
  datatype Cell = Star | Literal(guid: Option<Guid>)

  datatype Row = Blank | Row(guid: Cell, knob: string, value: string)

  /** The state reached, the number of knobs updated, and whether no exception ended the reading. */
  datatype Loaded = Loaded(state: State, updated: nat, ok: bool)

  function NextGuid(guid: Option<Guid>, row: Row): Option<Guid> {
    if row.Blank? || row.guid.Star? then guid else row.guid.guid
  }

  /** One row of read_csv; guid is the namespace in force, ok is false when it raises. */
  function ApplyRow(knobs: seq<Knob>, st: State, guid: Option<Guid>, row: Row): (r: Loaded)
    requires |st| == |knobs|
    ensures |r.state| == |knobs|
    ensures !r.ok ==> r.state == st
  {
    if row.Blank? then Loaded(st, 0, true)
    else
      var hit := FindKnob(knobs, guid, Strip(row.knob));
      if hit.None? then Loaded(st, 0, true)
      else
        var i, sk := hit.value.index, hit.value.sub;
        var x := Parse(sk.format, Strip(row.value), Default);
        var v := if x.Some? then Store(knobs[i], st[i], sk.path, x.value) else None;
        if v.None? then Loaded(st, 0, false) else Loaded(st[i := v], 1, true)
  }

  /** read_csv after its header: rows in order until one raises. */
  function ApplyRows(knobs: seq<Knob>, st: State, guid: Option<Guid>, rows: seq<Row>): (r: Loaded)
    requires |st| == |knobs|
    ensures |r.state| == |knobs|
    decreases |rows|
  {
    if rows == [] then Loaded(st, 0, true)
    else
      var g := NextGuid(guid, rows[0]);
      var one := ApplyRow(knobs, st, g, rows[0]);
      if !one.ok then one
      else
        var rest := ApplyRows(knobs, one.state, g, rows[1..]);
        rest.(updated := one.updated + rest.updated)
  }

  // ----------------------------------------------------------- binary variables

  /** A name as the tools compare it; lone surrogates stand for no identifier. */
  function NameText(us: seq<Char16>): string {
    seq(|us|, i requires 0 <= i < |us| =>
      if 0xD800 <= us[i] <= 0xDFFF then '?' else us[i] as char)
  }

  function CodeUnit(c: char): Char16 {
    if c as int <= 0xffff then c as int else 0xfffd
  }

  /** A name in UTF-16, for the identifiers that name knobs. */
  function Utf16(s: string): seq<Char16> {
    seq(|s|, i requires 0 <= i < |s| => CodeUnit(s[i]))
  }

  lemma Utf16Identifier(s: string)
    requires IsIdent(s)
    ensures NameText(Utf16(s)) == s && NoOuterNuls(Utf16(s))
  {
    assert forall i :: 0 <= i < |s| ==> IdentChar(s[i]);
  }

  /** One variable of uefi_variables_to_knobs. */
  function ApplyVariable(knobs: seq<Knob>, st: State, v: Variable): (r: Loaded)
    requires |st| == |knobs|
    ensures |r.state| == |knobs|
    ensures !r.ok ==> r.state == st
  {
    var hit := FindKnob(knobs, Some(v.guid), NameText(v.name));
    if hit.None? then Loaded(st, 0, true)
    else
      var i, sk := hit.value.index, hit.value.sub;
      var x := Decode(sk.format, v.data);
      var w := if x.Some? then Store(knobs[i], st[i], sk.path, x.value) else None;
      if w.None? then Loaded(st, 0, false) else Loaded(st[i := w], 1, true)
  }

  function ApplyVariables(knobs: seq<Knob>, st: State, vs: seq<Variable>): (r: Loaded)
    requires |st| == |knobs|
    ensures |r.state| == |knobs|
    decreases |vs|
  {
    if vs == [] then Loaded(st, 0, true)
    else
      var one := ApplyVariable(knobs, st, vs[0]);
      if !one.ok then one
      else
        var rest := ApplyVariables(knobs, one.state, vs[1..]);
        rest.(updated := one.updated + rest.updated)
  }

  /** A stored value, with enum numbers in 32 bits, encodes to exactly its size and decodes to itself. */
  lemma StoredEncodes(k: Knob, v: Option<Value>)
    requires KnobOk(k) && EnumsFit(k.decl.format) && v.Some? && ValueOk(k, v)
    ensures var f := k.decl.format;
            Encode(f, v.value).Some? && |Encode(f, v.value).value| == Size(f)
            && Decode(f, Encode(f, v.value).value) == Some(v.value)
  {
    CheckedValueRoundTrips(k.decl.format, v.value, k.decl.min, k.decl.max);
  }
}
