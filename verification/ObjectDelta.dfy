/**
 Deltas and profiles on the objects the tools keep. The rows and variables of an export name
 whole knobs, so reading them back is what module Delta says on values, shared objects or not.
 */
module ObjectDelta {
  import opened Bytes
  import opened PyText
  import opened Formats
  import opened Text
  import opened Paths
  import opened PathText
  import opened Binary
  import opened VarList
  import opened Sharing
  import opened ObjectTypes
  import opened KnobStore
  import opened Delta
  import opened ObjectStore

  predicate WholeHit(hit: Option<Found>) {
    hit.Some? ==> hit.value.sub.path == []
  }

  /** The row is blank, names nothing, or names a whole knob. */
  predicate WholeRow(knobs: seq<Knob>, guid: Option<Guid>, row: Row) {
    row.Blank? || WholeHit(FindKnob(knobs, guid, Strip(row.knob)))
  }

  predicate WholeRows(knobs: seq<Knob>, guid: Option<Guid>, rows: seq<Row>)
    decreases |rows|
  {
    rows != [] ==>
      WholeRow(knobs, NextGuid(guid, rows[0]), rows[0]) && WholeRows(knobs, NextGuid(guid, rows[0]), rows[1..])
  }

  /** The values of what was read. */
  function Plain(r: Filled): Loaded {
    Loaded(Trees(r.objects), r.updated, r.ok)
  }

  lemma StoreWhole(y: Tools, os: Objects, i: nat, x: Obj)
    requires ToolsOk(y) && |os| == |y.knobs| && i < |os|
    ensures Tree(StoreObject(y.knobs[i], y.deflts[i], os[i], [], x)) == Store(y.knobs[i], Tree(os[i]), [], Erase(x))
  {
    hide InBounds, Sound, MakerOk, WriteCopy, Set;
  }

  lemma TreesUpdate(os: Objects, i: nat, v: Option<Obj>)
    requires i < |os|
    ensures Trees(os[i := v]) == Trees(os)[i := Tree(v)]
  {}

  lemma FillRowErases(y: Tools, os: Objects, guid: Option<Guid>, row: Row)
    requires ToolsOk(y) && |os| == |y.knobs| && WholeRow(y.knobs, guid, row)
    ensures Plain(FillRow(y, os, guid, row)) == ApplyRow(y.knobs, Trees(os), guid, row)
  {
    hide Parse, StoreObject, Store, FindFrom, Sound, KnobOk, Erase, Strip;
    if !row.Blank? {
      var hit := FindKnob(y.knobs, guid, Strip(row.knob));
      if hit.Some? {
        var i, sk, text := hit.value.index, hit.value.sub, Strip(row.value);
        if Parse(sk.format, text, Default).Some? {
          var x := y.make(sk.format, text);
          HitFormatOk(y.knobs[i], sk);
          StoreWhole(y, os, i, x);
          TreesUpdate(os, i, StoreObject(y.knobs[i], y.deflts[i], os[i], sk.path, x));
        }
      }
    }
  }

  lemma HitFormatOk(k: Knob, sk: SubKnob)
    requires KnobOk(k) && sk in SubKnobs(k.decl.format)
    ensures FormatOk(sk.format)
  {
    SubKnobFormatOk(k.decl.format, sk);
  }

  lemma {:induction false} FillRowsErase(y: Tools, os: Objects, guid: Option<Guid>, rows: seq<Row>)
    requires ToolsOk(y) && |os| == |y.knobs| && WholeRows(y.knobs, guid, rows)
    ensures Plain(FillRows(y, os, guid, rows)) == ApplyRows(y.knobs, Trees(os), guid, rows)
    decreases |rows|
  {
    hide FillRow, ApplyRow, ToolsOk, WholeRow, Trees;
    ToolsAligned(y);
    if rows != [] {
      var g := NextGuid(guid, rows[0]);
      FillRowErases(y, os, g, rows[0]);
      var one := FillRow(y, os, g, rows[0]);
      if one.ok {
        FillRowsErase(y, one.objects, g, rows[1..]);
      }
    }
  }

  lemma ToolsAligned(y: Tools)
    requires ToolsOk(y)
    ensures |y.knobs| == |y.deflts| && KnobsOk(y.knobs)
  {}

  /** The rows of an export name whole knobs. */
  lemma {:induction false} ExportIsWhole(knobs: seq<Knob>, st: State, full: bool, names: set<string>,
                                         guid: Option<Guid>, i: nat)
    requires KnobsOk(knobs) && UniqueKnobs(knobs) && StateOk(knobs, st) && i <= |knobs|
    requires CsvRowsFrom(knobs, st, full, names, guid, i).Some?
    ensures WholeRows(knobs, guid, CsvRowsFrom(knobs, st, full, names, guid, i).value)
    decreases |knobs| - i
  {
    hide KnobOk, ValueOk, WholeRow, Print, Encode, Shown;
    if i < |knobs| {
      var k := knobs[i];
      if !Exported(k, full, names) {
        ExportIsWhole(knobs, st, full, names, guid, i + 1);
      } else {
        var v := Shown(k, st[i]);
        ShownOk(k, st[i]);
        assert Shaped(k.decl.format, v.value) by { ShapedOfValueOk(k, v); }
        var cell := if guid != Some(k.namespace) then Literal(Some(k.namespace)) else Star;
        var row := Row(cell, k.decl.name, Print(k.decl.format, v.value));
        var rest := CsvRowsFrom(knobs, st, full, names, Some(k.namespace), i + 1).value;
        ExportIsWhole(knobs, st, full, names, Some(k.namespace), i + 1);
        OwnNameIsWhole(knobs, i);
        RowIsWhole(knobs, i, row);
        assert CsvRowsFrom(knobs, st, full, names, guid, i) == Some([row] + rest);
        assert ([row] + rest)[1..] == rest && NextGuid(guid, row) == Some(k.namespace);
      }
    }
  }

  /** A knob's own name finds the whole knob. */
  lemma OwnNameIsWhole(knobs: seq<Knob>, i: nat)
    requires KnobsOk(knobs) && UniqueKnobs(knobs) && i < |knobs|
    ensures WholeHit(FindKnob(knobs, Some(knobs[i].namespace), knobs[i].decl.name))
    ensures Strip(knobs[i].decl.name) == knobs[i].decl.name && NameText(Utf16(knobs[i].decl.name)) == knobs[i].decl.name
  {
    hide FindFrom, MemberOk, NamesValid, Strip, IsIdent, NameText, Utf16;
    var k := knobs[i];
    assert KnobOk(k);
    var root := SubKnob([], k.decl.format, !k.decl.format.StructF?);
    assert root in SubKnobs(k.decl.format);
    FindOwn(knobs, i, root);
    assert PathName(k.decl.name, root.path) == k.decl.name;
    IdentTrimmed(k.decl.name);
    Utf16Identifier(k.decl.name);
  }

  lemma RowIsWhole(knobs: seq<Knob>, i: nat, row: Row)
    requires i < |knobs| && row.Row? && row.knob == knobs[i].decl.name && Strip(row.knob) == row.knob
    requires WholeHit(FindKnob(knobs, Some(knobs[i].namespace), knobs[i].decl.name))
    ensures WholeRow(knobs, Some(knobs[i].namespace), row)
  {}

  /**
   Delta plus defaults is the whole, in CSV: the rows of a delta (or full) export, with their
   '*' namespaces, read into the schema at its default objects restore every value, and false
   for a bool without one.
   */
  lemma CsvRestoresObjects(crc: Checksum, y: Tools, st: State, full: bool)
    requires ToolsOk(y) && UniqueKnobs(y.knobs) && AllReadBack(y.knobs) && StateOk(y.knobs, st)
    requires CsvRows(crc, y.knobs, st, full).Some?
    ensures var r := FillRows(y, DefaultObjects(y), None, CsvRows(crc, y.knobs, st, full).value);
            r.ok && Trees(r.objects) == ShownState(y.knobs, st)
  {
    hide KnobOk, ValueOk, ReadsBack, ApplyRows, FillRows, CsvRowsFrom, DeltaBinary, MakerOk, ObjectOk;
    DefaultObjectsOk(y);
    CsvRestores(crc, y.knobs, st, full);
    ExportIsWhole(y.knobs, st, full, ChangedNames(y.knobs, st), None, 0);
    FillRowsErase(y, DefaultObjects(y), None, CsvRows(crc, y.knobs, st, full).value);
  }

  // --------------------------------------------------------------------- variables

  predicate WholeVariable(knobs: seq<Knob>, v: Variable) {
    WholeHit(FindKnob(knobs, Some(v.guid), NameText(v.name)))
  }

  lemma FillVariableErases(y: Tools, os: Objects, v: Variable)
    requires ToolsOk(y) && |os| == |y.knobs| && WholeVariable(y.knobs, v)
    ensures Plain(FillVariable(y, os, v)) == ApplyVariable(y.knobs, Trees(os), v)
  {
    hide Decode, StoreObject, Store, FindFrom, Sound, KnobOk, Erase, MakerOk, Build;
    var hit := FindKnob(y.knobs, Some(v.guid), NameText(v.name));
    if hit.Some? {
      var i, sk := hit.value.index, hit.value.sub;
      var x := Decode(sk.format, v.data);
      if x.Some? {
        BuildErases(x.value, []);
        StoreWhole(y, os, i, Build(x.value, []));
        TreesUpdate(os, i, StoreObject(y.knobs[i], y.deflts[i], os[i], sk.path, Build(x.value, [])));
      }
    }
  }

  lemma {:induction false} FillVariablesErase(y: Tools, os: Objects, vs: seq<Variable>)
    requires ToolsOk(y) && |os| == |y.knobs| && forall v <- vs :: WholeVariable(y.knobs, v)
    ensures Plain(FillVariables(y, os, vs)) == ApplyVariables(y.knobs, Trees(os), vs)
    decreases |vs|
  {
    hide FillVariable, ApplyVariable, ToolsOk, WholeVariable, Trees;
    ToolsAligned(y);
    if vs != [] {
      FillVariableErases(y, os, vs[0]);
      var one := FillVariable(y, os, vs[0]);
      if one.ok {
        FillVariablesErase(y, one.objects, vs[1..]);
      }
    }
  }

  /** load_default_from_bin */
  function LoadObjects(crc: Checksum, y: Tools, os: Objects, bytes: seq<Byte>): Filled
    requires |os| == |y.knobs| == |y.deflts|
  {
    var vs := ReadAll(crc, bytes);
    var ownBytes := VlistToBinary(crc, y.knobs, Trees(os));
    var own := if ownBytes.Some? then ReadAll(crc, ownBytes.value) else None;
    if vs.None? || own.None? then Filled(os, 0, false)
    else FillVariables(y, os, KnownTo(vs.value, own.value))
  }

  /**
   Delta plus defaults is the whole, in binary: the delta of a schema whose knobs have values or
   are bools, loaded into the schema at its default objects, restores every value, and false for
   a bool without one.
   */
  lemma DeltaBinaryRestoresObjects(crc: Checksum, y: Tools, st: State)
    requires ToolsOk(y) && UniqueKnobs(y.knobs) && AllBinable(y.knobs) && StateOk(y.knobs, st)
    requires DeltaBinary(crc, y.knobs, st).Some?
    ensures var r := LoadObjects(crc, y, DefaultObjects(y), DeltaBinary(crc, y.knobs, st).value);
            r.ok && Trees(r.objects) == ShownState(y.knobs, st)
  {
    hide KnobOk, Binable, ValueOk, KnobVariable, Storable, ReadAll, ApplyVariables, FillVariables, MakerOk, ObjectOk;
    hide WholeVariable;
    var d := Defaults(y.knobs);
    DefaultObjectsOk(y);
    DefaultsOk(y.knobs);
    DeltaBinaryRestores(crc, y.knobs, st);
    ChangedFromOk(y.knobs, st, 0);
    ReadWriteAll(crc, ChangedFrom(y.knobs, st, 0).value);
    ValuedFromOk(y.knobs, d, 0);
    ReadWriteAll(crc, ValuedFrom(y.knobs, d, 0).value);
    ChangedAreKnown(y.knobs, st, ValuedFrom(y.knobs, d, 0).value);
    var vs := ChangedFrom(y.knobs, st, 0).value;
    forall v | v in vs ensures WholeVariable(y.knobs, v) {
      var j :| 0 <= j < |y.knobs| && Some(v) == KnobVariable(y.knobs[j], st[j]);
      OwnVariableIsWhole(y.knobs, j, st[j]);
    }
    FillVariablesErase(y, DefaultObjects(y), vs);
  }

  lemma OwnVariableIsWhole(knobs: seq<Knob>, i: nat, v: Option<Value>)
    requires KnobsOk(knobs) && UniqueKnobs(knobs) && i < |knobs| && KnobVariable(knobs[i], v).Some?
    ensures WholeVariable(knobs, KnobVariable(knobs[i], v).value)
  {
    hide KnobVariable, FindFrom, KnobOk, NameText, Utf16;
    OwnNameIsWhole(knobs, i);
    KnobVariableNames(knobs[i], v);
  }
}
