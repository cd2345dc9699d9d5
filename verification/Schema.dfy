/**
 The schema object: knob declarations that do not change and knob objects that the tools
 assign in place, row by row and variable by variable.
 */
module Schema {
  import opened Bytes
  import opened PyText
  import opened Formats
  import opened Text
  import opened Paths
  import opened PathText
  import opened Binary
  import opened VarList
  import opened Sharing
  import opened ObjectTypes
  import opened KnobStore
  import opened Delta
  import opened ObjectStore
  import opened ObjectDelta

  /** One entry of a generated override table: KNOB_x and its value. */
  datatype Override = Override(knob: nat, value: Obj)

  class KnobSchema {
    const tools: Tools
    var objects: Objects

    ghost predicate Valid()
      reads this
    {
      ToolsOk(tools) && ObjectsOk(tools, objects)
    }

    constructor (tools: Tools)
      requires ToolsOk(tools)
      ensures Valid() && this.tools == tools && objects == NoObjects(tools)
    {
      this.tools := tools;
      objects := NoObjects(tools);
    }

    /** Schema.get_knob: the first subknob, in schema order, with the namespace and the text. */
    method GetKnob(guid: Option<Guid>, text: string) returns (r: Option<Found>)
      ensures r == FindKnob(tools.knobs, guid, text)
    {
      hide SubKnobs, PathName;
      var knobs := tools.knobs;
      for i := 0 to |knobs|
        invariant FindKnob(knobs, guid, text) == FindFrom(knobs, i, guid, text)
      {
        if guid == Some(knobs[i].namespace) {
          var name, sks := knobs[i].decl.name, OwnSubKnobs(knobs[i].decl.format);
          for j := 0 to |sks|
            invariant FindInKnob(name, sks, text) == FindInKnob(name, sks[j..], text)
          {
            assert sks[j..][1..] == sks[j + 1..];
            if PathName(name, sks[j].path) == text {
              return Some(Found(i, sks[j]));
            }
          }
        }
      }
      return None;
    }

    /** knob.value = None for every knob. */
    method ClearValues()
      requires Valid()
      modifies this
      ensures Valid() && objects == NoObjects(tools)
    {
      hide ToolsOk, Sound;
      ToolsAligned(tools);
      for i := 0 to |tools.knobs|
        invariant Valid()
        invariant forall j :: 0 <= j < i ==> objects[j].None?
      {
        objects := objects[i := None];
      }
    }

    /** knob.value = knob.default for every knob. */
    method AssignDefaults()
      requires Valid()
      modifies this
      ensures Valid() && objects == DefaultObjects(tools)
    {
      hide ToolsOk, ObjectOk;
      ToolsAligned(tools);
      DefaultObjectsOk(tools);
      for i := 0 to |tools.knobs|
        invariant Valid()
        invariant forall j :: 0 <= j < i ==> objects[j] == Some(tools.deflts[j])
      {
        assert ObjectOk(tools.knobs[i], DefaultObjects(tools)[i]);
        objects := objects[i := Some(tools.deflts[i])];
      }
    }

    /** The checked assignment to a subknob; a rejected one changes nothing. */
    method SetSubKnob(at: Found, x: Obj) returns (ok: bool)
      requires Valid() && at.index < |tools.knobs| && at.sub in SubKnobs(tools.knobs[at.index].decl.format)
      requires Sound(at.sub.format, x)
      modifies this
      ensures Valid()
      ensures var i := at.index;
              var v := StoreObject(tools.knobs[i], tools.deflts[i], old(objects[i]), at.sub.path, x);
              ok == v.Some? && objects == if ok then old(objects)[i := v] else old(objects)
    {
      hide StoreObject, Sound, MakerOk, SubKnobs, KnobOk, Erase;
      var i := at.index;
      var v := StoreObject(tools.knobs[i], tools.deflts[i], objects[i], at.sub.path, x);
      if v.None? {
        return false;
      }
      StoreObjectOk(tools.knobs[i], tools.deflts[i], objects[i], at.sub, x);
      objects := objects[i := v];
      return true;
    }

    /** read_csv: ok is false when a row raises; the rows before it stay applied. */
    method ReadCsv(rows: seq<Row>) returns (updated: nat, ok: bool)
      requires Valid()
      modifies this
      ensures Valid()
      ensures Filled(objects, updated, ok) == FillRows(tools, old(objects), None, rows)
    {
      hide Parse, StoreObject, ToolsOk, ObjectOk, FindFrom, Strip;
      ToolsAligned(tools);
      updated := 0;
      var guid: Option<Guid> := None;
      for i := 0 to |rows|
        invariant Valid()
        invariant var rest := FillRows(tools, objects, guid, rows[i..]);
                  FillRows(tools, old(objects), None, rows) == rest.(updated := updated + rest.updated)
      {
        var row := rows[i];
        assert rows[i..][1..] == rows[i + 1..];
        if row.Blank? {
          continue;
        }
        if !row.guid.Star? {
          guid := row.guid.guid;
        }
        FillRowOk(tools, objects, guid, row);
        var hit := GetKnob(guid, Strip(row.knob));
        if hit.Some? {
          var k, sk, text := hit.value.index, hit.value.sub, Strip(row.value);
          if Parse(sk.format, text, Default).None? {
            return updated, false;
          }
          var v := StoreObject(tools.knobs[k], tools.deflts[k], objects[k], sk.path, tools.make(sk.format, text));
          if v.None? {
            return updated, false;
          }
          objects := objects[k := v];
          updated := updated + 1;
        }
      }
      return updated, true;
    }

    /** uefi_variables_to_knobs: ok is false when a variable raises. */
    method UefiVariablesToKnobs(variables: seq<Variable>) returns (updated: nat, ok: bool)
      requires Valid()
      modifies this
      ensures Valid()
      ensures Filled(objects, updated, ok) == FillVariables(tools, old(objects), variables)
    {
      hide Decode, StoreObject, ToolsOk, ObjectOk, FindFrom, Build, NameText;
      ToolsAligned(tools);
      updated := 0;
      for i := 0 to |variables|
        invariant Valid()
        invariant var rest := FillVariables(tools, objects, variables[i..]);
                  FillVariables(tools, old(objects), variables) == rest.(updated := updated + rest.updated)
      {
        var v := variables[i];
        assert variables[i..][1..] == variables[i + 1..];
        FillVariableOk(tools, objects, v);
        var hit := GetKnob(Some(v.guid), NameText(v.name));
        if hit.Some? {
          var k, sk := hit.value.index, hit.value.sub;
          var x := Decode(sk.format, v.data);
          if x.None? {
            return updated, false;
          }
          var w := StoreObject(tools.knobs[k], tools.deflts[k], objects[k], sk.path, Build(x.value, []));
          if w.None? {
            return updated, false;
          }
          objects := objects[k := w];
          updated := updated + 1;
        }
      }
      return updated, true;
    }

    /** vlist_to_binary: the records of the knobs that have a value, appended one by one. */
    method VlistToBinaryArray(crc: Checksum) returns (r: Option<seq<Byte>>)
      requires |objects| == |tools.knobs|
      ensures r == VlistToBinary(crc, tools.knobs, Trees(objects))
    {
      hide KnobVariable, CreateRecord, Written, Prepend, Erase;
      var knobs, values := tools.knobs, Trees(objects);
      var ret: seq<Byte> := [];
      PrependParts([], [], Written(crc, ValuedFrom(knobs, values, 0)));
      for i := 0 to |knobs|
        invariant VlistToBinary(crc, knobs, values) == Prepend(ret, Written(crc, ValuedFrom(knobs, values, i)))
      {
        if values[i].Some? {
          var v := KnobVariable(knobs[i], values[i]);
          WrittenCons(crc, v, ValuedFrom(knobs, values, i + 1));
          if v.None? || CreateRecord(crc, v.value).None? {
            PrependNone(ret);
            return None;
          }
          var record := CreateRecord(crc, v.value).value;
          PrependParts(ret, record, Written(crc, ValuedFrom(knobs, values, i + 1)));
          ret := ret + record;
        }
      }
      WrittenNothing(crc, ret);
      return Some(ret);
    }

    /** generate_delta_binary_array: the records of the knobs that differ from their default. */
    method GenerateDeltaBinaryArray(crc: Checksum) returns (r: Option<seq<Byte>>)
      requires |objects| == |tools.knobs|
      ensures r == DeltaBinary(crc, tools.knobs, Trees(objects))
    {
      hide KnobVariable, CreateRecord, Written, Prepend, Erase;
      var knobs, values := tools.knobs, Trees(objects);
      var ret: seq<Byte> := [];
      PrependParts([], [], Written(crc, ChangedFrom(knobs, values, 0)));
      for i := 0 to |knobs|
        invariant DeltaBinary(crc, knobs, values) == Prepend(ret, Written(crc, ChangedFrom(knobs, values, i)))
      {
        if values[i] != Some(knobs[i].decl.deflt) {
          var v := KnobVariable(knobs[i], values[i]);
          WrittenCons(crc, v, ChangedFrom(knobs, values, i + 1));
          if v.None? || CreateRecord(crc, v.value).None? {
            PrependNone(ret);
            return None;
          }
          var record := CreateRecord(crc, v.value).value;
          PrependParts(ret, record, Written(crc, ChangedFrom(knobs, values, i + 1)));
          ret := ret + record;
        }
      }
      WrittenNothing(crc, ret);
      return Some(ret);
    }

    /** load_default_from_bin: read, keep the variables the schema knows, assign. */
    method LoadDefaultFromBin(crc: Checksum, bytes: seq<Byte>) returns (updated: nat, ok: bool)
      requires Valid()
      modifies this
      ensures Valid()
      ensures Filled(objects, updated, ok) == LoadObjects(crc, tools, old(objects), bytes)
    {
      hide ToolsOk, ObjectOk, ReadAll, VlistToBinary, FillVariables, Known, Trees;
      ToolsAligned(tools);
      var vs := ReadVlistFromBuffer(crc, bytes);
      var ownBytes := VlistToBinaryArray(crc);
      var own: Option<seq<Variable>> := None;
      if ownBytes.Some? {
        own := ReadVlistFromBuffer(crc, ownBytes.value);
      }
      if vs.None? || own.None? {
        return 0, false;
      }
      var kept: seq<Variable> := [];
      for i := 0 to |vs.value|
        invariant Valid() && objects == old(objects)
        invariant KnownTo(vs.value, own.value) == kept + KnownTo(vs.value[i..], own.value)
      {
        assert vs.value[i..][1..] == vs.value[i + 1..];
        if Known(vs.value[i], own.value) {
          kept := kept + [vs.value[i]];
        }
      }
      assert kept + [] == kept;
      updated, ok := UefiVariablesToKnobs(kept);
    }

    /** The override table of the knobs that have a value. */
    method CollectOverrides() returns (overrides: seq<Override>)
      requires |objects| == |tools.knobs| == |tools.deflts|
      ensures Applied(DefaultObjects(tools), overrides) == Overlay(tools, objects)
      ensures ListsValues(overrides, objects)
    {
      hide Applied;
      overrides := [];
      AppliedNone(DefaultObjects(tools));
      for i := 0 to |objects|
        invariant var r := Applied(DefaultObjects(tools), overrides);
                  forall j :: 0 <= j < |objects| ==>
                    r[j] == if j < i then Overlay(tools, objects)[j] else DefaultObjects(tools)[j]
        invariant ListsValues(overrides, objects[..i])
      {
        if objects[i].Some? {
          AppliedAppend(DefaultObjects(tools), overrides, Override(i, objects[i].value));
          ListsNext(overrides, objects, i);
          overrides := overrides + [Override(i, objects[i].value)];
        } else {
          ListsSkip(overrides, objects, i);
        }
      }
      assert objects[..|objects|] == objects;
    }

    /** One profile of generate_profiles: clear, read the CSV, list the knobs that got a value. */
    method GenerateProfile(rows: seq<Row>) returns (overrides: seq<Override>, ok: bool)
      requires Valid()
      modifies this
      ensures Valid()
      ensures |tools.knobs| == |tools.deflts|
      ensures var direct := FillRows(tools, DefaultObjects(tools), None, rows);
              ok == direct.ok && (ok ==> Applied(DefaultObjects(tools), overrides) == direct.objects)
      ensures ok ==> ListsValues(overrides, FillRows(tools, NoObjects(tools), None, rows).objects)
    {
      hide FillRows, Applied, Overlay, ToolsOk, ObjectOk;
      ToolsAligned(tools);
      ClearValues();
      ProfileOverlay(tools, rows);
      var n;
      n, ok := ReadCsv(rows);
      overrides := [];
      if ok {
        overrides := CollectOverrides();
      }
    }
  }

  /** The table has one entry for each knob that has a value, in schema order, and no other. */
  ghost predicate ListsValues(overrides: seq<Override>, os: Objects) {
    && (forall n, m :: 0 <= n < m < |overrides| ==> overrides[n].knob < overrides[m].knob)
    && (forall o <- overrides :: o.knob < |os| && os[o.knob] == Some(o.value))
    && (forall i :: 0 <= i < |os| && os[i].Some? ==> Listed(overrides, i))
  }

  predicate Listed(overrides: seq<Override>, i: nat) {
    exists o <- overrides :: o.knob == i
  }

  lemma ListsNext(overrides: seq<Override>, os: Objects, i: nat)
    requires i < |os| && os[i].Some? && ListsValues(overrides, os[..i])
    ensures ListsValues(overrides + [Override(i, os[i].value)], os[..i + 1])
  {
    var all := overrides + [Override(i, os[i].value)];
    assert Override(i, os[i].value) in all;
    forall k | 0 <= k < i && os[k].Some? ensures Listed(all, k) {
      assert os[..i][k].Some?;
      var o :| o in overrides && o.knob == k;
      assert o in all;
    }
    forall n | 0 <= n < |overrides| ensures overrides[n].knob < i {
      assert overrides[n] in overrides;
    }
  }

  lemma ListsSkip(overrides: seq<Override>, os: Objects, i: nat)
    requires i < |os| && os[i].None? && ListsValues(overrides, os[..i])
    ensures ListsValues(overrides, os[..i + 1])
  {
    forall k | 0 <= k < i + 1 && os[..i + 1][k].Some? ensures Listed(overrides, k) {
      assert os[..i][k].Some?;
    }
  }

  /** The configuration after the firmware has written every override of a table over the defaults. */
  function Applied(os: Objects, overrides: seq<Override>): (r: Objects)
    ensures |r| == |os|
    decreases |overrides|
  {
    if overrides == [] then os
    else
      var o := overrides[|overrides| - 1];
      var r := Applied(os, overrides[..|overrides| - 1]);
      if o.knob < |r| then r[o.knob := Some(o.value)] else r
  }

  lemma AppliedNone(os: Objects)
    ensures Applied(os, []) == os
  {}

  lemma AppliedAppend(os: Objects, overrides: seq<Override>, o: Override)
    requires o.knob < |os|
    ensures Applied(os, overrides + [o]) == Applied(os, overrides)[o.knob := Some(o.value)]
  {
    assert (overrides + [o])[..|overrides|] == overrides;
  }
}
