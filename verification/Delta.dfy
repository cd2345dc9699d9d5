/**
 Writing the values of a schema as variable lists and CSV rows, whole or as a delta
 against the defaults, and loading them back.
 */
module Delta {
  import opened Bytes
  import opened PyText
  import opened Formats
  import opened Text
  import opened Paths
  import opened PathText
  import opened Binary
  import opened VarList
  import opened KnobStore

  const DEFAULT_ATTRIBUTES: Word := 7

  /** The variable a knob is stored in; None when object_to_binary raises. */
  function KnobVariable(k: Knob, v: Option<Value>): Option<Variable> {
    var data := Encode(k.decl.format, if v.Some? then v.value else Null);
    if data.None? then None else Some(Variable(Utf16(k.decl.name), k.namespace, data.value, DEFAULT_ATTRIBUTES))
  }

  /** The variables of the knobs from i on that have a value (vlist_to_binary). */
  function ValuedFrom(knobs: seq<Knob>, st: State, i: nat): Option<seq<Variable>>
    requires |st| == |knobs| && i <= |knobs|
    decreases |knobs| - i
  {
    if i == |knobs| then Some([])
    else
      var rest := ValuedFrom(knobs, st, i + 1);
      if st[i].None? then rest
      else
        var v := KnobVariable(knobs[i], st[i]);
        if v.None? || rest.None? then None else Some([v.value] + rest.value)
  }

  /** The variables of the knobs from i on whose value differs from the default (get_delta_vlist). */
  function ChangedFrom(knobs: seq<Knob>, st: State, i: nat): Option<seq<Variable>>
    requires |st| == |knobs| && i <= |knobs|
    decreases |knobs| - i
  {
    if i == |knobs| then Some([])
    else
      var rest := ChangedFrom(knobs, st, i + 1);
      if st[i] == Some(knobs[i].decl.deflt) then rest
      else
        var v := KnobVariable(knobs[i], st[i]);
        if v.None? || rest.None? then None else Some([v.value] + rest.value)
  }

  /** The bytes of the records of a list of variables that may itself have failed. */
  function Written(crc: Checksum, vs: Option<seq<Variable>>): Option<seq<Byte>> {
    if vs.None? then None else WriteAll(crc, vs.value)
  }

  function Prepend(front: seq<Byte>, rest: Option<seq<Byte>>): Option<seq<Byte>> {
    if rest.None? then None else Some(front + rest.value)
  }

  lemma PrependParts(a: seq<Byte>, b: seq<Byte>, rest: Option<seq<Byte>>)
    ensures Prepend([], rest) == rest
    ensures Prepend(a + b, rest) == Prepend(a, Prepend(b, rest))
  {
    if rest.Some? {
      assert [] + rest.value == rest.value && a + b + rest.value == a + (b + rest.value);
    }
  }

  lemma PrependNone(a: seq<Byte>)
    ensures Prepend(a, None) == None
  {}

  lemma WrittenNothing(crc: Checksum, ret: seq<Byte>)
    ensures Prepend(ret, Written(crc, Some([]))) == Some(ret)
  {
    assert ret + [] == ret;
  }

  /** One more record in front. */
  lemma WrittenCons(crc: Checksum, v: Option<Variable>, vs: Option<seq<Variable>>)
    ensures Written(crc, if v.None? || vs.None? then None else Some([v.value] + vs.value))
         == if v.None? || CreateRecord(crc, v.value).None? then None
            else Prepend(CreateRecord(crc, v.value).value, Written(crc, vs))
  {
    hide CreateRecord;
    if v.Some? && vs.Some? {
      assert ([v.value] + vs.value)[1..] == vs.value;
    }
  }

  /** vlist_to_binary */
  function VlistToBinary(crc: Checksum, knobs: seq<Knob>, st: State): Option<seq<Byte>>
    requires |st| == |knobs|
  {
    Written(crc, ValuedFrom(knobs, st, 0))
  }

  /** generate_delta_binary_array */
  function DeltaBinary(crc: Checksum, knobs: seq<Knob>, st: State): Option<seq<Byte>>
    requires |st| == |knobs|
  {
    Written(crc, ChangedFrom(knobs, st, 0))
  }

  predicate Known(v: Variable, own: seq<Variable>) {
    exists o <- own :: o.guid == v.guid && o.name == v.name
  }

  /** get_var_list_for_instance: the variables whose namespace and name the schema's own list has. */
  function KnownTo(vs: seq<Variable>, own: seq<Variable>): seq<Variable> {
    if vs == [] then []
    else
      var rest := KnownTo(vs[1..], own);
      if Known(vs[0], own) then [vs[0]] + rest else rest
  }

  /** load_default_from_bin */
  function LoadBinary(crc: Checksum, knobs: seq<Knob>, st: State, bytes: seq<Byte>): Loaded
    requires |st| == |knobs|
  {
    var vs := ReadAll(crc, bytes);
    var ownBytes := VlistToBinary(crc, knobs, st);
    var own := if ownBytes.Some? then ReadAll(crc, ownBytes.value) else None;
    if vs.None? || own.None? then Loaded(st, 0, false)
    else ApplyVariables(knobs, st, KnownTo(vs.value, own.value))
  }

  /** Knobs that fit the binary format: enum numbers in 32 bits, names and data in the size fields. */
  predicate Binable(k: Knob) {
    EnumsFit(k.decl.format) && SizesFit(k)
  }

  predicate AllBinable(knobs: seq<Knob>) {
    forall i :: 0 <= i < |knobs| ==> Binable(knobs[i])
  }

  predicate Valued(st: State) {
    forall i :: 0 <= i < |st| ==> st[i].Some?
  }

  /** What a knob is written as: None counts as false for a bool. */
  function Shown(k: Knob, v: Option<Value>): Option<Value> {
    if v.None? && k.decl.format.BoolF? then Some(Flag(false)) else v
  }

  function ShownState(knobs: seq<Knob>, st: State): (r: State)
    requires |st| == |knobs|
    ensures |r| == |st|
  {
    seq(|st|, i requires 0 <= i < |st| => Shown(knobs[i], st[i]))
  }

  /** Every knob has a value or is a bool. */
  predicate Exportable(knobs: seq<Knob>, st: State)
    requires |st| == |knobs|
  {
    Valued(ShownState(knobs, st))
  }

  lemma ShownOk(k: Knob, v: Option<Value>)
    requires KnobOk(k) && ValueOk(k, v)
    ensures ValueOk(k, Shown(k, v))
  {}

  lemma ShownStateOk(knobs: seq<Knob>, st: State)
    requires KnobsOk(knobs) && StateOk(knobs, st)
    ensures StateOk(knobs, ShownState(knobs, st))
    ensures Valued(st) ==> ShownState(knobs, st) == st
  {
    hide KnobOk, ValueOk;
    forall i | 0 <= i < |knobs| ensures ValueOk(knobs[i], ShownState(knobs, st)[i]) {
      ShownOk(knobs[i], st[i]);
    }
  }

  /** struct.pack sees no difference between None and False, and takes None for nothing else. */
  lemma ShownVariable(k: Knob, v: Option<Value>)
    ensures KnobVariable(k, v) == if Shown(k, v).Some? then KnobVariable(k, Shown(k, v)) else None
  {}

  lemma KnobVariableOk(k: Knob, v: Option<Value>)
    requires KnobOk(k) && Binable(k) && v.Some? && ValueOk(k, v)
    ensures KnobVariable(k, v).Some? && Storable(KnobVariable(k, v).value)
    ensures |KnobVariable(k, v).value.data| == Size(k.decl.format)
    ensures NameText(KnobVariable(k, v).value.name) == k.decl.name
    ensures Decode(k.decl.format, KnobVariable(k, v).value.data) == v
  {
    StoredEncodes(k, v);
    Utf16Identifier(k.decl.name);
  }

  /** Every element of a list of variables can be stored and read back. */
  predicate AllStorable(vs: seq<Variable>) {
    forall v <- vs :: Storable(v)
  }

  predicate Carries(vs: seq<Variable>, k: Knob) {
    exists v <- vs :: v.guid == k.namespace && v.name == Utf16(k.decl.name)
  }

  lemma {:induction false} ValuedFromOk(knobs: seq<Knob>, st: State, i: nat)
    requires KnobsOk(knobs) && AllBinable(knobs) && StateOk(knobs, st) && Valued(st) && i <= |knobs|
    ensures ValuedFrom(knobs, st, i).Some? && AllStorable(ValuedFrom(knobs, st, i).value)
    ensures forall j :: i <= j < |knobs| ==> Carries(ValuedFrom(knobs, st, i).value, knobs[j])
    decreases |knobs| - i
  {
    hide KnobOk, Binable, ValueOk, KnobVariable, Storable, Utf16;
    if i < |knobs| {
      ValuedFromOk(knobs, st, i + 1);
      KnobVariableOk(knobs[i], st[i]);
      var v, rest := KnobVariable(knobs[i], st[i]).value, ValuedFrom(knobs, st, i + 1).value;
      var all := [v] + rest;
      KnobVariableNames(knobs[i], st[i]);
      assert v in all;
      forall j | i <= j < |knobs| ensures Carries(all, knobs[j]) {
        if j > i {
          assert Carries(rest, knobs[j]);
          var w :| w in rest && w.guid == knobs[j].namespace && w.name == Utf16(knobs[j].decl.name);
          assert w in all;
        }
      }
    }
  }

  lemma KnobVariableNames(k: Knob, v: Option<Value>)
    requires KnobVariable(k, v).Some?
    ensures KnobVariable(k, v).value.guid == k.namespace && KnobVariable(k, v).value.name == Utf16(k.decl.name)
  {}

  lemma {:induction false} ChangedFromOk(knobs: seq<Knob>, st: State, i: nat)
    requires KnobsOk(knobs) && AllBinable(knobs) && StateOk(knobs, st) && Exportable(knobs, st) && i <= |knobs|
    ensures ChangedFrom(knobs, st, i).Some? && AllStorable(ChangedFrom(knobs, st, i).value)
    ensures forall v <- ChangedFrom(knobs, st, i).value ::
              exists j :: i <= j < |knobs| && Some(v) == KnobVariable(knobs[j], st[j])
    decreases |knobs| - i
  {
    hide KnobOk, Binable, ValueOk, KnobVariable, Storable, Shown;
    if i < |knobs| {
      ChangedFromOk(knobs, st, i + 1);
      ShownVariable(knobs[i], st[i]);
      ShownOk(knobs[i], st[i]);
      assert ShownState(knobs, st)[i] == Shown(knobs[i], st[i]);
      KnobVariableOk(knobs[i], Shown(knobs[i], st[i]));
    }
  }

  lemma {:induction false} KnownToAll(vs: seq<Variable>, own: seq<Variable>)
    requires forall v <- vs :: Known(v, own)
    ensures KnownTo(vs, own) == vs
  {
    if vs != [] {
      KnownToAll(vs[1..], own);
      assert vs[0] in vs;
      assert [vs[0]] + vs[1..] == vs;
    }
  }

  /** The state agrees with target below i and holds the defaults from i on. */
  predicate HalfLoaded(knobs: seq<Knob>, st: State, target: State, i: nat) {
    |st| == |target| == |knobs| && i <= |knobs|
    && forall j :: 0 <= j < |knobs| ==> st[j] == if j < i then target[j] else Some(knobs[j].decl.deflt)
  }

  /** Loading one knob's own variable assigns exactly that knob. */
  lemma ApplyOwnVariable(knobs: seq<Knob>, st: State, i: nat, v: Option<Value>)
    requires KnobsOk(knobs) && UniqueKnobs(knobs) && |st| == |knobs| && i < |knobs|
    requires Binable(knobs[i]) && v.Some? && ValueOk(knobs[i], v)
    ensures KnobVariable(knobs[i], v).Some?
    ensures ApplyVariable(knobs, st, KnobVariable(knobs[i], v).value) == Loaded(st[i := v], 1, true)
  {
    hide FindFrom, Encode, Decode, Utf16, NameText, CheckBounds, Storable, Binable, Shaped, MemberOk, NamesValid;
    var k := knobs[i];
    var root := SubKnob([], k.decl.format, !k.decl.format.StructF?);
    assert root in SubKnobs(k.decl.format);
    KnobVariableOk(k, v);
    FindOwn(knobs, i, root);
    assert PathName(k.decl.name, root.path) == k.decl.name;
    KnobVariableNames(k, v);
  }

  lemma {:induction false} LoadChanged(knobs: seq<Knob>, st: State, source: State, i: nat)
    requires KnobsOk(knobs) && UniqueKnobs(knobs) && AllBinable(knobs)
    requires StateOk(knobs, source) && Exportable(knobs, source)
    requires HalfLoaded(knobs, st, ShownState(knobs, source), i)
    ensures ChangedFrom(knobs, source, i).Some?
    ensures var r := ApplyVariables(knobs, st, ChangedFrom(knobs, source, i).value);
            r.ok && r.state == ShownState(knobs, source)
    decreases |knobs| - i
  {
    hide KnobOk, Binable, ValueOk, KnobVariable, ApplyVariable, Shown;
    ChangedFromOk(knobs, source, i);
    var target := ShownState(knobs, source);
    if i == |knobs| {
      assert st == target;
    } else {
      var st' := st[i := target[i]];
      LoadChanged(knobs, st', source, i + 1);
      ShownVariable(knobs[i], source[i]);
      if source[i] == Some(knobs[i].decl.deflt) {
        assert st' == st by { ShownValue(knobs[i], source[i]); }
      } else {
        ShownOk(knobs[i], source[i]);
        ApplyOwnVariable(knobs, st, i, target[i]);
        var v, rest := KnobVariable(knobs[i], source[i]).value, ChangedFrom(knobs, source, i + 1).value;
        assert ([v] + rest)[1..] == rest;
      }
    }
  }

  lemma ShownValue(k: Knob, v: Option<Value>)
    requires v.Some?
    ensures Shown(k, v) == v
  {}

  lemma DefaultsOk(knobs: seq<Knob>)
    requires KnobsOk(knobs)
    ensures StateOk(knobs, Defaults(knobs)) && Valued(Defaults(knobs))
  {
    forall i | 0 <= i < |knobs| ensures ValueOk(knobs[i], Defaults(knobs)[i]) {
      assert KnobOk(knobs[i]);
    }
  }

  /** Every changed variable carries a namespace and name that the schema's own list has too. */
  lemma ChangedAreKnown(knobs: seq<Knob>, st: State, own: seq<Variable>)
    requires KnobsOk(knobs) && AllBinable(knobs) && StateOk(knobs, st) && Exportable(knobs, st)
    requires forall j :: 0 <= j < |knobs| ==> Carries(own, knobs[j])
    ensures ChangedFrom(knobs, st, 0).Some?
    ensures KnownTo(ChangedFrom(knobs, st, 0).value, own) == ChangedFrom(knobs, st, 0).value
  {
    hide KnobOk, Binable, ValueOk, KnobVariable, Storable, Utf16;
    ChangedFromOk(knobs, st, 0);
    var vs := ChangedFrom(knobs, st, 0).value;
    forall v | v in vs ensures Known(v, own) {
      var j :| 0 <= j < |knobs| && Some(v) == KnobVariable(knobs[j], st[j]);
      KnobVariableNames(knobs[j], st[j]);
      assert Carries(own, knobs[j]);
    }
    KnownToAll(vs, own);
  }

  /**
   Delta plus defaults is the whole, in binary: the delta exists if and only if every knob has
   a value or is a bool; loaded into the schema at its defaults it restores every value, and
   false for a bool without one.
   */
  lemma DeltaBinaryRestores(crc: Checksum, knobs: seq<Knob>, st: State)
    requires KnobsOk(knobs) && UniqueKnobs(knobs) && AllBinable(knobs) && StateOk(knobs, st)
    ensures DeltaBinary(crc, knobs, st).Some? <==> Exportable(knobs, st)
    ensures DeltaBinary(crc, knobs, st).Some? ==>
              var r := LoadBinary(crc, knobs, Defaults(knobs), DeltaBinary(crc, knobs, st).value);
              r.ok && r.state == ShownState(knobs, st)
  {
    hide KnobOk, Binable, ValueOk, KnobVariable, Storable, ReadAll, ApplyVariables;
    if Exportable(knobs, st) {
      ExportableRestores(crc, knobs, st);
    } else {
      var i :| 0 <= i < |knobs| && Shown(knobs[i], st[i]).None?;
      ChangedRaises(knobs, st, 0, i);
    }
  }

  lemma {:induction false} ChangedRaises(knobs: seq<Knob>, st: State, from: nat, i: nat)
    requires |st| == |knobs| && from <= i < |knobs| && Shown(knobs[i], st[i]).None?
    ensures ChangedFrom(knobs, st, from).None?
    decreases i - from
  {
    hide KnobVariable;
    if from < i {
      ChangedRaises(knobs, st, from + 1, i);
    } else {
      ShownVariable(knobs[i], st[i]);
    }
  }

  lemma ExportableRestores(crc: Checksum, knobs: seq<Knob>, st: State)
    requires KnobsOk(knobs) && UniqueKnobs(knobs) && AllBinable(knobs) && StateOk(knobs, st) && Exportable(knobs, st)
    ensures DeltaBinary(crc, knobs, st).Some?
    ensures var r := LoadBinary(crc, knobs, Defaults(knobs), DeltaBinary(crc, knobs, st).value);
            r.ok && r.state == ShownState(knobs, st)
  {
    hide KnobOk, Binable, ValueOk, KnobVariable, Storable, ReadAll, ApplyVariables, Shown;
    var d := Defaults(knobs);
    DefaultsOk(knobs);
    ChangedFromOk(knobs, st, 0);
    ReadWriteAll(crc, ChangedFrom(knobs, st, 0).value);
    ValuedFromOk(knobs, d, 0);
    ReadWriteAll(crc, ValuedFrom(knobs, d, 0).value);
    ChangedAreKnown(knobs, st, ValuedFrom(knobs, d, 0).value);
    LoadChanged(knobs, d, st, 0);
  }

  /** The variable of knob i is written if and only if the knob is one of those to write. */
  lemma {:induction false} ChangedCarries(knobs: seq<Knob>, st: State, from: nat, i: nat)
    requires KnobsOk(knobs) && UniqueKnobs(knobs) && |st| == |knobs| && from <= |knobs| && i < |knobs|
    requires ChangedFrom(knobs, st, from).Some?
    ensures Carries(ChangedFrom(knobs, st, from).value, knobs[i]) <==>
            from <= i && st[i] != Some(knobs[i].decl.deflt)
    decreases |knobs| - from
  {
    hide KnobVariable, KnobOk, Carries;
    if from == |knobs| {
      NothingCarried(knobs[i]);
    } else {
      ChangedCarries(knobs, st, from + 1, i);
      if st[from] != Some(knobs[from].decl.deflt) {
        OneCarried(knobs, st, from, i, ChangedFrom(knobs, st, from + 1).value);
      }
    }
  }

  /** The binary delta, read back, has a variable for exactly the knobs whose values differ from their defaults. */
  lemma DeltaListsChanged(crc: Checksum, knobs: seq<Knob>, st: State, i: nat)
    requires KnobsOk(knobs) && UniqueKnobs(knobs) && AllBinable(knobs) && StateOk(knobs, st) && Exportable(knobs, st)
    requires i < |knobs|
    ensures DeltaBinary(crc, knobs, st).Some? && ReadAll(crc, DeltaBinary(crc, knobs, st).value).Some?
    ensures Carries(ReadAll(crc, DeltaBinary(crc, knobs, st).value).value, knobs[i]) <==>
            st[i] != Some(knobs[i].decl.deflt)
  {
    hide KnobOk, Binable, ValueOk, Storable, ReadAll, Carries, ChangedFrom, Shown;
    ChangedFromOk(knobs, st, 0);
    ReadWriteAll(crc, ChangedFrom(knobs, st, 0).value);
    ChangedCarries(knobs, st, 0, i);
  }

  /** The same for the list of all values: a variable for exactly the knobs that have one. */
  lemma {:induction false} ValuedCarries(knobs: seq<Knob>, st: State, from: nat, i: nat)
    requires KnobsOk(knobs) && UniqueKnobs(knobs) && |st| == |knobs| && from <= |knobs| && i < |knobs|
    requires ValuedFrom(knobs, st, from).Some?
    ensures Carries(ValuedFrom(knobs, st, from).value, knobs[i]) <==> from <= i && st[i].Some?
    decreases |knobs| - from
  {
    hide KnobVariable, KnobOk, Carries;
    if from == |knobs| {
      NothingCarried(knobs[i]);
    } else {
      ValuedCarries(knobs, st, from + 1, i);
      if st[from].Some? {
        OneCarried(knobs, st, from, i, ValuedFrom(knobs, st, from + 1).value);
      }
    }
  }

  lemma NothingCarried(k: Knob)
    ensures !Carries([], k)
  {}

  /** One more variable in front carries its own knob and no other. */
  lemma OneCarried(knobs: seq<Knob>, st: State, from: nat, i: nat, rest: seq<Variable>)
    requires KnobsOk(knobs) && UniqueKnobs(knobs) && |st| == |knobs| && from < |knobs| && i < |knobs|
    requires KnobVariable(knobs[from], st[from]).Some?
    ensures Carries([KnobVariable(knobs[from], st[from]).value] + rest, knobs[i]) <==>
            from == i || Carries(rest, knobs[i])
  {
    hide KnobVariable, MemberOk, NamesValid, Utf16, NameText;
    var v := KnobVariable(knobs[from], st[from]).value;
    var all := [v] + rest;
    KnobVariableNames(knobs[from], st[from]);
    assert KnobOk(knobs[from]) && KnobOk(knobs[i]);
    Utf16Identifier(knobs[from].decl.name);
    Utf16Identifier(knobs[i].decl.name);
    assert v in all && forall w <- rest :: w in all;
    assert forall w <- all :: w == v || w in rest;
  }

  /** The filter of the reader keeps every variable the schema's own list has, as often as it occurs, and no other. */
  lemma {:induction false} KnownToExact(vs: seq<Variable>, own: seq<Variable>, v: Variable)
    ensures multiset(KnownTo(vs, own))[v] == if Known(v, own) then multiset(vs)[v] else 0
  {
    hide Known;
    if vs != [] {
      KnownToExact(vs[1..], own, v);
      assert vs == [vs[0]] + vs[1..];
    }
  }

  // UEFI variable attributes
  const NON_VOLATILE := 1
  const BOOTSERVICE_ACCESS := 2
  const RUNTIME_ACCESS := 4

  /** Every variable a delta is read back as is kept over resets, and can be read before and after boot. */
  lemma DeltaAttributes(crc: Checksum, knobs: seq<Knob>, st: State)
    requires KnobsOk(knobs) && AllBinable(knobs) && StateOk(knobs, st) && Exportable(knobs, st)
    ensures DeltaBinary(crc, knobs, st).Some? && ReadAll(crc, DeltaBinary(crc, knobs, st).value).Some?
    ensures forall v <- ReadAll(crc, DeltaBinary(crc, knobs, st).value).value ::
              v.attributes == NON_VOLATILE + BOOTSERVICE_ACCESS + RUNTIME_ACCESS
  {
    hide KnobOk, Binable, ValueOk, KnobVariable, Storable, ReadAll, Shown;
    ChangedFromOk(knobs, st, 0);
    var vs := ChangedFrom(knobs, st, 0).value;
    ReadWriteAll(crc, vs);
    forall v | v in vs ensures v.attributes == NON_VOLATILE + BOOTSERVICE_ACCESS + RUNTIME_ACCESS {
      var j :| 0 <= j < |knobs| && Some(v) == KnobVariable(knobs[j], st[j]);
      KnobVariableAttributes(knobs[j], st[j]);
    }
  }

  lemma KnobVariableAttributes(k: Knob, v: Option<Value>)
    requires KnobVariable(k, v).Some?
    ensures KnobVariable(k, v).value.attributes == NON_VOLATILE + BOOTSERVICE_ACCESS + RUNTIME_ACCESS
  {
    hide Encode;
  }

  // ------------------------------------------------------------------------- CSV

  /** The first element of get_delta_vlist: the names of the changed knobs. */
  function ChangedNames(knobs: seq<Knob>, st: State): set<string>
    requires |st| == |knobs|
  {
    set i | 0 <= i < |knobs| && st[i] != Some(knobs[i].decl.deflt) :: knobs[i].decl.name
  }

  /** write_csv writes the knob: in a full export, or if a knob of its name has changed. */
  predicate Exported(k: Knob, full: bool, names: set<string>) {
    full || k.decl.name in names
  }

  /**
   The rows of write_csv(subknobs=False) from knob i on; guid is the namespace last written.
   Every written value is also encoded; None is the exception that raises, which every knob
   without a value causes unless it is a bool.
   */
  function CsvRowsFrom(knobs: seq<Knob>, st: State, full: bool, names: set<string>, guid: Option<Guid>, i: nat)
    : Option<seq<Row>>
    requires KnobsOk(knobs) && StateOk(knobs, st) && i <= |knobs|
    decreases |knobs| - i
  {
    if i == |knobs| then Some([])
    else
      var k, v := knobs[i], Shown(knobs[i], st[i]);
      ShownOk(k, st[i]);
      if !Exported(k, full, names) then CsvRowsFrom(knobs, st, full, names, guid, i + 1)
      else if v.None? || Encode(k.decl.format, v.value).None? then None
      else
        var cell := if guid != Some(k.namespace) then Literal(Some(k.namespace)) else Star;
        var rest := CsvRowsFrom(knobs, st, full, names, Some(k.namespace), i + 1);
        if rest.None? then None else Some([Row(cell, k.decl.name, Print(k.decl.format, v.value))] + rest.value)
  }

  /** write_csv, which first builds the binary delta for the names of the changed knobs. */
  function CsvRows(crc: Checksum, knobs: seq<Knob>, st: State, full: bool): Option<seq<Row>>
    requires KnobsOk(knobs) && StateOk(knobs, st)
  {
    if DeltaBinary(crc, knobs, st).None? then None
    else CsvRowsFrom(knobs, st, full, ChangedNames(knobs, st), None, 0)
  }

  /** Every value of the knob survives its text form (Text.TextRoundTripIff). */
  ghost predicate ReadsBack(k: Knob) {
    NamesBalanced(k.decl.format) && Readable(k.decl.format, false)
  }

  ghost predicate AllReadBack(knobs: seq<Knob>) {
    forall i :: 0 <= i < |knobs| ==> ReadsBack(knobs[i])
  }

  lemma IdentTrimmed(s: string)
    requires IsIdent(s)
    ensures Strip(s) == s
  {
    assert IdentChar(s[|s| - 1]);
    TrimmedStrip(s);
  }

  /** Reading one knob's own row assigns exactly that knob. */
  lemma ApplyOwnRow(knobs: seq<Knob>, st: State, i: nat, cell: Cell, v: Option<Value>)
    requires KnobsOk(knobs) && UniqueKnobs(knobs) && |st| == |knobs| && i < |knobs|
    requires ReadsBack(knobs[i]) && v.Some? && ValueOk(knobs[i], v)
    ensures ApplyRow(knobs, st, Some(knobs[i].namespace),
                     Row(cell, knobs[i].decl.name, Print(knobs[i].decl.format, v.value)))
         == Loaded(st[i := v], 1, true)
  {
    hide FindFrom, Parse, Print, CheckBounds, MemberOk, NamesValid, Strip, Readable, IsIdent, Level;
    var k := knobs[i];
    var root := SubKnob([], k.decl.format, !k.decl.format.StructF?);
    assert root in SubKnobs(k.decl.format);
    FindOwn(knobs, i, root);
    assert PathName(k.decl.name, root.path) == k.decl.name;
    IdentTrimmed(k.decl.name);
    ParsePrint(k.decl.format, v.value, Default, false);
    TrimmedStrip(Print(k.decl.format, v.value));
  }

  /** The reader's namespace follows the writer's: '*' always stands for the last one written. */
  lemma {:induction false} ReadOwnRows(knobs: seq<Knob>, st: State, target: State, full: bool, names: set<string>,
                                       guid: Option<Guid>, i: nat)
    requires KnobsOk(knobs) && UniqueKnobs(knobs) && AllReadBack(knobs)
    requires StateOk(knobs, target) && Valued(target) && HalfLoaded(knobs, st, target, i)
    requires ChangedNames(knobs, target) <= names && CsvRowsFrom(knobs, target, full, names, guid, i).Some?
    ensures var r := ApplyRows(knobs, st, guid, CsvRowsFrom(knobs, target, full, names, guid, i).value);
            r.ok && r.state == target
    decreases |knobs| - i
  {
    hide KnobOk, ValueOk, ApplyRow, Print, ReadsBack, Encode, Shown;
    if i == |knobs| {
      assert st == target;
    } else {
      ShownValue(knobs[i], target[i]);
      var k, st' := knobs[i], st[i := target[i]];
      if !Exported(k, full, names) {
        assert target[i] == Some(k.decl.deflt);
        assert st' == st;
        ReadOwnRows(knobs, st', target, full, names, guid, i + 1);
      } else {
        assert ValueOk(k, target[i]);
        assert Shaped(k.decl.format, target[i].value) by { ShapedOfValueOk(k, target[i]); }
        var cell := if guid != Some(k.namespace) then Literal(Some(k.namespace)) else Star;
        var row := Row(cell, k.decl.name, Print(k.decl.format, target[i].value));
        var rest := CsvRowsFrom(knobs, target, full, names, Some(k.namespace), i + 1).value;
        ReadOwnRows(knobs, st', target, full, names, Some(k.namespace), i + 1);
        ApplyOwnRow(knobs, st, i, cell, target[i]);
        assert CsvRowsFrom(knobs, target, full, names, guid, i) == Some([row] + rest);
        assert ([row] + rest)[1..] == rest && NextGuid(guid, row) == Some(k.namespace);
      }
    }
  }

  /** Row m is the row of knob at[m]; its namespace is a star if the row before has the same one. */
  ghost predicate RowOf(knobs: seq<Knob>, st: State, guid: Option<Guid>, rows: seq<Row>, at: seq<nat>, m: nat)
    requires |st| == |knobs|
  {
    && m < |rows| == |at| && at[m] < |knobs| && rows[m].Row?
    && var k, v := knobs[at[m]], Shown(knobs[at[m]], st[at[m]]);
       var before := if m == 0 then guid else if at[m - 1] < |knobs| then Some(knobs[at[m - 1]].namespace) else None;
       && rows[m].knob == k.decl.name
       && rows[m].guid == (if before == Some(k.namespace) then Star else Literal(Some(k.namespace)))
       && v.Some? && Shaped(k.decl.format, v.value) && rows[m].value == Print(k.decl.format, v.value)
  }

  /** The export has one row for each exported knob, in schema order, with its name, its namespace and its value. */
  lemma {:induction false} RowsExact(knobs: seq<Knob>, st: State, full: bool, names: set<string>, guid: Option<Guid>,
                                     i: nat) returns (at: seq<nat>)
    requires KnobsOk(knobs) && StateOk(knobs, st) && i <= |knobs|
    requires CsvRowsFrom(knobs, st, full, names, guid, i).Some?
    ensures forall m, n :: 0 <= m < n < |at| ==> at[m] < at[n]
    ensures forall j :: i <= j < |knobs| ==> (j in at <==> full || knobs[j].decl.name in names)
    ensures forall m :: 0 <= m < |at| ==> i <= at[m] < |knobs|
    ensures |at| == |CsvRowsFrom(knobs, st, full, names, guid, i).value|
    ensures forall m :: 0 <= m < |at| ==>
              RowOf(knobs, st, guid, CsvRowsFrom(knobs, st, full, names, guid, i).value, at, m)
    decreases |knobs| - i
  {
    hide KnobOk, ValueOk, Print, Encode, Shown, RowOf;
    if i == |knobs| {
      at := [];
    } else {
      var k := knobs[i];
      if !Exported(k, full, names) {
        at := RowsExact(knobs, st, full, names, guid, i + 1);
      } else {
        var more := RowsExact(knobs, st, full, names, Some(k.namespace), i + 1);
        at := [i] + more;
        var rest := CsvRowsFrom(knobs, st, full, names, Some(k.namespace), i + 1).value;
        FirstRow(knobs, st, full, names, guid, i, more);
        forall m | 0 < m < |at|
          ensures RowOf(knobs, st, guid, CsvRowsFrom(knobs, st, full, names, guid, i).value, at, m)
        {
          LaterRow(knobs, st, guid, Some(k.namespace), CsvRowsFrom(knobs, st, full, names, guid, i).value[0], rest, i,
                   more, m - 1);
        }
      }
    }
  }

  lemma FirstRow(knobs: seq<Knob>, st: State, full: bool, names: set<string>, guid: Option<Guid>, i: nat,
                 more: seq<nat>)
    requires KnobsOk(knobs) && StateOk(knobs, st) && i < |knobs| && Exported(knobs[i], full, names)
    requires CsvRowsFrom(knobs, st, full, names, guid, i).Some?
    ensures CsvRowsFrom(knobs, st, full, names, Some(knobs[i].namespace), i + 1).Some?
    ensures var rows := CsvRowsFrom(knobs, st, full, names, guid, i).value;
            var rest := CsvRowsFrom(knobs, st, full, names, Some(knobs[i].namespace), i + 1).value;
            && rows != [] && rows == [rows[0]] + rest
            && (|more| == |rest| ==> RowOf(knobs, st, guid, rows, [i] + more, 0))
  {
    hide KnobOk, ValueOk, Print, Encode;
    ShownOk(knobs[i], st[i]);
    if Shown(knobs[i], st[i]).Some? {
      ShapedOfValueOk(knobs[i], Shown(knobs[i], st[i]));
    }
  }

  lemma LaterRow(knobs: seq<Knob>, st: State, guid: Option<Guid>, next: Option<Guid>, row: Row, rest: seq<Row>, i: nat,
                 more: seq<nat>, m: nat)
    requires |st| == |knobs| && i < |knobs| && next == Some(knobs[i].namespace)
    requires RowOf(knobs, st, next, rest, more, m)
    ensures RowOf(knobs, st, guid, [row] + rest, [i] + more, m + 1)
  {
    hide Print, Shown;
  }

  lemma ShapedOfValueOk(k: Knob, v: Option<Value>)
    requires v.Some? && ValueOk(k, v)
    ensures Shaped(k.decl.format, v.value)
  {}

  /**
   Delta plus defaults is the whole, in CSV: the rows of a delta (or full) export, with
   their '*' namespaces, read into the schema at its defaults restore every value, and false
   for a bool without one.
   */
  lemma CsvRestores(crc: Checksum, knobs: seq<Knob>, st: State, full: bool)
    requires KnobsOk(knobs) && UniqueKnobs(knobs) && AllReadBack(knobs) && StateOk(knobs, st)
    requires CsvRows(crc, knobs, st, full).Some?
    ensures var r := ApplyRows(knobs, Defaults(knobs), None, CsvRows(crc, knobs, st, full).value);
            r.ok && r.state == ShownState(knobs, st)
    ensures Valued(st) ==> ShownState(knobs, st) == st
  {
    hide KnobOk, ValueOk, ReadsBack, ApplyRows, CsvRowsFrom, DeltaBinary, Shown;
    var target, names := ShownState(knobs, st), ChangedNames(knobs, st);
    ShownStateOk(knobs, st);
    RowsOfShown(knobs, st, full, names, None, 0);
    RowsEncodeIff(knobs, st, full, names, None, 0);
    forall i | 0 <= i < |knobs| ensures target[i].Some? {
      if st[i].Some? {
        ShownValue(knobs[i], st[i]);
      } else {
        assert knobs[i].decl.name in names;
        assert LeavesFit(knobs[i], target[i]);
      }
    }
    forall i | 0 <= i < |knobs| && target[i] != Some(knobs[i].decl.deflt) ensures knobs[i].decl.name in names {
      if st[i].Some? {
        ShownValue(knobs[i], st[i]);
      }
    }
    ReadOwnRows(knobs, Defaults(knobs), target, full, names, None, 0);
  }

  /** The rows depend only on what the knobs are written as. */
  lemma {:induction false} RowsOfShown(knobs: seq<Knob>, st: State, full: bool, names: set<string>,
                                       guid: Option<Guid>, i: nat)
    requires KnobsOk(knobs) && StateOk(knobs, st) && StateOk(knobs, ShownState(knobs, st)) && i <= |knobs|
    ensures CsvRowsFrom(knobs, st, full, names, guid, i)
         == CsvRowsFrom(knobs, ShownState(knobs, st), full, names, guid, i)
    decreases |knobs| - i
  {
    hide KnobOk, ValueOk, Print, Encode;
    if i < |knobs| {
      var k := knobs[i];
      assert Shown(k, Shown(k, st[i])) == Shown(k, st[i]) == ShownState(knobs, st)[i];
      RowsOfShown(knobs, st, full, names, if Exported(k, full, names) then Some(k.namespace) else guid, i + 1);
    }
  }

  /** The two sizes of the knob's record fit their signed fields. */
  predicate SizesFit(k: Knob) {
    2 * (|k.decl.name| + 1) <= I32.Max() && Size(k.decl.format) <= I32.Max()
  }

  /** The value of knob i encodes: each of its enum numbers fits 32 bits. */
  predicate LeavesFit(k: Knob, v: Option<Value>) {
    v.Some? && Shaped(k.decl.format, v.value) && EnumLeavesFit(k.decl.format, v.value)
  }

  lemma EncodesIffFits(k: Knob, v: Option<Value>)
    requires KnobOk(k) && v.Some? && ValueOk(k, v)
    ensures Encode(k.decl.format, v.value).Some? <==> LeavesFit(k, v)
    ensures Encode(k.decl.format, v.value).Some? ==> |Encode(k.decl.format, v.value).value| == Size(k.decl.format)
  {
    hide Encode, EnumLeavesFit, NamesValid;
    var f := k.decl.format;
    ImplicitBoundShaped(f, Min);
    ImplicitBoundShaped(f, Max);
    BoundsNest(f, v.value, k.decl.min, k.decl.max, Implicit(f, Min), Implicit(f, Max));
    InBoundsEncodesIff(f, v.value);
    if Encode(f, v.value).Some? {
      DecodeEncode(f, v.value);
    }
  }

  lemma {:induction false} ChangedEncodeIff(crc: Checksum, knobs: seq<Knob>, st: State, i: nat)
    requires KnobsOk(knobs) && StateOk(knobs, st) && i <= |knobs|
    ensures Written(crc, ChangedFrom(knobs, st, i)).Some? <==>
            forall j :: i <= j < |knobs| && st[j] != Some(knobs[j].decl.deflt) ==>
              LeavesFit(knobs[j], Shown(knobs[j], st[j])) && SizesFit(knobs[j])
    decreases |knobs| - i
  {
    hide KnobOk, ValueOk, Encode, LeavesFit, SizesFit, KnobVariable, CreateRecord, WriteAll, Shown;
    if i == |knobs| {
      WrittenNothing(crc, []);
    } else {
      ChangedEncodeIff(crc, knobs, st, i + 1);
      if st[i] != Some(knobs[i].decl.deflt) {
        var v := KnobVariable(knobs[i], st[i]);
        WrittenCons(crc, v, ChangedFrom(knobs, st, i + 1));
        RecordIffFits(crc, knobs[i], st[i]);
      }
    }
  }

  lemma RecordIffFits(crc: Checksum, k: Knob, v: Option<Value>)
    requires KnobOk(k) && ValueOk(k, v)
    ensures var x := KnobVariable(k, v);
            x.Some? && CreateRecord(crc, x.value).Some? <==> LeavesFit(k, Shown(k, v)) && SizesFit(k)
  {
    hide KnobOk, ValueOk, Encode, Shown;
    ShownVariable(k, v);
    ShownOk(k, v);
    if Shown(k, v).Some? {
      EncodesIffFits(k, Shown(k, v));
    }
  }

  lemma {:induction false} RowsEncodeIff(knobs: seq<Knob>, st: State, full: bool, names: set<string>,
                                         guid: Option<Guid>, i: nat)
    requires KnobsOk(knobs) && StateOk(knobs, st) && i <= |knobs|
    ensures CsvRowsFrom(knobs, st, full, names, guid, i).Some? <==>
            forall j :: i <= j < |knobs| && Exported(knobs[j], full, names) ==>
              LeavesFit(knobs[j], Shown(knobs[j], st[j]))
    decreases |knobs| - i
  {
    hide KnobOk, ValueOk, Encode, Exported, Print, Shown, EnumLeavesFit;
    if i < |knobs| {
      var k := knobs[i];
      RowsEncodeIff(knobs, st, full, names, if Exported(k, full, names) then Some(k.namespace) else guid, i + 1);
      ShownOk(k, st[i]);
      if Shown(k, st[i]).Some? {
        EncodesIffFits(k, Shown(k, st[i]));
      }
    }
  }

  /**
   The export raises, exactly: unless every exported knob has a value or is a bool, every enum
   number of an exported knob fits 32 bits, and the record of every changed knob its size
   fields. A negative enum number, which the generator of C code supports, is enough.
   */
  lemma CsvExportsIff(crc: Checksum, knobs: seq<Knob>, st: State, full: bool)
    requires KnobsOk(knobs) && StateOk(knobs, st)
    ensures CsvRows(crc, knobs, st, full).Some? <==>
            forall i :: 0 <= i < |knobs| ==>
              && (Exported(knobs[i], full, ChangedNames(knobs, st)) ==> LeavesFit(knobs[i], Shown(knobs[i], st[i])))
              && (st[i] != Some(knobs[i].decl.deflt) ==> SizesFit(knobs[i]))
  {
    hide KnobOk, ValueOk, LeavesFit, SizesFit, ChangedFrom, CsvRowsFrom, Written, Shown;
    ChangedEncodeIff(crc, knobs, st, 0);
    RowsEncodeIff(knobs, st, full, ChangedNames(knobs, st), None, 0);
  }
}
