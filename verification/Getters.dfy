/**
 The constant offsets of the generated getters into the serialized configuration
 policy, and the agreement of those offsets with the variable list itself.
 */
module Getters {
  import opened Bytes
  import opened Formats
  import opened Binary
  import opened VarList
  import opened KnobStore
  import opened Delta

  /** get_variable_list_size */
  function RecordSize(k: Knob): nat {
    16 + 4 + 4 + 4 + 4 + (|k.decl.name| + 1) * 2 + Size(k.decl.format)
  }

  /** The bytes of the records of knobs i up to, not including, j. */
  function SpanSize(knobs: seq<Knob>, i: nat, j: nat): nat
    requires i <= j <= |knobs|
    decreases j - i
  {
    if i == j then 0 else RecordSize(knobs[i]) + SpanSize(knobs, i + 1, j)
  }

  lemma {:induction false} SpanExtends(knobs: seq<Knob>, i: nat, j: nat)
    requires i <= j < |knobs|
    ensures SpanSize(knobs, i, j + 1) == SpanSize(knobs, i, j) + RecordSize(knobs[j])
    decreases j - i
  {
    if i < j {
      SpanExtends(knobs, i + 1, j);
    }
  }

  /** get_conf_policy_size */
  method GetConfPolicySize(knobs: seq<Knob>) returns (size: nat)
    ensures size == SpanSize(knobs, 0, |knobs|)
  {
    size := 0;
    for i := 0 to |knobs|
      invariant size == SpanSize(knobs, 0, i)
    {
      size := size + RecordSize(knobs[i]);
      SpanExtends(knobs, 0, i);
    }
  }

  /** Where knob i's data starts inside the policy. */
  function GetterOffset(knobs: seq<Knob>, i: nat): nat
    requires i < |knobs|
  {
    var skip := 4 + Size(knobs[i].decl.format);
    SpanSize(knobs, 0, i) + RecordSize(knobs[i]) - skip
  }

  /** The running offset of write_uefi_getter_implementations: back over data and CRC, then past them. */
  method EmitOffsets(knobs: seq<Knob>) returns (offsets: seq<nat>)
    ensures |offsets| == |knobs|
    ensures forall i :: 0 <= i < |knobs| ==> offsets[i] == GetterOffset(knobs, i)
  {
    offsets := [];
    var offset := 0;
    for i := 0 to |knobs|
      invariant offset == SpanSize(knobs, 0, i)
      invariant |offsets| == i && forall j :: 0 <= j < i ==> offsets[j] == GetterOffset(knobs, j)
    {
      var k := knobs[i];
      offset := offset + RecordSize(k);
      offset := offset - (4 + Size(k.decl.format));
      offsets := offsets + [offset];
      offset := offset + 4 + Size(k.decl.format);
      SpanExtends(knobs, 0, i);
    }
  }

  predicate Ready(knobs: seq<Knob>, st: State) {
    KnobsOk(knobs) && AllBinable(knobs) && StateOk(knobs, st) && Valued(st)
  }

  /** With every knob valued, the variables are exactly one per knob, in order. */
  lemma {:induction false} OnePerKnob(knobs: seq<Knob>, st: State, i: nat)
    requires Ready(knobs, st) && i <= |knobs|
    ensures var vs := ValuedFrom(knobs, st, i);
            vs.Some? && |vs.value| == |knobs| - i
            && forall j :: i <= j < |knobs| ==> KnobVariable(knobs[j], st[j]) == Some(vs.value[j - i])
    decreases |knobs| - i
  {
    hide KnobOk, Binable, ValueOk, KnobVariable;
    if i < |knobs| {
      OnePerKnob(knobs, st, i + 1);
      KnobVariableOk(knobs[i], st[i]);
    }
  }

  /** get_variable_list_size is the length of the record create_vlist_buffer makes. */
  lemma RecordSizeExact(k: Knob, v: Option<Value>)
    requires KnobOk(k) && Binable(k) && v.Some? && ValueOk(k, v)
    ensures KnobVariable(k, v).Some? && VariableSize(KnobVariable(k, v).value) == RecordSize(k)
    ensures |KnobVariable(k, v).value.data| == Size(k.decl.format)
  {
    hide Encode, Decode;
    KnobVariableOk(k, v);
    KnobVariableNames(k, v);
  }

  lemma {:induction false} SpansAgree(knobs: seq<Knob>, st: State, vs: seq<Variable>, i: nat, j: nat)
    requires Ready(knobs, st) && i <= j <= |knobs| && |vs| == |knobs| - i
    requires forall k :: i <= k < |knobs| ==> KnobVariable(knobs[k], st[k]) == Some(vs[k - i])
    ensures SpanOf(vs, j - i) == SpanSize(knobs, i, j)
    decreases j - i
  {
    hide KnobOk, Binable, ValueOk, KnobVariable, RecordSize, VariableSize;
    if i < j {
      RecordSizeExact(knobs[i], st[i]);
      forall k | i + 1 <= k < |knobs| ensures KnobVariable(knobs[k], st[k]) == Some(vs[1..][k - (i + 1)]) {
        assert vs[1..][k - (i + 1)] == vs[k - i];
      }
      SpansAgree(knobs, st, vs[1..], i + 1, j);
    }
  }

  lemma KnobVariableData(k: Knob, v: Option<Value>)
    requires v.Some? && KnobVariable(k, v).Some?
    ensures Encode(k.decl.format, v.value) == Some(KnobVariable(k, v).value.data)
  {}

  /**
   In the policy of a fully valued schema, the bytes at a knob's getter offset are that
   knob's encoded value and the data of its record as the full reader returns it, and the
   policy has exactly the generated size.
   */
  lemma GetterReadsKnob(crc: Checksum, knobs: seq<Knob>, st: State, i: nat)
    requires Ready(knobs, st) && i < |knobs|
    ensures VlistToBinary(crc, knobs, st).Some?
    ensures var policy := VlistToBinary(crc, knobs, st).value;
            var n := Size(knobs[i].decl.format);
            var at := GetterOffset(knobs, i);
            && |policy| == SpanSize(knobs, 0, |knobs|)
            && at + n <= |policy|
            && Encode(knobs[i].decl.format, st[i].value) == Some(policy[at..at + n])
            && ReadAll(crc, policy).Some? && |ReadAll(crc, policy).value| == |knobs|
            && ReadAll(crc, policy).value[i].data == policy[at..at + n]
  {
    hide KnobOk, Binable, ValueOk, KnobVariable, ValuedFrom, SpanOf, SpanSize, Encode, ReadAll, WriteAll, RecordSize,
      VariableSize, Storable, Size;
    OnePerKnob(knobs, st, 0);
    var vs := ValuedFrom(knobs, st, 0).value;
    ValuedFromOk(knobs, st, 0);
    ReadWriteAll(crc, vs);
    SpansAgree(knobs, st, vs, 0, i);
    SpansAgree(knobs, st, vs, 0, |knobs|);
    RecordSizeExact(knobs[i], st[i]);
    RecordDataAt(crc, vs, i);
    KnobVariableData(knobs[i], st[i]);
  }

  const POLICY_HEADER_SIZE := 4

  /** The emitted getter on an initialised cache: bounds test, then a copy. None is EFI_COMPROMISED_DATA. */
  function GetFromCache(cache: seq<Byte>, offset: nat, size: nat): Option<seq<Byte>> {
    var at := POLICY_HEADER_SIZE + offset;
    if at + size > |cache| then None else Some(cache[at..at + size])
  }

  /** Through the cache, whatever its signature bytes, every getter returns its own knob's current value. */
  lemma GetterDecodes(crc: Checksum, knobs: seq<Knob>, st: State, i: nat, header: seq<Byte>)
    requires Ready(knobs, st) && i < |knobs| && |header| == POLICY_HEADER_SIZE
    ensures VlistToBinary(crc, knobs, st).Some?
    ensures var f := knobs[i].decl.format;
            var got := GetFromCache(header + VlistToBinary(crc, knobs, st).value, GetterOffset(knobs, i), Size(f));
            got.Some? && Decode(f, got.value) == st[i]
  {
    hide KnobOk, Binable, ValueOk, Encode, Decode, ReadAll, VlistToBinary, Size, RecordSize;
    GetterReadsKnob(crc, knobs, st, i);
    var policy := VlistToBinary(crc, knobs, st).value;
    var n, at := Size(knobs[i].decl.format), GetterOffset(knobs, i);
    assert (header + policy)[4 + at..4 + at + n] == policy[at..at + n];
    KnobVariableOk(knobs[i], st[i]);
  }
}
