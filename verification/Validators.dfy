/**
 The validators that the header generator emits for enums and knobs, and their
 agreement with the recursive bounds check they replace.
 */
module Validators {
  import opened Bytes
  import opened Formats
  import opened Paths

  // ------------------------------------------------------------ enum validators

  const INT_MAX := 0x7fff_ffff

  /** A width in bits that depends on the target: of long, or of the type an enum value is cast to. */
  type WordBits = n: nat | n == 32 || n == 64 witness 32

  /** The body of validate_enum_value_X: a switch over the labels, or a range with holes. */
  datatype EnumCheck = Switch(labels: seq<int>) | Ranged(low: int, high: int, holes: seq<int>)

  function LowNumber(values: seq<EnumValue>): (n: int)
    requires values != []
    ensures (exists e <- values :: e.number == n) && forall e <- values :: n <= e.number
  {
    var e := values[|values| - 1];
    if |values| == 1 then e.number
    else
      var n := LowNumber(values[..|values| - 1]);
      assert values == values[..|values| - 1] + [e];
      if e.number < n then e.number else n
  }

  function HighNumber(values: seq<EnumValue>): (n: int)
    requires values != []
    ensures (exists e <- values :: e.number == n) && forall e <- values :: e.number <= n
  {
    var e := values[|values| - 1];
    if |values| == 1 then e.number
    else
      var n := HighNumber(values[..|values| - 1]);
      assert values == values[..|values| - 1] + [e];
      if e.number > n then e.number else n
  }

  /** The numbers from lo up to, not including, hi that no value has. */
  function Holes(values: seq<EnumValue>, lo: int, hi: int): (r: seq<int>)
    ensures forall x :: x in r <==> lo <= x < hi && x !in EnumNumbers(values)
    decreases hi - lo
  {
    if lo >= hi then []
    else
      var r := Holes(values, lo, hi - 1);
      if hi - 1 in EnumNumbers(values) then r else r + [hi - 1]
  }

  function EnumCheckFor(values: seq<EnumValue>): EnumCheck
    requires values != []
  {
    var low, high := LowNumber(values), HighNumber(values);
    if high - low > |values| then Switch(seq(|values|, i requires 0 <= i < |values| => values[i].number))
    else Ranged(low, high, Holes(values, low, high))
  }

  /** The generator's scan for the extremes. */
  method ScanExtremes(values: seq<EnumValue>) returns (low: int, high: int)
    requires values != []
    ensures low == LowNumber(values) && high == HighNumber(values)
  {
    low, high := values[0].number, values[0].number;
    ghost var a, b := 0, 0;
    for i := 0 to |values|
      invariant 0 <= a < |values| && low == values[a].number && forall k :: 0 <= k < i ==> low <= values[k].number
      invariant 0 <= b < |values| && high == values[b].number && forall k :: 0 <= k < i ==> values[k].number <= high
    {
      if values[i].number < low {
        low, a := values[i].number, i;
      }
      if values[i].number > high {
        high, b := values[i].number, i;
      }
    }
    assert values[a] in values && values[b] in values;
  }

  /** The generator's search for holes in the range. */
  method FindHoles(values: seq<EnumValue>, low: int, high: int) returns (holes: seq<int>)
    requires low <= high
    ensures holes == Holes(values, low, high)
  {
    holes := [];
    for i := low to high
      invariant holes == Holes(values, low, i)
    {
      var found := false;
      for j := 0 to |values|
        invariant !found && forall k :: 0 <= k < j ==> values[k].number != i
      {
        if values[j].number == i {
          found := true;
          break;
        }
      }
      assert found <==> i in EnumNumbers(values);
      if !found {
        holes := holes + [i];
      }
    }
  }

  /** The generator: the switch form for sparse enums, the range form for dense ones. */
  method EmitEnumCheck(values: seq<EnumValue>) returns (c: EnumCheck)
    requires values != []
    ensures c == EnumCheckFor(values)
  {
    hide LowNumber, HighNumber, Holes;
    var low, high := ScanExtremes(values);
    if high - low > |values| {
      var labels := [];
      for i := 0 to |values|
        invariant labels == seq(i, j requires 0 <= j < i => values[j].number)
      {
        labels := labels + [values[i].number];
      }
      c := Switch(labels);
    } else {
      var holes := FindHoles(values, low, high);
      c := Ranged(low, high, holes);
    }
  }

  /** The C conversion of a 32-bit enum value to a signed type: int, or INTN in the UEFI form. */
  function CastToSigned(x: int, cast: WordBits): int {
    if cast == 32 && x > INT_MAX then x - 0x1_0000_0000 else x
  }

  /** The conversion is to the int that is congruent modulo two to the power 32. */
  lemma CastExact(x: int)
    requires 0 <= x <= 0xffff_ffff
    ensures -0x8000_0000 <= CastToSigned(x, 32) <= 0x7fff_ffff
    ensures CastToSigned(x, 32) == x || CastToSigned(x, 32) == x - 0x1_0000_0000
    ensures CastToSigned(x, 64) == x
  {}

  /** What the emitted C function returns. */
  predicate EnumAccepts(c: EnumCheck, x: int, cast: WordBits) {
    match c
    case Switch(labels) => x in labels
    case Ranged(low, high, holes) =>
      var n := CastToSigned(x, cast);
      !(n < low) && !(n > high) && n !in holes
  }

  /** The padding enumerator makes the C type int if a number is negative, else unsigned int. */
  predicate InCEnum(values: seq<EnumValue>, x: int) {
    if exists e <- values :: e.number < 0 then -0x8000_0000 <= x <= INT_MAX else 0 <= x <= 0xffff_ffff
  }

  predicate Declarable(values: seq<EnumValue>) {
    values != [] && forall e <- values :: InCEnum(values, e.number)
  }

  /** The cast loses no number, or the switch form is used, or no number is above INT_MAX. */
  predicate CastSafe(values: seq<EnumValue>, cast: WordBits)
    requires values != []
  {
    cast == 64 || HighNumber(values) - LowNumber(values) > |values| || HighNumber(values) <= INT_MAX
  }

  lemma SwitchLabels(values: seq<EnumValue>, x: int)
    requires values != [] && EnumCheckFor(values).Switch?
    ensures x in EnumCheckFor(values).labels <==> x in EnumNumbers(values)
  {
    var labels := EnumCheckFor(values).labels;
    if x in EnumNumbers(values) {
      var e :| e in values && e.number == x;
      var i :| 0 <= i < |values| && values[i] == e;
      assert labels[i] == x;
    }
  }

  lemma SafeEnumExact(values: seq<EnumValue>, x: int, cast: WordBits)
    requires Declarable(values) && CastSafe(values, cast) && InCEnum(values, x)
    ensures EnumAccepts(EnumCheckFor(values), x, cast) <==> x in EnumNumbers(values)
  {
    if EnumCheckFor(values).Switch? {
      SwitchLabels(values, x);
    } else if !exists e <- values :: e.number < 0 {
      assert LowNumber(values) >= 0;
    }
  }

  /** In the range form, a number above INT_MAX is cast to a negative 32-bit one and refused. */
  lemma UnsafeEnumRefuses(values: seq<EnumValue>, cast: WordBits)
    requires Declarable(values) && !CastSafe(values, cast)
    ensures HighNumber(values) in EnumNumbers(values)
    ensures !EnumAccepts(EnumCheckFor(values), HighNumber(values), cast)
  {
    var e :| e in values && e.number == HighNumber(values);
    assert InCEnum(values, e.number);
    assert !exists g <- values :: g.number < 0;
    assert LowNumber(values) >= 0;
  }

  /** The emitted enum validator is exact on the whole C type if and only if no cast can go wrong, in either output. */
  lemma EnumCheckExact(values: seq<EnumValue>, cast: WordBits)
    requires Declarable(values)
    ensures CastSafe(values, cast) <==>
            forall x :: InCEnum(values, x) ==>
              (EnumAccepts(EnumCheckFor(values), x, cast) <==> x in EnumNumbers(values))
  {
    if CastSafe(values, cast) {
      forall x | InCEnum(values, x)
        ensures EnumAccepts(EnumCheckFor(values), x, cast) <==> x in EnumNumbers(values)
      {
        SafeEnumExact(values, x, cast);
      }
    } else {
      UnsafeEnumRefuses(values, cast);
      var e :| e in values && e.number == HighNumber(values);
      assert InCEnum(values, e.number);
    }
  }

  /** A one-value enum at 2^31: with a 32-bit cast the generated validator refuses the only legal value. */
  lemma UnsafeEnumExample()
    ensures var values := [EnumValue("Top", "Top", 0x8000_0000)];
            Declarable(values) && 0x8000_0000 in EnumNumbers(values)
            && !EnumAccepts(EnumCheckFor(values), 0x8000_0000, 32)
  {
    var values := [EnumValue("Top", "Top", 0x8000_0000)];
    assert values[0] in values;
    assert EnumNumbers(values) == {0x8000_0000};
  }

  // ------------------------------------------------------ bounds, leaf by leaf

  /** Containers have the right shape; leaves may hold anything. */
  predicate Skeleton(f: Format, v: Value) {
    match f
    case ArrayF(e, n) => v.Arr? && |v.elems| == n && forall x <- v.elems :: Skeleton(e, x)
    case StructF(_, ms) =>
      && v.Rec? && |v.fields| == |ms|
      && forall i :: 0 <= i < |ms| ==> Skeleton(ms[i].format, v.fields[i])
    case _ => true
  }

  lemma {:induction false} ShapedSkeleton(f: Format, v: Value)
    requires Shaped(f, v) || BoundShaped(f, v)
    ensures Skeleton(f, v)
  {
    match f
    case ArrayF(e, n) =>
      forall x | x in v.elems ensures Skeleton(e, x) { ShapedSkeleton(e, x); }
    case StructF(_, ms) =>
      forall i | 0 <= i < |ms| ensures Skeleton(ms[i].format, v.fields[i]) {
        ShapedSkeleton(ms[i].format, v.fields[i]);
      }
    case _ =>
  }

  /** What a subknob reads. */
  function At(f: Format, v: Value, p: Path): Value {
    var r := Get(f, v, p);
    if r.Some? then r.value else Null
  }

  predicate LeafPasses(f: Format, v: Value, lo: Value, hi: Value, sk: SubKnob) {
    InBounds(sk.format, At(f, v, sk.path), At(f, lo, sk.path), At(f, hi, sk.path))
  }

  predicate LeavesPass(f: Format, v: Value, lo: Value, hi: Value) {
    forall sk <- SubKnobs(f) :: sk.leaf ==> LeafPasses(f, v, lo, hi, sk)
  }

  lemma ScalarLeaf(f: Format, v: Value, lo: Value, hi: Value)
    requires !f.StructF? && !f.ArrayF?
    ensures InBounds(f, v, lo, hi) <==> LeavesPass(f, v, lo, hi)
  {
    var sk := SubKnob([], f, true);
    var sks := SubKnobs(f);
    assert sks == [sk] && sks[0] == sk;
    assert sk in sks && forall x <- sks :: x == sk;
    assert At(f, v, sk.path) == v && At(f, lo, sk.path) == lo && At(f, hi, sk.path) == hi;
  }

  /** check_bounds on the whole value says the same as check_bounds on every leaf subknob. */
  lemma {:induction false} BoundsByLeaves(f: Format, v: Value, lo: Value, hi: Value)
    requires Addressable(f) && !f.ArrayF? && Skeleton(f, v) && Skeleton(f, lo) && Skeleton(f, hi)
    ensures InBounds(f, v, lo, hi) <==> LeavesPass(f, v, lo, hi)
    decreases f
  {
    if !f.StructF? {
      ScalarLeaf(f, v, lo, hi);
    } else if LeavesPass(f, v, lo, hi) {
      forall k | 0 <= k < |f.members|
        ensures InBounds(f.members[k].format, v.fields[k], lo.fields[k], hi.fields[k])
      {
        LeavesToMember(f, v, lo, hi, k);
      }
      StructInBounds(f, v, lo, hi);
    } else if InBounds(f, v, lo, hi) {
      forall sk | sk in SubKnobs(f) && sk.leaf ensures LeafPasses(f, v, lo, hi, sk) {
        BoundsToLeaf(f, v, lo, hi, sk);
      }
    }
  }

  lemma {:induction false} BoundsToLeaf(f: Format, v: Value, lo: Value, hi: Value, sk: SubKnob)
    requires Addressable(f) && f.StructF? && Skeleton(f, v) && Skeleton(f, lo) && Skeleton(f, hi)
    requires InBounds(f, v, lo, hi) && sk in SubKnobs(f) && sk.leaf
    ensures LeafPasses(f, v, lo, hi, sk)
    decreases f, 0
  {
    var k := Locate(f, sk);
    StructInBounds(f, v, lo, hi);
    var m, w, a, b := f.members[k].format, v.fields[k], lo.fields[k], hi.fields[k];
    assert Skeleton(m, w) && Skeleton(m, a) && Skeleton(m, b) && InBounds(m, w, a, b);
    if m.ArrayF? {
      var i := sk.path[0].index;
      ArrayInBounds(m, w, a, b);
      assert w.elems[i] in w.elems && a.elems[i] in a.elems && b.elems[i] in b.elems;
      BoundsByLeaves(m.elem, w.elems[i], a.elems[i], b.elems[i]);
      assert LeafPasses(m.elem, w.elems[i], a.elems[i], b.elems[i], Tail(sk));
    } else {
      BoundsByLeaves(m, w, a, b);
      assert LeafPasses(m, w, a, b, Tail(sk));
    }
  }

  lemma {:induction false} LeavesToMember(f: Format, v: Value, lo: Value, hi: Value, k: nat)
    requires Addressable(f) && f.StructF? && Skeleton(f, v) && Skeleton(f, lo) && Skeleton(f, hi)
    requires k < |f.members| && LeavesPass(f, v, lo, hi)
    ensures InBounds(f.members[k].format, v.fields[k], lo.fields[k], hi.fields[k])
    decreases f, 0
  {
    var name, m := f.members[k].name, f.members[k].format;
    var w, a, b := v.fields[k], lo.fields[k], hi.fields[k];
    FindUnique(f.members, k);
    assert Addressable(m) && Skeleton(m, w) && Skeleton(m, a) && Skeleton(m, b);
    if m.ArrayF? {
      forall i | 0 <= i < m.count ensures InBounds(m.elem, w.elems[i], a.elems[i], b.elems[i]) {
        assert w.elems[i] in w.elems && a.elems[i] in a.elems && b.elems[i] in b.elems;
        forall sk | sk in SubKnobs(m.elem) && sk.leaf
          ensures LeafPasses(m.elem, w.elems[i], a.elems[i], b.elems[i], sk)
        {
          ItemSubKnob(f, k, i, sk);
          var up := sk.(path := [Item(name, i)] + sk.path);
          assert LeafPasses(f, v, lo, hi, up) && up.path[1..] == sk.path;
        }
        BoundsByLeaves(m.elem, w.elems[i], a.elems[i], b.elems[i]);
      }
      ArrayInBounds(m, w, a, b);
    } else {
      forall sk | sk in SubKnobs(m) && sk.leaf ensures LeafPasses(m, w, a, b, sk) {
        FieldSubKnob(f, k, sk);
        var up := sk.(path := [Field(name)] + sk.path);
        assert LeafPasses(f, v, lo, hi, up) && up.path[1..] == sk.path;
      }
      BoundsByLeaves(m, w, a, b);
    }
  }
}
