/**
 The macros KNOB__path__MIN and KNOB__path__MAX of the generated public header, through
 which the generated validators read the bounds of integer leaves, and the C comparisons
 they make with them.
 */
module Macros {
  import opened Bytes
  import opened Formats
  import opened Paths
  import opened PathText
  import opened Validators

  datatype Side = Lower | Upper

  /** One #define: the bound of an integer leaf, written as a literal of the leaf's type. */
  datatype Definition = Definition(side: Side, name: string, t: IntType, value: int)

  /** define_name: the path text with its brackets and dots replaced. */
  function Flatten(s: string): string {
    if s == [] then []
    else (if s[0] == '[' || s[0] == ']' then "_" else if s[0] == '.' then "__" else [s[0]]) + Flatten(s[1..])
  }

  function MacroName(k: Member, sk: SubKnob): string {
    Flatten(PathName(k.name, sk.path))
  }

  /** The integer bounds of a leaf, where they differ from the type's own. */
  function LeafDefinitions(k: Member, sk: SubKnob): seq<Definition> {
    var lo, hi := At(k.format, k.min, sk.path), At(k.format, k.max, sk.path);
    match sk.format
    case IntF(t) =>
      (if lo.Num? && lo.n != t.Min() then [Definition(Lower, MacroName(k, sk), t, lo.n)] else [])
      + (if hi.Num? && hi.n != t.Max() then [Definition(Upper, MacroName(k, sk), t, hi.n)] else [])
    case _ => []
  }

  function KnobDefinitions(k: Member, sks: seq<SubKnob>): seq<Definition> {
    if sks == [] then []
    else
      var n := |sks| - 1;
      KnobDefinitions(k, sks[..n]) + if sks[n].leaf then LeafDefinitions(k, sks[n]) else []
  }

  /** The definitions of the header, knob by knob and leaf by leaf. */
  function Header(ks: seq<Member>): seq<Definition> {
    if ks == [] then []
    else
      var n := |ks| - 1;
      Header(ks[..n]) + KnobDefinitions(ks[n], OwnSubKnobs(ks[n].format))
  }

  method EmitDefinitions(ks: seq<Member>) returns (r: seq<Definition>)
    ensures r == Header(ks)
  {
    hide SubKnobs, LeafDefinitions;
    r := [];
    for i := 0 to |ks|
      invariant r == Header(ks[..i])
    {
      var k, sks := ks[i], OwnSubKnobs(ks[i].format);
      assert ks[..i + 1][..i] == ks[..i];
      ghost var before := r;
      for j := 0 to |sks|
        invariant r == before + KnobDefinitions(k, sks[..j])
      {
        assert sks[..j + 1][..j] == sks[..j];
        if sks[j].leaf {
          r := r + LeafDefinitions(k, sks[j]);
        }
      }
      assert sks[..|sks|] == sks;
    }
    assert ks[..|ks|] == ks;
  }

  lemma {:induction false} InKnobDefinitions(k: Member, sks: seq<SubKnob>, d: Definition)
    ensures d in KnobDefinitions(k, sks) <==> exists sk <- sks :: sk.leaf && d in LeafDefinitions(k, sk)
    decreases |sks|
  {
    hide LeafDefinitions;
    if sks != [] {
      var n := |sks| - 1;
      InKnobDefinitions(k, sks[..n], d);
      assert sks == sks[..n] + [sks[n]];
    }
  }

  /** Some leaf of the knob defines it. */
  predicate Defines(k: Member, d: Definition) {
    exists sk <- SubKnobs(k.format) :: sk.leaf && d in LeafDefinitions(k, sk)
  }

  /** The header defines exactly the bounds of the leaves of its knobs. */
  lemma {:induction false} InHeader(ks: seq<Member>, d: Definition)
    ensures d in Header(ks) <==> exists k <- ks :: Defines(k, d)
    decreases |ks|
  {
    hide Defines, KnobDefinitions;
    if ks != [] {
      var n := |ks| - 1;
      InHeader(ks[..n], d);
      KnobDefines(ks[n], d);
      assert ks == ks[..n] + [ks[n]];
    }
  }

  lemma KnobDefines(k: Member, d: Definition)
    ensures d in KnobDefinitions(k, OwnSubKnobs(k.format)) <==> Defines(k, d)
  {
    hide SubKnobs, LeafDefinitions;
    InKnobDefinitions(k, OwnSubKnobs(k.format), d);
  }

  /** A macro that is defined again has its last definition. */
  function InForce(defs: seq<Definition>, side: Side, name: string): (r: Option<Definition>)
    ensures r.Some? ==> r.value in defs && r.value.side == side && r.value.name == name
    ensures r.None? ==> forall d <- defs :: d.side != side || d.name != name
  {
    if defs == [] then None
    else
      var n := |defs| - 1;
      assert defs == defs[..n] + [defs[n]];
      if defs[n].side == side && defs[n].name == name then Some(defs[n]) else InForce(defs[..n], side, name)
  }

  // ------------------------------------------------------------------ C comparisons

  /** An arithmetic type of at least int's width. */
  datatype CType = CType(bits: nat, signed: bool)

  /** The type of a member after the integer promotions. */
  function Promoted(t: IntType): CType {
    if t.Width() < 4 then CType(32, true) else CType(8 * t.Width(), t.Min() < 0)
  }

  /** The type of a literal with the suffix of t: none, l, ul, ll or ull. */
  function LiteralType(t: IntType, long: WordBits): CType {
    match t
    case U32 => CType(long, false)
    case I32 => CType(long, true)
    case U64 => CType(64, false)
    case I64 => CType(64, true)
    case _ => CType(32, true)
  }

  /** The usual arithmetic conversions: an unsigned type wins unless the signed one is wider. */
  function Common(a: CType, b: CType): CType {
    var bits := if a.bits < b.bits then b.bits else a.bits;
    if a.signed == b.signed then CType(bits, a.signed)
    else
      var s, u := if a.signed then a else b, if a.signed then b else a;
      CType(bits, u.bits < s.bits)
  }

  /** What a negative operand gains when it is converted: nothing in a signed type. */
  function Wrap(c: CType): nat {
    if c.signed then 0 else if c.bits == 32 then 0x1_0000_0000 else 0x1_0000_0000_0000_0000
  }

  function Converted(wrap: nat, x: int): int {
    if x < 0 then x + wrap else x
  }

  function CommonWrap(long: WordBits, t: IntType, d: Definition): nat {
    Wrap(Common(Promoted(t), LiteralType(d.t, long)))
  }

  /** value < MACRO in C, for a member of type t. */
  predicate Less(long: WordBits, t: IntType, x: int, d: Definition) {
    Converted(CommonWrap(long, t, d), x) < Converted(CommonWrap(long, t, d), d.value)
  }

  /** value > MACRO in C. */
  predicate Greater(long: WordBits, t: IntType, x: int, d: Definition) {
    Converted(CommonWrap(long, t, d), x) > Converted(CommonWrap(long, t, d), d.value)
  }

  /** A leaf of type t with bounds lo and hi: the emitted tests, with their definitions in force, let x pass. */
  predicate IntPasses(long: WordBits, t: IntType, lo: int, hi: int, low: Option<Definition>, high: Option<Definition>,
                      x: int)
  {
    && (lo != t.Min() ==> low.Some? && !Less(long, t, x, low.value))
    && (hi != t.Max() ==> high.Some? && !Greater(long, t, x, high.value))
  }

  /** The ends of the range, their neighbours outside, and the ends of the type. */
  predicate IsEnd(t: IntType, lo: int, hi: int, x: int) {
    t.Min() <= x <= t.Max() && (x == lo - 1 || x == lo || x == hi || x == hi + 1 || x == t.Min() || x == t.Max())
  }

  /**
   The two comparisons as numbers: the range wanted inside a type, and for each side what a
   negative operand gains and the converted bound.
   */
  datatype Tests = Tests(min: int, max: int, lo: int, hi: int, lowWrap: nat, low: int, highWrap: nat, high: int)

  predicate Passes(ts: Tests, x: int) {
    && (ts.lo != ts.min ==> Converted(ts.lowWrap, x) >= ts.low)
    && (ts.hi != ts.max ==> Converted(ts.highWrap, x) <= ts.high)
  }

  /** A range inside a type, with conversions that move negative numbers above the whole type. */
  predicate Plausible(ts: Tests) {
    && ts.min <= 0 <= ts.max && ts.min <= ts.lo <= ts.hi <= ts.max
    && (ts.lowWrap == 0 || ts.min + ts.lowWrap > ts.max) && (ts.highWrap == 0 || ts.min + ts.highWrap > ts.max)
  }

  predicate DecidedAtEnds(ts: Tests) {
    && Passes(ts, ts.lo) && Passes(ts, ts.hi)
    && (ts.lo > ts.min ==> !Passes(ts, ts.lo - 1) && !Passes(ts, ts.min))
    && (ts.hi < ts.max ==> !Passes(ts, ts.hi + 1) && !Passes(ts, ts.max))
  }

  lemma EndsDecideNumbers(ts: Tests, x: int)
    requires Plausible(ts) && DecidedAtEnds(ts) && ts.min <= x <= ts.max
    ensures Passes(ts, x) <==> ts.lo <= x <= ts.hi
  {}

  function WrapOf(long: WordBits, t: IntType, d: Option<Definition>): nat {
    if d.Some? then CommonWrap(long, t, d.value) else 0
  }

  function BoundOf(long: WordBits, t: IntType, d: Option<Definition>): int {
    if d.Some? then Converted(CommonWrap(long, t, d.value), d.value.value) else 0
  }

  function TestsOf(long: WordBits, t: IntType, lo: int, hi: int, low: Option<Definition>, high: Option<Definition>)
    : Tests
  {
    Tests(t.Min(), t.Max(), lo, hi, WrapOf(long, t, low), BoundOf(long, t, low),
          WrapOf(long, t, high), BoundOf(long, t, high))
  }

  /** A converted negative number lies above every number of the type. */
  lemma WrapClears(long: WordBits, t: IntType, d: Option<Definition>)
    ensures WrapOf(long, t, d) == 0 || t.Min() + WrapOf(long, t, d) > t.Max()
    ensures t.Min() <= 0 <= t.Max()
  {}

  /** Both macros are defined where they are read. */
  predicate Defined(t: IntType, lo: int, hi: int, low: Option<Definition>, high: Option<Definition>) {
    (lo != t.Min() ==> low.Some?) && (hi != t.Max() ==> high.Some?)
  }

  lemma IntPassesIs(long: WordBits, t: IntType, lo: int, hi: int, low: Option<Definition>, high: Option<Definition>,
                    x: int)
    requires Defined(t, lo, hi, low, high)
    ensures IntPasses(long, t, lo, hi, low, high, x) <==> Passes(TestsOf(long, t, lo, hi, low, high), x)
  {
    hide CommonWrap, Converted;
  }

  lemma EndsPass(long: WordBits, t: IntType, lo: int, hi: int, low: Option<Definition>, high: Option<Definition>)
    requires t.Min() <= lo <= hi <= t.Max() && Defined(t, lo, hi, low, high)
    requires forall e | IsEnd(t, lo, hi, e) :: IntPasses(long, t, lo, hi, low, high, e) <==> lo <= e <= hi
    ensures DecidedAtEnds(TestsOf(long, t, lo, hi, low, high))
  {
    hide IntPasses, Passes, WrapOf, BoundOf;
    var ts := TestsOf(long, t, lo, hi, low, high);
    forall e | IsEnd(t, lo, hi, e) ensures Passes(ts, e) <==> lo <= e <= hi {
      IntPassesIs(long, t, lo, hi, low, high, e);
    }
    assert IsEnd(t, lo, hi, lo) && IsEnd(t, lo, hi, hi) && IsEnd(t, lo, hi, t.Min()) && IsEnd(t, lo, hi, t.Max());
    assert lo > t.Min() ==> IsEnd(t, lo, hi, lo - 1);
    assert hi < t.Max() ==> IsEnd(t, lo, hi, hi + 1);
  }

  /** Tests of this form decide a range everywhere once they decide it at its ends. */
  lemma EndsDecide(long: WordBits, t: IntType, lo: int, hi: int, low: Option<Definition>, high: Option<Definition>,
                   x: int)
    requires t.Min() <= lo <= hi <= t.Max() && t.Min() <= x <= t.Max()
    requires forall e | IsEnd(t, lo, hi, e) :: IntPasses(long, t, lo, hi, low, high, e) <==> lo <= e <= hi
    ensures IntPasses(long, t, lo, hi, low, high, x) <==> lo <= x <= hi
  {
    hide Passes, WrapOf, BoundOf;
    assert IsEnd(t, lo, hi, lo);
    assert Defined(t, lo, hi, low, high);
    EndsPass(long, t, lo, hi, low, high);
    IntPassesIs(long, t, lo, hi, low, high, x);
    WrapClears(long, t, low);
    WrapClears(long, t, high);
    EndsDecideNumbers(TestsOf(long, t, lo, hi, low, high), x);
  }
}
