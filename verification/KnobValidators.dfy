/**
 validate_knob_content_X: the flat list of tests the generator emits for one knob, one
 group per leaf subknob, reading its bounds through the macros of the header, and exactly
 when it agrees with the knob's recursive bounds check.
 */
module KnobValidators {
  import opened Bytes
  import opened Formats
  import opened Paths
  import opened Validators
  import opened Macros

  /** One emitted "if (...) return false;" on the member at the path; a bound is read through its macro. */
  datatype Test =
    | RefuseEnum(path: Path, check: EnumCheck)
    | RefuseBelow(path: Path, t: IntType, name: string)
    | RefuseAbove(path: Path, t: IntType, name: string)

  /** A validation function, or the macro that accepts everything. */
  datatype Validator = NoConstraints | Function(tests: seq<Test>)

  /** The tests for one leaf: bounds only where they differ from the type's own. */
  function LeafTests(k: Member, sk: SubKnob): seq<Test> {
    var lo, hi := At(k.format, k.min, sk.path), At(k.format, k.max, sk.path);
    match sk.format
    case EnumF(_, values, _) => if values == [] then [] else [RefuseEnum(sk.path, EnumCheckFor(values))]
    case IntF(t) =>
      (if lo.Num? && lo.n != t.Min() then [RefuseBelow(sk.path, t, MacroName(k, sk))] else [])
      + (if hi.Num? && hi.n != t.Max() then [RefuseAbove(sk.path, t, MacroName(k, sk))] else [])
    case _ => []
  }

  predicate Constrained(k: Member, sk: SubKnob) {
    sk.leaf && (sk.format.EnumF?
                || At(k.format, k.min, sk.path) != Implicit(sk.format, Min)
                || At(k.format, k.max, sk.path) != Implicit(sk.format, Max))
  }

  function TestsFor(k: Member, sks: seq<SubKnob>): seq<Test> {
    if sks == [] then []
    else
      var n := |sks| - 1;
      TestsFor(k, sks[..n]) + if sks[n].leaf then LeafTests(k, sks[n]) else []
  }

  function ValidatorFor(k: Member): Validator {
    if exists sk <- OwnSubKnobs(k.format) :: Constrained(k, sk)
    then Function(TestsFor(k, OwnSubKnobs(k.format)))
    else NoConstraints
  }

  /** The generator's two passes over the subknobs of a knob. */
  method EmitValidator(k: Member) returns (r: Validator)
    ensures r == ValidatorFor(k)
  {
    hide SubKnobs, LeafTests;
    var sks := OwnSubKnobs(k.format);
    var constraintPresent := false;
    for i := 0 to |sks|
      invariant constraintPresent <==> exists j :: 0 <= j < i && Constrained(k, sks[j])
    {
      if Constrained(k, sks[i]) {
        constraintPresent := true;
      }
    }
    if constraintPresent {
      var tests: seq<Test> := [];
      for i := 0 to |sks|
        invariant tests == TestsFor(k, sks[..i])
      {
        assert sks[..i + 1][..i] == sks[..i];
        if sks[i].leaf {
          tests := tests + LeafTests(k, sks[i]);
        }
      }
      assert sks[..|sks|] == sks;
      r := Function(tests);
    } else {
      r := NoConstraints;
    }
  }

  /** What a validator is compiled with: the header's definitions, the width of long and that of the enum cast. */
  datatype Target = Target(defs: seq<Definition>, long: WordBits, cast: WordBits)

  /** Whether the value gets past one test. */
  predicate Holds(c: Target, f: Format, v: Value, t: Test) {
    var n := AsNumber(At(f, v, t.path));
    n.Some? && match t
               case RefuseEnum(_, check) => EnumAccepts(check, n.value, c.cast)
               case RefuseBelow(_, ct, name) =>
                 var d := InForce(c.defs, Lower, name); d.Some? && !Less(c.long, ct, n.value, d.value)
               case RefuseAbove(_, ct, name) =>
                 var d := InForce(c.defs, Upper, name); d.Some? && !Greater(c.long, ct, n.value, d.value)
  }

  predicate Accepts(c: Target, f: Format, v: Value, r: Validator) {
    r.Function? ==> forall t <- r.tests :: Holds(c, f, v, t)
  }

  /** A leaf value that its C type can hold. */
  predicate LeafRepresentable(f: Format, v: Value) {
    match f
    case IntF(t) => v.Num? && t.Min() <= v.n <= t.Max()
    case EnumF(_, values, _) => v.Num? && InCEnum(values, v.n)
    case _ => v.Flag?
  }

  predicate Representable(f: Format, v: Value) {
    forall sk <- SubKnobs(f) :: sk.leaf ==> LeafRepresentable(sk.format, At(f, v, sk.path))
  }

  predicate EnumsDeclarable(f: Format) {
    forall sk <- SubKnobs(f) :: sk.leaf && sk.format.EnumF? ==> Declarable(sk.format.values)
  }

  predicate LeafAccepts(c: Target, k: Member, v: Value, sk: SubKnob) {
    forall t <- LeafTests(k, sk) :: Holds(c, k.format, v, t)
  }

  lemma {:induction false} InTestsFor(k: Member, sks: seq<SubKnob>, t: Test)
    ensures t in TestsFor(k, sks) <==> exists sk <- sks :: sk.leaf && t in LeafTests(k, sk)
    decreases |sks|
  {
    hide LeafTests;
    if sks != [] {
      var n := |sks| - 1;
      InTestsFor(k, sks[..n], t);
      assert sks == sks[..n] + [sks[n]];
    }
  }

  /** The bounds of a knob at one leaf. */
  predicate LeafBounded(k: Member, sk: SubKnob) {
    BoundShaped(sk.format, At(k.format, k.min, sk.path)) && BoundShaped(sk.format, At(k.format, k.max, sk.path))
  }

  lemma {:induction false} BoundReadable(f: Format, b: Value, sk: SubKnob)
    requires Addressable(f) && BoundShaped(f, b) && sk in SubKnobs(f)
    ensures BoundShaped(sk.format, At(f, b, sk.path))
    decreases f
  {
    if f.StructF? && sk != SubKnob([], f, false) {
      var k := Locate(f, sk);
      var m, w := f.members[k], b.fields[k];
      assert BoundShaped(m.format, w);
      if !m.format.ArrayF? {
        BoundReadable(m.format, w, Tail(sk));
      } else if sk.path[0].Item? {
        assert w.elems[sk.path[0].index] in w.elems;
        BoundReadable(m.format.elem, w.elems[sk.path[0].index], Tail(sk));
      } else {
        assert sk.path[1..] == [] && Get(f, b, sk.path) == Some(w);
      }
    }
  }

  /** A knob without constraints has no tests, so both shapes accept the same values. */
  lemma AcceptsByLeaves(c: Target, k: Member, v: Value)
    requires Addressable(k.format) && !k.format.ArrayF?
    requires BoundShaped(k.format, k.min) && BoundShaped(k.format, k.max)
    ensures Accepts(c, k.format, v, ValidatorFor(k)) <==>
            forall sk <- SubKnobs(k.format) :: sk.leaf ==> LeafAccepts(c, k, v, sk)
  {
    hide SubKnobs, LeafTests, Holds, Constrained;
    var f, sks := k.format, OwnSubKnobs(k.format);
    if exists sk <- sks :: Constrained(k, sk) {
      if Accepts(c, f, v, ValidatorFor(k)) {
        forall sk | sk in sks && sk.leaf ensures LeafAccepts(c, k, v, sk) {
          forall t | t in LeafTests(k, sk) ensures Holds(c, f, v, t) {
            InTestsFor(k, sks, t);
          }
        }
      }
      if forall sk <- sks :: sk.leaf ==> LeafAccepts(c, k, v, sk) {
        forall t | t in TestsFor(k, sks) ensures Holds(c, f, v, t) {
          InTestsFor(k, sks, t);
        }
      }
    } else {
      forall sk | sk in sks && sk.leaf ensures LeafAccepts(c, k, v, sk) {
        Unconstrained(k, sk);
      }
    }
  }

  lemma Unconstrained(k: Member, sk: SubKnob)
    requires sk.leaf && !Constrained(k, sk)
    ensures LeafTests(k, sk) == []
  {}

  /** Where the bounds of an integer leaf are numbers, and the definitions its tests read. */
  predicate IntLeaf(k: Member, sk: SubKnob) {
    && sk.format.IntF?
    && At(k.format, k.min, sk.path).Num? && At(k.format, k.max, sk.path).Num?
    && sk.format.t.Min() <= At(k.format, k.min, sk.path).n <= At(k.format, k.max, sk.path).n <= sk.format.t.Max()
  }

  /** The emitted tests of an integer leaf on the number x. */
  predicate IntAccepts(c: Target, k: Member, sk: SubKnob, x: int)
    requires IntLeaf(k, sk)
  {
    var name := MacroName(k, sk);
    IntPasses(c.long, sk.format.t, At(k.format, k.min, sk.path).n, At(k.format, k.max, sk.path).n,
              InForce(c.defs, Lower, name), InForce(c.defs, Upper, name), x)
  }

  /**
   The leaf is decided rightly: an enum's check survives its cast; an integer's tests, read
   through the macros, are right at the ends of its range, just outside them, and at the ends
   of its type.
   */
  ghost predicate LeafFaithful(c: Target, k: Member, sk: SubKnob) {
    match sk.format
    case EnumF(_, values, _) => values != [] && CastSafe(values, c.cast)
    case IntF(t) =>
      IntLeaf(k, sk)
      && var lo, hi := At(k.format, k.min, sk.path).n, At(k.format, k.max, sk.path).n;
         forall e | IsEnd(t, lo, hi, e) :: IntAccepts(c, k, sk, e) <==> lo <= e <= hi
    case _ => true
  }

  ghost predicate AllFaithful(c: Target, k: Member) {
    forall sk <- SubKnobs(k.format) :: sk.leaf ==> LeafFaithful(c, k, sk)
  }

  lemma LeafAcceptsInt(c: Target, k: Member, v: Value, sk: SubKnob)
    requires IntLeaf(k, sk) && At(k.format, v, sk.path).Num?
    ensures LeafAccepts(c, k, v, sk) <==> IntAccepts(c, k, sk, At(k.format, v, sk.path).n)
    ensures LeafPasses(k.format, v, k.min, k.max, sk) <==>
            At(k.format, k.min, sk.path).n <= At(k.format, v, sk.path).n <= At(k.format, k.max, sk.path).n
  {
    hide Less, Greater, InForce, MacroName, At;
    var t, name := sk.format.t, MacroName(k, sk);
    var lo, hi := At(k.format, k.min, sk.path).n, At(k.format, k.max, sk.path).n;
    var below, above := RefuseBelow(sk.path, t, name), RefuseAbove(sk.path, t, name);
    var tests := LeafTests(k, sk);
    assert below in tests <==> lo != t.Min();
    assert above in tests <==> hi != t.Max();
    assert forall u <- tests :: u == below || u == above;
  }

  /** On a representable leaf the emitted tests decide the leaf's bounds check, if it is faithful. */
  lemma LeafAcceptsExact(c: Target, k: Member, v: Value, sk: SubKnob)
    requires sk.leaf && !sk.format.StructF? && !sk.format.ArrayF? && LeafBounded(k, sk)
    requires LeafRepresentable(sk.format, At(k.format, v, sk.path)) && LeafFaithful(c, k, sk)
    requires sk.format.EnumF? ==> Declarable(sk.format.values)
    ensures LeafAccepts(c, k, v, sk) <==> LeafPasses(k.format, v, k.min, k.max, sk)
  {
    hide At, IntPasses, IsEnd, InForce, Less, Greater, MacroName;
    match sk.format
    case EnumF(_, values, _) => LeafAcceptsEnum(c, k, v, sk);
    case IntF(t) =>
      LeafAcceptsInt(c, k, v, sk);
      EndsDecide(c.long, t, At(k.format, k.min, sk.path).n, At(k.format, k.max, sk.path).n,
                 InForce(c.defs, Lower, MacroName(k, sk)), InForce(c.defs, Upper, MacroName(k, sk)),
                 At(k.format, v, sk.path).n);
    case _ =>
  }

  lemma LeafAcceptsEnum(c: Target, k: Member, v: Value, sk: SubKnob)
    requires sk.format.EnumF? && LeafBounded(k, sk) && LeafRepresentable(sk.format, At(k.format, v, sk.path))
    requires Declarable(sk.format.values) && CastSafe(sk.format.values, c.cast)
    ensures LeafAccepts(c, k, v, sk) <==> LeafPasses(k.format, v, k.min, k.max, sk)
  {
    hide At, EnumAccepts, EnumCheckFor;
    var x := At(k.format, v, sk.path);
    SafeEnumExact(sk.format.values, x.n, c.cast);
    var t := RefuseEnum(sk.path, EnumCheckFor(sk.format.values));
    assert LeafTests(k, sk) == [t];
    assert LeafAccepts(c, k, v, sk) <==> Holds(c, k.format, v, t);
  }

  /** What makes a knob declaration usable here: checked by the loader and declarable in C. */
  predicate KnobReady(k: Member) {
    MemberOk(k) && !k.format.ArrayF? && EnumsDeclarable(k.format)
  }

  /** The validator is exact: on every value of the C type it says what the recursive check says. */
  ghost predicate Exact(c: Target, k: Member) {
    forall v :: Shaped(k.format, v) && Representable(k.format, v) ==>
      (Accepts(c, k.format, v, ValidatorFor(k)) <==> InBounds(k.format, v, k.min, k.max))
  }

  /** Where all leaves are faithful, the flat validator accepts exactly what the recursive bounds check accepts. */
  lemma ValidatorExact(c: Target, k: Member, v: Value)
    requires KnobReady(k) && AllFaithful(c, k) && Shaped(k.format, v) && Representable(k.format, v)
    ensures Accepts(c, k.format, v, ValidatorFor(k)) <==> InBounds(k.format, v, k.min, k.max)
  {
    hide LeafFaithful, LeafAccepts, LeafPasses, SubKnobs, Accepts, LeafRepresentable;
    var f := k.format;
    FormatOkAddressable(f);
    AcceptsByLeaves(c, k, v);
    ShapedSkeleton(f, v);
    ShapedSkeleton(f, k.min);
    ShapedSkeleton(f, k.max);
    BoundsByLeaves(f, v, k.min, k.max);
    forall sk | sk in SubKnobs(f) && sk.leaf
      ensures LeafAccepts(c, k, v, sk) <==> LeafPasses(f, v, k.min, k.max, sk)
    {
      LeafFormat(f, sk);
      BoundReadable(f, k.min, sk);
      BoundReadable(f, k.max, sk);
      LeafAcceptsExact(c, k, v, sk);
    }
  }

  /** Every leaf of an in-bounds value fits its C type, and so does every integer leaf of an in-bounds bound. */
  lemma {:induction false} InBoundsRepresentable(f: Format, v: Value, sk: SubKnob)
    requires FormatOk(f) && !f.ArrayF? && (Shaped(f, v) || BoundShaped(f, v))
    requires InBounds(f, v, Implicit(f, Min), Implicit(f, Max))
    requires sk in SubKnobs(f) && sk.leaf && (sk.format.EnumF? ==> Declarable(sk.format.values))
    ensures Shaped(f, v) || sk.format.IntF? ==> LeafRepresentable(sk.format, At(f, v, sk.path))
    decreases f
  {
    if f.StructF? {
      FormatOkAddressable(f);
      var k := Locate(f, sk);
      var m, w := f.members[k], v.fields[k];
      MemberInOwnBounds(f, v, k);
      assert FormatOk(m.format) && FormatOk(Below(m));
      if m.format.ArrayF? {
        var i := sk.path[0].index;
        ArrayInBounds(m.format, w, Implicit(m.format, Min), Implicit(m.format, Max));
        assert w.elems[i] in w.elems;
        assert InBounds(m.format.elem, w.elems[i], Implicit(m.format, Min).elems[i], Implicit(m.format, Max).elems[i]);
        InBoundsRepresentable(m.format.elem, w.elems[i], Tail(sk));
      } else {
        InBoundsRepresentable(m.format, w, Tail(sk));
      }
    } else if f.EnumF? && Shaped(f, v) {
      var e :| e in f.values && e.number == v.n;
      assert InCEnum(f.values, e.number);
    }
  }

  lemma AcceptedIsRepresentable(k: Member, v: Value)
    requires KnobReady(k) && Shaped(k.format, v) && InBounds(k.format, v, k.min, k.max)
    ensures Representable(k.format, v)
  {
    var f := k.format;
    ImplicitBoundShaped(f, Min);
    ImplicitBoundShaped(f, Max);
    BoundsNest(f, v, k.min, k.max, Implicit(f, Min), Implicit(f, Max));
    forall sk | sk in SubKnobs(f) && sk.leaf ensures LeafRepresentable(sk.format, At(f, v, sk.path)) {
      InBoundsRepresentable(f, v, sk);
    }
  }

  /** One leaf changed, every other leaf as it was. */
  lemma SetLeaf(k: Member, v: Value, sk: SubKnob, x: Value)
    requires MemberOk(k) && !k.format.ArrayF? && Shaped(k.format, v)
    requires sk in SubKnobs(k.format) && sk.leaf && Shaped(sk.format, x)
    ensures Set(k.format, v, sk.path, x).Some?
    ensures var w := Set(k.format, v, sk.path, x).value;
            && Shaped(k.format, w) && At(k.format, w, sk.path) == x
            && forall t <- SubKnobs(k.format) :: t.leaf && t != sk ==>
                 At(k.format, w, t.path) == At(k.format, v, t.path)
  {
    hide SubKnobs, Set, Get, Shaped, InBounds, Disjoint;
    var f := k.format;
    FormatOkAddressable(f);
    SetShaped(f, v, sk, x);
    var w := Set(f, v, sk.path, x).value;
    SetGet(f, v, sk.path, x);
    forall t | t in SubKnobs(f) && t.leaf && t != sk ensures At(f, w, t.path) == At(f, v, t.path) {
      if t.path == sk.path {
        SubKnobAtPath(f, t, sk);
      }
      LeavesDisjoint(f, sk, t);
      SetFrame(f, v, sk.path, t.path, x);
    }
  }

  /** Changing one leaf of an in-bounds value stays in bounds exactly when the new leaf is in its own bounds. */
  lemma ReplaceLeaf(k: Member, v: Value, sk: SubKnob, x: Value)
    requires KnobReady(k) && Shaped(k.format, v) && InBounds(k.format, v, k.min, k.max)
    requires sk in SubKnobs(k.format) && sk.leaf && Shaped(sk.format, x)
    ensures Set(k.format, v, sk.path, x).Some?
    ensures var w := Set(k.format, v, sk.path, x).value;
            && Shaped(k.format, w) && At(k.format, w, sk.path) == x
            && (InBounds(k.format, w, k.min, k.max) <==>
                InBounds(sk.format, x, At(k.format, k.min, sk.path), At(k.format, k.max, sk.path)))
            && (LeafRepresentable(sk.format, x) ==> Representable(k.format, w))
  {
    hide SubKnobs, Set, Shaped, InBounds, LeafRepresentable, At;
    var f := k.format;
    SetLeaf(k, v, sk, x);
    var w := Set(f, v, sk.path, x).value;
    FormatOkAddressable(f);
    ShapedSkeleton(f, v);
    ShapedSkeleton(f, w);
    ShapedSkeleton(f, k.min);
    ShapedSkeleton(f, k.max);
    BoundsByLeaves(f, v, k.min, k.max);
    BoundsByLeaves(f, w, k.min, k.max);
    assert forall t <- SubKnobs(f) :: t.leaf && t != sk ==> LeafPasses(f, w, k.min, k.max, t);
    assert LeafPasses(f, w, k.min, k.max, sk) <==> InBounds(sk.format, x, At(f, k.min, sk.path), At(f, k.max, sk.path));
    AcceptedIsRepresentable(k, v);
  }

  /** An unfaithful leaf: some value of the leaf's type is decided wrongly by the leaf's own tests. */
  lemma UnfaithfulLeaf(c: Target, k: Member, sk: SubKnob) returns (x: Value)
    requires KnobReady(k) && sk in SubKnobs(k.format) && sk.leaf && !LeafFaithful(c, k, sk)
    ensures Shaped(sk.format, x) && LeafRepresentable(sk.format, x)
    ensures var w := Set(k.format, k.deflt, sk.path, x);
            w.Some? && (LeafAccepts(c, k, w.value, sk) <==> !LeafPasses(k.format, w.value, k.min, k.max, sk))
  {
    hide At, SubKnobs, InForce, Less, Greater, MacroName, Set, IntPasses;
    var f := k.format;
    FormatOkAddressable(f);
    BoundReadable(f, k.min, sk);
    BoundReadable(f, k.max, sk);
    LeafFormat(f, sk);
    if sk.format.EnumF? {
      x := UnsafeLeafValue(c, k, sk);
    } else {
      IntLeafOf(k, sk);
      var lo, hi := At(f, k.min, sk.path).n, At(f, k.max, sk.path).n;
      var e :| IsEnd(sk.format.t, lo, hi, e) && (IntAccepts(c, k, sk, e) <==> !(lo <= e <= hi));
      x := Num(e);
      SetLeaf(k, k.deflt, sk, x);
      LeafAcceptsInt(c, k, Set(f, k.deflt, sk.path, x).value, sk);
    }
  }

  /** The bounds of an integer leaf are an interval of its type: the loader has checked the default against them. */
  lemma IntLeafOf(k: Member, sk: SubKnob)
    requires KnobReady(k) && sk in SubKnobs(k.format) && sk.leaf && sk.format.IntF?
    ensures IntLeaf(k, sk)
  {
    hide At, SubKnobs, Implicit;
    var f := k.format;
    FormatOkAddressable(f);
    InBoundsRepresentable(f, k.min, sk);
    InBoundsRepresentable(f, k.max, sk);
    ShapedSkeleton(f, k.deflt);
    ShapedSkeleton(f, k.min);
    ShapedSkeleton(f, k.max);
    BoundsByLeaves(f, k.deflt, k.min, k.max);
    AcceptedIsRepresentable(k, k.deflt);
    assert LeafPasses(f, k.deflt, k.min, k.max, sk);
    assert LeafRepresentable(sk.format, At(f, k.deflt, sk.path));
  }

  /** An enum whose highest number does not survive the cast: its check refuses that number. */
  lemma UnsafeLeafValue(c: Target, k: Member, sk: SubKnob) returns (x: Value)
    requires KnobReady(k) && sk in SubKnobs(k.format) && sk.leaf && sk.format.EnumF? && !LeafFaithful(c, k, sk)
    ensures Shaped(sk.format, x) && LeafRepresentable(sk.format, x)
    ensures var w := Set(k.format, k.deflt, sk.path, x);
            w.Some? && !LeafAccepts(c, k, w.value, sk) && LeafPasses(k.format, w.value, k.min, k.max, sk)
  {
    hide At, SubKnobs, Set, EnumAccepts;
    var f, values := k.format, sk.format.values;
    FormatOkAddressable(f);
    assert Declarable(values);
    UnsafeEnumRefuses(values, c.cast);
    x := Num(HighNumber(values));
    assert LeafRepresentable(sk.format, x) by {
      var e :| e in values && e.number == HighNumber(values);
      assert InCEnum(values, e.number);
    }
    BoundReadable(f, k.min, sk);
    BoundReadable(f, k.max, sk);
    SetLeaf(k, k.deflt, sk, x);
    var t := RefuseEnum(sk.path, EnumCheckFor(values));
    assert LeafTests(k, sk) == [t] && t in LeafTests(k, sk);
  }

  /**
   The flat validator is exact on the whole C type if and only if every leaf is faithful: no
   enum check loses a number to its cast, and the macros in force, whoever defined them last,
   make every integer leaf's tests right at the ends of its range and of its type.
   */
  lemma ValidatorExactIff(c: Target, k: Member)
    requires KnobReady(k)
    ensures AllFaithful(c, k) <==> Exact(c, k)
  {
    hide SubKnobs, LeafFaithful, LeafAccepts, Accepts, InBounds, Shaped, Representable, LeafRepresentable, Set;
    var f := k.format;
    if AllFaithful(c, k) {
      forall v | Shaped(f, v) && Representable(f, v)
        ensures Accepts(c, f, v, ValidatorFor(k)) <==> InBounds(f, v, k.min, k.max)
      {
        ValidatorExact(c, k, v);
      }
    } else {
      var sk :| sk in SubKnobs(f) && sk.leaf && !LeafFaithful(c, k, sk);
      var w := UnfaithfulKnob(c, k, sk);
    }
  }

  /** An unfaithful leaf makes the validator wrong on the default, or on the default with that leaf changed. */
  lemma UnfaithfulKnob(c: Target, k: Member, sk: SubKnob) returns (w: Value)
    requires KnobReady(k) && sk in SubKnobs(k.format) && sk.leaf && !LeafFaithful(c, k, sk)
    ensures Shaped(k.format, w) && Representable(k.format, w)
    ensures Accepts(c, k.format, w, ValidatorFor(k)) <==> !InBounds(k.format, w, k.min, k.max)
  {
    hide SubKnobs, LeafFaithful, Accepts, InBounds, Shaped, Representable, LeafRepresentable, LeafTests, Set, At, Holds;
    var f, d := k.format, k.deflt;
    FormatOkAddressable(f);
    var x := UnfaithfulLeaf(c, k, sk);
    ReplaceLeaf(k, d, sk, x);
    SetLeaf(k, d, sk, x);
    w := Set(f, d, sk.path, x).value;
    AcceptsByLeaves(c, k, w);
    AcceptsByLeaves(c, k, d);
    AcceptedIsRepresentable(k, d);
    if LeafAccepts(c, k, w, sk) && !Accepts(c, f, w, ValidatorFor(k)) {
      var t :| t in SubKnobs(f) && t.leaf && !LeafAccepts(c, k, w, t);
      SameLeafSameTests(c, k, w, d, t);
      w := d;
    }
  }

  lemma TestsOwnPath(k: Member, sk: SubKnob, t: Test)
    requires t in LeafTests(k, sk)
    ensures t.path == sk.path
  {
    hide At, MacroName, EnumCheckFor;
  }

  lemma HoldsByLeaf(c: Target, f: Format, v: Value, w: Value, t: Test)
    requires At(f, v, t.path) == At(f, w, t.path)
    ensures Holds(c, f, v, t) <==> Holds(c, f, w, t)
  {
    hide At, Less, Greater, InForce, EnumAccepts;
  }

  lemma SameLeafSameTests(c: Target, k: Member, v: Value, w: Value, sk: SubKnob)
    requires At(k.format, v, sk.path) == At(k.format, w, sk.path)
    ensures LeafAccepts(c, k, v, sk) <==> LeafAccepts(c, k, w, sk)
  {
    hide At, LeafTests, Holds;
    forall t | t in LeafTests(k, sk) ensures Holds(c, k.format, v, t) <==> Holds(c, k.format, w, t) {
      TestsOwnPath(k, sk, t);
      HoldsByLeaf(c, k.format, v, w, t);
    }
  }

  // ------------------------------------------------------------- a whole schema

  /** The suffix of a literal in the C text of a bound. */
  function Suffix(t: IntType): string {
    match t
    case U32 => "ul"
    case I32 => "l"
    case U64 => "ull"
    case I64 => "ll"
    case _ => ""
  }

  predicate SameMacro(d: Definition, e: Definition) {
    d.side == e.side && d.name == e.name
  }

  /** A macro that two leaves define is a literal with the same suffix both times. */
  ghost predicate SameSuffixes(defs: seq<Definition>) {
    forall d, e | d in defs && e in defs && SameMacro(d, e) :: Suffix(d.t) == Suffix(e.t)
  }

  /** No macro is defined twice with different numbers. */
  ghost predicate NoClash(defs: seq<Definition>) {
    forall d, e | d in defs && e in defs && SameMacro(d, e) :: d.value == e.value
  }

  predicate EnumsCastSafe(k: Member, cast: WordBits) {
    forall sk <- SubKnobs(k.format) :: sk.leaf && sk.format.EnumF? ==>
      sk.format.values != [] && CastSafe(sk.format.values, cast)
  }

  /** With literals of the leaf's own suffix the comparisons are those of the numbers. */
  lemma SameSuffixCompares(long: WordBits, t: IntType, x: int, d: Definition)
    requires Suffix(d.t) == Suffix(t) && t.Min() <= x <= t.Max() && d.t.Min() <= d.value <= d.t.Max()
    ensures Less(long, t, x, d) <==> x < d.value
    ensures Greater(long, t, x, d) <==> x > d.value
  {}

  /** A definition the leaf can read: there is one, in its own type's range, with the leaf's suffix. */
  predicate Readable(d: Option<Definition>, t: IntType) {
    d.Some? && Suffix(d.value.t) == Suffix(t) && d.value.t.Min() <= d.value.value <= d.value.t.Max()
  }

  /** With such definitions a leaf is faithful exactly when each macro it reads has the leaf's own bound. */
  lemma FaithfulIffOwnBounds(c: Target, k: Member, sk: SubKnob)
    requires IntLeaf(k, sk)
    requires var t, lo, hi := sk.format.t, At(k.format, k.min, sk.path).n, At(k.format, k.max, sk.path).n;
             && (lo != t.Min() ==> Readable(InForce(c.defs, Lower, MacroName(k, sk)), t))
             && (hi != t.Max() ==> Readable(InForce(c.defs, Upper, MacroName(k, sk)), t))
    ensures var t, lo, hi := sk.format.t, At(k.format, k.min, sk.path).n, At(k.format, k.max, sk.path).n;
            LeafFaithful(c, k, sk) <==>
            && (lo != t.Min() ==> InForce(c.defs, Lower, MacroName(k, sk)).value.value == lo)
            && (hi != t.Max() ==> InForce(c.defs, Upper, MacroName(k, sk)).value.value == hi)
  {
    hide InForce, MacroName, At, Less, Greater;
    var name := MacroName(k, sk);
    var t, lo, hi := sk.format.t, At(k.format, k.min, sk.path).n, At(k.format, k.max, sk.path).n;
    var low, high := InForce(c.defs, Lower, name), InForce(c.defs, Upper, name);
    forall e | t.Min() <= e <= t.Max()
      ensures IntAccepts(c, k, sk, e) <==>
              (lo != t.Min() ==> e >= low.value.value) && (hi != t.Max() ==> e <= high.value.value)
    {
      if lo != t.Min() {
        SameSuffixCompares(c.long, t, e, low.value);
      }
      if hi != t.Max() {
        SameSuffixCompares(c.long, t, e, high.value);
      }
    }
    assert IsEnd(t, lo, hi, lo) && IsEnd(t, lo, hi, hi);
    assert lo > t.Min() ==> IsEnd(t, lo, hi, lo - 1);
    assert hi < t.Max() ==> IsEnd(t, lo, hi, hi + 1);
  }

  predicate AllReady(ks: seq<Member>) {
    forall k <- ks :: KnobReady(k)
  }

  /** Every definition of the header is some leaf's own bound, a number of its type. */
  lemma DefinitionOf(ks: seq<Member>, d: Definition) returns (k: Member, sk: SubKnob)
    requires AllReady(ks) && d in Header(ks)
    ensures k in ks && sk in SubKnobs(k.format) && sk.leaf
    ensures sk.format == IntF(d.t) && IntLeaf(k, sk) && d in LeafDefinitions(k, sk)
    ensures d.t.Min() <= d.value <= d.t.Max() && d.name == MacroName(k, sk)
    ensures d.value == At(k.format, if d.side == Lower then k.min else k.max, sk.path).n
    ensures if d.side == Lower then d.value != d.t.Min() else d.value != d.t.Max()
  {
    hide At, SubKnobs, MacroName, KnobReady, LeafDefinitions, Header, IntLeaf;
    InHeader(ks, d);
    k :| k in ks && Defines(k, d);
    sk :| sk in SubKnobs(k.format) && sk.leaf && d in LeafDefinitions(k, sk);
    LeafDefinitionIs(k, sk, d);
    IntLeafOf(k, sk);
    IntLeafBounds(k, sk);
  }

  lemma LeafDefinitionIs(k: Member, sk: SubKnob, d: Definition)
    requires d in LeafDefinitions(k, sk)
    ensures sk.format == IntF(d.t) && d.name == MacroName(k, sk)
    ensures var b := At(k.format, if d.side == Lower then k.min else k.max, sk.path); b.Num? && d.value == b.n
    ensures if d.side == Lower then d.value != d.t.Min() else d.value != d.t.Max()
  {
    hide At, MacroName;
  }

  lemma IntLeafBounds(k: Member, sk: SubKnob)
    requires IntLeaf(k, sk)
    ensures At(k.format, k.min, sk.path).Num? && At(k.format, k.max, sk.path).Num?
    ensures sk.format.t.Min() <= At(k.format, k.min, sk.path).n <= sk.format.t.Max()
    ensures sk.format.t.Min() <= At(k.format, k.max, sk.path).n <= sk.format.t.Max()
  {
    hide At;
  }

  /** A constrained leaf of a knob of the schema reads some definition of its own suffix. */
  lemma LeafReads(ks: seq<Member>, k: Member, sk: SubKnob)
    requires AllReady(ks) && SameSuffixes(Header(ks)) && k in ks
    requires sk in SubKnobs(k.format) && sk.leaf && sk.format.IntF?
    ensures IntLeaf(k, sk)
    ensures var t, lo, hi := sk.format.t, At(k.format, k.min, sk.path).n, At(k.format, k.max, sk.path).n;
            && (lo != t.Min() ==> Readable(InForce(Header(ks), Lower, MacroName(k, sk)), t)
                                  && Definition(Lower, MacroName(k, sk), t, lo) in Header(ks))
            && (hi != t.Max() ==> Readable(InForce(Header(ks), Upper, MacroName(k, sk)), t)
                                  && Definition(Upper, MacroName(k, sk), t, hi) in Header(ks))
  {
    hide At, SubKnobs, MacroName, KnobReady;
    IntLeafOf(k, sk);
    var t, name := sk.format.t, MacroName(k, sk);
    var lo, hi := At(k.format, k.min, sk.path).n, At(k.format, k.max, sk.path).n;
    if lo != t.Min() {
      DefinedRead(ks, k, sk, Definition(Lower, name, t, lo));
    }
    if hi != t.Max() {
      DefinedRead(ks, k, sk, Definition(Upper, name, t, hi));
    }
  }

  lemma DefinedRead(ks: seq<Member>, k: Member, sk: SubKnob, d: Definition)
    requires AllReady(ks) && SameSuffixes(Header(ks)) && k in ks
    requires sk in SubKnobs(k.format) && sk.leaf && d in LeafDefinitions(k, sk)
    ensures d in Header(ks) && Readable(InForce(Header(ks), d.side, d.name), d.t)
  {
    hide At, SubKnobs, MacroName, KnobReady, LeafDefinitions, Header;
    assert Defines(k, d);
    InHeader(ks, d);
    var e := InForce(Header(ks), d.side, d.name).value;
    var k', sk' := DefinitionOf(ks, e);
  }

  /**
   A whole schema: with one suffix per macro, every knob's validator is exact if and only if
   the enums are cast safe and no two constrained leaves with different bounds of one kind
   share a macro name.
   */
  lemma SchemaExactIff(ks: seq<Member>, c: Target)
    requires c.defs == Header(ks) && AllReady(ks) && SameSuffixes(Header(ks))
    ensures (forall k <- ks :: Exact(c, k)) <==>
            (forall k <- ks :: EnumsCastSafe(k, c.cast)) && NoClash(Header(ks))
  {
    hide Exact, KnobReady, EnumsCastSafe, Header, SubKnobs, MacroName, IntLeaf, InForce, LeafFaithful;
    forall k | k in ks ensures Exact(c, k) <==> AllFaithful(c, k) {
      ValidatorExactIff(c, k);
    }
    if (forall k <- ks :: EnumsCastSafe(k, c.cast)) && NoClash(Header(ks)) {
      forall k | k in ks ensures AllFaithful(c, k) {
        forall sk | sk in SubKnobs(k.format) && sk.leaf ensures LeafFaithful(c, k, sk) {
          NoClashFaithful(ks, c, k, sk);
        }
      }
    }
    if forall k <- ks :: AllFaithful(c, k) {
      forall k | k in ks ensures EnumsCastSafe(k, c.cast) {
        FaithfulCastSafe(c, k);
      }
      forall d, e | d in Header(ks) && e in Header(ks) && SameMacro(d, e) ensures d.value == e.value {
        FaithfulDefinition(ks, c, d);
        FaithfulDefinition(ks, c, e);
      }
    }
  }

  lemma FaithfulCastSafe(c: Target, k: Member)
    requires AllFaithful(c, k)
    ensures EnumsCastSafe(k, c.cast)
  {
    hide SubKnobs;
  }

  lemma NoClashFaithful(ks: seq<Member>, c: Target, k: Member, sk: SubKnob)
    requires c.defs == Header(ks) && AllReady(ks) && SameSuffixes(Header(ks)) && NoClash(Header(ks))
    requires k in ks && EnumsCastSafe(k, c.cast)
    requires sk in SubKnobs(k.format) && sk.leaf
    ensures LeafFaithful(c, k, sk)
  {
    hide SubKnobs, KnobReady, Header, MacroName, At;
    if sk.format.IntF? {
      LeafReads(ks, k, sk);
      FaithfulIffOwnBounds(c, k, sk);
    }
  }

  /** Where all leaves are faithful, the macro in force has the number of every one of its definitions. */
  lemma FaithfulDefinition(ks: seq<Member>, c: Target, d: Definition)
    requires c.defs == Header(ks) && AllReady(ks) && SameSuffixes(Header(ks)) && d in Header(ks)
    requires forall k <- ks :: AllFaithful(c, k)
    ensures InForce(Header(ks), d.side, d.name).Some? && InForce(Header(ks), d.side, d.name).value.value == d.value
  {
    hide SubKnobs, KnobReady, Header, MacroName, At, LeafFaithful, InForce;
    var k, sk := DefinitionOf(ks, d);
    LeafReads(ks, k, sk);
    FaithfulIffOwnBounds(c, k, sk);
    assert AllFaithful(c, k);
    assert LeafFaithful(c, k, sk);
  }

  /** Converting negative numbers of t changes nothing, or t has none. */
  predicate KeepsOrder(long: WordBits, t: IntType, d: Definition) {
    CommonWrap(long, t, d) == 0 || t.Min() == 0
  }

  /**
   A macro with the leaf's own bound but another suffix: the comparison is that of the numbers on
   the whole type if and only if the conversion it causes keeps their order.
   */
  lemma SuffixExact(long: WordBits, t: IntType, d: Definition)
    requires t.Min() <= d.value <= t.Max()
    ensures d.value != t.Min() ==>
              (KeepsOrder(long, t, d) <==>
               forall x | t.Min() <= x <= t.Max() :: Less(long, t, x, d) <==> x < d.value)
    ensures d.value != t.Max() ==>
              (KeepsOrder(long, t, d) <==>
               forall x | t.Min() <= x <= t.Max() :: Greater(long, t, x, d) <==> x > d.value)
  {
    var wrap := CommonWrap(long, t, d);
    assert wrap == 0 || t.Min() + wrap > t.Max() by {
      WrapClears(long, t, Some(d));
    }
    hide CommonWrap;
    if !KeepsOrder(long, t, d) {
      var below, above := if d.value < 0 then 0 else -1, if d.value < 0 then t.Max() else -1;
      assert t.Min() < 0 <= t.Max();
      assert d.value != t.Min() ==> !(Less(long, t, below, d) <==> below < d.value);
      assert d.value != t.Max() ==> !(Greater(long, t, above, d) <==> above > d.value);
    }
  }

  /** One number, two suffixes: read as an unsigned long, a signed leaf's lower bound of 5 lets -1 pass. */
  lemma SuffixMatters(long: WordBits)
    ensures IntPasses(long, I8, 5, 127, Some(Definition(Lower, "K__a_1_", U32, 5)), None, -1)
  {}

  /** The bounds of a leaf are its type's own exactly where it has no test. */
  lemma ConstrainedIffTested(k: Member, sk: SubKnob)
    requires KnobReady(k) && sk in SubKnobs(k.format) && sk.leaf
    ensures Constrained(k, sk) <==> LeafTests(k, sk) != []
  {
    hide At, SubKnobs, MacroName, EnumCheckFor;
    FormatOkAddressable(k.format);
    SubKnobFormatOk(k.format, sk);
    LeafFormat(k.format, sk);
    BoundReadable(k.format, k.min, sk);
    BoundReadable(k.format, k.max, sk);
    if sk.format.IntF? {
      IntLeafOf(k, sk);
    }
  }

  /** The accept-all macro is generated exactly for the knobs none of whose leaves needs a test. */
  lemma AcceptAllIff(k: Member)
    requires KnobReady(k)
    ensures ValidatorFor(k) == NoConstraints <==>
            forall sk <- SubKnobs(k.format) :: sk.leaf ==> LeafTests(k, sk) == []
  {
    hide SubKnobs, KnobReady, LeafTests, Constrained;
    forall sk | sk in SubKnobs(k.format) ensures Constrained(k, sk) <==> sk.leaf && LeafTests(k, sk) != [] {
      if sk.leaf {
        ConstrainedIffTested(k, sk);
      } else {
        NotALeaf(k, sk);
      }
    }
  }

  lemma NotALeaf(k: Member, sk: SubKnob)
    requires !sk.leaf
    ensures !Constrained(k, sk)
  {
    hide At;
  }
}
