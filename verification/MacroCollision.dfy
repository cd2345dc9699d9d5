/**
 Two leaves of one knob whose bound macros have the same name: the family of such names, and
 a knob whose generated validator accepts a value that its bounds check refuses.
 */
module MacroCollision {
  import opened Bytes
  import opened PyText
  import opened Formats
  import opened Paths
  import opened PathText
  import opened Validators
  import opened Macros
  import opened KnobValidators

  lemma {:induction false} FlattenAppend(a: string, b: string)
    ensures Flatten(a + b) == Flatten(a) + Flatten(b)
  {
    if a == [] {
      assert a + b == b;
    } else {
      assert (a + b)[1..] == a[1..] + b;
      FlattenAppend(a[1..], b);
    }
  }

  lemma {:induction false} FlattenPlain(s: string)
    requires forall c <- s :: c != '[' && c != ']' && c != '.'
    ensures Flatten(s) == s
  {
    if s != [] {
      assert s[0] in s && forall c <- s[1..] :: c in s;
      FlattenPlain(s[1..]);
      assert s == [s[0]] + s[1..];
    }
  }

  /** Element i of a member n and a member named n_i_ flatten to the same text. */
  lemma IndexedStepsCollide(n: string, i: nat)
    ensures Flatten(StepText(Item(n, i))) == Flatten(StepText(Field(n + "_" + Decimal(i) + "_")))
  {
    FlattenPlain(Decimal(i));
    FlattenBracketed(n, "[", Decimal(i), "]");
    FlattenBracketed(n, "_", Decimal(i), "_");
  }

  /** The texts of two paths that differ in one step flatten alike if those two steps do. */
  lemma {:induction false} FlattenPath(knob: string, pre: Path, a: Step, b: Step, post: Path)
    requires Flatten(StepText(a)) == Flatten(StepText(b))
    ensures Flatten(PathName(knob, pre + [a] + post)) == Flatten(PathName(knob, pre + [b] + post))
    decreases |post|
  {
    hide Flatten, StepText;
    var p, q, n := pre + [a] + post, pre + [b] + post, |pre| + |post|;
    if post == [] {
      assert p[..n] == pre == q[..n];
    } else {
      var front := post[..|post| - 1];
      assert p[..n] == pre + [a] + front && q[..n] == pre + [b] + front;
      FlattenPath(knob, pre, a, b, front);
    }
    FlattenAppend(PathName(knob, p[..n]) + ".", StepText(p[n]));
    FlattenAppend(PathName(knob, p[..n]), ".");
    FlattenAppend(PathName(knob, q[..n]) + ".", StepText(q[n]));
    FlattenAppend(PathName(knob, q[..n]), ".");
  }

  /** Wherever a path has element i of a member n, a path with a member n_i_ there has the same macro name. */
  lemma IndexedNamesCollide(k: Member, sk: SubKnob, other: SubKnob, pre: Path, n: string, i: nat, post: Path)
    requires sk.path == pre + [Item(n, i)] + post && other.path == pre + [Field(n + "_" + Decimal(i) + "_")] + post
    ensures MacroName(k, sk) == MacroName(k, other)
  {
    hide Flatten;
    IndexedStepsCollide(n, i);
    FlattenPath(k.name, pre, Item(n, i), Field(n + "_" + Decimal(i) + "_"), post);
  }

  lemma FlattenOne(s: string)
    requires s == "[" || s == "]" || s == "_"
    ensures Flatten(s) == "_"
  {
    assert s[1..] == [];
  }

  lemma FlattenBracketed(n: string, open: string, d: string, close: string)
    requires Flatten(d) == d && (open == "[" || open == "_") && (close == "]" || close == "_")
    ensures Flatten(n + open + d + close) == Flatten(n) + "_" + d + "_"
  {
    FlattenOne(open);
    FlattenOne(close);
    hide Flatten;
    FlattenAppend(n + open + d, close);
    FlattenAppend(n + open, d);
    FlattenAppend(n, open);
  }

  // struct { uint8 a[2], each at most 5; uint8 a_1_, at most 7 } K
  const BYTE := IntF(U8)
  const PAIR := Member("a", ArrayF(BYTE, 2), Arr([Num(0), Num(0)]), Arr([Num(0), Num(0)]), Arr([Num(5), Num(5)]))
  const SINGLE := Member("a_1_", BYTE, Num(0), Num(0), Num(7))
  const COLLIDING := Member("K", StructF("S", [PAIR, SINGLE]), Rec([PAIR.deflt, Num(0)]), Rec([PAIR.min, Num(0)]),
                            Rec([PAIR.max, Num(7)]))
  const FIRST := SubKnob([Item("a", 0)], BYTE, true)
  const SECOND := SubKnob([Item("a", 1)], BYTE, true)
  const THIRD := SubKnob([Field("a_1_")], BYTE, true)

  lemma UnderLeaf(st: Step, f: Format)
    ensures Under(st, [SubKnob([], f, true)]) == [SubKnob([st], f, true)]
  {
    assert [st] + [] == [st];
  }

  lemma CollidingSubKnobs()
    ensures SubKnobs(COLLIDING.format)
         == [SubKnob([], COLLIDING.format, false), SubKnob([Field("a")], PAIR.format, false), FIRST, SECOND, THIRD]
  {
    hide Under;
    var leaf := SubKnob([], BYTE, true);
    UnderLeaf(Item("a", 0), BYTE);
    UnderLeaf(Item("a", 1), BYTE);
    UnderLeaf(Field("a_1_"), BYTE);
    assert ItemsSubKnobs("a", [leaf], 1) == [FIRST] && ItemsSubKnobs("a", [leaf], 2) == [FIRST, SECOND];
    var ms := [PAIR, SINGLE];
    assert ms[1..] == [SINGLE] && ms[1..][1..] == [];
    assert MembersSubKnobs([SINGLE]) == [THIRD];
    assert MemberSubKnobs(PAIR) == [SubKnob([Field("a")], PAIR.format, false), FIRST, SECOND];
  }

  lemma PairOk()
    ensures MemberOk(PAIR) && MemberOk(SINGLE)
  {
    hide CheckBounds;
    PairBounded();
    SingleBounded();
  }

  lemma PairBounded()
    ensures var a := PAIR.format;
            && InBounds(a, PAIR.min, Implicit(a, Min), Implicit(a, Max))
            && InBounds(a, PAIR.max, Implicit(a, Min), Implicit(a, Max)) && InBounds(a, PAIR.deflt, PAIR.min, PAIR.max)
  {
    var a := PAIR.format;
    ArrayInBounds(a, PAIR.min, Implicit(a, Min), Implicit(a, Max));
    ArrayInBounds(a, PAIR.max, Implicit(a, Min), Implicit(a, Max));
    ArrayInBounds(a, PAIR.deflt, PAIR.min, PAIR.max);
  }

  lemma SingleBounded()
    ensures var b := SINGLE.format;
            && InBounds(b, SINGLE.min, Implicit(b, Min), Implicit(b, Max))
            && InBounds(b, SINGLE.max, Implicit(b, Min), Implicit(b, Max))
            && InBounds(b, SINGLE.deflt, SINGLE.min, SINGLE.max)
  {}

  lemma CollidingOk()
    ensures MemberOk(COLLIDING)
  {
    hide CheckBounds;
    PairOk();
    var a, f := PAIR.format, COLLIDING.format;
    assert Implicit(f, Min) == COLLIDING.min && Implicit(f, Max) == COLLIDING.max;
    PairInOwnBounds();
    StructInBounds(f, COLLIDING.min, COLLIDING.min, COLLIDING.max);
    StructInBounds(f, COLLIDING.max, COLLIDING.min, COLLIDING.max);
    StructInBounds(f, COLLIDING.deflt, COLLIDING.min, COLLIDING.max);
  }

  lemma PairInOwnBounds()
    ensures InBounds(PAIR.format, PAIR.min, PAIR.min, PAIR.max) && InBounds(PAIR.format, PAIR.max, PAIR.min, PAIR.max)
    ensures InBounds(BYTE, Num(0), Num(0), Num(7)) && InBounds(BYTE, Num(7), Num(0), Num(7))
  {
    ArrayInBounds(PAIR.format, PAIR.min, PAIR.min, PAIR.max);
    ArrayInBounds(PAIR.format, PAIR.max, PAIR.min, PAIR.max);
  }

  lemma CollidingReady(cast: WordBits)
    ensures KnobReady(COLLIDING) && EnumsCastSafe(COLLIDING, cast)
  {
    hide SubKnobs, MemberOk;
    CollidingSubKnobs();
    CollidingOk();
  }

  /** What the three leaves of a value of the example read. */
  lemma CollidingReads(v: Value, x: Value, y: Value, z: Value)
    requires v == Rec([Arr([x, y]), z])
    ensures At(COLLIDING.format, v, FIRST.path) == x
    ensures At(COLLIDING.format, v, SECOND.path) == y
    ensures At(COLLIDING.format, v, THIRD.path) == z
  {
    var ms := [PAIR, SINGLE];
    assert ms[1..] == [SINGLE];
    assert FindMember(ms, "a") == Some(0) && FindMember(ms, "a_1_") == Some(1);
    assert FIRST.path[1..] == [] && SECOND.path[1..] == [] && THIRD.path[1..] == [];
  }

  /** The definition in force for the second and the third leaf is the third leaf's bound. */
  lemma CollidingInForce()
    ensures InForce(Header([COLLIDING]), Upper, MacroName(COLLIDING, SECOND))
         == Some(Definition(Upper, MacroName(COLLIDING, THIRD), U8, 7))
    ensures MacroName(COLLIDING, SECOND) == MacroName(COLLIDING, THIRD)
  {
    hide SubKnobs, MacroName, At;
    var k := COLLIDING;
    assert Decimal(1) == "1" && "a" + "_" + "1" + "_" == "a_1_";
    IndexedNamesCollide(k, SECOND, THIRD, [], "a", 1, []);
    CollidingSubKnobs();
    CollidingReads(k.min, Num(0), Num(0), Num(0));
    CollidingReads(k.max, Num(5), Num(5), Num(7));
    var sks := OwnSubKnobs(k.format);
    var front := KnobDefinitions(k, sks[..5]);
    var last := Definition(Upper, MacroName(k, THIRD), U8, 7);
    assert sks[5] == THIRD && sks == sks[..6];
    assert LeafDefinitions(k, THIRD) == [last];
    assert KnobDefinitions(k, sks) == front + [last];
    assert [k][..0] == [] && Header([]) == [];
    assert Header([k]) == Header([]) + KnobDefinitions(k, sks) == front + [last];
  }

  /** The first leaf's macro is defined, as a number that is not negative. */
  lemma CollidingFirst()
    ensures var d := InForce(Header([COLLIDING]), Upper, MacroName(COLLIDING, FIRST));
            d.Some? && d.value.t == U8 && 0 <= d.value.value <= 255
  {
    hide SubKnobs, MacroName, At, KnobReady, Header, LeafDefinitions, IntLeaf;
    var k := COLLIDING;
    CollidingReady(32);
    CollidingSubKnobs();
    CollidingReads(k.max, Num(5), Num(5), Num(7));
    var own := Definition(Upper, MacroName(k, FIRST), U8, 5);
    FirstDefines();
    assert [k][0] == k && FIRST in SubKnobs(k.format);
    assert Defines(k, own);
    InHeader([k], own);
    var d := InForce(Header([k]), Upper, MacroName(k, FIRST)).value;
    var k', sk := DefinitionOf([k], d);
    assert sk.format == BYTE;
  }

  lemma FirstDefines()
    ensures Definition(Upper, MacroName(COLLIDING, FIRST), U8, 5) in LeafDefinitions(COLLIDING, FIRST)
  {
    hide MacroName, At;
    CollidingReads(COLLIDING.max, Num(5), Num(5), Num(7));
  }

  /**
   Leaves K.a[1] and K.a_1_ define the same macro, and the later bound wins: the validator
   accepts a = {0, 6}, which the recursive check refuses.
   */
  lemma CollidingMacros(c: Target)
    requires c.defs == Header([COLLIDING])
    ensures KnobReady(COLLIDING) && EnumsCastSafe(COLLIDING, c.cast)
    ensures var v := Rec([Arr([Num(0), Num(6)]), Num(0)]);
            && Shaped(COLLIDING.format, v) && Representable(COLLIDING.format, v)
            && Accepts(c, COLLIDING.format, v, ValidatorFor(COLLIDING))
            && !InBounds(COLLIDING.format, v, COLLIDING.min, COLLIDING.max)
  {
    hide MacroName, At, SubKnobs, KnobReady, EnumsCastSafe, Accepts, LeafAccepts, CheckBounds, LeafPasses;
    hide Header, InForce;
    CollidingReady(c.cast);
    CollidingSubKnobs();
    var k, v := COLLIDING, Rec([Arr([Num(0), Num(6)]), Num(0)]);
    CollidingReads(v, Num(0), Num(6), Num(0));
    CollidingLeaves(c, v);
    CollidingAccepts(c, v);
  }

  lemma CollidingLeaves(c: Target, v: Value)
    requires c.defs == Header([COLLIDING]) && v == Rec([Arr([Num(0), Num(6)]), Num(0)])
    ensures LeafAccepts(c, COLLIDING, v, FIRST) && LeafAccepts(c, COLLIDING, v, SECOND)
    ensures LeafAccepts(c, COLLIDING, v, THIRD)
    ensures !LeafPasses(COLLIDING.format, v, COLLIDING.min, COLLIDING.max, SECOND)
  {
    hide MacroName, At, LeafAccepts, CheckBounds, LeafPasses, Header, InForce;
    CollidingInForce();
    CollidingFirst();
    var k := COLLIDING;
    CollidingReads(k.min, Num(0), Num(0), Num(0));
    CollidingReads(k.max, Num(5), Num(5), Num(7));
    CollidingReads(v, Num(0), Num(6), Num(0));
    LeafAcceptsInt(c, k, v, FIRST);
    LeafAcceptsInt(c, k, v, SECOND);
    LeafAcceptsInt(c, k, v, THIRD);
  }

  lemma CollidingAccepts(c: Target, v: Value)
    requires Shaped(COLLIDING.format, v)
    requires LeafAccepts(c, COLLIDING, v, FIRST)
    requires LeafAccepts(c, COLLIDING, v, SECOND) && LeafAccepts(c, COLLIDING, v, THIRD)
    requires !LeafPasses(COLLIDING.format, v, COLLIDING.min, COLLIDING.max, SECOND)
    ensures Accepts(c, COLLIDING.format, v, ValidatorFor(COLLIDING))
    ensures !InBounds(COLLIDING.format, v, COLLIDING.min, COLLIDING.max)
  {
    hide MacroName, At, SubKnobs, Accepts, LeafAccepts, CheckBounds, LeafPasses, Shaped;
    var k := COLLIDING;
    CollidingSubKnobs();
    CollidingOk();
    FormatOkAddressable(k.format);
    AcceptsByLeaves(c, k, v);
    ShapedSkeleton(k.format, v);
    ShapedSkeleton(k.format, k.min);
    ShapedSkeleton(k.format, k.max);
    BoundsByLeaves(k.format, v, k.min, k.max);
    assert SECOND in SubKnobs(k.format);
  }
}
