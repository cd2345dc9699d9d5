/**
 The knob type system: format trees, the value trees they describe, the implicit
 default, minimum and maximum of a format, and the recursive bounds check.
 */
module Formats {
  import opened Bytes

  /** A Python object as the formats build it. Rec holds a struct's members in member order. */
  datatype Value =
    | Null
    | Num(n: int)
    | Flag(b: bool)
    | Arr(elems: seq<Value>)
    | Rec(fields: seq<Value>)

  datatype EnumValue = EnumValue(name: string, prettyName: string, number: int)

  datatype Member = Member(name: string, format: Format, deflt: Value, min: Value, max: Value)

  datatype Format =
    | IntF(t: IntType)
    | BoolF
    | EnumF(name: string, values: seq<EnumValue>, deflt: int)
    | ArrayF(elem: Format, count: nat)
    | StructF(name: string, members: seq<Member>)

  /** What an empty text stands for. */
  datatype Context = Default | Min | Max

  function MemberBound(m: Member, c: Context): Value {
    match c
    case Default => m.deflt
    case Min => m.min
    case Max => m.max
  }

  /** The default, min or max attribute of a format object. */
  function Implicit(f: Format, c: Context): Value {
    match f
    case IntF(t) => Num(match c case Default => 0 case Min => t.Min() case Max => t.Max())
    case BoolF => if c == Default then Flag(false) else Null
    case EnumF(_, _, d) => if c == Default then Num(d) else Null
    case ArrayF(e, n) => var v := Implicit(e, c); Arr(seq(n, _ => v))
    case StructF(_, ms) => Rec(seq(|ms|, i requires 0 <= i < |ms| => MemberBound(ms[i], c)))
  }

  predicate Shaped(f: Format, v: Value) {
    match f
    case IntF(_) => v.Num?
    case BoolF => v.Flag?
    case EnumF(_, _, _) => v.Num?
    case ArrayF(e, n) => v.Arr? && |v.elems| == n && forall x <- v.elems :: Shaped(e, x)
    case StructF(_, ms) =>
      && v.Rec? && |v.fields| == |ms|
      && forall i :: 0 <= i < |ms| ==> Shaped(ms[i].format, v.fields[i])
  }

  /** A minimum or maximum: numbers at the integer leaves, nothing at the others. */
  predicate BoundShaped(f: Format, v: Value) {
    match f
    case IntF(_) => v.Num?
    case BoolF => v.Null?
    case EnumF(_, _, _) => v.Null?
    case ArrayF(e, n) => v.Arr? && |v.elems| == n && forall x <- v.elems :: BoundShaped(e, x)
    case StructF(_, ms) =>
      && v.Rec? && |v.fields| == |ms|
      && forall i :: 0 <= i < |ms| ==> BoundShaped(ms[i].format, v.fields[i])
  }

  /** Python treats True and False as 1 and 0 in comparisons and in struct.pack. */
  function AsNumber(v: Value): Option<int> {
    match v
    case Num(n) => Some(n)
    case Flag(b) => Some(if b then 1 else 0)
    case _ => None
  }

  /** Pass, InvalidRangeError, ParseError ("may not have a min"), or a Python type error. */
  datatype Outcome = Pass | OutOfRange | BadBound | Broken

  function EnumNumbers(values: seq<EnumValue>): set<int> {
    set e | e in values :: e.number
  }

  function CheckInt(v: Value, lo: Value, hi: Value): Outcome {
    if v.Null? then Pass
    else
      var n, a, b := AsNumber(v), AsNumber(lo), AsNumber(hi);
      if n.None? || a.None? then Broken
      else if n.value < a.value then OutOfRange
      else if b.None? then Broken
      else if n.value > b.value then OutOfRange
      else Pass
  }

  function CheckEnum(values: seq<EnumValue>, v: Value): Outcome {
    if v.Null? then Pass
    else
      var n := AsNumber(v);
      if n.Some? && n.value in EnumNumbers(values) then Pass else OutOfRange
  }

  /**
   check_bounds of every format class. A container of the wrong shape is Broken,
   whichever Python exception it would meet first.
   */
  function CheckBounds(f: Format, v: Value, lo: Value, hi: Value): Outcome
    decreases f, 0, 0
  {
    match f
    case IntF(_) => CheckInt(v, lo, hi)
    case BoolF => if lo != Null || hi != Null then BadBound else Pass
    case EnumF(_, values, _) => if lo != Null || hi != Null then BadBound else CheckEnum(values, v)
    case ArrayF(e, n) =>
      if n == 0 then Pass
      else if v.Arr? && lo.Arr? && hi.Arr? && n <= |v.elems| && n <= |lo.elems| && n <= |hi.elems| then
        CheckElems(e, v.elems[..n], lo.elems[..n], hi.elems[..n])
      else Broken
    case StructF(_, ms) =>
      if v.Rec? && lo.Rec? && hi.Rec? && |v.fields| == |lo.fields| == |hi.fields| == |ms| then
        CheckFields(ms, v.fields, lo.fields, hi.fields)
      else Broken
  }

  function CheckElems(e: Format, vs: seq<Value>, los: seq<Value>, his: seq<Value>): Outcome
    requires |vs| == |los| == |his|
    decreases e, 1, |vs|
  {
    if vs == [] then Pass
    else
      var r := CheckBounds(e, vs[0], los[0], his[0]);
      if r != Pass then r else CheckElems(e, vs[1..], los[1..], his[1..])
  }

  function CheckFields(ms: seq<Member>, vs: seq<Value>, los: seq<Value>, his: seq<Value>): Outcome
    requires |ms| == |vs| == |los| == |his|
    decreases ms, 0, 0
  {
    if ms == [] then Pass
    else
      var r := CheckBounds(ms[0].format, vs[0], los[0], his[0]);
      if r != Pass then r else CheckFields(ms[1..], vs[1..], los[1..], his[1..])
  }

  predicate InBounds(f: Format, v: Value, lo: Value, hi: Value) {
    CheckBounds(f, v, lo, hi) == Pass
  }

  /** None is inside any bounds that an integer, bool or enum may have. */
  lemma NoneInBounds(f: Format, lo: Value, hi: Value)
    requires !f.ArrayF? && !f.StructF? && BoundShaped(f, lo) && BoundShaped(f, hi)
    ensures InBounds(f, Null, lo, hi)
  {}

  lemma {:induction false} CheckElemsPass(e: Format, vs: seq<Value>, los: seq<Value>, his: seq<Value>)
    requires |vs| == |los| == |his|
    ensures CheckElems(e, vs, los, his) == Pass <==>
            forall i :: 0 <= i < |vs| ==> InBounds(e, vs[i], los[i], his[i])
    decreases |vs|
  {
    if vs != [] {
      CheckElemsPass(e, vs[1..], los[1..], his[1..]);
      if forall i :: 0 <= i < |vs| ==> InBounds(e, vs[i], los[i], his[i]) {
        forall i | 0 <= i < |vs| - 1 ensures InBounds(e, vs[1..][i], los[1..][i], his[1..][i]) {
          assert InBounds(e, vs[i + 1], los[i + 1], his[i + 1]);
        }
      }
      if CheckElems(e, vs, los, his) == Pass {
        forall i | 0 <= i < |vs| ensures InBounds(e, vs[i], los[i], his[i]) {
          if i > 0 {
            assert InBounds(e, vs[1..][i - 1], los[1..][i - 1], his[1..][i - 1]);
          }
        }
      }
    }
  }

  lemma {:induction false} CheckFieldsPass(ms: seq<Member>, vs: seq<Value>, los: seq<Value>, his: seq<Value>)
    requires |ms| == |vs| == |los| == |his|
    ensures CheckFields(ms, vs, los, his) == Pass <==>
            forall i :: 0 <= i < |ms| ==> InBounds(ms[i].format, vs[i], los[i], his[i])
    decreases |ms|
  {
    if ms != [] {
      CheckFieldsPass(ms[1..], vs[1..], los[1..], his[1..]);
      if forall i :: 0 <= i < |ms| ==> InBounds(ms[i].format, vs[i], los[i], his[i]) {
        forall i | 0 <= i < |ms| - 1
          ensures InBounds(ms[1..][i].format, vs[1..][i], los[1..][i], his[1..][i])
        {
          assert InBounds(ms[i + 1].format, vs[i + 1], los[i + 1], his[i + 1]);
        }
      }
      if CheckFields(ms, vs, los, his) == Pass {
        forall i | 0 <= i < |ms| ensures InBounds(ms[i].format, vs[i], los[i], his[i]) {
          if i > 0 {
            assert InBounds(ms[1..][i - 1].format, vs[1..][i - 1], los[1..][i - 1], his[1..][i - 1]);
          }
        }
      }
    }
  }

  /** The array check, said position by position. */
  lemma ArrayInBounds(f: Format, v: Value, lo: Value, hi: Value)
    requires f.ArrayF? && v.Arr? && lo.Arr? && hi.Arr?
    requires |v.elems| == |lo.elems| == |hi.elems| == f.count
    ensures InBounds(f, v, lo, hi) <==>
            forall i :: 0 <= i < f.count ==> InBounds(f.elem, v.elems[i], lo.elems[i], hi.elems[i])
  {
    CheckElemsPass(f.elem, v.elems, lo.elems, hi.elems);
    assert v.elems[..f.count] == v.elems && lo.elems[..f.count] == lo.elems && hi.elems[..f.count] == hi.elems;
  }

  /** The struct check, said member by member. */
  lemma StructInBounds(f: Format, v: Value, lo: Value, hi: Value)
    requires f.StructF? && v.Rec? && lo.Rec? && hi.Rec?
    requires |v.fields| == |lo.fields| == |hi.fields| == |f.members|
    ensures InBounds(f, v, lo, hi) <==>
            forall i :: 0 <= i < |f.members| ==>
              InBounds(f.members[i].format, v.fields[i], lo.fields[i], hi.fields[i])
  {
    CheckFieldsPass(f.members, v.fields, lo.fields, hi.fields);
  }

  predicate UniqueNames(ms: seq<Member>) {
    forall i, j :: 0 <= i < j < |ms| ==> ms[i].name != ms[j].name
  }

  /** What StructMember's constructor has established about a member. */
  predicate MemberOk(m: Member) {
    && FormatOk(m.format)
    && Shaped(m.format, m.deflt) && BoundShaped(m.format, m.min) && BoundShaped(m.format, m.max)
    && InBounds(m.format, m.min, Implicit(m.format, Min), Implicit(m.format, Max))
    && InBounds(m.format, m.max, Implicit(m.format, Min), Implicit(m.format, Max))
    && InBounds(m.format, m.deflt, m.min, m.max)
  }

  /** A format as the schema loader builds it: arrays only of non-arrays, members all checked. */
  predicate FormatOk(f: Format) {
    match f
    case ArrayF(e, n) => n != 1 && !e.ArrayF? && FormatOk(e)
    case StructF(_, ms) => UniqueNames(ms) && forall m <- ms :: MemberOk(m)
    case EnumF(_, values, _) => values != []
    case _ => true
  }

  lemma {:induction false} ImplicitBoundShaped(f: Format, c: Context)
    requires FormatOk(f) && c != Default
    ensures BoundShaped(f, Implicit(f, c))
  {
    match f
    case ArrayF(e, n) => ImplicitBoundShaped(e, c);
    case StructF(_, ms) =>
      forall i | 0 <= i < |ms| ensures BoundShaped(ms[i].format, Implicit(f, c).fields[i]) {
        assert MemberOk(ms[i]);
      }
    case _ =>
  }

  /** Bounds nest: inside bounds that are themselves inside outer bounds is inside the outer bounds. */
  lemma {:induction false} BoundsNest(f: Format, v: Value, lo: Value, hi: Value, outerLo: Value, outerHi: Value)
    requires (Shaped(f, v) || BoundShaped(f, v)) && BoundShaped(f, lo) && BoundShaped(f, hi)
    requires BoundShaped(f, outerLo) && BoundShaped(f, outerHi)
    requires InBounds(f, lo, outerLo, outerHi) && InBounds(f, hi, outerLo, outerHi)
    requires InBounds(f, v, lo, hi)
    ensures InBounds(f, v, outerLo, outerHi)
  {
    match f
    case ArrayF(e, n) =>
      ArrayInBounds(f, v, lo, hi);
      ArrayInBounds(f, lo, outerLo, outerHi);
      ArrayInBounds(f, hi, outerLo, outerHi);
      ArrayInBounds(f, v, outerLo, outerHi);
      forall i | 0 <= i < n ensures InBounds(e, v.elems[i], outerLo.elems[i], outerHi.elems[i]) {
        BoundsNest(e, v.elems[i], lo.elems[i], hi.elems[i], outerLo.elems[i], outerHi.elems[i]);
      }
    case StructF(_, ms) =>
      StructInBounds(f, v, lo, hi);
      StructInBounds(f, lo, outerLo, outerHi);
      StructInBounds(f, hi, outerLo, outerHi);
      StructInBounds(f, v, outerLo, outerHi);
      forall i | 0 <= i < |ms|
        ensures InBounds(ms[i].format, v.fields[i], outerLo.fields[i], outerHi.fields[i])
      {
        BoundsNest(ms[i].format, v.fields[i], lo.fields[i], hi.fields[i], outerLo.fields[i], outerHi.fields[i]);
      }
    case _ =>
  }

  /** A member of a value, or of a bound, inside its format's own bounds is inside the bounds of its own format. */
  lemma MemberInOwnBounds(f: Format, v: Value, k: nat)
    requires FormatOk(f) && f.StructF? && (Shaped(f, v) || BoundShaped(f, v))
    requires InBounds(f, v, Implicit(f, Min), Implicit(f, Max)) && k < |f.members|
    ensures var m := f.members[k];
            && FormatOk(m.format) && InBounds(m.format, v.fields[k], Implicit(m.format, Min), Implicit(m.format, Max))
            && (Shaped(f, v) ==> Shaped(m.format, v.fields[k]))
            && (Shaped(m.format, v.fields[k]) || BoundShaped(m.format, v.fields[k]))
  {
    var m := f.members[k];
    assert MemberOk(m);
    assert Shaped(m.format, v.fields[k]) || BoundShaped(m.format, v.fields[k]);
    StructInBounds(f, v, Implicit(f, Min), Implicit(f, Max));
    assert InBounds(m.format, v.fields[k], m.min, m.max);
    ImplicitBoundShaped(m.format, Min);
    ImplicitBoundShaped(m.format, Max);
    BoundsNest(m.format, v.fields[k], m.min, m.max, Implicit(m.format, Min), Implicit(m.format, Max));
  }
}
