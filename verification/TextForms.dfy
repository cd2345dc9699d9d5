/**
 Texts that people write and the tools do not print: other bases, other spellings of a bool,
 names of enum values, one element for a whole array, and nothing at all.
 */
module TextForms {
  import opened Bytes
  import opened PyText
  import opened Formats
  import opened Text
  import opened Binary

  /** Integer knobs take every base with a prefix, signs and blanks. */
  lemma RadixText(t: IntType, c: Context, n: nat, x: Radix, sign: Sign, prefixCaps: bool, caps: bool,
                  before: string, after: string)
    requires (forall c <- before :: IsSpace(c)) && (forall c <- after :: IsSpace(c))
    ensures var u := before + sign.Text() + ("0" + [x.Letter(prefixCaps)] + Numeral(n, x, caps)) + after;
            Parse(IntF(t), u, c) == Some(Num(sign.Of(n)))
  {
    hide ParseInt, Numeral;
    RadixRoundTrip(n, x, sign, prefixCaps, caps, before, after);
  }

  /** An integer knob refuses a decimal number with leading zeros; an enum reads it. */
  lemma ZerosText(t: IntType, values: seq<EnumValue>, d: int, c: Context, n: nat, k: nat)
    requires k > 0
    ensures Parse(IntF(t), Zeros(k) + Decimal(n), c) == if n == 0 then Some(Num(0)) else None
    ensures Parse(EnumF("", values, d), Zeros(k) + Decimal(n), c) == Some(Num(n))
  {
    hide ParseInt, Zeros, Decimal;
    LeadingZeros(n, k);
  }

  /** a is b, letter by letter, in any mixture of cases. */
  predicate SameLetters(a: string, b: string) {
    |a| == |b| && forall i :: 0 <= i < |a| ==> a[i] == b[i] || ('a' <= b[i] <= 'z' && a[i] == b[i] - 'a' + 'A')
  }

  lemma LowerIs(a: string, b: string)
    requires forall c <- b :: 'a' <= c <= 'z' || IsDigit(c)
    ensures Lower(a) == b <==> SameLetters(a, b)
  {
    if SameLetters(a, b) {
      forall i | 0 <= i < |a| ensures Lower(a)[i] == b[i] {
        assert b[i] in b;
      }
    }
    if Lower(a) == b {
      forall i | 0 <= i < |a| ensures a[i] == b[i] || ('a' <= b[i] <= 'z' && a[i] == b[i] - 'a' + 'A') {
        assert Lower(a)[i] == b[i];
      }
    }
  }

  /** A bool text that is not empty is true if and only if it spells true, yes or 1, with blanks around it or not. */
  lemma BoolTextIff(before: string, s: string, after: string, c: Context)
    requires (forall c <- before :: IsSpace(c)) && (forall c <- after :: IsSpace(c)) && Trimmed(s)
    ensures Parse(BoolF, before + s + after, c)
         == Some(Flag(SameLetters(s, "true") || SameLetters(s, "yes") || SameLetters(s, "1")))
  {
    hide Lower, Strip, Trimmed;
    StripPadded(before, s, after);
    assert before + s + after != "" by { TrimmedNotEmpty(s); }
    LowerIs(s, "true");
    LowerIs(s, "yes");
    LowerIs(s, "1");
  }

  lemma TrimmedNotEmpty(s: string)
    requires Trimmed(s)
    ensures s != ""
  {}

  lemma {:induction false} EnumLookupMissing(values: seq<EnumValue>, s: string)
    requires forall e <- values :: e.name != s && e.prettyName != s
    ensures EnumLookup(values, s).None?
  {
    if values != [] {
      assert values[0] in values && forall e <- values[1..] :: e in values;
      EnumLookupMissing(values[1..], s);
    }
  }

  /**
   An enum text is a decimal number, or the first value of that name or pretty name, or an
   error; an empty one is the default of the enum, or no bound.
   */
  lemma EnumTextIff(values: seq<EnumValue>, d: int, s: string, c: Context)
    ensures var r := Parse(EnumF("", values, d), s, c);
            && (s == "" ==> r == Some(if c == Default then Num(d) else Null))
            && (s != "" && ParseInt(s, false).Some? ==> r == Some(Num(ParseInt(s, false).value)))
            && (s != "" && ParseInt(s, false).None? ==>
                  && (r.Some? <==> exists e <- values :: e.name == s || e.prettyName == s)
                  && forall i: nat :: FirstWithText(values, s, i) ==> r == Some(Num(values[i].number)))
  {
    hide ParseInt;
    if ParseInt(s, false).None? {
      if e :| e in values && (e.name == s || e.prettyName == s) {
        var k :| 0 <= k < |values| && values[k] == e;
        var i := FirstText(values, s, k);
        EnumLookupFirst(values, s, i);
      } else {
        EnumLookupMissing(values, s);
      }
      forall i: nat | FirstWithText(values, s, i) ensures EnumLookup(values, s) == Some(values[i].number) {
        EnumLookupFirst(values, s, i);
      }
    }
  }

  /** One element in braces stands for all elements of an array. */
  lemma OneForAll(e: Format, n: nat, part: string, v: Value, c: Context)
    requires IsPart(part) && Parse(e, part, c) == Some(v)
    ensures Parse(ArrayF(e, n), Braces([part]), c) == Some(Arr(seq(n, _ => v)))
  {
    hide IsPart, Braces, Split;
    assert AllParts([part]);
    SplitBracesInverts([part]);
    PartsBraces([part]);
    SegmentNotEmpty(Braces([part]));
  }

  /** A brace list of any other length is an error, for arrays and structs alike. */
  lemma WrongLength(f: Format, parts: seq<string>, c: Context)
    requires |parts| > 1 && AllParts(parts)
    requires (f.ArrayF? && |parts| != f.count) || (f.StructF? && |parts| != |f.members|)
    ensures Parse(f, Braces(parts), c).None?
  {
    hide IsPart, Braces, Split;
    SplitBracesInverts(parts);
    PartsBraces(parts);
    SegmentNotEmpty(Braces(parts));
  }

  /** Formats that name no default of their own. */
  predicate Nameless(f: Format) {
    match f
    case IntF(_) => true
    case BoolF => true
    case ArrayF(e, _) => Nameless(e)
    case _ => false
  }

  predicate AllZero(s: seq<Byte>, n: nat) {
    |s| == n && forall i :: 0 <= i < n ==> s[i] == 0
  }

  /** For these an empty text is the value whose binary form is all zeros. */
  lemma {:induction false} EmptyIsZero(f: Format)
    requires Nameless(f)
    ensures Parse(f, "", Default) == Some(Implicit(f, Default))
    ensures Encode(f, Implicit(f, Default)).Some? && AllZero(Encode(f, Implicit(f, Default)).value, Size(f))
    decreases f
  {
    hide Parse;
    ParseEmpty(f, Default);
    match f
    case IntF(t) => ZeroLittleEndian(t.Width());
    case BoolF =>
    case ArrayF(e, n) =>
      EmptyIsZero(e);
      var v := Implicit(f, Default);
      ZeroElems(e, v.elems);
  }

  lemma {:induction false} ZeroLittleEndian(k: nat)
    ensures AllZero(ToLittleEndian(0, k), k)
  {
    if k > 0 {
      ZeroLittleEndian(k - 1);
      assert 0 / 256 == 0;
    }
  }

  lemma {:induction false} ZeroElems(e: Format, vs: seq<Value>)
    requires forall v <- vs :: v == Implicit(e, Default)
    requires Encode(e, Implicit(e, Default)).Some? && AllZero(Encode(e, Implicit(e, Default)).value, Size(e))
    ensures EncodeElems(e, vs).Some? && AllZero(EncodeElems(e, vs).value, Size(e) * |vs|)
    decreases |vs|
  {
    hide Encode, Size, Implicit;
    if vs != [] {
      assert vs[0] in vs && forall v <- vs[1..] :: v in vs;
      ZeroElems(e, vs[1..]);
      MulSucc(Size(e), |vs| - 1);
    }
  }
}
