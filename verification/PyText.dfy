/**
 The pieces of Python text handling the knob formats rely on: str.strip, str(int),
 int(text) and int(text, 0).
 */
module PyText {
  import opened Bytes

  /** The characters str.strip() removes: those for which str.isspace() holds. */
  predicate IsSpace(c: char) {
    var n := c as int;
    || 0x09 <= n <= 0x0D
    || 0x1C <= n <= 0x20
    || n == 0x85 || n == 0xA0 || n == 0x1680
    || 0x2000 <= n <= 0x200A
    || n == 0x2028 || n == 0x2029 || n == 0x202F || n == 0x205F || n == 0x3000
  }

  function StripLeft(s: string): (r: string)
    ensures |r| <= |s|
  {
    if s != [] && IsSpace(s[0]) then StripLeft(s[1..]) else s
  }

  function StripRight(s: string): (r: string)
    ensures |r| <= |s|
  {
    if s != [] && IsSpace(s[|s| - 1]) then StripRight(s[..|s| - 1]) else s
  }

  function Strip(s: string): string {
    StripRight(StripLeft(s))
  }

  /** Text that strip() leaves alone and that is not empty. */
  predicate Trimmed(s: string) {
    s != [] && !IsSpace(s[0]) && !IsSpace(s[|s| - 1])
  }

  lemma TrimmedStrip(s: string)
    requires Trimmed(s)
    ensures Strip(s) == s
  {}

  predicate IsDigit(c: char) {
    '0' <= c <= '9'
  }

  function Digit(d: nat): (c: char)
    requires d < 10
    ensures IsDigit(c) && DigitValue(c) == Some(d)
  {
    '0' + d as char
  }

  /** The value of c as a digit in bases up to 36. */
  function DigitValue(c: char): Option<nat> {
    if '0' <= c <= '9' then Some(c as int - '0' as int)
    else if 'a' <= c <= 'z' then Some(c as int - 'a' as int + 10)
    else if 'A' <= c <= 'Z' then Some(c as int - 'A' as int + 10)
    else None
  }

  /** str(n) for a non-negative n. */
  function Decimal(n: nat): (s: string)
    ensures s != [] && forall c <- s :: IsDigit(c)
  {
    if n < 10 then [Digit(n)] else Decimal(n / 10) + [Digit(n % 10)]
  }

  function PrintInt(n: int): (s: string)
    ensures s != []
  {
    if n < 0 then "-" + Decimal(-n) else Decimal(n)
  }

  /** Digits of the base with single underscores between them; started says a digit was just read. */
  function ParseDigits(s: string, radix: nat, acc: nat, started: bool): Option<nat> {
    if s == [] then (if started then Some(acc) else None)
    else if s[0] == '_' then (if started then ParseDigits(s[1..], radix, acc, false) else None)
    else
      var d := DigitValue(s[0]);
      if d.None? || d.value >= radix then None
      else ParseDigits(s[1..], radix, acc * radix + d.value, true)
  }

  predicate HasPrefix(s: string, c: char, upper: char) {
    |s| >= 2 && s[0] == '0' && (s[1] == c || s[1] == upper)
  }

  /** The digits after a base prefix; one underscore may follow the prefix. */
  function ParsePrefixed(s: string, radix: nat): Option<nat>
    requires |s| >= 2
  {
    var t := s[2..];
    ParseDigits(if t != [] && t[0] == '_' then t[1..] else t, radix, 0, false)
  }

  /** An unsigned literal in base 0: prefixes are honoured and 012 is an error. */
  function ParseUnsignedBase0(s: string): Option<nat> {
    if HasPrefix(s, 'x', 'X') then ParsePrefixed(s, 16)
    else if HasPrefix(s, 'o', 'O') then ParsePrefixed(s, 8)
    else if HasPrefix(s, 'b', 'B') then ParsePrefixed(s, 2)
    else
      var v := ParseDigits(s, 10, 0, false);
      if v.Some? && s[0] == '0' && v.value != 0 then None else v
  }

  function ApplySign(neg: bool, v: Option<nat>): Option<int> {
    if v.None? then None
    else
      var m: int := v.value;
      Some(if neg then -m else m)
  }

  /** int(s, 0) when base0, otherwise int(s). None stands for ValueError. */
  function ParseInt(s: string, base0: bool): Option<int> {
    var t := Strip(s);
    var signed := t != [] && (t[0] == '-' || t[0] == '+');
    var u := if signed then t[1..] else t;
    ApplySign(signed && t[0] == '-', if base0 then ParseUnsignedBase0(u) else ParseDigits(u, 10, 0, false))
  }

  lemma {:induction false} ParseAppendDigit(s: string, d: nat, acc: nat, started: bool)
    requires d < 10
    requires forall c <- s :: IsDigit(c)
    requires ParseDigits(s, 10, acc, started).Some? || s == []
    ensures ParseDigits(s + [Digit(d)], 10, acc, started)
         == Some((if s == [] then acc else ParseDigits(s, 10, acc, started).value) * 10 + d)
  {
    if s == [] {
      var t := [Digit(d)];
      assert s + t == t && t[1..] == [];
    } else {
      var v := DigitValue(s[0]).value;
      assert IsDigit(s[0]);
      assert (s + [Digit(d)])[1..] == s[1..] + [Digit(d)];
      ParseAppendDigit(s[1..], d, acc * 10 + v, true);
    }
  }

  lemma {:induction false} DecimalRoundTrip(n: nat)
    ensures ParseDigits(Decimal(n), 10, 0, false) == Some(n)
    ensures Decimal(n)[0] == '0' <==> n == 0
  {
    if n < 10 {
      var t := [Digit(n)];
      assert t[1..] == [];
    } else {
      DecimalRoundTrip(n / 10);
      ParseAppendDigit(Decimal(n / 10), n % 10, 0, false);
    }
  }

  /** Printing an integer and reading it back in either of the code's two modes is the identity. */
  lemma PrintIntRoundTrip(n: int, base0: bool)
    ensures ParseInt(PrintInt(n), base0) == Some(n)
    ensures Trimmed(PrintInt(n))
  {
    var m := if n < 0 then -n else n;
    var d := Decimal(m);
    DecimalRoundTrip(m);
    assert IsDigit(d[0]) && IsDigit(d[|d| - 1]);
    var s := PrintInt(n);
    assert s[|s| - 1] == d[|d| - 1];
    TrimmedStrip(s);
    assert n < 0 ==> s[1..] == d;
    assert |d| >= 2 ==> IsDigit(d[1]);
  }

  // ------------------------------------------------------------- texts not printed

  /** A base that has a prefix: 0x, 0o or 0b. */
  datatype Radix = Hex | Octal | Binary {
    function Base(): nat {
      match this
      case Hex => 16 case Octal => 8 case Binary => 2
    }

    function Letter(caps: bool): char {
      match this
      case Hex => if caps then 'X' else 'x'
      case Octal => if caps then 'O' else 'o'
      case Binary => if caps then 'B' else 'b'
    }
  }

  /** The digit d, letters in upper or lower case. */
  function Figure(d: nat, caps: bool): char
    requires d < 16
  {
    if d < 10 then '0' + d as char else (if caps then 'A' else 'a') + (d - 10) as char
  }

  /** hex(n), oct(n) or bin(n) without the prefix. */
  function Numeral(n: nat, x: Radix, caps: bool): (s: string)
    ensures s != ""
  {
    if n < x.Base() then [Figure(n, caps)] else Numeral(n / x.Base(), x, caps) + [Figure(n % x.Base(), caps)]
  }

  lemma {:induction false} ParseAppend(s: string, c: char, radix: nat, acc: nat, started: bool)
    requires ParseDigits(s, radix, acc, started).Some? && DigitValue(c).Some? && DigitValue(c).value < radix
    requires c != '_'
    ensures ParseDigits(s + [c], radix, acc, started)
         == Some(ParseDigits(s, radix, acc, started).value * radix + DigitValue(c).value)
  {
    hide ParseDigits, DigitValue;
    var t := s + [c];
    ParseFirst(t, radix, acc, started);
    if s == [] {
      assert t == [c] && t[1..] == [];
      ParseEnd(radix, acc, started);
      ParseEnd(radix, acc * radix + DigitValue(c).value, true);
    } else {
      ParseFirst(s, radix, acc, started);
      assert t[0] == s[0] && t[1..] == s[1..] + [c];
      if s[0] == '_' {
        ParseAppend(s[1..], c, radix, acc, false);
      } else {
        ParseAppend(s[1..], c, radix, acc * radix + DigitValue(s[0]).value, true);
      }
    }
  }

  lemma ParseEnd(radix: nat, acc: nat, started: bool)
    ensures ParseDigits("", radix, acc, started) == if started then Some(acc) else None
  {}

  lemma ParseFirst(s: string, radix: nat, acc: nat, started: bool)
    requires s != ""
    ensures ParseDigits(s, radix, acc, started)
         == if s[0] == '_' then (if started then ParseDigits(s[1..], radix, acc, false) else None)
            else if DigitValue(s[0]).None? || DigitValue(s[0]).value >= radix then None
            else ParseDigits(s[1..], radix, acc * radix + DigitValue(s[0]).value, true)
  {
    hide DigitValue;
  }

  lemma FigureValue(d: nat, caps: bool)
    requires d < 16
    ensures DigitValue(Figure(d, caps)) == Some(d) && Figure(d, caps) != '_' && !IsSpace(Figure(d, caps))
  {}

  lemma {:induction false} NumeralParses(n: nat, x: Radix, caps: bool)
    ensures ParseDigits(Numeral(n, x, caps), x.Base(), 0, false) == Some(n)
    ensures Numeral(n, x, caps)[0] != '_' && !IsSpace(Numeral(n, x, caps)[|Numeral(n, x, caps)| - 1])
    decreases n
  {
    var b := x.Base();
    FigureValue(n % b, caps);
    if n < b {
      FigureValue(n, caps);
      var t := [Figure(n, caps)];
      assert t[1..] == [];
    } else {
      NumeralParses(n / b, x, caps);
      ParseAppend(Numeral(n / b, x, caps), Figure(n % b, caps), b, 0, false);
    }
  }

  /** A sign in front of a number, or none. */
  datatype Sign = Unsigned | Plus | Minus {
    function Text(): string {
      match this
      case Unsigned => "" case Plus => "+" case Minus => "-"
    }

    function Of(n: nat): int {
      var m: int := n;
      if this == Minus then -m else m
    }
  }

  /** A signed text with blanks around it reads as the unsigned text does, with its sign. */
  lemma ParseSigned(sign: Sign, u: string, before: string, after: string, base0: bool)
    requires Trimmed(u) && u[0] != '+' && u[0] != '-'
    requires (forall c <- before :: IsSpace(c)) && (forall c <- after :: IsSpace(c))
    ensures var m := if base0 then ParseUnsignedBase0(u) else ParseDigits(u, 10, 0, false);
            ParseInt(before + sign.Text() + u + after, base0) == if m.None? then None else Some(sign.Of(m.value))
  {
    hide ParseUnsignedBase0, ParseDigits, Strip, IsSpace, Trimmed;
    var t := sign.Text() + u;
    assert before + sign.Text() + u + after == before + t + after;
    SignedTrimmed(sign, u);
    StripPadded(before, t, after);
    match sign
    case Unsigned => assert t == u;
    case Plus => assert t[0] == '+' && t[1..] == u;
    case Minus => assert t[0] == '-' && t[1..] == u;
  }

  lemma SignedTrimmed(sign: Sign, u: string)
    requires Trimmed(u)
    ensures Trimmed(sign.Text() + u)
  {
    var t := sign.Text() + u;
    assert t[|t| - 1] == u[|u| - 1];
    assert sign == Unsigned ==> t == u;
  }

  /**
   Every integer written in base 16, 8 or 2, with either case of the prefix and of its digits,
   a sign or none and blanks around it, reads as that integer in base 0.
   */
  lemma RadixRoundTrip(n: nat, x: Radix, sign: Sign, prefixCaps: bool, caps: bool, before: string, after: string)
    requires (forall c <- before :: IsSpace(c)) && (forall c <- after :: IsSpace(c))
    ensures var u := "0" + [x.Letter(prefixCaps)] + Numeral(n, x, caps);
            ParseInt(before + sign.Text() + u + after, true) == Some(sign.Of(n))
  {
    hide ParseDigits, Numeral;
    var digits := Numeral(n, x, caps);
    var u := "0" + [x.Letter(prefixCaps)] + digits;
    NumeralParses(n, x, caps);
    assert u[2..] == digits && u[|u| - 1] == digits[|digits| - 1];
    ParseSigned(sign, u, before, after, true);
  }

  // ------------------------------------------------------------------ strip, exactly

  lemma {:induction false} StripLeftPadded(before: string, s: string)
    requires (forall c <- before :: IsSpace(c)) && (s != "" ==> !IsSpace(s[0]))
    ensures StripLeft(before + s) == s
  {
    if before != "" {
      assert before[0] in before && (before + s)[1..] == before[1..] + s;
      assert forall c <- before[1..] :: c in before;
      StripLeftPadded(before[1..], s);
    } else {
      assert before + s == s;
    }
  }

  lemma {:induction false} StripRightPadded(s: string, after: string)
    requires (forall c <- after :: IsSpace(c)) && (s != "" ==> !IsSpace(s[|s| - 1]))
    ensures StripRight(s + after) == s
    decreases |after|
  {
    if after != "" {
      var n := |after| - 1;
      assert after[n] in after && (s + after)[..|s + after| - 1] == s + after[..n];
      assert forall c <- after[..n] :: c in after;
      StripRightPadded(s, after[..n]);
    } else {
      assert s + after == s;
    }
  }

  /** strip() takes exactly the blanks around a text that neither starts nor ends with one. */
  lemma StripPadded(before: string, s: string, after: string)
    requires (forall c <- before :: IsSpace(c)) && (forall c <- after :: IsSpace(c)) && (s == "" || Trimmed(s))
    ensures Strip(before + s + after) == s
  {
    hide StripLeft, StripRight;
    assert before + s + after == before + (s + after);
    if s == "" {
      assert before + s + after == (before + after) + "";
      assert forall c <- before + after :: c in before || c in after;
      StripLeftPadded(before + after, "");
      StripRightPadded("", "");
      assert "" + "" == "";
    } else {
      StripLeftPadded(before, s + after);
      StripRightPadded(s, after);
    }
  }

  // ------------------------------------------------- leading zeros and underscores

  function Zeros(k: nat): (s: string)
    ensures |s| == k && forall c <- s :: c == '0'
  {
    if k == 0 then "" else "0" + Zeros(k - 1)
  }

  lemma {:induction false} ZerosParse(k: nat, s: string, started: bool)
    ensures ParseDigits(Zeros(k) + s, 10, 0, started) == ParseDigits(s, 10, 0, started || k > 0)
    decreases k
  {
    if k > 0 {
      assert (Zeros(k) + s)[1..] == Zeros(k - 1) + s;
      ZerosParse(k - 1, s, true);
    } else {
      assert Zeros(k) + s == s;
    }
  }

  /** Once a digit has been read, a text that does not start with an underscore reads on alike. */
  lemma StartedAlike(s: string, radix: nat, acc: nat)
    requires s != "" && s[0] != '_'
    ensures ParseDigits(s, radix, acc, true) == ParseDigits(s, radix, acc, false)
  {}

  /** With leading zeros a decimal text is its number in base 10, and in base 0 only if that is zero. */
  lemma LeadingZeros(n: nat, k: nat)
    requires k > 0
    ensures ParseInt(Zeros(k) + Decimal(n), false) == Some(n)
    ensures ParseInt(Zeros(k) + Decimal(n), true) == if n == 0 then Some(0) else None
  {
    hide ParseDigits, Decimal, Zeros, ParseUnsignedBase0, ParseInt, Trimmed, IsSpace;
    var u := Zeros(k) + Decimal(n);
    DecimalRoundTrip(n);
    ZerosParse(k, Decimal(n), false);
    ZerosShape(n, k);
    StartedAlike(Decimal(n), 10, 0);
    Base0OfZeros(u);
    assert "" + Unsigned.Text() + u + "" == u;
    ParseSigned(Unsigned, u, "", "", false);
    ParseSigned(Unsigned, u, "", "", true);
  }

  /** What a decimal text with leading zeros looks like. */
  lemma ZerosShape(n: nat, k: nat)
    requires k > 0
    ensures var u := Zeros(k) + Decimal(n);
            |u| >= 2 && u[0] == '0' && IsDigit(u[1]) && Trimmed(u) && Decimal(n)[0] != '_'
  {
    hide Zeros, Decimal;
    var u, d := Zeros(k) + Decimal(n), Decimal(n);
    assert forall c <- u :: c in Zeros(k) || c in d;
    assert forall c <- u :: IsDigit(c);
    assert d[0] in d && u[0] in Zeros(k) && u[1] in u && u[|u| - 1] in u;
  }

  lemma Base0OfZeros(u: string)
    requires |u| >= 2 && u[0] == '0' && IsDigit(u[1])
    ensures var v := ParseDigits(u, 10, 0, false);
            ParseUnsignedBase0(u) == if v.Some? && v.value != 0 then None else v
  {
    hide ParseDigits;
  }

  /** One underscore between two digits is not read. */
  lemma {:induction false} UnderscoreIgnored(a: string, b: string, radix: nat, acc: nat, started: bool)
    requires a != "" && b != "" && a[|a| - 1] != '_' && b[0] != '_'
    ensures ParseDigits(a + "_" + b, radix, acc, started) == ParseDigits(a + b, radix, acc, started)
  {
    var s, t := a + "_" + b, a + b;
    assert s[0] == a[0] == t[0] && s[1..] == a[1..] + "_" + b && t[1..] == a[1..] + b;
    if |a| == 1 {
      assert s[1..] == "_" + b && t[1..] == b && ("_" + b)[1..] == b;
      if DigitValue(a[0]).Some? {
        StartedAlike(b, radix, acc * radix + DigitValue(a[0]).value);
      }
    } else if a[0] == '_' {
      UnderscoreIgnored(a[1..], b, radix, acc, false);
    } else if DigitValue(a[0]).Some? {
      UnderscoreIgnored(a[1..], b, radix, acc * radix + DigitValue(a[0]).value, true);
    }
  }

  /** Any other underscore is an error: first, last, or next to another one. */
  lemma {:induction false} UnderscoreRefused(a: string, b: string, radix: nat, acc: nat, started: bool)
    requires (a == "" && !started) || b == "" || b[0] == '_' || (a != "" && a[|a| - 1] == '_')
    ensures ParseDigits(a + "_" + b, radix, acc, started).None?
  {
    var s := a + "_" + b;
    if a == "" {
      assert s == "_" + b && s[1..] == b;
    } else {
      assert s[1..] == a[1..] + "_" + b;
      if a[0] == '_' && |a| == 1 {
        assert s[1..] == "_" + b && s[1..][1..] == b;
      } else if a[0] == '_' {
        UnderscoreRefused(a[1..], b, radix, acc, false);
      } else if DigitValue(a[0]).Some? {
        UnderscoreRefused(a[1..], b, radix, acc * radix + DigitValue(a[0]).value, true);
      }
    }
  }
}
