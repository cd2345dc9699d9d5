/**
 The text form of subknob paths ("Knob.member[3].field"), as create_subknobs
 prints it and _get_child_value and _set_child_value take it apart again.
 */
module PathText {
  import opened Bytes
  import opened PyText
  import opened Formats
  import opened Paths

  predicate IdentStart(c: char) {
    'a' <= c <= 'z' || 'A' <= c <= 'Z' || c == '_'
  }

  predicate IdentChar(c: char) {
    IdentStart(c) || IsDigit(c)
  }

  /** is_valid_name: a C identifier. */
  predicate IsIdent(s: string) {
    s != [] && IdentStart(s[0]) && forall c <- s :: IdentChar(c)
  }

  predicate Named(p: Path) {
    forall st <- p :: IsIdent(st.name)
  }

  function StepText(st: Step): string {
    match st
    case Field(n) => n
    case Item(n, i) => n + "[" + Decimal(i) + "]"
  }

  function PathName(knob: string, p: Path): string
    decreases |p|
  {
    if p == [] then knob else PathName(knob, p[..|p| - 1]) + "." + StepText(p[|p| - 1])
  }

  /** s.split(".") */
  function SplitDots(s: string): (r: seq<string>)
    ensures r != []
  {
    if s == [] then [""]
    else
      var r := SplitDots(s[1..]);
      if s[0] == '.' then [""] + r else [[s[0]] + r[0]] + r[1..]
  }

  /** How many identifier characters s starts with. */
  function IdentLength(s: string): (n: nat)
    ensures n <= |s|
    ensures forall i :: 0 <= i < n ==> IdentChar(s[i])
    ensures n < |s| ==> !IdentChar(s[n])
  {
    if s == [] || !IdentChar(s[0]) then 0
    else
      var n := IdentLength(s[1..]);
      assert forall i :: 0 < i <= n ==> s[i] == s[1..][i - 1];
      1 + n
  }

  /** _decode_subpath: an identifier, optionally with a decimal index; '$' also matches before a final newline. */
  function DecodeStep(s: string): Option<Step> {
    var t := if s != [] && s[|s| - 1] == '\n' then s[..|s| - 1] else s;
    var n := IdentLength(t);
    if n == 0 || !IdentStart(t[0]) then None
    else if n == |t| then Some(Field(t))
    else if |t| < n + 3 || t[n] != '[' || t[|t| - 1] != ']' then None
    else
      var digits := t[n + 1..|t| - 1];
      var v := ParseDigits(digits, 10, 0, false);
      if v.None? || (exists c <- digits :: !IsDigit(c)) then None else Some(Item(t[..n], v.value))
  }

  /** All results, or None if one of them is an error. */
  function Sequence<T>(xs: seq<Option<T>>): Option<seq<T>> {
    if xs == [] then Some([])
    else
      var rest := Sequence(xs[1..]);
      if xs[0].None? || rest.None? then None else Some([xs[0].value] + rest.value)
  }

  /** The decoded steps after the knob name. */
  function DecodeSteps(parts: seq<string>): (r: seq<Option<Step>>)
    requires parts != []
    ensures |r| == |parts| - 1 && forall i :: 0 <= i < |r| ==> r[i] == DecodeStep(parts[i + 1])
  {
    seq(|parts| - 1, i requires 0 <= i < |parts| - 1 => DecodeStep(parts[i + 1]))
  }

  /** A full path text, or None if it is malformed or belongs to another knob. */
  function DecodePath(knob: string, s: string): Option<Path> {
    var parts := SplitDots(s);
    if parts[0] != knob then None
    else Sequence(DecodeSteps(parts))
  }

  lemma {:induction false} NoDots(s: string)
    requires '.' !in s
    ensures SplitDots(s) == [s]
  {
    if s != [] {
      NoDots(s[1..]);
      assert [s[0]] + s[1..] == s;
    }
  }

  lemma {:induction false} SplitDotsAppend(a: string, b: string)
    requires '.' !in b
    ensures SplitDots(a + "." + b) == SplitDots(a) + [b]
    decreases |a|
  {
    hide SplitDots;
    var s := a + "." + b;
    SplitDotsFirst(s);
    if a == [] {
      NoDots(b);
      assert s == "." + b && s[1..] == b;
      assert SplitDots(a) == [""] by { SplitDotsEmpty(); }
    } else {
      SplitDotsFirst(a);
      SplitDotsAppend(a[1..], b);
      assert s[0] == a[0] && s[1..] == a[1..] + "." + b;
    }
  }

  lemma SplitDotsEmpty()
    ensures SplitDots("") == [""]
  {}

  lemma SplitDotsFirst(s: string)
    requires s != ""
    ensures var r := SplitDots(s[1..]);
            SplitDots(s) == if s[0] == '.' then [""] + r else [[s[0]] + r[0]] + r[1..]
  {}

  lemma IdentLengthAt(s: string, n: nat)
    requires n <= |s| && (forall i :: 0 <= i < n ==> IdentChar(s[i])) && (n < |s| ==> !IdentChar(s[n]))
    ensures IdentLength(s) == n
  {
    var k := IdentLength(s);
    assert !(k < n) && !(n < k);
  }

  lemma FieldRoundTrip(n: string)
    requires IsIdent(n)
    ensures DecodeStep(n) == Some(Field(n))
  {
    assert IdentChar(n[|n| - 1]);
    assert forall i :: 0 <= i < |n| ==> IdentChar(n[i]);
    IdentLengthAt(n, |n|);
  }

  lemma ItemRoundTrip(n: string, digits: string)
    requires IsIdent(n) && digits != [] && (forall c <- digits :: IsDigit(c))
    requires ParseDigits(digits, 10, 0, false).Some?
    ensures DecodeStep(n + "[" + digits + "]") == Some(Item(n, ParseDigits(digits, 10, 0, false).value))
  {
    hide ParseDigits;
    var t := n + "[" + digits + "]";
    var k := |n|;
    assert t[..k] == n && t[k] == '[' && t[|t| - 1] == ']' && t[k + 1..|t| - 1] == digits;
    assert forall i :: 0 <= i < k ==> t[i] == n[i] && IdentChar(t[i]);
    IdentLengthAt(t, k);
  }

  lemma StepRoundTrip(st: Step)
    requires IsIdent(st.name)
    ensures DecodeStep(StepText(st)) == Some(st)
    ensures '.' !in StepText(st)
  {
    hide DecodeStep, ParseDigits;
    match st
    case Field(n) => FieldRoundTrip(n);
    case Item(n, i) =>
      DecimalRoundTrip(i);
      ItemRoundTrip(n, Decimal(i));
  }

  lemma {:induction false} SequenceAll<T>(xs: seq<Option<T>>, ys: seq<T>)
    requires |xs| == |ys| && forall i :: 0 <= i < |ys| ==> xs[i] == Some(ys[i])
    ensures Sequence(xs) == Some(ys)
    decreases |xs|
  {
    if xs != [] {
      SequenceAll(xs[1..], ys[1..]);
      assert [ys[0]] + ys[1..] == ys;
    }
  }

  lemma {:induction false} SplitPath(knob: string, p: Path)
    requires '.' !in knob && forall st <- p :: '.' !in StepText(st)
    ensures var parts := SplitDots(PathName(knob, p));
            |parts| == |p| + 1 && parts[0] == knob && forall i :: 0 <= i < |p| ==> parts[i + 1] == StepText(p[i])
    decreases |p|
  {
    hide StepText, SplitDots;
    if p == [] {
      NoDots(knob);
    } else {
      var front, last := p[..|p| - 1], p[|p| - 1];
      SplitPath(knob, front);
      SplitDotsAppend(PathName(knob, front), StepText(last));
    }
  }

  lemma NoDotInside(s: string)
    requires IsIdent(s)
    ensures '.' !in s
  {}

  /** A path text decodes to exactly the path it was printed for. */
  lemma PathRoundTrip(knob: string, p: Path)
    requires IsIdent(knob) && Named(p)
    ensures DecodePath(knob, PathName(knob, p)) == Some(p)
    ensures SplitDots(PathName(knob, p))[0] == knob
  {
    hide DecodeStep, StepText, PathName, SplitDots, Sequence, IsIdent, DecodeSteps;
    NoDotInside(knob);
    forall st | st in p ensures DecodeStep(StepText(st)) == Some(st) && '.' !in StepText(st) {
      StepRoundTrip(st);
    }
    SplitPath(knob, p);
    var parts := SplitDots(PathName(knob, p));
    SequenceAll(DecodeSteps(parts), p);
  }

  /** Different knobs or different paths have different texts. */
  lemma PathNameInjective(a: string, p: Path, b: string, q: Path)
    requires IsIdent(a) && IsIdent(b) && Named(p) && Named(q)
    requires PathName(a, p) == PathName(b, q)
    ensures a == b && p == q
  {
    PathRoundTrip(a, p);
    PathRoundTrip(b, q);
  }

  /** Every member name in the format is an identifier, as the loader insists. */
  predicate NamesValid(f: Format) {
    match f
    case ArrayF(e, _) => NamesValid(e)
    case StructF(_, ms) => forall i :: 0 <= i < |ms| ==> IsIdent(ms[i].name) && NamesValid(ms[i].format)
    case _ => true
  }

  lemma {:induction false} SubKnobNamed(f: Format, sk: SubKnob)
    requires Addressable(f) && NamesValid(f) && sk in SubKnobs(f)
    ensures Named(sk.path)
    decreases f
  {
    if f.StructF? && sk != SubKnob([], f, false) {
      var k := Locate(f, sk);
      assert IsIdent(f.members[k].name) && NamesValid(f.members[k].format);
      if !(f.members[k].format.ArrayF? && sk.path[0].Field?) {
        SubKnobNamed(Below(f.members[k]), Tail(sk));
        assert sk.path == [sk.path[0]] + Tail(sk).path;
      }
    }
  }
}
