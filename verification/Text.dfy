/**
 The text form of a value: split_braces, object_to_string and string_to_object, and
 the round trip between the last two.
 */
module Text {
  import opened Bytes
  import opened PyText
  import opened Formats

  /** The variables of split_braces, or Failed once it has raised ParseError. */
  datatype Splitter =
    | Splitting(segments: seq<string>, depth: int, chars: string, complete: bool)
    | Failed

  const START := Splitting([], 0, "", false)

  /** One character of split_braces. */
  function SplitStep(st: Splitter, c: char): Splitter {
    match st
    case Failed => Failed
    case Splitting(segments, depth, chars, complete) =>
      if complete then (if c == ' ' then st else Failed)
      else if c == '{' then Splitting(segments, depth + 1, if depth > 0 then chars + [c] else chars, false)
      else if c == ',' then
        if depth > 1 then st.(chars := chars + [c]) else Splitting(segments + [Strip(chars)], depth, "", false)
      else if c == '}' then
        if depth > 1 then Splitting(segments, depth - 1, chars + [c], false)
        else if depth == 1 then Splitting(segments + [Strip(chars)], 0, "", true)
        else st.(depth := depth - 1)
      else if depth > 0 then st.(chars := chars + [c])
      else Failed
  }

  function SplitRun(st: Splitter, s: string): Splitter
    decreases |s|
  {
    if s == [] then st else SplitRun(SplitStep(st, s[0]), s[1..])
  }

  /** The list split_braces returns; None stands for ParseError. An unclosed brace is not an error. */
  function Split(s: string): Option<seq<string>> {
    match SplitRun(START, Strip(s))
    case Failed => None
    case Splitting(segments, _, _, _) => Some(segments)
  }

  /** split_braces itself, character by character. */
  method SplitBraces(s: string) returns (r: Option<seq<string>>)
    ensures r == Split(s)
  {
    var segments: seq<string> := [];
    var depth := 0;
    var chars := "";
    var complete := false;
    var t := Strip(s);
    for i := 0 to |t|
      invariant SplitRun(START, t) == SplitRun(Splitting(segments, depth, chars, complete), t[i..])
    {
      var c := t[i];
      assert t[i..][1..] == t[i + 1..];
      if complete && c == ' ' {
        continue;
      } else if complete {
        FailedStays(t[i + 1..]);
        return None;
      }
      if c == '{' {
        if depth > 0 {
          chars := chars + [c];
        }
        depth := depth + 1;
      } else if c == ',' {
        if depth > 1 {
          chars := chars + [c];
        } else {
          segments := segments + [Strip(chars)];
          chars := "";
        }
      } else if c == '}' {
        depth := depth - 1;
        if depth > 0 {
          chars := chars + [c];
        } else if depth == 0 {
          segments := segments + [Strip(chars)];
          chars := "";
          complete := true;
        }
      } else if depth > 0 {
        chars := chars + [c];
      } else {
        FailedStays(t[i + 1..]);
        return None;
      }
    }
    return Some(segments);
  }

  lemma {:induction false} FailedStays(s: string)
    ensures SplitRun(Failed, s) == Failed
  {
    if s != [] {
      FailedStays(s[1..]);
    }
  }

  lemma {:induction false} SplitRunAppend(st: Splitter, a: string, b: string)
    ensures SplitRun(st, a + b) == SplitRun(SplitRun(st, a), b)
    decreases |a|
  {
    if a == [] {
      assert a + b == b;
    } else {
      assert (a + b)[1..] == a[1..] + b;
      SplitRunAppend(SplitStep(st, a[0]), a[1..], b);
    }
  }

  /** The brace depth after s, starting at depth k; None if s closes too much or has a comma at depth 0. */
  function Nesting(s: string, k: nat): Option<nat> {
    if s == [] then Some(k)
    else if s[0] == '{' then Nesting(s[1..], k + 1)
    else if s[0] == '}' then (if k == 0 then None else Nesting(s[1..], k - 1))
    else if s[0] == ',' && k == 0 then None
    else Nesting(s[1..], k)
  }

  /** The brace depth after s, starting at depth k; None if s closes too much. */
  function Level(s: string, k: nat): Option<nat> {
    if s == [] then Some(k)
    else if s[0] == '{' then Level(s[1..], k + 1)
    else if s[0] == '}' then (if k == 0 then None else Level(s[1..], k - 1))
    else Level(s[1..], k)
  }

  /** How many commas of s stand at depth 0, starting at depth k. */
  function Commas(s: string, k: nat): nat {
    if s == [] then 0
    else if s[0] == '{' then Commas(s[1..], k + 1)
    else if s[0] == '}' then Commas(s[1..], if k == 0 then 0 else k - 1)
    else (if s[0] == ',' && k == 0 then 1 else 0) + Commas(s[1..], k)
  }

  lemma {:induction false} NestingIsLevel(s: string, k: nat)
    ensures Nesting(s, k) == if Commas(s, k) == 0 then Level(s, k) else None
    decreases |s|
  {
    if s != [] {
      NestingIsLevel(s[1..], if s[0] == '{' then k + 1 else if s[0] == '}' && k > 0 then k - 1 else k);
      assert s[0] == '}' && k == 0 ==> Nesting(s, k).None? && Level(s, k).None?;
    }
  }

  /** Text that can be one segment of a brace list and comes back from it unchanged. */
  predicate IsSegment(s: string) {
    Trimmed(s) && Nesting(s, 0) == Some(0)
  }

  predicate AllSegments(parts: seq<string>) {
    forall i :: 0 <= i < |parts| ==> IsSegment(parts[i])
  }

  /** A segment, or nothing between two commas. */
  predicate IsPart(s: string) {
    s == "" || IsSegment(s)
  }

  predicate AllParts(parts: seq<string>) {
    forall i :: 0 <= i < |parts| ==> IsPart(parts[i])
  }

  /** Inside the outer braces, nested text is collected verbatim. */
  lemma {:induction false} CollectsVerbatim(s: string, segments: seq<string>, chars: string, k: nat)
    requires Nesting(s, k).Some?
    ensures SplitRun(Splitting(segments, 1 + k, chars, false), s)
         == Splitting(segments, 1 + Nesting(s, k).value, chars + s, false)
    decreases |s|
  {
    if s == [] {
      assert chars + s == chars;
    } else {
      var k' := if s[0] == '{' then k + 1 else if s[0] == '}' then k - 1 else k;
      CollectsVerbatim(s[1..], segments, chars + [s[0]], k');
      assert chars + [s[0]] + s[1..] == chars + s;
    }
  }

  function Join(parts: seq<string>): string {
    if parts == [] then "" else if |parts| == 1 then parts[0] else parts[0] + "," + Join(parts[1..])
  }

  /** "{{{}}}".format(",".join(parts)) */
  function Braces(parts: seq<string>): string {
    "{" + Join(parts) + "}"
  }

  lemma PartCollected(p: string)
    requires IsPart(p)
    ensures Nesting(p, 0) == Some(0) && Strip(p) == p
  {
    if p != "" {
      TrimmedStrip(p);
    }
  }

  /** A segment followed by a comma or the closing brace is moved to the list. */
  lemma SegmentEnds(p: string, segments: seq<string>, c: char, rest: string)
    requires IsPart(p) && (c == ',' || c == '}')
    ensures SplitRun(Splitting(segments, 1, "", false), p + ([c] + rest))
         == SplitRun(if c == ',' then Splitting(segments + [p], 1, "", false)
                     else Splitting(segments + [p], 0, "", true), rest)
  {
    hide Nesting, Trimmed, Strip;
    PartCollected(p);
    CollectsVerbatim(p, segments, "", 0);
    assert "" + p == p;
    SplitRunAppend(Splitting(segments, 1, "", false), p, [c] + rest);
    assert ([c] + rest)[1..] == rest;
  }

  lemma {:induction false} SplitJoined(parts: seq<string>, segments: seq<string>)
    requires parts != [] && AllParts(parts)
    ensures SplitRun(Splitting(segments, 1, "", false), Join(parts) + "}")
         == Splitting(segments + parts, 0, "", true)
    decreases |parts|
  {
    hide SplitStep, IsPart;
    var p := parts[0];
    if |parts| == 1 {
      assert Join(parts) + "}" == p + (['}'] + "");
      SegmentEnds(p, segments, '}', "");
      assert segments + [p] == segments + parts;
    } else {
      var rest := Join(parts[1..]) + "}";
      assert Join(parts) + "}" == p + ([','] + rest);
      SegmentEnds(p, segments, ',', rest);
      SplitJoined(parts[1..], segments + [p]);
      assert segments + [p] + parts[1..] == segments + parts;
    }
  }

  /** Splitting a printed brace list gives the parts back; the empty list gives one empty segment. */
  lemma SplitBracesInverts(parts: seq<string>)
    requires AllParts(parts)
    ensures Split(Braces(parts)) == Some(if parts == [] then [""] else parts)
  {
    var b := Braces(parts);
    assert b[0] == '{' && b[|b| - 1] == '}' && b[1..] == Join(parts) + "}";
    TrimmedStrip(b);
    assert SplitStep(START, '{') == Splitting([], 1, "", false);
    if parts == [] {
      assert Strip("") == "" && b[1..] == "}" && "}"[1..] == "";
      var one := Splitting([], 1, "", false);
      assert SplitStep(one, '}') == Splitting([""], 0, "", true);
      assert SplitRun(one, b[1..]) == SplitRun(SplitStep(one, '}'), b[1..][1..]);
    } else {
      SplitJoined(parts, []);
      assert [] + parts == parts;
    }
  }

  /** The pretty name of the first value with the number, or the number itself. */
  function EnumText(values: seq<EnumValue>, n: int): string {
    if values == [] then PrintInt(n)
    else if values[0].number == n then values[0].prettyName
    else EnumText(values[1..], n)
  }

  /** The number of the first value whose name or pretty name is s. */
  function EnumLookup(values: seq<EnumValue>, s: string): Option<int> {
    if values == [] then None
    else if values[0].name == s || values[0].prettyName == s then Some(values[0].number)
    else EnumLookup(values[1..], s)
  }

  /** object_to_string with the default (XML) options. */
  function Print(f: Format, v: Value): string
    requires Shaped(f, v)
    decreases f, 0
  {
    match f
    case IntF(_) => PrintInt(v.n)
    case BoolF => if v.b then "true" else "false"
    case EnumF(_, values, _) => EnumText(values, v.n)
    case ArrayF(e, n) => Braces(seq(n, i requires 0 <= i < n => Print(e, v.elems[i])))
    case StructF(_, ms) =>
      Braces(seq(|ms|, i requires 0 <= i < |ms| => Print(ms[i].format, v.fields[i])))
  }

  function Lower(s: string): string {
    seq(|s|, i requires 0 <= i < |s| => if 'A' <= s[i] <= 'Z' then s[i] - 'A' + 'a' else s[i])
  }

  function ParseEnum(values: seq<EnumValue>, s: string): Option<Value> {
    var n := ParseInt(s, false);
    var r := if n.Some? then n else EnumLookup(values, s);
    if r.None? then None else Some(Num(r.value))
  }

  /** string_to_object; None stands for ParseError. */
  function Parse(f: Format, s: string, c: Context): Option<Value>
    decreases f, 0, 0
  {
    match f
    case IntF(_) =>
      if s == "" then Some(Implicit(f, c))
      else var n := ParseInt(s, true); if n.None? then None else Some(Num(n.value))
    case BoolF =>
      if s == "" then Some(Implicit(f, c)) else Some(Flag(Lower(Strip(s)) in ["true", "1", "yes"]))
    case EnumF(_, values, _) =>
      if s == "" then Some(Implicit(f, c)) else ParseEnum(values, s)
    case ArrayF(e, n) =>
      if s == "" then Some(Implicit(f, c))
      else
        var segments := Split(s);
        if segments.None? then None
        else if |segments.value| == 1 then
          var x := Parse(e, segments.value[0], c);
          if x.None? then None else Some(Arr(seq(n, _ => x.value)))
        else if |segments.value| == n then
          var xs := ParseElems(e, segments.value, c);
          if xs.None? then None else Some(Arr(xs.value))
        else None
    case StructF(_, ms) =>
      var segments := Split(s);
      if segments.None? then None
      else if segments.value == [] || segments.value == [""] then Some(Implicit(f, c))
      else if |segments.value| == |ms| then
        var xs := ParseFields(ms, segments.value, c);
        if xs.None? then None else Some(Rec(xs.value))
      else None
  }

  function ParseElems(e: Format, segments: seq<string>, c: Context): (r: Option<seq<Value>>)
    ensures r.Some? ==> |r.value| == |segments|
    decreases e, 1, |segments|
  {
    if segments == [] then Some([])
    else
      var x := Parse(e, segments[0], c);
      var xs := ParseElems(e, segments[1..], c);
      if x.None? || xs.None? then None else Some([x.value] + xs.value)
  }

  function ParseFields(ms: seq<Member>, segments: seq<string>, c: Context): (r: Option<seq<Value>>)
    requires |ms| == |segments|
    ensures r.Some? ==> |r.value| == |segments|
    decreases ms, 0, 0
  {
    if ms == [] then Some([])
    else
      var x := Parse(ms[0].format, segments[0], c);
      var xs := ParseFields(ms[1..], segments[1..], c);
      if x.None? || xs.None? then None else Some([x.value] + xs.value)
  }

  // ------------------------------------------------------------- readable formats

  /** i is the first value with its number: the one whose pretty name is printed. */
  predicate FirstWithNumber(values: seq<EnumValue>, i: nat) {
    i < |values| && forall j :: 0 <= j < i ==> values[j].number != values[i].number
  }

  /** i is the first value with that name or pretty name. */
  predicate FirstWithText(values: seq<EnumValue>, s: string, i: nat) {
    i < |values| && (values[i].name == s || values[i].prettyName == s)
    && forall j :: 0 <= j < i ==> values[j].name != s && values[j].prettyName != s
  }

  /**
   A pretty name that reads as a number must denote the value's own number; any other must
   belong, as name or pretty name, first to a value with that number.
   */
  ghost predicate Unambiguous(values: seq<EnumValue>, i: nat)
    requires i < |values|
  {
    var n := ParseInt(values[i].prettyName, false);
    if n.Some? then n.value == values[i].number
    else forall j: nat | FirstWithText(values, values[i].prettyName, j) :: values[j].number == values[i].number
  }

  ghost predicate ReadableEnum(values: seq<EnumValue>) {
    forall i: nat | FirstWithNumber(values, i) :: Unambiguous(values, i)
  }

  /** No printed pretty name has a comma outside braces. */
  ghost predicate CommaFree(values: seq<EnumValue>) {
    forall i: nat | FirstWithNumber(values, i) :: Commas(values[i].prettyName, 0) == 0
  }

  /** listed says whether the text is an element of a brace list. */
  ghost predicate Readable(f: Format, listed: bool) {
    match f
    case EnumF(_, values, _) => ReadableEnum(values) && (listed ==> CommaFree(values))
    case ArrayF(e, n) => n == 0 || Readable(e, true)
    case StructF(_, ms) => forall m <- ms :: Readable(m.format, true)
    case _ => true
  }

  /** Text with matching braces and nothing to strip. */
  predicate Balanced(s: string) {
    Trimmed(s) && Level(s, 0) == Some(0)
  }

  predicate NamesBalanced(f: Format) {
    match f
    case EnumF(_, values, _) => forall e <- values :: Balanced(e.prettyName)
    case ArrayF(e, _) => NamesBalanced(e)
    case StructF(_, ms) => forall m <- ms :: NamesBalanced(m.format)
    case _ => true
  }

  lemma {:induction false} PlainNesting(s: string)
    requires '{' !in s && '}' !in s && ',' !in s
    ensures Nesting(s, 0) == Some(0)
  {
    if s != [] {
      PlainNesting(s[1..]);
    }
  }

  lemma PrintIntSegment(n: int)
    ensures IsSegment(PrintInt(n))
  {
    PrintIntRoundTrip(n, true);
    PlainNesting(PrintInt(n));
  }

  lemma SegmentBalanced(s: string)
    ensures IsSegment(s) <==> Balanced(s) && Commas(s, 0) == 0
  {
    NestingIsLevel(s, 0);
  }

  lemma {:induction false} EnumTextFirst(values: seq<EnumValue>, i: nat)
    requires FirstWithNumber(values, i)
    ensures EnumText(values, values[i].number) == values[i].prettyName
  {
    if i > 0 {
      assert values[0].number != values[i].number;
      EnumTextFirst(values[1..], i - 1);
    }
  }

  lemma {:induction false} EnumTextUnlisted(values: seq<EnumValue>, n: int)
    requires n !in EnumNumbers(values)
    ensures EnumText(values, n) == PrintInt(n)
  {
    if values != [] {
      assert values[0] in values;
      assert EnumNumbers(values[1..]) <= EnumNumbers(values);
      EnumTextUnlisted(values[1..], n);
    }
  }

  lemma {:induction false} EnumLookupFirst(values: seq<EnumValue>, s: string, i: nat)
    requires FirstWithText(values, s, i)
    ensures EnumLookup(values, s) == Some(values[i].number)
  {
    if i > 0 {
      assert values[0].name != s && values[0].prettyName != s;
      EnumLookupFirst(values[1..], s, i - 1);
    }
  }

  lemma {:induction false} FirstNumber(values: seq<EnumValue>, i: nat) returns (j: nat)
    requires i < |values|
    ensures FirstWithNumber(values, j) && values[j].number == values[i].number
  {
    if k :| 0 <= k < i && values[k].number == values[i].number {
      j := FirstNumber(values, k);
    } else {
      j := i;
    }
  }

  lemma {:induction false} FirstText(values: seq<EnumValue>, s: string, i: nat) returns (j: nat)
    requires i < |values| && (values[i].name == s || values[i].prettyName == s)
    ensures FirstWithText(values, s, j)
  {
    if k :| 0 <= k < i && (values[k].name == s || values[k].prettyName == s) {
      j := FirstText(values, s, k);
    } else {
      j := i;
    }
  }

  /** The printed pretty name of value i is read back as its number exactly when the condition on i holds. */
  lemma EnumValueReads(values: seq<EnumValue>, i: nat)
    requires FirstWithNumber(values, i)
    ensures ParseEnum(values, values[i].prettyName) == Some(Num(values[i].number)) <==> Unambiguous(values, i)
  {
    hide ParseInt;
    var s := values[i].prettyName;
    var j := FirstText(values, s, i);
    EnumLookupFirst(values, s, j);
    forall k: nat | FirstWithText(values, s, k) ensures k == j {}
  }

  /** An enum text is read back as its number for every number, listed or not, if and only if the enum is readable. */
  lemma EnumRoundTripIff(values: seq<EnumValue>)
    ensures ReadableEnum(values) <==> forall n :: ParseEnum(values, EnumText(values, n)) == Some(Num(n))
  {
    hide ParseInt, EnumText, EnumLookup, PrintInt;
    if ReadableEnum(values) {
      forall n ensures ParseEnum(values, EnumText(values, n)) == Some(Num(n)) {
        EnumRoundTrip(values, n);
      }
    } else {
      var i: nat :| FirstWithNumber(values, i) && !Unambiguous(values, i);
      EnumTextFirst(values, i);
      EnumValueReads(values, i);
      assert ParseEnum(values, EnumText(values, values[i].number)) != Some(Num(values[i].number));
    }
  }

  lemma EnumRoundTrip(values: seq<EnumValue>, n: int)
    requires ReadableEnum(values)
    ensures ParseEnum(values, EnumText(values, n)) == Some(Num(n))
  {
    hide ParseInt, EnumText, EnumLookup, PrintInt;
    if e :| e in values && e.number == n {
      var k :| 0 <= k < |values| && values[k] == e;
      var i := FirstNumber(values, k);
      EnumTextFirst(values, i);
      EnumValueReads(values, i);
    } else {
      EnumTextUnlisted(values, n);
      PrintIntRoundTrip(n, false);
    }
  }

  /** A printed enum text is balanced, and has a comma outside braces only if a pretty name has. */
  lemma EnumTextBalanced(values: seq<EnumValue>, n: int)
    requires forall e <- values :: Balanced(e.prettyName)
    ensures Balanced(EnumText(values, n))
    ensures CommaFree(values) ==> Commas(EnumText(values, n), 0) == 0
  {
    hide Level, Commas, Trimmed, EnumText, PrintInt;
    if e :| e in values && e.number == n {
      var k :| 0 <= k < |values| && values[k] == e;
      var i := FirstNumber(values, k);
      EnumTextFirst(values, i);
      assert values[i] in values;
    } else {
      EnumTextUnlisted(values, n);
      PrintIntSegment(n);
      SegmentBalanced(PrintInt(n));
    }
  }

  lemma BoolRoundTrip(b: bool)
    ensures IsSegment(if b then "true" else "false")
    ensures Parse(BoolF, if b then "true" else "false", Default) == Some(Flag(b))
  {
    var s := if b then "true" else "false";
    PlainNesting(s);
    TrimmedStrip(s);
    assert b ==> Lower(s) == "true";
    assert !b ==> Lower(s)[0] == 'f';
  }

  /** An empty text always parses, to the implicit value of the context. */
  lemma ParseEmpty(f: Format, c: Context)
    ensures Parse(f, "", c) == Some(Implicit(f, c))
  {
    assert Strip("") == "";
  }

  /**
   The text round trip: whatever object_to_string prints for a well-shaped value of a
   readable format, string_to_object reads back as that value, in every context.
   */
  lemma {:induction false} ParsePrint(f: Format, v: Value, c: Context, listed: bool)
    requires NamesBalanced(f) && Readable(f, listed) && Shaped(f, v)
    ensures if listed then IsSegment(Print(f, v)) else Balanced(Print(f, v))
    ensures Parse(f, Print(f, v), c) == Some(v)
    decreases f, 0
  {
    hide Split, Strip, Lower, ParseInt, PrintInt, ParseEnum, EnumText, Braces, ReadableEnum, CommaFree;
    hide Level, Commas, Nesting;
    SegmentBalanced(Print(f, v));
    match f
    case IntF(_) =>
      PrintIntRoundTrip(v.n, true);
      PrintIntSegment(v.n);
    case BoolF => BoolRoundTrip(v.b);
    case EnumF(_, values, _) =>
      EnumTextBalanced(values, v.n);
      EnumRoundTrip(values, v.n);
    case ArrayF(e, n) =>
      var parts := seq(n, i requires 0 <= i < n => Print(e, v.elems[i]));
      forall i | 0 <= i < n ensures IsSegment(parts[i]) && Parse(e, parts[i], c) == Some(v.elems[i]) {
        ParsePrint(e, v.elems[i], c, true);
      }
      ArrayParses(f, parts, v.elems, c);
    case StructF(_, ms) =>
      var parts := seq(|ms|, i requires 0 <= i < |ms| => Print(ms[i].format, v.fields[i]));
      forall i | 0 <= i < |ms|
        ensures IsSegment(parts[i]) && Parse(ms[i].format, parts[i], c) == Some(v.fields[i])
      {
        ParsePrint(ms[i].format, v.fields[i], c, true);
      }
      StructParses(f, parts, v.fields, c);
  }

  /** A brace list of texts that parse is the array of what they parse to. */
  lemma ArrayParses(f: Format, parts: seq<string>, vs: seq<Value>, c: Context)
    requires f.ArrayF? && |parts| == |vs| == f.count && AllParts(parts)
    requires forall i :: 0 <= i < |vs| ==> Parse(f.elem, parts[i], c) == Some(vs[i])
    ensures IsSegment(Braces(parts)) && Parse(f, Braces(parts), c) == Some(Arr(vs))
  {
    hide Split, Braces, IsSegment, IsPart;
    var e, n := f.elem, f.count;
    PartsBraces(parts);
    SegmentNotEmpty(Braces(parts));
    SplitBracesInverts(parts);
    if n == 0 {
      ParseEmpty(e, c);
      assert seq(n, _ => Implicit(e, c)) == vs;
    } else if n == 1 {
      assert Parse(e, parts[0], c) == Some(vs[0]);
      assert seq(n, _ => vs[0]) == vs;
    } else {
      ElemsParse(e, parts, vs, c);
    }
  }

  /** A brace list of texts that parse, one per member, is the struct of what they parse to. */
  lemma StructParses(f: Format, parts: seq<string>, vs: seq<Value>, c: Context)
    requires f.StructF? && |parts| == |vs| == |f.members| && AllParts(parts)
    requires forall i :: 0 <= i < |vs| ==> Parse(f.members[i].format, parts[i], c) == Some(vs[i])
    requires parts == [""] ==> Implicit(f, c) == Rec(vs)
    ensures IsSegment(Braces(parts)) && Parse(f, Braces(parts), c) == Some(Rec(vs))
  {
    hide Split, Braces, IsSegment, IsPart, Parse, ParseFields;
    PartsBraces(parts);
    SplitBracesInverts(parts);
    if f.members == [] {
      EmptyParses(f, Braces(parts), c);
      assert Implicit(f, c).fields == vs;
    } else if parts == [""] {
      EmptyParses(f, Braces(parts), c);
    } else {
      FieldsParse(f.members, parts, vs, c);
      SplitParses(f, Braces(parts), parts, vs, c);
    }
  }

  lemma EmptyParses(f: Format, s: string, c: Context)
    requires f.StructF? && (Split(s) == Some([]) || Split(s) == Some([""]))
    ensures Parse(f, s, c) == Some(Implicit(f, c))
  {}

  lemma SplitParses(f: Format, s: string, ss: seq<string>, vs: seq<Value>, c: Context)
    requires f.StructF? && Split(s) == Some(ss) && ss != [] && ss != [""] && |ss| == |f.members|
    requires ParseFields(f.members, ss, c) == Some(vs)
    ensures Parse(f, s, c) == Some(Rec(vs))
  {
    hide Split, ParseFields;
  }

  lemma {:induction false} ElemsParse(e: Format, parts: seq<string>, vs: seq<Value>, c: Context)
    requires |parts| == |vs|
    requires forall i :: 0 <= i < |vs| ==> Parse(e, parts[i], c) == Some(vs[i])
    ensures ParseElems(e, parts, c) == Some(vs)
    decreases |vs|
  {
    hide Parse;
    if vs != [] {
      ElemsParse(e, parts[1..], vs[1..], c);
      assert [vs[0]] + vs[1..] == vs;
    }
  }

  lemma {:induction false} FieldsParse(ms: seq<Member>, parts: seq<string>, vs: seq<Value>, c: Context)
    requires |ms| == |parts| == |vs|
    requires forall i :: 0 <= i < |vs| ==> Parse(ms[i].format, parts[i], c) == Some(vs[i])
    ensures ParseFields(ms, parts, c) == Some(vs)
    decreases |vs|
  {
    hide Parse;
    if ms != [] {
      assert Parse(ms[0].format, parts[0], c) == Some(vs[0]);
      forall i | 0 <= i < |ms| - 1 ensures Parse(ms[1..][i].format, parts[1..][i], c) == Some(vs[1..][i]) {
        assert Parse(ms[i + 1].format, parts[i + 1], c) == Some(vs[i + 1]);
      }
      FieldsParse(ms[1..], parts[1..], vs[1..], c);
      assert [vs[0]] + vs[1..] == vs;
    }
  }

  // ------------------------------------------------ where the round trip stops, exactly

  lemma {:induction false} LevelAppend(a: string, b: string, k: nat)
    requires Level(a, k).Some?
    ensures Level(a + b, k) == Level(b, Level(a, k).value)
    ensures Commas(a + b, k) == Commas(a, k) + Commas(b, Level(a, k).value)
    decreases |a|
  {
    if a == [] {
      assert a + b == b;
    } else {
      assert (a + b)[1..] == a[1..] + b && (a + b)[0] == a[0];
      LevelAppend(a[1..], b, if a[0] == '{' then k + 1 else if a[0] == '}' then k - 1 else k);
    }
  }

  /** Inside the outer braces every comma outside nested braces ends a segment. */
  lemma {:induction false} CommasSplit(s: string, segments: seq<string>, chars: string, k: nat)
    requires Level(s, k).Some?
    ensures var st := SplitRun(Splitting(segments, 1 + k, chars, false), s);
            st.Splitting? && |st.segments| == |segments| + Commas(s, k)
            && st.depth == 1 + Level(s, k).value && !st.complete
    decreases |s|
  {
    hide Strip;
    if s != [] {
      var k' := if s[0] == '{' then k + 1 else if s[0] == '}' then k - 1 else k;
      if s[0] == ',' && k == 0 {
        CommasSplit(s[1..], segments + [Strip(chars)], "", k');
      } else {
        CommasSplit(s[1..], segments, chars + [s[0]], k');
      }
    }
  }

  lemma InsideBraces(s: string)
    ensures var b := "{" + s + "}"; Trimmed(b) && b[0] == '{' && b[1..] == s + "}"
  {
    var b := "{" + s + "}";
    assert b == ['{'] + (s + "}");
  }

  /** A brace list has one segment more than its contents have commas outside nested braces. */
  lemma SplitCounts(s: string)
    requires Level(s, 0) == Some(0)
    ensures Split("{" + s + "}").Some? && |Split("{" + s + "}").value| == 1 + Commas(s, 0)
  {
    hide Strip;
    var b := "{" + s + "}";
    InsideBraces(s);
    TrimmedStrip(b);
    assert SplitStep(START, '{') == Splitting([], 1, "", false);
    CommasSplit(s, [], "", 0);
    SplitRunAppend(Splitting([], 1, "", false), s, "}");
    assert "}"[1..] == "";
    var st := SplitRun(Splitting([], 1, "", false), s);
    assert SplitRun(st, "}") == SplitRun(SplitStep(st, '}'), "");
  }

  lemma {:induction false} JoinCounts(parts: seq<string>, i: nat)
    requires i < |parts| && forall p <- parts :: Balanced(p)
    ensures Level(Join(parts), 0) == Some(0)
    ensures Commas(Join(parts), 0) >= |parts| - 1 + Commas(parts[i], 0)
  {
    hide Trimmed;
    assert parts[0] in parts;
    if |parts| > 1 {
      var tail := "," + Join(parts[1..]);
      assert Join(parts) == parts[0] + tail && tail[1..] == Join(parts[1..]);
      LevelAppend(parts[0], tail, 0);
      JoinCounts(parts[1..], if i == 0 then 0 else i - 1);
      assert Commas(tail, 0) == 1 + Commas(tail[1..], 0);
    }
  }

  /** A comma outside braces in one element gives a brace list more segments than elements. */
  lemma CommaAddsSegment(parts: seq<string>, i: nat)
    requires i < |parts| && (forall p <- parts :: Balanced(p)) && Commas(parts[i], 0) > 0
    ensures Split(Braces(parts)).Some? && |Split(Braces(parts)).value| > |parts|
  {
    JoinCounts(parts, i);
    SplitCounts(Join(parts));
  }

  lemma BracesBalanced(parts: seq<string>)
    requires forall p <- parts :: Balanced(p)
    ensures IsSegment(Braces(parts))
  {
    hide Join;
    var t := Join(parts);
    if parts == [] {
      assert t == "" by { JoinNone(); }
    } else {
      JoinCounts(parts, 0);
    }
    NestsInBraces(t);
  }

  lemma SegmentsBraces(parts: seq<string>)
    requires AllSegments(parts)
    ensures IsSegment(Braces(parts))
  {
    hide IsSegment, Braces, Balanced;
    forall p | p in parts ensures Balanced(p) { SegmentBalanced(p); }
    BracesBalanced(parts);
  }

  lemma {:induction false} JoinLevel(parts: seq<string>)
    requires forall i :: 0 <= i < |parts| ==> Level(parts[i], 0) == Some(0)
    ensures Level(Join(parts), 0) == Some(0)
    decreases |parts|
  {
    if |parts| > 1 {
      JoinLevel(parts[1..]);
      var rest := Join(parts[1..]);
      LevelAppend(parts[0], "," + rest, 0);
      assert ("," + rest)[1..] == rest;
      assert parts[0] + "," + rest == parts[0] + ("," + rest);
    }
  }

  /** A brace list of parts, some of them empty, can itself be a segment. */
  lemma PartsBraces(parts: seq<string>)
    requires AllParts(parts)
    ensures IsSegment(Braces(parts))
  {
    hide Join, Trimmed;
    forall i | 0 <= i < |parts| ensures Level(parts[i], 0) == Some(0) {
      PartCollected(parts[i]);
      NestingIsLevel(parts[i], 0);
    }
    JoinLevel(parts);
    NestsInBraces(Join(parts));
  }

  lemma JoinNone()
    ensures Join([]) == ""
  {}

  lemma NestsInBraces(t: string)
    requires Level(t, 0) == Some(0)
    ensures IsSegment("{" + t + "}")
  {
    var b, tail := "{" + t + "}", t + "}";
    assert b[0] == '{' && b[1..] == tail && b[|b| - 1] == '}';
    LevelDeeper(t, 0);
    LevelAppend(t, "}", 1);
    assert "}"[1..] == "";
    NestingIsLevel(b, 0);
  }

  lemma {:induction false} LevelDeeper(s: string, k: nat)
    requires Level(s, k).Some?
    ensures Level(s, k + 1) == Some(Level(s, k).value + 1) && Commas(s, k + 1) == 0
    decreases |s|
  {
    if s != [] {
      LevelDeeper(s[1..], if s[0] == '{' then k + 1 else if s[0] == '}' then k - 1 else k);
    }
  }

  /** What is printed has matching braces if the pretty names have. */
  lemma {:induction false} PrintBalanced(f: Format, v: Value)
    requires NamesBalanced(f) && Shaped(f, v)
    ensures Balanced(Print(f, v))
    ensures f.ArrayF? || f.StructF? ==> IsSegment(Print(f, v))
    decreases f
  {
    hide Level, Commas, Nesting, Trimmed, EnumText, PrintInt, Braces;
    SegmentBalanced(Print(f, v));
    match f
    case IntF(_) => PrintIntSegment(v.n);
    case BoolF => BoolRoundTrip(v.b);
    case EnumF(_, values, _) => EnumTextBalanced(values, v.n);
    case ArrayF(e, n) =>
      var parts := seq(n, i requires 0 <= i < n => Print(e, v.elems[i]));
      forall i | 0 <= i < n ensures Balanced(parts[i]) { PrintBalanced(e, v.elems[i]); }
      BracesBalanced(parts);
    case StructF(_, ms) =>
      var parts := seq(|ms|, i requires 0 <= i < |ms| => Print(ms[i].format, v.fields[i]));
      forall i | 0 <= i < |ms| ensures Balanced(parts[i]) { PrintBalanced(ms[i].format, v.fields[i]); }
      BracesBalanced(parts);
  }

  /** A struct with a member whose printed text has a comma outside braces is rejected when read back. */
  lemma CommaPrettyNameLost(f: Format, v: Value, i: nat, c: Context)
    requires f.StructF? && NamesBalanced(f) && Shaped(f, v) && i < |f.members|
    requires Commas(Print(f.members[i].format, v.fields[i]), 0) > 0
    ensures Parse(f, Print(f, v), c) == None
  {
    hide Split, Commas, Balanced, Braces, NamesBalanced;
    var ms := f.members;
    var parts := seq(|ms|, i requires 0 <= i < |ms| => Print(ms[i].format, v.fields[i]));
    forall j | 0 <= j < |ms| ensures Balanced(parts[j]) {
      MemberNamesBalanced(f, j);
      PrintBalanced(ms[j].format, v.fields[j]);
    }
    CommaAddsSegment(parts, i);
  }

  lemma MemberNamesBalanced(f: Format, j: nat)
    requires f.StructF? && NamesBalanced(f) && j < |f.members|
    ensures NamesBalanced(f.members[j].format)
  {
    assert f.members[j] in f.members;
  }

  /** Some value of the format. */
  function SomeValue(f: Format): (v: Value)
    ensures Shaped(f, v)
  {
    match f
    case BoolF => Flag(false)
    case ArrayF(e, n) => var x := SomeValue(e); Arr(seq(n, _ => x))
    case StructF(_, ms) => Rec(seq(|ms|, i requires 0 <= i < |ms| => SomeValue(ms[i].format)))
    case _ => Num(0)
  }

  /** Where a format is not readable, some value does not survive. */
  lemma {:induction false} UnreadableLost(f: Format, c: Context, listed: bool) returns (v: Value)
    requires NamesBalanced(f) && !Readable(f, listed)
    ensures Shaped(f, v)
    ensures Parse(f, Print(f, v), c) != Some(v) || (listed && Commas(Print(f, v), 0) > 0)
    decreases f
  {
    hide Parse, Print, Level, Commas, EnumText, ParseEnum, Unambiguous;
    match f
    case EnumF(_, values, _) => v := UnreadableEnumLost(f, c, listed);
    case ArrayF(e, n) =>
      var x := UnreadableLost(e, c, true);
      v := Arr(seq(n, _ => x));
      UnreadableElem(f, x, v, c);
    case StructF(_, ms) =>
      var m :| m in ms && !Readable(m.format, true);
      var k :| 0 <= k < |ms| && ms[k] == m;
      var x := UnreadableLost(m.format, c, true);
      v := Rec(SomeValue(f).fields[k := x]);
      UnreadableMember(f, k, v, c);
  }

  lemma UnreadableEnumLost(f: Format, c: Context, listed: bool) returns (v: Value)
    requires f.EnumF? && NamesBalanced(f) && !Readable(f, listed)
    ensures Shaped(f, v)
    ensures Parse(f, Print(f, v), c) != Some(v) || (listed && Commas(Print(f, v), 0) > 0)
  {
    hide Level, Commas, EnumText, ParseEnum, Unambiguous;
    var i: nat;
    if !ReadableEnum(f.values) {
      i :| FirstWithNumber(f.values, i) && !Unambiguous(f.values, i);
    } else {
      i :| FirstWithNumber(f.values, i) && Commas(f.values[i].prettyName, 0) != 0;
    }
    assert f.values[i] in f.values;
    EnumTextFirst(f.values, i);
    EnumValueReads(f.values, i);
    v := Num(f.values[i].number);
  }

  lemma UnreadableElem(f: Format, x: Value, v: Value, c: Context)
    requires f.ArrayF? && f.count > 0 && NamesBalanced(f) && Shaped(f.elem, x) && v == Arr(seq(f.count, _ => x))
    requires Parse(f.elem, Print(f.elem, x), c) != Some(x) || Commas(Print(f.elem, x), 0) > 0
    ensures Parse(f, Print(f, v), c) != Some(v)
  {
    hide Split, Commas, Balanced, Braces, IsSegment, Parse;
    var text := Print(f.elem, x);
    var parts := seq(f.count, i requires 0 <= i < f.count => Print(f.elem, v.elems[i]));
    PrintBalanced(f.elem, x);
    assert forall i :: 0 <= i < f.count ==> parts[i] == text;
    assert Print(f, v) == Braces(parts);
    BracesBalanced(parts);
    SegmentNotEmpty(Braces(parts));
    if Commas(text, 0) > 0 {
      CommaAddsSegment(parts, 0);
    } else {
      SegmentBalanced(text);
      SplitBracesInverts(parts);
    }
    ArrayTextFails(f, Braces(parts), x, c);
  }

  lemma ArrayTextFails(f: Format, s: string, x: Value, c: Context)
    requires f.ArrayF? && f.count > 0 && s != "" && Split(s).Some?
    requires var segments := Split(s).value;
             |segments| > f.count || (|segments| == f.count && Parse(f.elem, segments[0], c) != Some(x))
    ensures Parse(f, s, c) != Some(Arr(seq(f.count, _ => x)))
  {
    hide Split;
    var segments := Split(s).value;
    var read := Parse(f, s, c);
    if read.Some? && |segments| == f.count {
      var first := Parse(f.elem, segments[0], c);
      if |segments| == 1 {
        assert read == if first.None? then None else Some(Arr(seq(f.count, _ => first.value)));
      } else {
        assert read.value == Arr(ParseElems(f.elem, segments, c).value);
      }
      assert first.Some? && read.value.elems[0] == first.value;
      assert seq(f.count, _ => x)[0] == x;
    }
  }

  lemma UnreadableMember(f: Format, k: nat, v: Value, c: Context)
    requires f.StructF? && k < |f.members| && NamesBalanced(f) && Shaped(f, v)
    requires var text := Print(f.members[k].format, v.fields[k]);
             Parse(f.members[k].format, text, c) != Some(v.fields[k]) || Commas(text, 0) > 0
    ensures Parse(f, Print(f, v), c) != Some(v)
  {
    hide Split, Commas, Balanced, Braces, IsSegment, NamesBalanced;
    var ms := f.members;
    var parts := seq(|ms|, i requires 0 <= i < |ms| => Print(ms[i].format, v.fields[i]));
    if i :| 0 <= i < |ms| && Commas(parts[i], 0) > 0 {
      CommaPrettyNameLost(f, v, i, c);
    } else {
      forall j | 0 <= j < |ms| ensures IsSegment(parts[j]) {
        MemberNamesBalanced(f, j);
        PrintBalanced(ms[j].format, v.fields[j]);
        SegmentBalanced(parts[j]);
      }
      SplitBracesInverts(parts);
      SegmentNotEmpty(parts[0]);
      if ParseFields(ms, parts, c).Some? {
        FieldParsed(ms, parts, c, k);
      }
    }
  }

  lemma SegmentNotEmpty(s: string)
    requires IsSegment(s)
    ensures s != ""
  {}

  lemma {:induction false} FieldParsed(ms: seq<Member>, parts: seq<string>, c: Context, k: nat)
    requires |ms| == |parts| && k < |ms| && ParseFields(ms, parts, c).Some?
    ensures Parse(ms[k].format, parts[k], c) == Some(ParseFields(ms, parts, c).value[k])
    decreases |ms|
  {
    hide Parse;
    if k > 0 {
      FieldParsed(ms[1..], parts[1..], c, k - 1);
    }
  }

  /**
   The text round trip, exactly: for pretty names with matching braces and nothing to strip,
   every well-shaped value is read back as itself if and only if the format is readable.
   */
  lemma TextRoundTripIff(f: Format, c: Context)
    requires NamesBalanced(f)
    ensures Readable(f, false) <==> forall v :: Shaped(f, v) ==> Parse(f, Print(f, v), c) == Some(v)
  {
    hide Parse, Print, Readable, NamesBalanced;
    if Readable(f, false) {
      forall v | Shaped(f, v) ensures Parse(f, Print(f, v), c) == Some(v) {
        ParsePrint(f, v, c, false);
      }
    } else {
      var v := UnreadableLost(f, c, false);
    }
  }

  // ------------------------------------------------------- when split_braces raises

  /** The depth counter after s. */
  function Depth(s: string): int {
    if s == [] then 0
    else
      var d, last := Depth(s[..|s| - 1]), s[|s| - 1];
      if last == '{' then d + 1 else if last == '}' then d - 1 else d
  }

  /** The list closes at i: the first brace that brings the depth from one to zero. */
  predicate ClosesAt(s: string, i: nat) {
    && i < |s| && s[i] == '}' && Depth(s[..i]) == 1
    && forall j :: 0 <= j < i ==> s[j] != '}' || Depth(s[..j]) != 1
  }

  /** A character other than a brace or a comma stands outside all braces. */
  predicate StraysAt(s: string, i: nat) {
    i < |s| && s[i] !in ['{', '}', ','] && Depth(s[..i]) <= 0
  }

  /** Within the first n characters: text outside all braces before the list closes, or anything but spaces after. */
  ghost predicate Malformed(s: string, n: nat) {
    || (exists i: nat :: i < n && StraysAt(s, i) && forall j: nat :: j < i ==> !ClosesAt(s, j))
    || (exists i: nat, j: nat :: i < j < n && j < |s| && ClosesAt(s, i) && s[j] != ' ')
  }

  ghost predicate Closed(s: string, n: nat) {
    exists i: nat :: i < n && ClosesAt(s, i)
  }

  lemma {:induction false} SplitterState(s: string, n: nat)
    requires n <= |s|
    ensures var st := SplitRun(START, s[..n]);
            && (st.Failed? <==> Malformed(s, n))
            && (st.Splitting? ==> (st.complete <==> Closed(s, n)) && (!st.complete ==> st.depth == Depth(s[..n])))
  {
    hide Strip;
    if n == 0 {
      assert s[..0] == "";
    } else {
      SplitterState(s, n - 1);
      var before, c := SplitRun(START, s[..n - 1]), s[n - 1];
      assert s[..n] == s[..n - 1] + [c];
      SplitRunAppend(START, s[..n - 1], [c]);
      assert [c][1..] == [];
      assert SplitRun(before, [c]) == SplitStep(before, c);
      assert s[..n][..n - 1] == s[..n - 1];
      SplitterStep(s, n, before);
    }
  }

  /** One more character, against the description of the whole text. */
  lemma SplitterStep(s: string, n: nat, before: Splitter)
    requires 0 < n <= |s|
    requires before.Failed? <==> Malformed(s, n - 1)
    requires before.Splitting? ==>
               (before.complete <==> Closed(s, n - 1)) && (!before.complete ==> before.depth == Depth(s[..n - 1]))
    ensures var st := SplitStep(before, s[n - 1]);
            && (st.Failed? <==> Malformed(s, n))
            && (st.Splitting? ==> (st.complete <==> Closed(s, n)) && (!st.complete ==> st.depth == Depth(s[..n])))
  {
    hide Strip, Malformed, Closed, ClosesAt;
    var m := n - 1;
    assert s[..n][..m] == s[..m];
    ClosedStep(s, m);
    MalformedStep(s, m);
  }

  lemma ClosedStep(s: string, m: nat)
    requires m < |s|
    ensures Closed(s, m + 1) <==> Closed(s, m) || (s[m] == '}' && Depth(s[..m]) == 1)
  {
    hide Depth;
    if s[m] == '}' && Depth(s[..m]) == 1 {
      var i := FirstClose(s, m);
      assert i < m + 1 && ClosesAt(s, i);
    }
  }

  lemma {:induction false} FirstClose(s: string, m: nat) returns (i: nat)
    requires m < |s| && s[m] == '}' && Depth(s[..m]) == 1
    ensures i <= m && ClosesAt(s, i)
  {
    hide Depth;
    if j :| 0 <= j < m && s[j] == '}' && Depth(s[..j]) == 1 {
      i := FirstClose(s, j);
    } else {
      i := m;
    }
  }

  lemma MalformedStep(s: string, m: nat)
    requires m < |s|
    ensures Malformed(s, m + 1) <==>
            Malformed(s, m) || (StraysAt(s, m) && !Closed(s, m)) || (Closed(s, m) && s[m] != ' ')
  {
    hide ClosesAt, StraysAt;
    if StraysAt(s, m) && !Closed(s, m) {
      assert m < m + 1 && forall j: nat :: j < m ==> !ClosesAt(s, j);
    }
    if Closed(s, m) && s[m] != ' ' {
      var i: nat :| i < m && ClosesAt(s, i);
      assert i < m < m + 1;
    }
  }

  /**
   split_braces raises exactly when there is text outside all braces before the list closes,
   or anything but spaces after it has closed. A list that never closes is not an error by
   itself: it raises if and only if there is text outside all braces.
   */
  lemma SplitFailsIff(text: string)
    ensures var s := Strip(text);
            && (Split(text).None? <==> Malformed(s, |s|))
            && (!Closed(s, |s|) ==> (Split(text).None? <==> exists i: nat :: StraysAt(s, i)))
  {
    hide Strip, Depth;
    var s := Strip(text);
    SplitterState(s, |s|);
    assert s[..|s|] == s;
  }

  /** A missing closing brace is not reported: the last element is dropped instead. */
  lemma UnclosedBraceDropsElement(parts: seq<string>, last: string)
    requires parts != [] && AllSegments(parts) && IsSegment(last)
    ensures Split("{" + Join(parts) + "," + last) == Some(parts)
  {
    var s := "{" + Join(parts) + "," + last;
    assert s[0] == '{' && s[|s| - 1] == last[|last| - 1];
    TrimmedStrip(s);
    assert s[1..] == Join(parts) + ("," + last);
    assert SplitStep(START, '{') == Splitting([], 1, "", false);
    SplitOpen(parts, [], last);
    assert [] + parts == parts;
  }

  lemma {:induction false} SplitOpen(parts: seq<string>, segments: seq<string>, last: string)
    requires parts != [] && AllSegments(parts) && IsSegment(last)
    ensures SplitRun(Splitting(segments, 1, "", false), Join(parts) + ("," + last))
         == Splitting(segments + parts, 1, last, false)
    decreases |parts|
  {
    hide SplitRun, IsSegment, Join;
    var p := parts[0];
    JoinFirst(parts);
    if |parts| == 1 {
      assert Join(parts) + ("," + last) == p + ([','] + last);
      SegmentEnds(p, segments, ',', last);
      SegmentCollected(segments + [p], last);
      assert segments + [p] == segments + parts;
    } else {
      var rest := Join(parts[1..]) + ("," + last);
      assert Join(parts) + ("," + last) == p + ([','] + rest);
      SegmentEnds(p, segments, ',', rest);
      SplitOpen(parts[1..], segments + [p], last);
      assert segments + [p] + parts[1..] == segments + parts;
    }
  }

  lemma JoinFirst(parts: seq<string>)
    requires parts != []
    ensures Join(parts) == if |parts| == 1 then parts[0] else parts[0] + "," + Join(parts[1..])
  {}

  lemma SegmentCollected(segments: seq<string>, s: string)
    requires IsSegment(s)
    ensures SplitRun(Splitting(segments, 1, "", false), s) == Splitting(segments, 1, s, false)
  {
    CollectsVerbatim(s, segments, "", 0);
    assert "" + s == s;
  }
}
