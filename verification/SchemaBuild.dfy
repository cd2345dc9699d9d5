/**
 Building formats and knobs from the attribute texts of the schema XML, and the
 facts every schema that loads is known to satisfy.
 */
module SchemaBuild {
  import opened Bytes
  import opened PyText
  import opened Formats
  import opened Text

  /** The attributes of a Member or Knob element; a knob always has count 1. */
  datatype Declaration = Declaration(name: string, base: Format, count: nat, deflt: string, min: string, max: string)

  /** StructMember.__init__ and Knob.__init__: parse the three texts, then check them. */
  function MakeMember(d: Declaration): Option<Member> {
    var f := if d.count != 1 then ArrayF(d.base, d.count) else d.base;
    var dflt, lo, hi := Parse(f, d.deflt, Default), Parse(f, d.min, Min), Parse(f, d.max, Max);
    if dflt.None? || lo.None? || hi.None? then None
    else if !InBounds(f, lo.value, Implicit(f, Min), Implicit(f, Max)) then None
    else if !InBounds(f, hi.value, Implicit(f, Min), Implicit(f, Max)) then None
    else if !InBounds(f, dflt.value, lo.value, hi.value) then None
    else Some(Member(d.name, f, dflt.value, lo.value, hi.value))
  }

  function MakeMembers(ds: seq<Declaration>): (r: Option<seq<Member>>)
    ensures r.Some? ==> |r.value| == |ds|
    ensures r.Some? ==> forall i :: 0 <= i < |ds| ==> MakeMember(ds[i]) == Some(r.value[i])
  {
    hide MakeMember;
    if ds == [] then Some([])
    else
      var m, ms := MakeMember(ds[0]), MakeMembers(ds[1..]);
      if m.None? || ms.None? then None else Some([m.value] + ms.value)
  }

  /** StructFormat.__init__ */
  function MakeStruct(name: string, ds: seq<Declaration>): Option<Format> {
    var ms := MakeMembers(ds);
    if ms.None? then None else Some(StructF(name, ms.value))
  }

  lemma {:induction false} ImplicitShaped(f: Format)
    requires FormatOk(f)
    ensures Shaped(f, Implicit(f, Default))
  {
    match f
    case ArrayF(e, n) => ImplicitShaped(e);
    case StructF(_, ms) =>
      forall i | 0 <= i < |ms| ensures Shaped(ms[i].format, Implicit(f, Default).fields[i]) {
        assert MemberOk(ms[i]);
      }
    case _ =>
  }

  /** A bound as it comes from text: a bool or enum leaf may still hold something. */
  predicate LooseBound(f: Format, v: Value) {
    match f
    case IntF(_) => v.Num?
    case BoolF => v.Null? || v.Flag?
    case EnumF(_, _, _) => v.Null? || v.Num?
    case ArrayF(e, n) => v.Arr? && |v.elems| == n && forall x <- v.elems :: LooseBound(e, x)
    case StructF(_, ms) =>
      && v.Rec? && |v.fields| == |ms|
      && forall i :: 0 <= i < |ms| ==> LooseBound(ms[i].format, v.fields[i])
  }

  predicate FromText(f: Format, v: Value, c: Context) {
    if c == Default then Shaped(f, v) else LooseBound(f, v)
  }

  lemma {:induction false} BoundIsLoose(f: Format, v: Value)
    requires BoundShaped(f, v)
    ensures LooseBound(f, v)
  {
    match f
    case ArrayF(e, n) =>
      forall x | x in v.elems ensures LooseBound(e, x) { BoundIsLoose(e, x); }
    case StructF(_, ms) =>
      forall i | 0 <= i < |ms| ensures LooseBound(ms[i].format, v.fields[i]) {
        BoundIsLoose(ms[i].format, v.fields[i]);
      }
    case _ =>
  }

  lemma ImplicitFromText(f: Format, c: Context)
    requires FormatOk(f)
    ensures FromText(f, Implicit(f, c), c)
  {
    if c == Default {
      ImplicitShaped(f);
    } else {
      ImplicitBoundShaped(f, c);
      BoundIsLoose(f, Implicit(f, c));
    }
  }

  /** Whatever string_to_object accepts has the shape of its format. */
  lemma {:induction false} ParseShaped(f: Format, s: string, c: Context)
    requires FormatOk(f) && Parse(f, s, c).Some?
    ensures FromText(f, Parse(f, s, c).value, c)
    decreases f, 0, 0
  {
    ImplicitFromText(f, c);
    match f
    case IntF(_) =>
    case BoolF =>
    case EnumF(_, _, _) =>
    case ArrayF(e, n) =>
      if s != "" {
        var segments := Split(s).value;
        if |segments| == 1 {
          ParseShaped(e, segments[0], c);
        } else {
          ParseElemsShaped(e, segments, c);
        }
      }
    case StructF(_, ms) =>
      var segments := Split(s).value;
      if segments != [] && segments != [""] {
        ParseFieldsShaped(ms, segments, c);
      }
  }

  lemma {:induction false} ParseElemsShaped(e: Format, segments: seq<string>, c: Context)
    requires FormatOk(e) && ParseElems(e, segments, c).Some?
    ensures forall x <- ParseElems(e, segments, c).value :: FromText(e, x, c)
    decreases e, 1, |segments|
  {
    if segments != [] {
      ParseShaped(e, segments[0], c);
      ParseElemsShaped(e, segments[1..], c);
    }
  }

  lemma {:induction false} ParseFieldsShaped(ms: seq<Member>, segments: seq<string>, c: Context)
    requires |ms| == |segments| && (forall m <- ms :: FormatOk(m.format)) && ParseFields(ms, segments, c).Some?
    ensures var vs := ParseFields(ms, segments, c).value;
            forall i :: 0 <= i < |ms| ==> FromText(ms[i].format, vs[i], c)
    decreases ms, 0, 0
  {
    if ms != [] {
      assert ms[0] in ms;
      ParseShaped(ms[0].format, segments[0], c);
      ParseFieldsShaped(ms[1..], segments[1..], c);
      var vs, rest := ParseFields(ms, segments, c).value, ParseFields(ms[1..], segments[1..], c).value;
      forall i | 0 <= i < |ms| ensures FromText(ms[i].format, vs[i], c) {
        if i > 0 {
          assert FromText(ms[1..][i - 1].format, rest[i - 1], c);
        }
      }
    }
  }

  /** A default that passes the check leaves no bound on a bool or an enum. */
  lemma {:induction false} CheckedBounds(f: Format, v: Value, lo: Value, hi: Value)
    requires Shaped(f, v) && LooseBound(f, lo) && LooseBound(f, hi) && InBounds(f, v, lo, hi)
    ensures BoundShaped(f, lo) && BoundShaped(f, hi)
  {
    match f
    case ArrayF(e, n) =>
      ArrayInBounds(f, v, lo, hi);
      forall i | 0 <= i < n ensures BoundShaped(e, lo.elems[i]) && BoundShaped(e, hi.elems[i]) {
        CheckedBounds(e, v.elems[i], lo.elems[i], hi.elems[i]);
      }
    case StructF(_, ms) =>
      StructInBounds(f, v, lo, hi);
      forall i | 0 <= i < |ms|
        ensures BoundShaped(ms[i].format, lo.fields[i]) && BoundShaped(ms[i].format, hi.fields[i])
      {
        CheckedBounds(ms[i].format, v.fields[i], lo.fields[i], hi.fields[i]);
      }
    case _ =>
  }

  /** Every member or knob the loader accepts is well formed: default, min and max all agree. */
  lemma MakeMemberOk(d: Declaration)
    requires FormatOk(d.base) && !d.base.ArrayF? && MakeMember(d).Some?
    ensures MemberOk(MakeMember(d).value)
  {
    var m := MakeMember(d).value;
    ParseShaped(m.format, d.deflt, Default);
    ParseShaped(m.format, d.min, Min);
    ParseShaped(m.format, d.max, Max);
    CheckedBounds(m.format, m.deflt, m.min, m.max);
  }

  /** Every struct the loader accepts is well formed, if its member names differ. */
  lemma MakeStructOk(name: string, ds: seq<Declaration>)
    requires forall i :: 0 <= i < |ds| ==> FormatOk(ds[i].base) && !ds[i].base.ArrayF?
    requires forall i, j :: 0 <= i < j < |ds| ==> ds[i].name != ds[j].name
    requires MakeStruct(name, ds).Some?
    ensures FormatOk(MakeStruct(name, ds).value)
  {
    var ms := MakeMembers(ds).value;
    forall i | 0 <= i < |ms| ensures MemberOk(ms[i]) {
      MakeMemberOk(ds[i]);
    }
    forall i, j | 0 <= i < j < |ms| ensures ms[i].name != ms[j].name {
      assert MakeMember(ds[i]) == Some(ms[i]) && MakeMember(ds[j]) == Some(ms[j]);
    }
  }

  // ----------------------------------------------------- writing a schema and loading it

  /** The text of a bound: nothing at bool and enum leaves, which may not have one. */
  function BoundText(f: Format, b: Value): string
    requires BoundShaped(f, b)
  {
    match f
    case IntF(_) => PrintInt(b.n)
    case ArrayF(e, n) => Braces(seq(n, i requires 0 <= i < n => BoundText(e, b.elems[i])))
    case StructF(_, ms) => Braces(seq(|ms|, i requires 0 <= i < |ms| => BoundText(ms[i].format, b.fields[i])))
    case _ => ""
  }

  lemma {:induction false} BoundTextParses(f: Format, b: Value, c: Context)
    requires FormatOk(f) && BoundShaped(f, b) && c != Default
    ensures IsPart(BoundText(f, b)) && Parse(f, BoundText(f, b), c) == Some(b)
    ensures BoundText(f, b) == "" ==> f.BoolF? || f.EnumF?
    decreases f
  {
    hide Split, Braces, IsPart, IsSegment, ParseInt, PrintInt, MemberOk;
    match f
    case IntF(_) =>
      PrintIntRoundTrip(b.n, true);
      PrintIntSegment(b.n);
      SegmentIsPart(PrintInt(b.n));
    case BoolF => EmptyIsPart();
    case EnumF(_, _, _) => EmptyIsPart();
    case ArrayF(e, n) =>
      var parts := seq(n, i requires 0 <= i < n => BoundText(e, b.elems[i]));
      forall i | 0 <= i < n ensures IsPart(parts[i]) && Parse(e, parts[i], c) == Some(b.elems[i]) {
        BoundTextParses(e, b.elems[i], c);
      }
      ArrayParses(f, parts, b.elems, c);
      SegmentIsPart(Braces(parts));
    case StructF(_, ms) => StructBoundParses(f, b, c);
  }

  lemma {:induction false} StructBoundParses(f: Format, b: Value, c: Context)
    requires f.StructF? && FormatOk(f) && BoundShaped(f, b) && c != Default
    ensures IsPart(BoundText(f, b)) && Parse(f, BoundText(f, b), c) == Some(b) && BoundText(f, b) != ""
    decreases f, 0
  {
    hide Split, Braces, IsPart, IsSegment, ParseInt, PrintInt, Parse;
    var ms := f.members;
    var parts := seq(|ms|, i requires 0 <= i < |ms| => BoundText(ms[i].format, b.fields[i]));
    forall i | 0 <= i < |ms| ensures IsPart(parts[i]) && Parse(ms[i].format, parts[i], c) == Some(b.fields[i]) {
      assert MemberOk(ms[i]);
      BoundTextParses(ms[i].format, b.fields[i], c);
    }
    if parts == [""] {
      assert MemberOk(ms[0]) && parts[0] == "";
      BoundTextParses(ms[0].format, b.fields[0], c);
      assert Implicit(f, c).fields == b.fields;
    }
    StructParses(f, parts, b.fields, c);
    SegmentIsPart(Braces(parts));
  }

  lemma EmptyIsPart()
    ensures IsPart("")
  {}

  lemma SegmentIsPart(s: string)
    requires IsSegment(s)
    ensures IsPart(s) && s != ""
  {}

  /** A member as the schema file would declare it. */
  function DeclarationOf(m: Member): Declaration
    requires MemberOk(m)
  {
    var f := m.format;
    Declaration(m.name, if f.ArrayF? then f.elem else f, if f.ArrayF? then f.count else 1,
                Print(f, m.deflt), BoundText(f, m.min), BoundText(f, m.max))
  }

  /** A member of a readable format, written as a declaration, loads as that member. */
  lemma {:induction false} MemberLoads(m: Member)
    requires MemberOk(m) && NamesBalanced(m.format) && Readable(m.format, false)
    ensures MakeMember(DeclarationOf(m)) == Some(m)
  {
    hide Parse, Print, BoundText, CheckBounds;
    ParsePrint(m.format, m.deflt, Default, false);
    BoundTextParses(m.format, m.min, Min);
    BoundTextParses(m.format, m.max, Max);
  }

  /** So does a whole struct. */
  lemma {:induction false} StructLoads(f: Format)
    requires f.StructF? && FormatOk(f) && NamesBalanced(f) && Readable(f, false)
    ensures MakeStruct(f.name, Declarations(f.members)) == Some(f)
  {
    hide MakeMember, NamesBalanced, DeclarationOf;
    forall i | 0 <= i < |f.members|
      ensures MakeMember(DeclarationOf(f.members[i])) == Some(f.members[i])
    {
      assert MemberOk(f.members[i]);
      MemberReadable(f, i);
      MemberLoads(f.members[i]);
    }
    MembersLoad(f.members);
  }

  lemma {:induction false} MemberReadable(f: Format, i: nat)
    requires f.StructF? && i < |f.members| && NamesBalanced(f) && Readable(f, false)
    ensures NamesBalanced(f.members[i].format) && Readable(f.members[i].format, false)
  {
    assert f.members[i] in f.members;
    ReadableOutside(f.members[i].format);
  }

  /** What is readable inside a list is readable outside. */
  lemma {:induction false} ReadableOutside(f: Format)
    requires Readable(f, true)
    ensures Readable(f, false)
  {}

  function Declarations(ms: seq<Member>): seq<Declaration>
    requires forall m <- ms :: MemberOk(m)
  {
    seq(|ms|, i requires 0 <= i < |ms| => DeclarationOf(ms[i]))
  }

  lemma {:induction false} MembersLoad(ms: seq<Member>)
    requires forall m <- ms :: MemberOk(m)
    requires forall i :: 0 <= i < |ms| ==> MakeMember(DeclarationOf(ms[i])) == Some(ms[i])
    ensures MakeMembers(Declarations(ms)) == Some(ms)
    decreases |ms|
  {
    hide MakeMember, MemberOk, DeclarationOf;
    if ms != [] {
      assert forall m <- ms[1..] :: m in ms;
      assert Declarations(ms)[1..] == Declarations(ms[1..]);
      forall i | 0 <= i < |ms| - 1 ensures MakeMember(DeclarationOf(ms[1..][i])) == Some(ms[1..][i]) {
        assert ms[1..][i] == ms[i + 1] && ms[i + 1] in ms;
      }
      MembersLoad(ms[1..]);
      assert [ms[0]] + ms[1..] == ms;
    }
  }

  // ------------------------------------------------------- which declarations load

  /** An enum loads if and only if it declares no bounds and its default is, or spells, a listed number. */
  lemma EnumLoadsIff(d: Declaration)
    requires d.base.EnumF? && d.count == 1
    ensures MakeMember(d).Some? <==>
            && d.min == "" && d.max == ""
            && var v := Parse(d.base, d.deflt, Default);
               v.Some? && v.value.Num? && v.value.n in EnumNumbers(d.base.values)
  {
    hide ParseInt, EnumLookup;
  }

  /** A bool loads if and only if it declares no bounds. */
  lemma BoolLoadsIff(d: Declaration)
    requires d.base.BoolF? && d.count == 1
    ensures MakeMember(d).Some? <==> d.min == "" && d.max == ""
  {
    hide Lower, Strip;
  }

  /** An integer loads if and only if its texts are numbers, the bounds fit the type and the default the bounds. */
  lemma IntLoadsIff(d: Declaration)
    requires d.base.IntF? && d.count == 1
    ensures var t, v := d.base.t, Parse(d.base, d.deflt, Default);
            var lo, hi := Parse(d.base, d.min, Min), Parse(d.base, d.max, Max);
            MakeMember(d).Some? <==>
            && v.Some? && lo.Some? && hi.Some?
            && t.Min() <= lo.value.n <= t.Max() && t.Min() <= hi.value.n <= t.Max()
            && lo.value.n <= v.value.n <= hi.value.n
  {
    hide ParseInt;
  }
}
