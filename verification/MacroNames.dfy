/**
 Which macro names cannot collide: with names that neither start nor end with an underscore nor
 have two in a row, a macro name determines the knob and the path, and every generated validator
 is as exact as its enum casts.
 */
module MacroNames {
  import opened Bytes
  import opened PyText
  import opened Formats
  import opened Paths
  import opened PathText
  import opened Validators
  import opened Macros
  import opened KnobValidators
  import opened MacroCollision

  /** No two underscores in a row, and none in front. */
  predicate Piece(t: string) {
    t != "" && t[0] != '_' && forall i :: 0 <= i < |t| - 1 ==> t[i] != '_' || t[i + 1] != '_'
  }

  /** A name whose underscores stand alone, between other characters. */
  predicate Tame(n: string) {
    IsIdent(n) && Piece(n) && n[|n| - 1] != '_'
  }

  predicate TamePath(p: Path) {
    forall st <- p :: Tame(st.name)
  }

  /** The last piece of a text is not longer than what follows another separator in it. */
  lemma NotLonger(x: string, a: string, y: string, b: string)
    requires x + "__" + a == y + "__" + b && Piece(b)
    ensures |a| >= |b|
  {
    var s := x + "__" + a;
    assert s[|x|] == '_' && s[|x| + 1] == '_' && |s| == |x| + 2 + |a|;
    assert forall i :: 0 <= i < |b| ==> b[i] == (y + "__" + b)[|y| + 2 + i];
  }

  /** The last separator of a text is where its last piece begins. */
  lemma LastPiece(x: string, a: string, y: string, b: string)
    requires x + "__" + a == y + "__" + b && Piece(a) && Piece(b)
    ensures x == y && a == b
  {
    NotLonger(x, a, y, b);
    NotLonger(y, b, x, a);
    var s := x + "__" + a;
    assert a == s[|s| - |a|..] && b == s[|s| - |b|..] && x == s[..|x|] && y == s[..|y|];
  }

  lemma SeparatorInside(y: string, b: string)
    ensures !Piece(y + "__" + b)
  {
    var c := y + "__" + b;
    assert c[|y|] == '_' && c[|y| + 1] == '_';
  }

  function FlatStep(st: Step): string {
    Flatten(StepText(st))
  }

  lemma IdentFlat(n: string)
    requires IsIdent(n)
    ensures Flatten(n) == n
  {
    forall c | c in n ensures c != '[' && c != ']' && c != '.' {
      assert IdentChar(c);
    }
    FlattenPlain(n);
  }

  lemma FlatStepIs(st: Step)
    requires IsIdent(st.name)
    ensures FlatStep(st) == if st.Field? then st.name else st.name + "_" + Decimal(st.index) + "_"
  {
    IdentFlat(st.name);
    if st.Item? {
      FlattenPlain(Decimal(st.index));
      FlattenBracketed(st.name, "[", Decimal(st.index), "]");
    }
  }

  lemma ItemPiece(n: string, d: string)
    requires Tame(n) && d != "" && forall c <- d :: IsDigit(c)
    ensures Piece(n + "_" + d + "_")
  {
    hide IsIdent;
    var t := n + "_" + d + "_";
    forall i | 0 <= i < |t| - 1 ensures t[i] != '_' || t[i + 1] != '_' {
      if i == |n| {
        assert t[i + 1] == d[0] && d[0] in d && IsDigit(d[0]);
      } else if |n| < i <= |n| + |d| {
        assert t[i] == d[i - |n| - 1] && d[i - |n| - 1] in d && IsDigit(t[i]);
      } else {
        assert t[i] == n[i];
        if i + 1 < |n| {
          assert t[i + 1] == n[i + 1];
        }
      }
    }
  }

  lemma StepPiece(st: Step)
    requires Tame(st.name)
    ensures Piece(FlatStep(st))
  {
    hide Flatten, Decimal;
    FlatStepIs(st);
    if st.Item? {
      ItemPiece(st.name, Decimal(st.index));
    }
  }

  lemma NoMoreDigits(a: string, d: string, b: string, e: string)
    requires a + "_" + d == b + "_" + e && '_' !in e
    ensures |d| >= |e|
  {
    var s := a + "_" + d;
    assert s[|a|] == '_' && |s| == |a| + 1 + |d|;
    assert forall i :: 0 <= i < |e| ==> e[i] == (b + "_" + e)[|b| + 1 + i];
  }

  /** Digits after the last underscore. */
  lemma LastDigits(a: string, d: string, b: string, e: string)
    requires a + "_" + d == b + "_" + e && '_' !in d && '_' !in e
    ensures a == b && d == e
  {
    NoMoreDigits(a, d, b, e);
    NoMoreDigits(b, e, a, d);
    var s := a + "_" + d;
    assert a == s[..|a|] && b == s[..|b|] && d == s[|s| - |d|..] && e == s[|s| - |e|..];
  }

  lemma StepInjective(a: Step, b: Step)
    requires Tame(a.name) && Tame(b.name) && FlatStep(a) == FlatStep(b)
    ensures a == b
  {
    hide Flatten, Decimal, IsIdent;
    FlatStepIs(a);
    FlatStepIs(b);
    assert a.Item? ==> FlatStep(a)[|FlatStep(a)| - 1] == '_';
    assert b.Item? ==> FlatStep(b)[|FlatStep(b)| - 1] == '_';
    if a.Item? && b.Item? {
      var d, e := Decimal(a.index), Decimal(b.index);
      assert forall c <- d :: IsDigit(c);
      assert forall c <- e :: IsDigit(c);
      var s, t := a.name + "_" + d, b.name + "_" + e;
      assert s == (s + "_")[..|s|] && t == (t + "_")[..|t|];
      LastDigits(a.name, d, b.name, e);
      DecimalRoundTrip(a.index);
      DecimalRoundTrip(b.index);
    }
  }

  lemma FlatPathLast(knob: string, p: Path)
    requires p != []
    ensures Flatten(PathName(knob, p)) == Flatten(PathName(knob, p[..|p| - 1])) + "__" + FlatStep(p[|p| - 1])
  {
    hide Flatten;
    var front, last := PathName(knob, p[..|p| - 1]), StepText(p[|p| - 1]);
    FlattenAppend(front + ".", last);
    FlattenAppend(front, ".");
    FlattenDot();
  }

  lemma FlattenDot()
    ensures Flatten(".") == "__"
  {
    assert "."[1..] == "";
  }

  /** The last steps of two paths with one macro name, and what is before them. */
  lemma LastSteps(a: string, p: Path, b: string, q: Path)
    requires p != [] && q != [] && TamePath(p) && TamePath(q)
    requires Flatten(PathName(a, p)) == Flatten(PathName(b, q))
    ensures p[|p| - 1] == q[|q| - 1]
    ensures Flatten(PathName(a, p[..|p| - 1])) == Flatten(PathName(b, q[..|q| - 1]))
  {
    hide Flatten, PathName, Tame, FlatStep, Piece;
    var m, n := |p| - 1, |q| - 1;
    assert p[m] in p && q[n] in q;
    FlatPathLast(a, p);
    FlatPathLast(b, q);
    StepPiece(p[m]);
    StepPiece(q[n]);
    LastPiece(Flatten(PathName(a, p[..m])), FlatStep(p[m]), Flatten(PathName(b, q[..n])), FlatStep(q[n]));
    StepInjective(p[m], q[n]);
  }

  /** A knob's own name is not the macro name of one of its parts, or of another knob's. */
  lemma NotARoot(a: string, p: Path, b: string)
    requires Tame(b) && p != []
    ensures Flatten(PathName(a, p)) != Flatten(PathName(b, []))
  {
    hide Flatten, Tame, FlatStep, Piece;
    TameFlat(b);
    FlatPathLast(a, p);
    SeparatorInside(Flatten(PathName(a, p[..|p| - 1])), FlatStep(p[|p| - 1]));
  }

  /** With tame names the macro name determines the knob and the path. */
  lemma {:induction false} MacroNamesDiffer(a: string, p: Path, b: string, q: Path)
    requires Tame(a) && Tame(b) && TamePath(p) && TamePath(q)
    requires Flatten(PathName(a, p)) == Flatten(PathName(b, q))
    ensures a == b && p == q
    decreases |p|
  {
    hide Flatten, PathName, Tame;
    if p != [] && q != [] {
      LastSteps(a, p, b, q);
      MacroNamesDiffer(a, p[..|p| - 1], b, q[..|q| - 1]);
      assert p == p[..|p| - 1] + [p[|p| - 1]] && q == q[..|q| - 1] + [q[|q| - 1]];
    } else {
      RootNames(a);
      RootNames(b);
      TameFlat(a);
      TameFlat(b);
      if p != [] {
        NotARoot(a, p, b);
      } else if q != [] {
        NotARoot(b, q, a);
      }
    }
  }

  lemma RootNames(a: string)
    ensures PathName(a, []) == a
  {}

  lemma TameFlat(n: string)
    requires Tame(n)
    ensures Flatten(n) == n && Piece(n)
  {
    IdentFlat(n);
  }

  /** Knob and member names are tame, and no two knobs have one name. */
  ghost predicate TameSchema(ks: seq<Member>) {
    && (forall k <- ks :: Tame(k.name) && forall sk <- SubKnobs(k.format) :: TamePath(sk.path))
    && (forall k, l :: k in ks && l in ks && k.name == l.name ==> k == l)
  }

  /** No two leaves of such a schema define one macro. */
  lemma TameHeader(ks: seq<Member>)
    requires AllReady(ks) && TameSchema(ks)
    ensures SameSuffixes(Header(ks)) && NoClash(Header(ks))
  {
    hide Header, KnobReady, Flatten, At, Tame, IntLeaf, LeafDefinitions, TamePath;
    forall d, e | d in Header(ks) && e in Header(ks) && SameMacro(d, e)
      ensures d.value == e.value && Suffix(d.t) == Suffix(e.t)
    {
      var k, sk := DefinitionOf(ks, d);
      var l, tk := DefinitionOf(ks, e);
      MacroNamesDiffer(k.name, sk.path, l.name, tk.path);
      KnobAddressable(k);
      SubKnobAtPath(k.format, sk, tk);
    }
  }

  lemma KnobAddressable(k: Member)
    requires KnobReady(k)
    ensures Addressable(k.format) && !k.format.ArrayF?
  {
    FormatOkAddressable(k.format);
  }

  /** So all its validators are exact if and only if its enums are cast safe. */
  lemma TameSchemaExactIff(ks: seq<Member>, c: Target)
    requires c.defs == Header(ks) && AllReady(ks) && TameSchema(ks)
    ensures (forall k <- ks :: Exact(c, k)) <==> (forall k <- ks :: EnumsCastSafe(k, c.cast))
  {
    hide Header, KnobReady, Exact, EnumsCastSafe, TameSchema;
    TameHeader(ks);
    SchemaExactIff(ks, c);
  }
}
