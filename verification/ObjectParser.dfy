/**
 string_to_object on objects, with the code's own sharing: a single-element text repeats one
 child, an empty text hands out the default list of an array format, and an empty struct takes
 over the default objects of its members. Whatever it builds is a sound object.
 */
module ObjectParser {
  import opened Bytes
  import opened PyText
  import opened Formats
  import opened Text
  import opened SchemaBuild
  import opened Sharing
  import opened ObjectTypes
  import opened KnobStore
  import opened ObjectStore

  /** The text of the default attribute of member k of a struct. */
  type Texts = (Format, nat) -> string

  /** string_to_object; list is the home of the format's own default list, if it is an array. */
  function MakeAt(texts: Texts, f: Format, s: string, home: Home, at: seq<nat>, list: Home): Obj
    decreases f, 1
  {
    match f
    case ArrayF(e, n) =>
      if s == "" then ListObject(texts, e, n, list)
      else
        var segments := Split(s);
        if segments.None? then Scalar(Null)
        else if |segments.value| == 1 then
          var repeated := MakeAt(texts, e, segments.value[0], home, at + [0], LooseList(e));
          Node(New(home, at), true, seq(n, _ => repeated))
        else
          var ss := segments.value;
          Node(New(home, at), true,
               seq(|ss|, i requires 0 <= i < |ss| => MakeAt(texts, e, ss[i], home, at + [i], LooseList(e))))
    case StructF(_, ms) =>
      var segments := Split(s);
      if segments.None? then Scalar(Null)
      else if segments.value == [] || segments.value == [""] then
        Node(New(home, at), false, seq(|ms|, k requires 0 <= k < |ms| => MemberObject(texts, f, k)))
      else if |segments.value| == |ms| then
        var ss := segments.value;
        Node(New(home, at), false,
             seq(|ms|, k requires 0 <= k < |ms| => MakeAt(texts, ms[k].format, ss[k], home, at + [k], ListHome(f, k))))
      else Scalar(Null)
    case _ =>
      var v := Parse(f, s, Default);
      Scalar(if v.Some? then v.value else Null)
  }

  /** StructMember.default: one object per member. */
  function MemberObject(texts: Texts, s: Format, k: nat): Obj
    requires s.StructF? && k < |s.members|
    decreases s, 0
  {
    MakeAt(texts, s.members[k].format, texts(s, k), MemberHome(s, k), [], ListHome(s, k))
  }

  /** The default attribute of a format that is no array: a struct has one object, made of its members' defaults. */
  function FormatObject(texts: Texts, e: Format): Obj
    decreases e, 1
  {
    match e
    case StructF(_, ms) =>
      Node(New(StructHome(e), []), false, seq(|ms|, k requires 0 <= k < |ms| => MemberObject(texts, e, k)))
    case _ => Scalar(Implicit(e, Default))
  }

  /** ArrayFormat.default: one list per format object, with the element format's default in every slot. */
  function ListObject(texts: Texts, e: Format, n: nat, list: Home): Obj
    decreases e, 2
  {
    var repeated := FormatObject(texts, e);
    Node(New(list, []), true, seq(n, _ => repeated))
  }

  /** The maker of a schema whose member defaults have these texts. */
  function Parser(texts: Texts): Maker {
    (f, s) => MakeAt(texts, f, s, Here, [], LooseList(f))
  }

  /** Each member's default is what its text parses to, as StructMember.__init__ has it. */
  ghost predicate TextsOk(texts: Texts) {
    forall s: Format, k: nat | s.StructF? && FormatOk(s) && k < |s.members| ::
      Parse(s.members[k].format, texts(s, k), Default) == Some(s.members[k].deflt)
  }

  // ----------------------------------------------------------------- the value built

  lemma KidsErased(o: Obj, vs: seq<Value>)
    requires o.Node? && |o.kids| == |vs| && forall i :: 0 <= i < |vs| ==> Erase(o.kids[i]) == vs[i]
    ensures Erase(o) == if o.isList then Arr(vs) else Rec(vs)
  {
    assert Kids(Erase(o)) == vs;
  }

  lemma {:induction false} ParsedElem(e: Format, segments: seq<string>, c: Context, i: nat)
    requires ParseElems(e, segments, c).Some? && i < |segments|
    ensures Parse(e, segments[i], c) == Some(ParseElems(e, segments, c).value[i])
    decreases |segments|
  {
    hide Parse;
    if i > 0 {
      ParsedElem(e, segments[1..], c, i - 1);
    }
  }

  /** The object built for a text is an object for the value the text denotes. */
  lemma {:induction false} MakeErases(texts: Texts, f: Format, s: string, home: Home, at: seq<nat>, list: Home)
    requires TextsOk(texts) && FormatOk(f) && Parse(f, s, Default).Some?
    ensures Erase(MakeAt(texts, f, s, home, at, list)) == Parse(f, s, Default).value
    decreases f, 1
  {
    hide Split, TextsOk, Erase, MemberOk;
    var o, v := MakeAt(texts, f, s, home, at, list), Parse(f, s, Default).value;
    match f
    case IntF(_) => ScalarErased(v);
    case BoolF => ScalarErased(v);
    case EnumF(_, _, _) => ScalarErased(v);
    case ArrayF(e, n) =>
      if s == "" {
        ListErases(texts, e, n, list);
      } else {
        var ss := Split(s).value;
        if |ss| == 1 {
          MakeErases(texts, e, ss[0], home, at + [0], LooseList(e));
          KidsErased(o, v.elems);
        } else {
          forall i | 0 <= i < n ensures Erase(o.kids[i]) == v.elems[i] {
            ParsedElem(e, ss, Default, i);
            MakeErases(texts, e, ss[i], home, at + [i], LooseList(e));
          }
          KidsErased(o, v.elems);
        }
      }
    case StructF(_, ms) =>
      var ss := Split(s).value;
      if ss == [] || ss == [""] {
        forall k | 0 <= k < |ms| ensures Erase(o.kids[k]) == ms[k].deflt { MemberErases(texts, f, k); }
        KidsErased(o, v.fields);
      } else {
        forall k | 0 <= k < |ms| ensures Erase(o.kids[k]) == v.fields[k] {
          FieldParsed(ms, ss, Default, k);
          MemberFormatOk(f, k);
          MakeErases(texts, ms[k].format, ss[k], home, at + [k], ListHome(f, k));
        }
        KidsErased(o, v.fields);
      }
  }

  lemma ScalarErased(v: Value)
    ensures Erase(Scalar(v)) == v
  {}

  lemma MemberFormatOk(s: Format, k: nat)
    requires s.StructF? && FormatOk(s) && k < |s.members|
    ensures FormatOk(s.members[k].format)
  {
    assert MemberOk(s.members[k]);
  }

  lemma {:induction false} MemberErases(texts: Texts, s: Format, k: nat)
    requires TextsOk(texts) && s.StructF? && FormatOk(s) && k < |s.members|
    ensures Erase(MemberObject(texts, s, k)) == s.members[k].deflt
    decreases s, 0
  {
    MemberFormatOk(s, k);
    MakeErases(texts, s.members[k].format, texts(s, k), MemberHome(s, k), [], ListHome(s, k));
  }

  lemma {:induction false} ListErases(texts: Texts, e: Format, n: nat, list: Home)
    requires TextsOk(texts) && FormatOk(e) && !e.ArrayF?
    ensures Erase(ListObject(texts, e, n, list)) == Implicit(ArrayF(e, n), Default)
    decreases e, 2
  {
    FormatErases(texts, e);
    KidsErased(ListObject(texts, e, n, list), seq(n, _ => Implicit(e, Default)));
  }

  lemma {:induction false} FormatErases(texts: Texts, e: Format)
    requires TextsOk(texts) && FormatOk(e) && !e.ArrayF?
    ensures Erase(FormatObject(texts, e)) == Implicit(e, Default)
    decreases e, 1
  {
    if e.StructF? {
      var o := FormatObject(texts, e);
      forall k | 0 <= k < |e.members| ensures Erase(o.kids[k]) == e.members[k].deflt { MemberErases(texts, e, k); }
      KidsErased(o, Implicit(e, Default).fields);
    }
  }

  // ------------------------------------------------------- one identity is one object

  /** The object a home stands for; here is the value being built. */
  function Root(texts: Texts, here: Obj, h: Home): Obj {
    match h
    case Here => here
    case MemberHome(s, k) => if s.StructF? && k < |s.members| then MemberObject(texts, s, k) else here
    case StructHome(s) => FormatObject(texts, s)
    case ListHome(s, k) =>
      if s.StructF? && k < |s.members| && s.members[k].format.ArrayF?
      then ListObject(texts, s.members[k].format.elem, s.members[k].format.count, h) else here
    case LooseList(f) => if f.ArrayF? then ListObject(texts, f.elem, f.count, h) else here
  }

  /** A container is what is found in its home's object at the place where it was made. */
  predicate Canonical(texts: Texts, here: Obj, n: Obj) {
    n.Node? ==> n.id.New? && ObjAt(Root(texts, here, n.id.home), n.id.at) == Some(n)
  }

  /** list is the home of the default list of f. */
  predicate OwnsList(list: Home, f: Format) {
    f.ArrayF? ==>
      || list == LooseList(f)
      || (list.ListHome? && list.s.StructF? && list.k < |list.s.members| && list.s.members[list.k].format == f)
  }

  lemma ChildAt(root: Obj, at: seq<nat>, o: Obj, i: nat)
    requires ObjAt(root, at) == Some(o) && o.Node? && i < |o.kids|
    ensures ObjAt(root, at + [i]) == Some(o.kids[i])
  {
    ObjAtAppend(root, at, [i]);
    assert [i][1..] == [];
  }

  /** Every container of a built object is canonical. */
  lemma {:induction false} MakeCanonical(texts: Texts, here: Obj, f: Format, s: string, home: Home, at: seq<nat>,
                                         list: Home, q: seq<nat>)
    requires FormatOk(f) && OwnsList(list, f)
    requires ObjAt(Root(texts, here, home), at) == Some(MakeAt(texts, f, s, home, at, list))
    requires ObjAt(MakeAt(texts, f, s, home, at, list), q).Some?
    ensures Canonical(texts, here, ObjAt(MakeAt(texts, f, s, home, at, list), q).value)
    decreases f, 1
  {
    hide Split, Root, Parse;
    var o := MakeAt(texts, f, s, home, at, list);
    if f.ArrayF? && s == "" {
      ListRoot(texts, here, f, list);
      if q != [] {
        FormatCanonical(texts, here, f.elem, q[1..]);
      }
    } else if f.ArrayF? && q != [] {
      var ss := Split(s).value;
      if |ss| == 1 {
        ChildAt(Root(texts, here, home), at, o, 0);
        MakeCanonical(texts, here, f.elem, ss[0], home, at + [0], LooseList(f.elem), q[1..]);
      } else {
        ChildAt(Root(texts, here, home), at, o, q[0]);
        MakeCanonical(texts, here, f.elem, ss[q[0]], home, at + [q[0]], LooseList(f.elem), q[1..]);
      }
    } else if f.StructF? && q != [] {
      var ss := Split(s).value;
      if ss == [] || ss == [""] {
        MemberCanonical(texts, here, f, q[0], q[1..]);
      } else {
        MemberFormatOk(f, q[0]);
        ChildAt(Root(texts, here, home), at, o, q[0]);
        MakeCanonical(texts, here, f.members[q[0]].format, ss[q[0]], home, at + [q[0]], ListHome(f, q[0]), q[1..]);
      }
    }
  }

  lemma ListRoot(texts: Texts, here: Obj, f: Format, list: Home)
    requires f.ArrayF? && OwnsList(list, f)
    ensures Root(texts, here, list) == ListObject(texts, f.elem, f.count, list)
  {
    hide ListObject, FormatObject;
  }

  lemma {:induction false} MemberCanonical(texts: Texts, here: Obj, s: Format, k: nat, q: seq<nat>)
    requires s.StructF? && FormatOk(s) && k < |s.members| && ObjAt(MemberObject(texts, s, k), q).Some?
    ensures Canonical(texts, here, ObjAt(MemberObject(texts, s, k), q).value)
    decreases s, 0
  {
    hide Canonical;
    MemberFormatOk(s, k);
    MakeCanonical(texts, here, s.members[k].format, texts(s, k), MemberHome(s, k), [], ListHome(s, k), q);
  }

  lemma {:induction false} FormatCanonical(texts: Texts, here: Obj, e: Format, q: seq<nat>)
    requires FormatOk(e) && ObjAt(FormatObject(texts, e), q).Some?
    ensures Canonical(texts, here, ObjAt(FormatObject(texts, e), q).value)
    decreases e, 1
  {
    if e.StructF? && q != [] {
      MemberCanonical(texts, here, e, q[0], q[1..]);
    }
  }

  /** So one identity is one object, whatever the parser has shared. */
  lemma MakeConsistent(texts: Texts, f: Format, s: string)
    requires FormatOk(f)
    ensures Consistent(Parser(texts)(f, s))
  {
    hide MakeAt, ObjAt, Root;
    var o := Parser(texts)(f, s);
    assert Root(texts, o, Here) == o && ObjAt(o, []) == Some(o) by { RootHere(texts, o); }
    forall p, q, id | IsNodeAt(o, p, id) && IsNodeAt(o, q, id) ensures ObjAt(o, p) == ObjAt(o, q) {
      MakeCanonical(texts, o, f, s, Here, [], LooseList(f), p);
      MakeCanonical(texts, o, f, s, Here, [], LooseList(f), q);
    }
  }

  lemma RootHere(texts: Texts, o: Obj)
    ensures Root(texts, o, Here) == o && ObjAt(o, []) == Some(o)
  {}

  // ---------------------------------------------------------- one format per container

  /** The format of a home's object. */
  function HomeFormat(f: Format, h: Home): Format {
    match h
    case Here => f
    case MemberHome(s, k) => if s.StructF? && k < |s.members| then s.members[k].format else f
    case StructHome(s) => s
    case ListHome(s, k) => if s.StructF? && k < |s.members| then s.members[k].format else f
    case LooseList(g) => g
  }

  /** The format of a container: its home's, at the place where it was made. */
  function IdFormat(f: Format, id: Id): Format {
    if id.New? && FormatAt(HomeFormat(f, id.home), id.at).Some?
    then FormatAt(HomeFormat(f, id.home), id.at).value else f
  }

  function Ids(o: Obj): set<Id> {
    match o
    case Scalar(_) => {}
    case Node(id, _, kids) => {id} + set i, k | 0 <= i < |kids| && k in Ids(kids[i]) :: k
  }

  /** Every container of the object has the format of its identity. */
  predicate Fits(ts: Typing, f: Format, o: Obj) {
    forall id <- Ids(o) :: id in ts && ts[id] == IdFormat(f, id)
  }

  lemma KidFits(ts: Typing, f: Format, o: Obj, i: nat)
    requires Fits(ts, f, o) && o.Node? && i < |o.kids|
    ensures Fits(ts, f, o.kids[i])
  {
    hide IdFormat;
    forall id | id in Ids(o.kids[i]) ensures id in Ids(o) {}
  }

  lemma RootFits(ts: Typing, f: Format, o: Obj)
    requires Fits(ts, f, o) && o.Node?
    ensures o.id in ts && ts[o.id] == IdFormat(f, o.id)
  {
    hide IdFormat;
    assert o.id in Ids(o);
  }

  lemma {:induction false} FormatAtChild(g: Format, at: seq<nat>, f: Format, i: nat)
    requires FormatAt(g, at) == Some(f) && i < Arity(f)
    ensures FormatAt(g, at + [i]) == Some(KidFormat(f, i))
    decreases |at|
  {
    if at == [] {
      assert at + [i] == [i] && [i][1..] == [];
    } else {
      assert (at + [i])[1..] == at[1..] + [i];
      FormatAtChild(KidFormat(g, at[0]), at[1..], f, i);
    }
  }

  lemma NodeTyped(ts: Typing, f: Format, o: Obj)
    requires o.Node? && o.id in ts && ts[o.id] == f && (f.ArrayF? || f.StructF?) && o.isList == f.ArrayF?
    requires |o.kids| == Arity(f) && forall i :: 0 <= i < |o.kids| ==> Typed(ts, KidFormat(f, i), o.kids[i])
    ensures Typed(ts, f, o)
  {}

  /** A built object has the format it was built for; g is the format of the whole value. */
  lemma {:induction false} MakeTyped(texts: Texts, ts: Typing, g: Format, f: Format, s: string, home: Home,
                                     at: seq<nat>, list: Home)
    requires TextsOk(texts) && FormatOk(f) && Parse(f, s, Default).Some? && (f.ArrayF? ==> HomeFormat(g, list) == f)
    requires FormatAt(HomeFormat(g, home), at) == Some(f) && Fits(ts, g, MakeAt(texts, f, s, home, at, list))
    ensures Typed(ts, f, MakeAt(texts, f, s, home, at, list))
    decreases f, 2
  {
    match f
    case IntF(_) => ScalarTyped(ts, f, s);
    case BoolF => ScalarTyped(ts, f, s);
    case EnumF(_, _, _) => ScalarTyped(ts, f, s);
    case ArrayF(_, _) => ArrayTyped(texts, ts, g, f, s, home, at, list);
    case StructF(_, _) => StructTyped(texts, ts, g, f, s, home, at, list);
  }

  lemma {:induction false} ArrayTyped(texts: Texts, ts: Typing, g: Format, f: Format, s: string, home: Home,
                                      at: seq<nat>, list: Home)
    requires TextsOk(texts) && f.ArrayF? && FormatOk(f) && Parse(f, s, Default).Some? && HomeFormat(g, list) == f
    requires FormatAt(HomeFormat(g, home), at) == Some(f) && Fits(ts, g, MakeAt(texts, f, s, home, at, list))
    ensures Typed(ts, f, MakeAt(texts, f, s, home, at, list))
    decreases f, 1
  {
    hide Split, TextsOk, Typed, Fits, MemberOk, FormatAt, HomeFormat;
    var e, o := f.elem, MakeAt(texts, f, s, home, at, list);
    RootFits(ts, g, o);
    if s == "" {
      FormatAtRoot(f);
      if f.count > 0 {
        KidFits(ts, g, o, 0);
        FormatTyped(texts, ts, g, e);
      }
    } else {
      var ss := Split(s).value;
      forall i | 0 <= i < f.count ensures Typed(ts, e, o.kids[i]) {
        var made := if |ss| == 1 then 0 else i;
        KidFits(ts, g, o, i);
        FormatAtChild(HomeFormat(g, home), at, f, made);
        if |ss| != 1 {
          ParsedElem(e, ss, Default, i);
        }
        MakeTyped(texts, ts, g, e, ss[made], home, at + [made], LooseList(e));
      }
    }
    NodeTyped(ts, f, o);
  }

  lemma {:induction false} StructTyped(texts: Texts, ts: Typing, g: Format, f: Format, s: string, home: Home,
                                       at: seq<nat>, list: Home)
    requires TextsOk(texts) && f.StructF? && FormatOk(f) && Parse(f, s, Default).Some?
    requires FormatAt(HomeFormat(g, home), at) == Some(f) && Fits(ts, g, MakeAt(texts, f, s, home, at, list))
    ensures Typed(ts, f, MakeAt(texts, f, s, home, at, list))
    decreases f, 1
  {
    hide Split, TextsOk, Typed, Fits, MemberOk, FormatAt, HomeFormat;
    var ms, o, ss := f.members, MakeAt(texts, f, s, home, at, list), Split(s).value;
    RootFits(ts, g, o);
    forall k | 0 <= k < |ms| ensures Typed(ts, ms[k].format, o.kids[k]) {
      KidFits(ts, g, o, k);
      if ss == [] || ss == [""] {
        MemberTyped(texts, ts, g, f, k);
      } else {
        FormatAtChild(HomeFormat(g, home), at, f, k);
        FieldParsed(ms, ss, Default, k);
        MemberFormatOk(f, k);
        ListHomeFormat(g, f, k);
        MakeTyped(texts, ts, g, ms[k].format, ss[k], home, at + [k], ListHome(f, k));
      }
    }
    NodeTyped(ts, f, o);
  }

  lemma FormatAtRoot(f: Format)
    ensures FormatAt(f, []) == Some(f)
  {}

  lemma ListHomeFormat(g: Format, s: Format, k: nat)
    requires s.StructF? && k < |s.members|
    ensures HomeFormat(g, ListHome(s, k)) == HomeFormat(g, MemberHome(s, k)) == s.members[k].format
  {}

  lemma ScalarTyped(ts: Typing, f: Format, s: string)
    requires FormatOk(f) && !f.ArrayF? && !f.StructF? && Parse(f, s, Default).Some?
    ensures Typed(ts, f, Scalar(Parse(f, s, Default).value))
  {
    ParseShaped(f, s, Default);
  }

  lemma {:induction false} MemberTyped(texts: Texts, ts: Typing, g: Format, s: Format, k: nat)
    requires TextsOk(texts) && s.StructF? && FormatOk(s) && k < |s.members| && Fits(ts, g, MemberObject(texts, s, k))
    ensures Typed(ts, s.members[k].format, MemberObject(texts, s, k))
    decreases s, 0
  {
    hide FormatAt, HomeFormat, Fits;
    MemberFormatOk(s, k);
    ListHomeFormat(g, s, k);
    FormatAtRoot(s.members[k].format);
    MakeTyped(texts, ts, g, s.members[k].format, texts(s, k), MemberHome(s, k), [], ListHome(s, k));
  }

  lemma {:induction false} FormatTyped(texts: Texts, ts: Typing, g: Format, e: Format)
    requires TextsOk(texts) && FormatOk(e) && !e.ArrayF? && Fits(ts, g, FormatObject(texts, e))
    ensures Typed(ts, e, FormatObject(texts, e))
    decreases e, 1
  {
    hide Typed, Fits, TextsOk;
    var o := FormatObject(texts, e);
    if e.StructF? {
      RootFits(ts, g, o);
      forall k | 0 <= k < |e.members| ensures Typed(ts, e.members[k].format, o.kids[k]) {
        KidFits(ts, g, o, k);
        MemberTyped(texts, ts, g, e, k);
      }
      NodeTyped(ts, e, o);
    } else {
      ImplicitTyped(ts, e);
    }
  }

  lemma ImplicitTyped(ts: Typing, e: Format)
    requires FormatOk(e) && !e.ArrayF? && !e.StructF?
    ensures Typed(ts, e, Scalar(Implicit(e, Default)))
  {
    ImplicitShaped(e);
  }

  // ----------------------------------------------------------------- the main results

  /** Every accepted text gives a sound object for its value: the parser is a maker as ToolsOk asks. */
  lemma ParserMakerOk(texts: Texts)
    requires TextsOk(texts)
    ensures MakerOk(Parser(texts))
  {
    hide Parse, MakeAt, TextsOk, Erase, Typed, Consistent, Fits;
    forall f, s | FormatOk(f) && Parse(f, s, Default).Some?
      ensures Sound(f, Parser(texts)(f, s)) && Erase(Parser(texts)(f, s)) == Parse(f, s, Default).value
    {
      var o := Parser(texts)(f, s);
      MakeErases(texts, f, s, Here, [], LooseList(f));
      MakeConsistent(texts, f, s);
      var ts: Typing := map id | id in Ids(o) :: IdFormat(f, id);
      assert Fits(ts, f, o) by { AllFit(ts, f, o); }
      FormatAtRoot(f);
      MakeTyped(texts, ts, f, f, s, Here, [], LooseList(f));
    }
  }

  lemma AllFit(ts: Typing, f: Format, o: Obj)
    requires ts == map id | id in Ids(o) :: IdFormat(f, id)
    ensures Fits(ts, f, o)
  {}

  lemma CopySound(f: Format, o: Obj)
    requires Sound(f, o)
    ensures Sound(f, Copy(0, o))
  {
    hide Typed, Consistent, Copy;
    CopyConsistent(0, o);
    var a :| Typed(a, f, o);
    var ts := BothTyped(a, a);
    CopyTyped(0, a, ts, f, o);
  }

  /** The tools of a schema: each knob's default is a deep copy of what its default text gives. */
  function ParserTools(knobs: seq<Knob>, texts: Texts, given: seq<string>): Tools
    requires |given| == |knobs|
  {
    var make := Parser(texts);
    Tools(knobs, seq(|knobs|, i requires 0 <= i < |knobs| => Copy(0, make(knobs[i].decl.format, given[i]))), make)
  }

  lemma ParserToolsOk(knobs: seq<Knob>, texts: Texts, given: seq<string>)
    requires KnobsOk(knobs) && TextsOk(texts) && |given| == |knobs|
    requires forall i :: 0 <= i < |knobs| ==>
               Parse(knobs[i].decl.format, given[i], Default) == Some(knobs[i].decl.deflt)
    ensures ToolsOk(ParserTools(knobs, texts, given))
  {
    hide Parse, Parser, Copy, Erase, Sound, TextsOk;
    ParserMakerOk(texts);
    forall i | 0 <= i < |knobs|
      ensures var f, o := knobs[i].decl.format, ParserTools(knobs, texts, given).deflts[i];
              Sound(f, o) && Erase(o) == knobs[i].decl.deflt
    {
      assert KnobOk(knobs[i]);
      var made := Parser(texts)(knobs[i].decl.format, given[i]);
      CopySound(knobs[i].decl.format, made);
      CopyErases(0, made);
    }
  }

  /** Every reachable state of tools that parse as the code does is sound and in bounds. */
  lemma ParserReachable(knobs: seq<Knob>, texts: Texts, given: seq<string>, actions: seq<Action>)
    requires KnobsOk(knobs) && TextsOk(texts) && |given| == |knobs|
    requires forall i :: 0 <= i < |knobs| ==>
               Parse(knobs[i].decl.format, given[i], Default) == Some(knobs[i].decl.deflt)
    ensures var y := ParserTools(knobs, texts, given);
            ObjectsOk(y, Reached(y, actions)) && StateOk(knobs, Trees(Reached(y, actions)))
  {
    hide Parse, Parser, TextsOk, KnobsOk, ToolsOk, Reached;
    var y := ParserTools(knobs, texts, given);
    ParserToolsOk(knobs, texts, given);
    ReachableOk(y, actions);
    assert y.knobs == knobs;
  }

  /** {} and the empty text: a struct built for it takes over its members' default objects. */
  predicate EmptyText(s: string) {
    Split(s) == Some([]) || Split(s) == Some([""])
  }

  lemma MemberMade(texts: Texts, s: Format, k: nat)
    requires TextsOk(texts) && FormatOk(s) && s.StructF? && k < |s.members| && s.members[k].format.StructF?
    ensures MemberObject(texts, s, k).Node? && MemberObject(texts, s, k).id == New(MemberHome(s, k), [])
  {
    hide Split;
    var m, t := s.members[k], texts(s, k);
    assert Parse(m.format, t, Default) == Some(m.deflt);
    assert MemberObject(texts, s, k) == MakeAt(texts, m.format, t, MemberHome(s, k), [], ListHome(s, k));
  }

  /** Where a built struct, and a struct inside it, were made. */
  lemma StructMade(texts: Texts, f: Format, s: string, home: Home, at: seq<nat>, list: Home, k: nat)
    requires TextsOk(texts) && FormatOk(f) && f.StructF? && Parse(f, s, Default).Some?
    requires k < |f.members| && f.members[k].format.StructF?
    ensures var o := MakeAt(texts, f, s, home, at, list);
            && o.Node? && o.id == New(home, at) && |o.kids| == |f.members|
            && o.kids[k].Node?
            && o.kids[k].id == if EmptyText(s) then New(MemberHome(f, k), []) else New(home, at + [k])
  {
    hide Split, MemberObject, TextsOk;
    if EmptyText(s) {
      MemberMade(texts, f, k);
    } else {
      FieldParsed(f.members, Split(s).value, Default, k);
    }
  }

  /** Every slot of the list built for this text holds one object. */
  predicate RepeatsElement(s: string) {
    s == "" || (Split(s).Some? && |Split(s).value| == 1)
  }

  /**
   Exactly what the parser shares in an array of structs: two slots hold one object if and only
   if the text is empty or names a single element, and two structs inside different elements are
   one object if and only if the elements are, or both were built from an empty text.
   */
  lemma ParserSharesIff(texts: Texts, f: Format, s: string, i: nat, j: nat, k: nat)
    requires TextsOk(texts) && FormatOk(f) && f.ArrayF? && f.elem.StructF? && Parse(f, s, Default).Some?
    requires i < f.count && j < f.count && i != j && k < |f.elem.members| && f.elem.members[k].format.StructF?
    ensures var o := Parser(texts)(f, s);
            && o.Node? && |o.kids| == f.count
            && o.kids[i].Node? && o.kids[j].Node? && |o.kids[i].kids| == |o.kids[j].kids| == |f.elem.members|
            && (o.kids[i].id == o.kids[j].id <==> RepeatsElement(s))
            && o.kids[i].kids[k].Node? && o.kids[j].kids[k].Node?
            && (o.kids[i].kids[k].id == o.kids[j].kids[k].id <==>
                RepeatsElement(s) || (EmptyText(Split(s).value[i]) && EmptyText(Split(s).value[j])))
  {
    hide Split, MakeAt, TextsOk, EmptyText;
    var e := f.elem;
    if s == "" {
      ListMade(texts, f, k);
    } else {
      var ss := Split(s).value;
      ArrayMade(texts, f, s);
      if |ss| == 1 {
        StructMade(texts, e, ss[0], Here, [0], LooseList(e), k);
      } else {
        ParsedElem(e, ss, Default, i);
        ParsedElem(e, ss, Default, j);
        StructMade(texts, e, ss[i], Here, [i], LooseList(e), k);
        StructMade(texts, e, ss[j], Here, [j], LooseList(e), k);
        assert [i][0] != [j][0] && ([i] + [k])[0] != ([j] + [k])[0];
      }
    }
  }

  lemma ArrayMade(texts: Texts, f: Format, s: string)
    requires f.ArrayF? && s != "" && Parse(f, s, Default).Some?
    ensures var o, ss := Parser(texts)(f, s), Split(s).value;
            && o.Node? && |o.kids| == f.count && (|ss| == 1 || |ss| == f.count)
            && forall i | 0 <= i < f.count ::
                 var made := if |ss| == 1 then 0 else i;
                 o.kids[i] == MakeAt(texts, f.elem, ss[made], Here, [made], LooseList(f.elem))
  {
    hide Split;
    forall i: nat ensures [] + [i] == [i] {}
  }

  lemma ListMade(texts: Texts, f: Format, k: nat)
    requires TextsOk(texts) && FormatOk(f) && f.ArrayF? && f.elem.StructF?
    requires k < |f.elem.members| && f.elem.members[k].format.StructF?
    ensures var o := Parser(texts)(f, "");
            && o.Node? && |o.kids| == f.count
            && (forall i | 0 <= i < f.count :: o.kids[i] == FormatObject(texts, f.elem))
            && |FormatObject(texts, f.elem).kids| == |f.elem.members| && FormatObject(texts, f.elem).kids[k].Node?
  {
    hide Split, TextsOk, MemberObject;
    MemberMade(texts, f.elem, k);
    assert Parser(texts)(f, "") == ListObject(texts, f.elem, f.count, LooseList(f));
    assert FormatObject(texts, f.elem).kids[k] == MemberObject(texts, f.elem, k);
  }

  // ------------------------------------------------------------ every default has a text

  /** A text for a value: enum values by number. */
  function PlainText(f: Format, v: Value): string
    requires Shaped(f, v)
  {
    match f
    case BoolF => if v.b then "true" else "false"
    case ArrayF(e, n) => Braces(seq(n, i requires 0 <= i < n => PlainText(e, v.elems[i])))
    case StructF(_, ms) => Braces(seq(|ms|, i requires 0 <= i < |ms| => PlainText(ms[i].format, v.fields[i])))
    case _ => PrintInt(v.n)
  }

  lemma {:induction false} PlainTextParses(f: Format, v: Value)
    requires Shaped(f, v)
    ensures IsSegment(PlainText(f, v)) && Parse(f, PlainText(f, v), Default) == Some(v)
    decreases f
  {
    hide Split, Braces, IsSegment, ParseInt, PrintInt, Lower, Strip;
    match f
    case BoolF => BoolRoundTrip(v.b);
    case ArrayF(e, n) =>
      var parts := seq(n, i requires 0 <= i < n => PlainText(e, v.elems[i]));
      forall i | 0 <= i < n ensures IsSegment(parts[i]) && Parse(e, parts[i], Default) == Some(v.elems[i]) {
        PlainTextParses(e, v.elems[i]);
      }
      ArrayParses(f, parts, v.elems, Default);
    case StructF(_, ms) =>
      var parts := seq(|ms|, i requires 0 <= i < |ms| => PlainText(ms[i].format, v.fields[i]));
      forall i | 0 <= i < |ms|
        ensures IsSegment(parts[i]) && Parse(ms[i].format, parts[i], Default) == Some(v.fields[i])
      {
        PlainTextParses(ms[i].format, v.fields[i]);
      }
      if parts != [] {
        SegmentNotEmpty(parts[0]);
      }
      StructParses(f, parts, v.fields, Default);
    case _ =>
      PrintIntRoundTrip(v.n, true);
      PrintIntRoundTrip(v.n, false);
      PrintIntSegment(v.n);
  }

  function PlainDefaults(s: Format, k: nat): string {
    if s.StructF? && k < |s.members| && Shaped(s.members[k].format, s.members[k].deflt)
    then PlainText(s.members[k].format, s.members[k].deflt) else ""
  }

  /** Every member default has some text, so there is a parser for every schema. */
  lemma PlainDefaultsOk()
    ensures TextsOk(PlainDefaults)
  {
    hide PlainText, Parse;
    forall s: Format, k: nat | s.StructF? && FormatOk(s) && k < |s.members|
      ensures Parse(s.members[k].format, PlainDefaults(s, k), Default) == Some(s.members[k].deflt)
    {
      assert MemberOk(s.members[k]);
      PlainTextParses(s.members[k].format, s.members[k].deflt);
    }
  }
}
