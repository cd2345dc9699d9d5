/**
 xml_merge_root: merging configuration XML files section by section. The merge raises on a
 conflicting value, and its outcome does not depend on the order of the files.
 */
module XmlMerge {
  import opened Bytes

  /** A Value, Member or Knob element: its name and its value, default or type attribute. */
  datatype Child = Child(name: string, value: Option<string>)

  /** An Enum or Struct element. */
  datatype Elem = Elem(name: string, children: seq<Child>)

  datatype Doc = Doc(enums: Option<seq<Elem>>, structs: Option<seq<Elem>>, knobs: Option<seq<Child>>)

  /** An attribute that is missing and one that is empty both count as no value. */
  function Norm(v: Option<string>): string {
    if v.Some? then v.value else ""
  }

  // ---------------------------------------------------------------- merging children

  /** The dictionary of the inner merge: the last child of the name among the first n. */
  function IndexOf(cs: seq<Child>, n: nat, key: string): (r: Option<nat>)
    requires n <= |cs|
    ensures r.Some? ==> r.value < n && cs[r.value].name == key
    ensures r.None? ==> forall i :: 0 <= i < n ==> cs[i].name != key
  {
    if n == 0 then None else if cs[n - 1].name == key then Some(n - 1) else IndexOf(cs, n - 1, key)
  }

  /** One child of the added parent against the first n children of the base; None is the conflict error. */
  function MergeChild(cs: seq<Child>, n: nat, add: Child, fill: bool): (r: Option<seq<Child>>)
    requires n <= |cs|
    ensures r.Some? ==> |cs| <= |r.value|
  {
    if add.name == "" then Some(cs)
    else
      var i := IndexOf(cs, n, add.name);
      if i.None? then Some(cs + [add])
      else
        var was := cs[i.value].value;
        if was == add.value then Some(cs)
        else if Norm(was) != "" && Norm(add.value) != "" then None
        else if fill && Norm(add.value) != "" then Some(cs[i.value := cs[i.value].(value := add.value)])
        else Some(cs)
  }

  function MergeFrom(cs: seq<Child>, n: nat, adds: seq<Child>, fill: bool): Option<seq<Child>>
    requires n <= |cs|
    decreases |adds|
  {
    if adds == [] then Some(cs)
    else
      var r := MergeChild(cs, n, adds[0], fill);
      if r.None? then None else MergeFrom(r.value, n, adds[1..], fill)
  }

  /** merge_elements_with_key_and_value */
  function MergeChildren(base: seq<Child>, adds: seq<Child>, fill: bool): Option<seq<Child>> {
    MergeFrom(base, |base|, adds, fill)
  }

  /** Its loop, appending to the base and filling values in place. */
  method MergeElements(base: seq<Child>, adds: seq<Child>, fill: bool) returns (r: Option<seq<Child>>)
    ensures r == MergeChildren(base, adds, fill)
  {
    var cs := base;
    for i := 0 to |adds|
      invariant |base| <= |cs| && MergeChildren(base, adds, fill) == MergeFrom(cs, |base|, adds[i..], fill)
    {
      var add := adds[i];
      assert adds[i..][1..] == adds[i + 1..];
      if add.name == "" {
        continue;
      }
      var at := IndexOf(cs, |base|, add.name);
      if at.Some? {
        var was := cs[at.value].value;
        if was != add.value {
          if Norm(was) != "" && Norm(add.value) != "" {
            return None;
          } else if fill && Norm(add.value) != "" && Norm(was) == "" {
            cs := cs[at.value := cs[at.value].(value := add.value)];
          }
        }
      } else {
        cs := cs + [add];
      }
    }
    return Some(cs);
  }

  /** The children that have a name. */
  function NamedOnly(adds: seq<Child>): seq<Child> {
    if adds == [] then [] else (if adds[0].name == "" then [] else [adds[0]]) + NamedOnly(adds[1..])
  }

  /** A child without a name is left out. */
  lemma {:induction false} UnnamedLeftOut(cs: seq<Child>, n: nat, adds: seq<Child>, fill: bool)
    requires n <= |cs|
    ensures MergeFrom(cs, n, adds, fill) == MergeFrom(cs, n, NamedOnly(adds), fill)
    decreases |adds|
  {
    hide IndexOf, Norm;
    if adds != [] {
      var r := MergeChild(cs, n, adds[0], fill);
      if adds[0].name == "" {
        assert [] + NamedOnly(adds[1..]) == NamedOnly(adds[1..]);
        UnnamedLeftOut(cs, n, adds[1..], fill);
      } else {
        assert NamedOnly(adds)[0] == adds[0] && NamedOnly(adds)[1..] == NamedOnly(adds[1..]);
        if r.Some? {
          UnnamedLeftOut(r.value, n, adds[1..], fill);
        }
      }
    }
  }

  /** Children whose names the base does not have are appended as they are, also where a name is repeated among them. */
  lemma {:induction false} NewAppended(base: seq<Child>, before: seq<Child>, adds: seq<Child>, fill: bool)
    requires forall c <- adds :: c.name != "" && forall b <- base :: b.name != c.name
    ensures MergeFrom(base + before, |base|, adds, fill) == Some(base + before + adds)
    decreases |adds|
  {
    hide IndexOf, Norm;
    if adds == [] {
      assert base + before + adds == base + before;
    } else {
      var c, cs := adds[0], base + before;
      assert c in adds && forall d <- adds[1..] :: d in adds;
      assert forall j :: 0 <= j < |base| ==> cs[j] == base[j] && base[j] in base;
      NewAppended(base, before + [c], adds[1..], fill);
      assert base + (before + [c]) == cs + [c] && base + (before + [c]) + adds[1..] == base + before + adds;
    }
  }

  /** What is known about one key: nothing, or its value (empty if it has none). */
  function Look(cs: seq<Child>, key: string): Option<string> {
    var i := IndexOf(cs, |cs|, key);
    if i.None? then None else Some(Norm(cs[i.value].value))
  }

  predicate Unique(cs: seq<Child>) {
    (forall i :: 0 <= i < |cs| ==> cs[i].name != "")
    && forall i, j :: 0 <= i < j < |cs| ==> cs[i].name != cs[j].name
  }

  predicate Agree(a: Option<string>, b: Option<string>) {
    a.Some? && b.Some? && a.value != "" && b.value != "" ==> a == b
  }

  /** What is known after merging: the first side's word; an empty one gives way only where values are filled in. */
  function Keep(a: Option<string>, b: Option<string>, fill: bool): Option<string> {
    if a.None? then b else if fill && a.value == "" && b.Some? then b else a
  }

  lemma LookAt(cs: seq<Child>, i: nat)
    requires Unique(cs) && i < |cs|
    ensures Look(cs, cs[i].name) == Some(Norm(cs[i].value))
  {
    var r := IndexOf(cs, |cs|, cs[i].name);
    assert r.Some? && r.value == i;
  }

  lemma LookNone(cs: seq<Child>, key: string)
    ensures Look(cs, key).None? <==> forall i :: 0 <= i < |cs| ==> cs[i].name != key
  {}

  /** One child that is new: appended, and looked up from then on. */
  lemma AppendChild(cs: seq<Child>, add: Child)
    requires Unique(cs) && add.name != "" && Look(cs, add.name).None?
    ensures Unique(cs + [add])
    ensures Look(cs + [add], add.name) == Some(Norm(add.value))
    ensures forall key :: key != add.name ==> Look(cs + [add], key) == Look(cs, key)
  {
    LookNone(cs, add.name);
    var r := cs + [add];
    LookAt(r, |cs|);
    forall key | key != add.name ensures Look(r, key) == Look(cs, key) {
      var i := IndexOf(cs, |cs|, key);
      if i.Some? {
        assert r[i.value] == cs[i.value];
        LookAt(r, i.value);
      } else {
        LookNone(r, key);
      }
    }
  }

  /** Replacing the value of one child changes what is known about its key only. */
  lemma UpdateChild(cs: seq<Child>, i: nat, v: Option<string>)
    requires Unique(cs) && i < |cs|
    ensures var r := cs[i := cs[i].(value := v)];
            && Unique(r) && Look(r, cs[i].name) == Some(Norm(v))
            && forall key :: key != cs[i].name ==> Look(r, key) == Look(cs, key)
  {
    var r := cs[i := cs[i].(value := v)];
    assert forall j :: 0 <= j < |cs| ==> r[j].name == cs[j].name;
    LookAt(r, i);
    forall key | key != cs[i].name ensures Look(r, key) == Look(cs, key) {
      var j := IndexOf(cs, |cs|, key);
      if j.Some? {
        LookAt(r, j.value);
      } else {
        LookNone(r, key);
      }
    }
  }

  /** One child, merged: a conflict exactly when the two sources disagree about its key. */
  lemma MergeChildExact(cs: seq<Child>, n: nat, add: Child, fill: bool)
    requires n <= |cs| && Unique(cs) && add.name != ""
    requires forall i :: n <= i < |cs| ==> cs[i].name != add.name
    ensures var r := MergeChild(cs, n, add, fill);
            && (r.Some? <==> Agree(Look(cs, add.name), Some(Norm(add.value))))
            && (r.Some? ==>
                  && Unique(r.value)
                  && Look(r.value, add.name) == Keep(Look(cs, add.name), Some(Norm(add.value)), fill)
                  && (forall key :: key != add.name ==> Look(r.value, key) == Look(cs, key))
                  && (forall i :: n <= i < |r.value| ==>
                         r.value[i].name == add.name || (i < |cs| && r.value[i].name == cs[i].name)))
  {
    hide Look;
    var i := IndexOf(cs, n, add.name);
    if i.None? {
      LookNone(cs, add.name);
      AppendChild(cs, add);
    } else {
      LookAt(cs, i.value);
      UpdateChild(cs, i.value, add.value);
    }
  }

  lemma {:induction false} MergeFromExact(cs: seq<Child>, n: nat, adds: seq<Child>, fill: bool)
    requires n <= |cs| && Unique(cs) && Unique(adds)
    requires forall i, j :: n <= i < |cs| && 0 <= j < |adds| ==> cs[i].name != adds[j].name
    ensures var r := MergeFrom(cs, n, adds, fill);
            && (r.Some? <==> forall key :: Agree(Look(cs, key), Look(adds, key)))
            && (r.Some? ==>
                  && Unique(r.value)
                  && forall key :: Look(r.value, key) == Keep(Look(cs, key), Look(adds, key), fill))
    decreases |adds|
  {
    hide Look, MergeChild, IndexOf, Agree, Keep;
    if adds == [] {
      forall key ensures Look(adds, key) == None { LookNone(adds, key); }
      AgreeKeepNone();
    } else {
      var add, rest := adds[0], adds[1..];
      MergeChildExact(cs, n, add, fill);
      forall key ensures Look(adds, key) == if key == add.name then Some(Norm(add.value)) else Look(rest, key) {
        LookCons(adds, key);
      }
      LookNone(rest, add.name);
      AgreeKeepNone();
      var r := MergeChild(cs, n, add, fill);
      if r.Some? {
        MergeFromExact(r.value, n, rest, fill);
        assert forall key :: key != add.name ==> Look(r.value, key) == Look(cs, key);
      } else {
        assert !Agree(Look(cs, add.name), Look(adds, add.name));
      }
    }
  }

  lemma AgreeKeepNone()
    ensures forall a :: Agree(a, None) && Agree(None, a)
    ensures forall a, fill :: Keep(a, None, fill) == a && Keep(None, a, fill) == a
  {}

  lemma LookCons(adds: seq<Child>, key: string)
    requires Unique(adds) && adds != []
    ensures Look(adds, key) == if key == adds[0].name then Some(Norm(adds[0].value)) else Look(adds[1..], key)
    ensures Look(adds[1..], adds[0].name).None?
  {
    var rest := adds[1..];
    LookAt(adds, 0);
    LookNone(rest, adds[0].name);
    assert Unique(rest);
    if key != adds[0].name {
      var i := IndexOf(rest, |rest|, key);
      if i.Some? {
        assert adds[i.value + 1] == rest[i.value];
        LookAt(adds, i.value + 1);
      } else {
        assert forall j :: 0 < j < |adds| ==> adds[j] == rest[j - 1];
        LookNone(adds, key);
      }
    }
  }

  /**
   The inner merge, exactly: it raises iff two values disagree, and otherwise keeps the first
   side's word about every key, filled in from the second where that is allowed.
   */
  lemma MergeChildrenExact(base: seq<Child>, adds: seq<Child>, fill: bool)
    requires Unique(base) && Unique(adds)
    ensures var r := MergeChildren(base, adds, fill);
            && (r.Some? <==> forall key :: Agree(Look(base, key), Look(adds, key)))
            && (r.Some? ==>
                  && Unique(r.value)
                  && forall key :: Look(r.value, key) == Keep(Look(base, key), Look(adds, key), fill))
  {
    hide Look, Agree, Keep, MergeFrom;
    MergeFromExact(base, |base|, adds, fill);
  }

  /** Known to both sides, and empty on exactly one. */
  predicate Mixed(a: Option<string>, b: Option<string>) {
    a.Some? && b.Some? && (a.value == "") != (b.value == "")
  }

  /** In either order the first word is the same exactly when it is the only one or no side alone is empty. */
  lemma KeepOrder(a: Option<string>, b: Option<string>, fill: bool)
    ensures Agree(a, b) <==> Agree(b, a)
    ensures Agree(a, b) ==> (Keep(a, b, fill) == Keep(b, a, fill) <==> fill || !Mixed(a, b))
  {}

  /**
   Both orders of an inner merge raise together. They agree about every key if and only if
   they raise, or values are filled in, or no key is empty on exactly one side.
   */
  lemma MergeChildrenOrderIff(a: seq<Child>, b: seq<Child>, fill: bool)
    requires Unique(a) && Unique(b)
    ensures var r, s := MergeChildren(a, b, fill), MergeChildren(b, a, fill);
            && (r.Some? <==> s.Some?)
            && ((r.Some? ==> forall key :: Look(r.value, key) == Look(s.value, key)) <==>
                r.None? || fill || forall key :: !Mixed(Look(a, key), Look(b, key)))
  {
    hide Look, Agree, Keep, Mixed, MergeChildren;
    MergeChildrenExact(a, b, fill);
    MergeChildrenExact(b, a, fill);
    forall key
      ensures Agree(Look(a, key), Look(b, key)) <==> Agree(Look(b, key), Look(a, key))
      ensures Agree(Look(a, key), Look(b, key)) ==>
                (Keep(Look(a, key), Look(b, key), fill) == Keep(Look(b, key), Look(a, key), fill)
                 <==> fill || !Mixed(Look(a, key), Look(b, key)))
    {
      KeepOrder(Look(a, key), Look(b, key), fill);
    }
  }

  // ------------------------------------------------------- merging Enums and Structs

  function FindElem(sec: seq<Elem>, name: string): (r: Option<nat>)
    ensures r.Some? ==> r.value < |sec| && sec[r.value].name == name
    ensures r.None? ==> forall i :: 0 <= i < |sec| ==> sec[i].name != name
  {
    if sec == [] then None
    else if sec[0].name == name then Some(0)
    else var r := FindElem(sec[1..], name); if r.None? then None else Some(r.value + 1)
  }

  /** One added element: appended if it is new, else its children are merged. */
  function MergeElem(sec: seq<Elem>, add: Elem, fill: bool): Option<seq<Elem>> {
    if add.name == "" then Some(sec)
    else
      var i := FindElem(sec, add.name);
      if i.None? then Some(sec + [add])
      else
        var cs := MergeChildren(sec[i.value].children, add.children, fill);
        if cs.None? then None else Some(sec[i.value := sec[i.value].(children := cs.value)])
  }

  function MergeSection(sec: seq<Elem>, adds: seq<Elem>, fill: bool): Option<seq<Elem>>
    decreases |adds|
  {
    if adds == [] then Some(sec)
    else
      var r := MergeElem(sec, adds[0], fill);
      if r.None? then None else MergeSection(r.value, adds[1..], fill)
  }

  /** The loop over the elements of an added section. */
  method MergeElemSection(base: seq<Elem>, adds: seq<Elem>, fill: bool) returns (r: Option<seq<Elem>>)
    ensures r == MergeSection(base, adds, fill)
  {
    hide MergeChildren;
    var sec := base;
    for i := 0 to |adds|
      invariant MergeSection(base, adds, fill) == MergeSection(sec, adds[i..], fill)
    {
      var add := adds[i];
      assert adds[i..][1..] == adds[i + 1..];
      if add.name == "" {
        continue;
      }
      var at := FindElem(sec, add.name);
      if at.None? {
        sec := sec + [add];
      } else {
        var cs := MergeElements(sec[at.value].children, add.children, fill);
        if cs.None? {
          return None;
        }
        sec := sec[at.value := sec[at.value].(children := cs.value)];
      }
    }
    return Some(sec);
  }

  function LookIn(sec: seq<Elem>, name: string, key: string): Option<string> {
    var i := FindElem(sec, name);
    if i.None? then None else Look(sec[i.value].children, key)
  }

  /** Element names differ, and so do the child names inside each element. */
  predicate SectionOk(sec: seq<Elem>) {
    (forall i :: 0 <= i < |sec| ==> sec[i].name != "" && Unique(sec[i].children))
    && forall i, j :: 0 <= i < j < |sec| ==> sec[i].name != sec[j].name
  }

  lemma FindElemAt(sec: seq<Elem>, i: nat)
    requires SectionOk(sec) && i < |sec|
    ensures FindElem(sec, sec[i].name) == Some(i)
  {
    var r := FindElem(sec, sec[i].name);
    assert r.Some? && r.value == i;
  }

  lemma FindElemNone(sec: seq<Elem>, name: string)
    ensures FindElem(sec, name).None? <==> forall i :: 0 <= i < |sec| ==> sec[i].name != name
  {}

  /** A section with one element appended or replaced, looked up by name. */
  lemma WithElem(sec: seq<Elem>, e: Elem, r: seq<Elem>)
    requires SectionOk(sec) && e.name != "" && Unique(e.children)
    requires var i := FindElem(sec, e.name); r == if i.None? then sec + [e] else sec[i.value := e]
    ensures SectionOk(r)
    ensures forall key :: LookIn(r, e.name, key) == Look(e.children, key)
    ensures forall name, key :: name != e.name ==> LookIn(r, name, key) == LookIn(sec, name, key)
  {
    hide Look, Unique;
    var i := FindElem(sec, e.name);
    FindElemNone(sec, e.name);
    assert SectionOk(r);
    FindElemAt(r, if i.None? then |sec| else i.value);
    forall name, key | name != e.name ensures LookIn(r, name, key) == LookIn(sec, name, key) {
      var j := FindElem(sec, name);
      if j.Some? {
        assert r[j.value] == sec[j.value];
        FindElemAt(r, j.value);
      } else {
        FindElemNone(r, name);
      }
    }
  }

  /** What an added element says, as a section of its own would. */
  function LookElem(e: Elem, name: string, key: string): Option<string> {
    if name == e.name then Look(e.children, key) else None
  }

  lemma MergeElemExact(sec: seq<Elem>, add: Elem, fill: bool)
    requires SectionOk(sec) && SectionOk([add])
    ensures var r := MergeElem(sec, add, fill);
            && (r.Some? <==> forall name, key :: Agree(LookIn(sec, name, key), LookElem(add, name, key)))
            && (r.Some? ==>
                  && SectionOk(r.value)
                  && forall name, key ::
                        LookIn(r.value, name, key) == Keep(LookIn(sec, name, key), LookElem(add, name, key), fill))
  {
    hide Look, Unique, Agree, Keep, FindElem, MergeChildren;
    AgreeKeepNone();
    var e := [add][0];
    assert e.name != "" && Unique(e.children);
    var i := FindElem(sec, add.name);
    if i.None? {
      WithElem(sec, add, sec + [add]);
    } else {
      var was := sec[i.value];
      assert Unique(was.children);
      MergeChildrenExact(was.children, add.children, fill);
      assert forall key :: LookIn(sec, add.name, key) == Look(was.children, key);
      var cs := MergeChildren(was.children, add.children, fill);
      if cs.Some? {
        var e' := was.(children := cs.value);
        WithElem(sec, e', sec[i.value := e']);
      } else {
        var key :| !Agree(Look(was.children, key), Look(add.children, key));
        assert !Agree(LookIn(sec, add.name, key), LookElem(add, add.name, key));
      }
    }
  }

  lemma LookInCons(adds: seq<Elem>, name: string, key: string)
    requires SectionOk(adds) && adds != []
    ensures SectionOk([adds[0]]) && SectionOk(adds[1..])
    ensures LookIn(adds, name, key)
         == if name == adds[0].name then LookElem(adds[0], name, key) else LookIn(adds[1..], name, key)
    ensures LookIn(adds[1..], adds[0].name, key).None?
  {
    hide Look, Unique;
    var rest := adds[1..];
    FindElemAt(adds, 0);
    FindElemNone(rest, adds[0].name);
  }

  lemma {:induction false} MergeSectionExact(sec: seq<Elem>, adds: seq<Elem>, fill: bool)
    requires SectionOk(sec) && SectionOk(adds)
    ensures var r := MergeSection(sec, adds, fill);
            && (r.Some? <==> forall name, key :: Agree(LookIn(sec, name, key), LookIn(adds, name, key)))
            && (r.Some? ==>
                  && SectionOk(r.value)
                  && forall name, key ::
                        LookIn(r.value, name, key) == Keep(LookIn(sec, name, key), LookIn(adds, name, key), fill))
    decreases |adds|
  {
    hide LookIn, LookElem, MergeElem, SectionOk, Agree, Keep;
    AgreeKeepNone();
    if adds == [] {
      forall name, key ensures LookIn(adds, name, key) == None { LookInEmpty(name, key); }
    } else {
      var add, rest := adds[0], adds[1..];
      LookInCons(adds, "", "");
      MergeElemExact(sec, add, fill);
      forall name, key
        ensures LookIn(adds, name, key) == Keep(LookElem(add, name, key), LookIn(rest, name, key), fill)
        ensures LookElem(add, name, key).None? || LookIn(rest, name, key).None?
      {
        LookInSplit(adds, name, key);
      }
      var r := MergeElem(sec, add, fill);
      if r.Some? {
        MergeSectionExact(r.value, rest, fill);
        forall name, key
          ensures Agree(LookIn(sec, name, key), LookIn(adds, name, key)) <==>
                  Agree(LookIn(r.value, name, key), LookIn(rest, name, key))
          ensures Keep(LookIn(r.value, name, key), LookIn(rest, name, key), fill)
               == Keep(LookIn(sec, name, key), LookIn(adds, name, key), fill)
        {
          KeepStep(LookIn(sec, name, key), LookElem(add, name, key), LookIn(rest, name, key), fill);
        }
      } else {
        var name, key :| !Agree(LookIn(sec, name, key), LookElem(add, name, key));
        KeepStep(LookIn(sec, name, key), LookElem(add, name, key), LookIn(rest, name, key), fill);
        assert !Agree(LookIn(sec, name, key), LookIn(adds, name, key));
      }
    }
  }

  lemma LookInEmpty(name: string, key: string)
    ensures LookIn([], name, key) == None
  {}

  lemma LookInSplit(adds: seq<Elem>, name: string, key: string)
    requires SectionOk(adds) && adds != []
    ensures forall fill ::
              LookIn(adds, name, key) == Keep(LookElem(adds[0], name, key), LookIn(adds[1..], name, key), fill)
    ensures LookElem(adds[0], name, key).None? || LookIn(adds[1..], name, key).None?
  {
    hide Look, Unique, SectionOk, LookIn;
    LookInCons(adds, name, key);
  }

  /** Merging a source in two parts that do not overlap. */
  lemma KeepStep(a: Option<string>, b: Option<string>, c: Option<string>, fill: bool)
    requires b.None? || c.None?
    ensures !Agree(a, b) ==> !Agree(a, Keep(b, c, fill))
    ensures Agree(a, b) ==> (Agree(a, Keep(b, c, fill)) <==> Agree(Keep(a, b, fill), c))
    ensures Keep(Keep(a, b, fill), c, fill) == Keep(a, Keep(b, c, fill), fill)
  {}

  // ------------------------------------------------------------------ merging Knobs

  /**
   The Knobs section from added knob i on: a new knob is appended, a known one merges the
   whole added section into the base again.
   */
  function MergeKnobsFrom(cs: seq<Child>, adds: seq<Child>, i: nat): Option<seq<Child>>
    requires i <= |adds|
    decreases |adds| - i
  {
    if i == |adds| then Some(cs)
    else if adds[i].name == "" then MergeKnobsFrom(cs, adds, i + 1)
    else if IndexOf(cs, |cs|, adds[i].name).None? then MergeKnobsFrom(cs + [adds[i]], adds, i + 1)
    else
      var r := MergeChildren(cs, adds, false);
      if r.None? then None else MergeKnobsFrom(r.value, adds, i + 1)
  }

  /** The knobs merged so far: each key is still as in the base, or already joined. */
  ghost predicate Between(base: seq<Child>, cs: seq<Child>, adds: seq<Child>, i: nat) {
    && i <= |adds| && Unique(cs)
    && (forall key ::
          Look(cs, key) == Look(base, key) || Look(cs, key) == Keep(Look(base, key), Look(adds, key), false))
    && (forall j :: 0 <= j < i ==>
          Look(cs, adds[j].name) == Keep(Look(base, adds[j].name), Look(adds, adds[j].name), false))
    && (forall j :: 0 <= j < i ==> Agree(Look(base, adds[j].name), Look(adds, adds[j].name)))
  }

  /** All of the added knobs have been merged into the base. */
  ghost predicate Merged(base: seq<Child>, r: Option<seq<Child>>, adds: seq<Child>) {
    && (r.Some? <==> forall key :: Agree(Look(base, key), Look(adds, key)))
    && (r.Some? ==> Unique(r.value)
                    && forall key :: Look(r.value, key) == Keep(Look(base, key), Look(adds, key), false))
  }

  lemma BetweenEnds(base: seq<Child>, cs: seq<Child>, adds: seq<Child>)
    requires Between(base, cs, adds, |adds|)
    ensures Merged(base, Some(cs), adds)
  {
    hide Look, Unique, Agree, Keep;
    AgreeKeepNone();
    forall key
      ensures Agree(Look(base, key), Look(adds, key)) && Look(cs, key) == Keep(Look(base, key), Look(adds, key), false)
    {
      LookNone(adds, key);
      if Look(adds, key).Some? {
        var j :| 0 <= j < |adds| && adds[j].name == key;
      }
    }
  }

  /** Appending a knob the base does not have. */
  lemma BetweenAppends(base: seq<Child>, cs: seq<Child>, adds: seq<Child>, i: nat)
    requires Between(base, cs, adds, i) && i < |adds| && Unique(adds) && Look(cs, adds[i].name).None?
    ensures Between(base, cs + [adds[i]], adds, i + 1)
  {
    hide Look, IndexOf;
    var key := adds[i].name;
    LookAt(adds, i);
    AppendChild(cs, adds[i]);
  }

  /** Merging the whole section, when it does not raise. */
  lemma BetweenMerges(base: seq<Child>, cs: seq<Child>, adds: seq<Child>, i: nat)
    requires Between(base, cs, adds, i) && i < |adds| && Unique(adds)
    ensures var r := MergeChildren(cs, adds, false);
            && (r.Some? <==> forall key :: Agree(Look(base, key), Look(adds, key)))
            && (r.Some? ==> Between(base, r.value, adds, i + 1))
  {
    hide Look, IndexOf, Unique, MergeChildren;
    MergeChildrenExact(cs, adds, false);
    forall key
      ensures Agree(Look(cs, key), Look(adds, key)) <==> Agree(Look(base, key), Look(adds, key))
      ensures Keep(Look(cs, key), Look(adds, key), false) == Keep(Look(base, key), Look(adds, key), false)
    {
    }
  }

  lemma {:induction false} MergeKnobsExact(base: seq<Child>, cs: seq<Child>, adds: seq<Child>, i: nat)
    requires i <= |adds| && Unique(adds) && Between(base, cs, adds, i)
    ensures Merged(base, MergeKnobsFrom(cs, adds, i), adds)
    decreases |adds| - i
  {
    hide Look, Between, MergeChildren;
    if i == |adds| {
      BetweenEnds(base, cs, adds);
    } else if Look(cs, adds[i].name).None? {
      LookNone(cs, adds[i].name);
      BetweenAppends(base, cs, adds, i);
      MergeKnobsExact(base, cs + [adds[i]], adds, i + 1);
    } else {
      LookNone(cs, adds[i].name);
      BetweenMerges(base, cs, adds, i);
      var r := MergeChildren(cs, adds, false);
      if r.Some? {
        MergeKnobsExact(base, r.value, adds, i + 1);
      }
    }
  }

  lemma BetweenStarts(base: seq<Child>, adds: seq<Child>)
    requires Unique(base)
    ensures Between(base, base, adds, 0)
  {
    hide Look;
  }

  // -------------------------------------------------------------- merging documents

  datatype Key =
    | EnumValue(enumName: string, name: string)
    | StructMember(structName: string, name: string)
    | Knob(name: string)

  function Elems(sec: Option<seq<Elem>>): seq<Elem> {
    if sec.Some? then sec.value else []
  }

  function Knobs(d: Doc): seq<Child> {
    if d.knobs.Some? then d.knobs.value else []
  }

  /** What a document says about an enum value, a member default or a knob type. */
  function View(d: Doc, k: Key): Option<string> {
    match k
    case EnumValue(e, v) => LookIn(Elems(d.enums), e, v)
    case StructMember(s, m) => LookIn(Elems(d.structs), s, m)
    case Knob(n) => Look(Knobs(d), n)
  }

  /** Names are unique in their scope. */
  predicate DocOk(d: Doc) {
    SectionOk(Elems(d.enums)) && SectionOk(Elems(d.structs)) && Unique(Knobs(d))
  }

  /** Only a member default that one file leaves empty is filled in from another. */
  predicate Fills(k: Key) {
    k.StructMember?
  }

  /** A section of the base against the same section of the added file; a missing one is taken over whole. */
  function MergeOptional(a: Option<seq<Elem>>, b: Option<seq<Elem>>, fill: bool): Option<Option<seq<Elem>>> {
    if b.None? then Some(a)
    else if a.None? then Some(b)
    else
      var r := MergeSection(a.value, b.value, fill);
      if r.None? then None else Some(r)
  }

  function MergeKnobs(a: Option<seq<Child>>, b: Option<seq<Child>>): Option<Option<seq<Child>>> {
    if b.None? then Some(a)
    else if a.None? then Some(b)
    else
      var r := MergeKnobsFrom(a.value, b.value, 0);
      if r.None? then None else Some(r)
  }

  /** xml_merge_root on two documents; None is the conflict error. */
  function MergeDocs(a: Doc, b: Doc): Option<Doc> {
    var e, s := MergeOptional(a.enums, b.enums, false), MergeOptional(a.structs, b.structs, true);
    var k := MergeKnobs(a.knobs, b.knobs);
    if e.None? || s.None? || k.None? then None else Some(Doc(e.value, s.value, k.value))
  }

  /** The loop over the knobs of an added section. */
  method MergeKnobSection(base: seq<Child>, adds: seq<Child>) returns (r: Option<seq<Child>>)
    ensures r == MergeKnobsFrom(base, adds, 0)
  {
    hide MergeChildren;
    var cs := base;
    for i := 0 to |adds|
      invariant MergeKnobsFrom(base, adds, 0) == MergeKnobsFrom(cs, adds, i)
    {
      if adds[i].name == "" {
        continue;
      }
      if IndexOf(cs, |cs|, adds[i].name).None? {
        cs := cs + [adds[i]];
      } else {
        var merged := MergeElements(cs, adds, false);
        if merged.None? {
          return None;
        }
        cs := merged.value;
      }
    }
    return Some(cs);
  }

  lemma MergeOptionalExact(a: Option<seq<Elem>>, b: Option<seq<Elem>>, fill: bool)
    requires SectionOk(Elems(a)) && SectionOk(Elems(b))
    ensures var r := MergeOptional(a, b, fill);
            && (r.Some? <==> forall name, key :: Agree(LookIn(Elems(a), name, key), LookIn(Elems(b), name, key)))
            && (r.Some? ==>
                  && SectionOk(Elems(r.value))
                  && forall name, key ::
                        LookIn(Elems(r.value), name, key)
                        == Keep(LookIn(Elems(a), name, key), LookIn(Elems(b), name, key), fill))
  {
    hide LookIn, SectionOk, MergeSection, Agree, Keep;
    AgreeKeepNone();
    forall name, key ensures LookIn([], name, key) == None { LookInEmpty(name, key); }
    if a.Some? && b.Some? {
      MergeSectionExact(a.value, b.value, fill);
    }
  }

  lemma MergeKnobsOptionalExact(a: Doc, b: Doc)
    requires DocOk(a) && DocOk(b)
    ensures var r := MergeKnobs(a.knobs, b.knobs);
            Merged(Knobs(a), if r.None? then None else Some(if r.value.Some? then r.value.value else []), Knobs(b))
  {
    hide Look, MergeKnobsFrom, SectionOk, Agree, Keep, Unique;
    AgreeKeepNone();
    forall key ensures Look([], key) == None { LookNone([], key); }
    if a.knobs.Some? && b.knobs.Some? {
      BetweenStarts(Knobs(a), Knobs(b));
      MergeKnobsExact(Knobs(a), Knobs(a), Knobs(b), 0);
    }
  }

  /** Two files disagree about some key: both have a value for it, and the values differ. */
  ghost predicate Conflicting(a: Doc, b: Doc) {
    exists k :: !Agree(View(a, k), View(b, k))
  }

  /** Merging two files: a conflict exactly when they disagree somewhere, else the first file's word on every key. */
  lemma MergeDocsExact(a: Doc, b: Doc)
    requires DocOk(a) && DocOk(b)
    ensures var r := MergeDocs(a, b);
            && (r.Some? <==> !Conflicting(a, b))
            && (r.Some? ==> DocOk(r.value) && forall k :: View(r.value, k) == Keep(View(a, k), View(b, k), Fills(k)))
  {
    hide LookIn, Look, SectionOk, MergeOptional, MergeKnobs, Agree, Keep, Unique;
    MergeOptionalExact(a.enums, b.enums, false);
    MergeOptionalExact(a.structs, b.structs, true);
    MergeKnobsOptionalExact(a, b);
    if !Conflicting(a, b) {
      forall name, key ensures Agree(LookIn(Elems(a.enums), name, key), LookIn(Elems(b.enums), name, key)) {
        assert Agree(View(a, EnumValue(name, key)), View(b, EnumValue(name, key)));
      }
      forall name, key ensures Agree(LookIn(Elems(a.structs), name, key), LookIn(Elems(b.structs), name, key)) {
        assert Agree(View(a, StructMember(name, key)), View(b, StructMember(name, key)));
      }
      forall key ensures Agree(Look(Knobs(a), key), Look(Knobs(b), key)) {
        assert Agree(View(a, Knob(key)), View(b, Knob(key)));
      }
    }
  }

  // ---------------------------------------------------------------- does the order matter

  /** Both raise, or both say the same about every enum value, member default and knob type. */
  ghost predicate SameOutcome(r: Option<Doc>, s: Option<Doc>) {
    (r.Some? <==> s.Some?) && (r.Some? ==> forall k :: View(r.value, k) == View(s.value, k))
  }

  /** Some enum value or knob type has a value in one file and is present but empty in the other. */
  ghost predicate HalfEmpty(a: Doc, b: Doc) {
    exists k :: !Fills(k) && Mixed(View(a, k), View(b, k))
  }

  /**
   The two orders of two files raise together, and have the same outcome if and only if they
   raise or no enum value or knob type is empty in exactly one of the files.
   */
  lemma MergeDocsOrderIff(a: Doc, b: Doc)
    requires DocOk(a) && DocOk(b)
    ensures MergeDocs(a, b).Some? <==> MergeDocs(b, a).Some?
    ensures SameOutcome(MergeDocs(a, b), MergeDocs(b, a)) <==> Conflicting(a, b) || !HalfEmpty(a, b)
  {
    hide View, DocOk, MergeDocs, Agree, Keep, Mixed, Fills;
    MergeDocsExact(a, b);
    MergeDocsExact(b, a);
    forall k
      ensures Agree(View(a, k), View(b, k)) <==> Agree(View(b, k), View(a, k))
      ensures Agree(View(a, k), View(b, k)) ==>
                (Keep(View(a, k), View(b, k), Fills(k)) == Keep(View(b, k), View(a, k), Fills(k))
                 <==> Fills(k) || !Mixed(View(a, k), View(b, k)))
    {
      KeepOrder(View(a, k), View(b, k), Fills(k));
    }
  }

  // ------------------------------------------------------------------ any number of files

  /** Merging files one after the other, starting from the first. */
  function MergeAll(files: seq<Doc>): Option<Doc>
    requires files != []
    decreases |files|
  {
    if |files| == 1 then Some(files[0])
    else
      var base := MergeAll(files[..|files| - 1]);
      if base.None? then None else MergeDocs(base.value, files[|files| - 1])
  }

  /** The first file that mentions the key. */
  ghost predicate Leads(files: seq<Doc>, k: Key, i: nat) {
    i < |files| && View(files[i], k).Some? && forall j :: 0 <= j < i ==> View(files[j], k).None?
  }

  /** No later file contradicts the first word on a key, nor, where empty values are filled in, any word on it. */
  ghost predicate Compatible(files: seq<Doc>) {
    forall i, j, k | 0 <= i < j < |files| && (Fills(k) || Leads(files, k, i)) ::
      Agree(View(files[i], k), View(files[j], k))
  }

  /** v is the outcome for k: the first word on it, or the first that is not empty where values are filled in. */
  ghost predicate Says(files: seq<Doc>, k: Key, v: Option<string>) {
    && (v.None? <==> forall i :: 0 <= i < |files| ==> View(files[i], k).None?)
    && (v.Some? && (!Fills(k) || v.value != "") ==>
          exists i :: 0 <= i < |files| && View(files[i], k) == v && (Fills(k) || Leads(files, k, i)))
    && (v == Some("") && Fills(k) ==>
          forall i :: 0 <= i < |files| ==> View(files[i], k).None? || View(files[i], k) == Some(""))
  }

  /** The sequential merge, exactly: when it raises, and what it says about every key otherwise. */
  lemma {:induction false} MergeAllExact(files: seq<Doc>)
    requires files != [] && forall d <- files :: DocOk(d)
    ensures var r := MergeAll(files);
            && (r.Some? <==> Compatible(files))
            && (r.Some? ==> DocOk(r.value) && forall k :: Says(files, k, View(r.value, k)))
    decreases |files|
  {
    hide View, DocOk, MergeDocs, Agree, Keep, Fills;
    var n := |files| - 1;
    var last := files[n];
    assert last in files;
    if n == 0 {
      forall k ensures Says(files, k, View(last, k)) {
        SaysOne(last, k);
        assert files == [last];
      }
    } else {
      var front := files[..n];
      assert files == front + [last];
      MergeAllExact(front);
      if Compatible(files) {
        CompatibleFront(front, last);
      }
      if MergeAll(front).Some? {
        var base := MergeAll(front).value;
        MergeDocsExact(base, last);
        MergeLast(front, last, base);
      }
    }
  }

  lemma SaysOne(d: Doc, k: Key)
    ensures Says([d], k, View(d, k))
  {
    hide View;
    assert [d][0] == d;
  }

  lemma CompatibleFront(front: seq<Doc>, last: Doc)
    requires Compatible(front + [last])
    ensures Compatible(front)
  {
    hide View, Agree, Fills;
    var all := front + [last];
    forall i, j, k | 0 <= i < j < |front| && (Fills(k) || Leads(front, k, i))
      ensures Agree(View(front[i], k), View(front[j], k))
    {
      LeadsAppend(front, last, k, i);
      assert all[i] == front[i] && all[j] == front[j];
    }
  }

  lemma LeadsAppend(front: seq<Doc>, last: Doc, k: Key, i: nat)
    requires i < |front|
    ensures Leads(front, k, i) <==> Leads(front + [last], k, i)
  {
    hide View;
    var all := front + [last];
    assert forall j :: 0 <= j < |front| ==> all[j] == front[j];
    assert Leads(all, k, i) ==> forall j :: 0 <= j < i ==> View(front[j], k) == View(all[j], k);
  }

  lemma MergeLast(front: seq<Doc>, last: Doc, base: Doc)
    requires Compatible(front) && forall k :: Says(front, k, View(base, k))
    ensures Compatible(front + [last]) <==> !Conflicting(base, last)
    ensures Compatible(front + [last]) ==>
              forall k :: Says(front + [last], k, Keep(View(base, k), View(last, k), Fills(k)))
  {
    hide View, Says, Agree, Keep, Fills, Compatible;
    var all := front + [last];
    forall k
      ensures CompatibleAt(all, k) <==> CompatibleAt(front, k) && Agree(View(base, k), View(last, k))
      ensures CompatibleAt(all, k) ==> Says(all, k, Keep(View(base, k), View(last, k), Fills(k)))
    {
      MergeLastAt(front, last, k, View(base, k));
    }
    CompatibleKeys(front);
    CompatibleKeys(all);
  }

  /** Compatible, key by key. */
  ghost predicate CompatibleAt(files: seq<Doc>, k: Key) {
    forall i, j | 0 <= i < j < |files| && (Fills(k) || Leads(files, k, i)) ::
      Agree(View(files[i], k), View(files[j], k))
  }

  lemma CompatibleKeys(files: seq<Doc>)
    ensures Compatible(files) <==> forall k :: CompatibleAt(files, k)
  {
    hide View, Agree, Fills, Leads;
    if forall k :: CompatibleAt(files, k) {
      forall i, j, k | 0 <= i < j < |files| && (Fills(k) || Leads(files, k, i))
        ensures Agree(View(files[i], k), View(files[j], k))
      {
        assert CompatibleAt(files, k);
      }
    }
  }

  lemma MergeLastAt(front: seq<Doc>, last: Doc, k: Key, v: Option<string>)
    requires Says(front, k, v)
    ensures CompatibleAt(front + [last], k) <==> CompatibleAt(front, k) && Agree(v, View(last, k))
    ensures CompatibleAt(front + [last], k) ==> Says(front + [last], k, Keep(v, View(last, k), Fills(k)))
  {
    hide CompatibleAt, Says, Agree, Keep, View;
    CompatibleSplits(front, last, k);
    SaidAgrees(front, last, k, v);
    if CompatibleAt(front + [last], k) {
      LastSays(front, last, k, v);
    }
  }

  /** The last file contradicts no word it is held against. */
  ghost predicate LastAgrees(front: seq<Doc>, last: Doc, k: Key) {
    forall i | 0 <= i < |front| && (Fills(k) || Leads(front, k, i)) :: Agree(View(front[i], k), View(last, k))
  }

  lemma CompatibleSplits(front: seq<Doc>, last: Doc, k: Key)
    ensures CompatibleAt(front + [last], k) <==> CompatibleAt(front, k) && LastAgrees(front, last, k)
  {
    hide View, Fills, Agree, Leads;
    var all := front + [last];
    assert all[|front|] == last && forall j :: 0 <= j < |front| ==> all[j] == front[j];
    forall i | 0 <= i < |front| ensures Leads(front, k, i) <==> Leads(all, k, i) {
      LeadsAppend(front, last, k, i);
    }
  }

  /** Agreeing with those words is agreeing with what the earlier files say. */
  lemma SaidAgrees(front: seq<Doc>, last: Doc, k: Key, v: Option<string>)
    requires Says(front, k, v)
    ensures CompatibleAt(front, k) ==> (LastAgrees(front, last, k) <==> Agree(v, View(last, k)))
    ensures LastAgrees(front, last, k) ==> Agree(v, View(last, k))
  {
    hide View;
    if v.Some? && (!Fills(k) || v.value != "") {
      var i :| 0 <= i < |front| && View(front[i], k) == v && (Fills(k) || Leads(front, k, i));
      if CompatibleAt(front, k) && Agree(v, View(last, k)) {
        forall j | 0 <= j < |front| && (Fills(k) || Leads(front, k, j))
          ensures Agree(View(front[j], k), View(last, k))
        {
          assert Agree(View(front[j], k), v) by {
            assert Fills(k) && i < j ==> Agree(View(front[i], k), View(front[j], k));
            assert Fills(k) && j < i ==> Agree(View(front[j], k), View(front[i], k));
          }
        }
      }
    }
  }

  lemma LastSays(front: seq<Doc>, last: Doc, k: Key, v: Option<string>)
    requires Says(front, k, v)
    ensures Says(front + [last], k, Keep(v, View(last, k), Fills(k)))
  {
    hide View, Fills, Leads;
    var all := front + [last];
    var w := Keep(v, View(last, k), Fills(k));
    assert all[|front|] == last && forall j :: 0 <= j < |front| ==> all[j] == front[j];
    forall i | 0 <= i < |front| ensures Leads(front, k, i) <==> Leads(all, k, i) {
      LeadsAppend(front, last, k, i);
    }
    if v.None? {
      if View(last, k).Some? {
        LeadsLast(front, last, k);
      }
    } else if w == v && (!Fills(k) || v.value != "") {
      var i :| 0 <= i < |front| && View(front[i], k) == v && (Fills(k) || Leads(front, k, i));
      assert View(all[i], k) == v && (Fills(k) || Leads(all, k, i));
    }
  }

  lemma LeadsLast(front: seq<Doc>, last: Doc, k: Key)
    requires (forall i :: 0 <= i < |front| ==> View(front[i], k).None?) && View(last, k).Some?
    ensures Leads(front + [last], k, |front|)
  {
    hide View;
  }

  /** Every two files conflict, or neither leaves a value empty that the other has. */
  ghost predicate Settled(files: seq<Doc>) {
    forall a, b | a in files && b in files :: Conflicting(a, b) || !HalfEmpty(a, b)
  }

  /** xs and ys are the same selection of the files, in some order each, perhaps with repetitions. */
  ghost predicate SameSelection(xs: seq<Doc>, ys: seq<Doc>, files: seq<Doc>) {
    xs != [] && ys != [] && (forall d :: d in xs <==> d in ys) && forall d <- xs :: d in files
  }

  /** No two of the first n files disagree about anything. */
  ghost predicate Unanimous(files: seq<Doc>, n: nat)
    requires n <= |files|
  {
    forall i, j | 0 <= i < n && 0 <= j < n :: !Conflicting(files[i], files[j])
  }

  lemma ConflictSymmetric(a: Doc, b: Doc)
    ensures Conflicting(a, b) <==> Conflicting(b, a)
    ensures !Conflicting(a, a)
  {
    hide View;
  }

  /** Where no file leaves a value half empty, merging without a conflict means that no two files disagree. */
  lemma {:induction false} CompatibleUnanimous(files: seq<Doc>, n: nat)
    requires Compatible(files) && Settled(files) && n <= |files|
    ensures Unanimous(files, n)
  {
    hide View, Leads, Agree, HalfEmpty, Conflicting;
    if n > 0 {
      CompatibleUnanimous(files, n - 1);
      var d := files[n - 1];
      forall i | 0 <= i < n ensures !Conflicting(files[i], d) && !Conflicting(d, files[i]) {
        ConflictSymmetric(files[i], d);
        if i < n - 1 && Conflicting(files[i], d) {
          var l := LeaderHalfEmpty(files, i, n - 1);
          assert false;
        }
      }
    }
  }

  /** If files i and j contradict each other and merge all the same, an earlier file leaves the key empty. */
  lemma LeaderHalfEmpty(files: seq<Doc>, i: nat, j: nat) returns (l: nat)
    requires Compatible(files) && i < j < |files| && Conflicting(files[i], files[j])
    ensures l <= i && HalfEmpty(files[l], files[i])
  {
    hide View;
    var k :| !Agree(View(files[i], k), View(files[j], k));
    l := Leader(files, k, i);
    assert Agree(View(files[l], k), View(files[j], k));
    assert l < i ==> Agree(View(files[l], k), View(files[i], k));
    assert Mixed(View(files[l], k), View(files[i], k));
  }

  lemma {:induction false} Leader(files: seq<Doc>, k: Key, i: nat) returns (l: nat)
    requires i < |files| && View(files[i], k).Some?
    ensures l <= i && Leads(files, k, l)
  {
    hide View;
    if j :| 0 <= j < i && View(files[j], k).Some? {
      l := Leader(files, k, j);
    } else {
      l := i;
    }
  }

  /** A settled selection: it merges exactly when no two files disagree, whatever the order. */
  lemma SettledMerges(files: seq<Doc>)
    requires files != [] && Settled(files) && forall d <- files :: DocOk(d)
    ensures MergeAll(files).Some? <==> Unanimous(files, |files|)
  {
    hide View, DocOk, MergeAll, Fills;
    MergeAllExact(files);
    if MergeAll(files).Some? {
      CompatibleUnanimous(files, |files|);
    }
  }

  /** In a settled selection without disagreement, what the merge says about a key does not depend on the order. */
  lemma SaysUnique(files: seq<Doc>, others: seq<Doc>, k: Key, v: Option<string>, w: Option<string>)
    requires forall d :: d in files <==> d in others
    requires Settled(files) && Unanimous(files, |files|) && Says(files, k, v) && Says(others, k, w)
    ensures v == w
  {
    hide View;
    forall a, b | a in files && b in files
      ensures Agree(View(a, k), View(b, k)) && (Fills(k) || !Mixed(View(a, k), View(b, k)))
    {
      var i, j :| 0 <= i < |files| && 0 <= j < |files| && a == files[i] && b == files[j];
      assert !Conflicting(a, b) && !HalfEmpty(a, b);
    }
    SaysOfMember(files, k, v);
    SaysOfMember(others, k, w);
  }

  /** What is said is some file's word; if it is empty and values are filled in, it is every file's. */
  lemma SaysOfMember(files: seq<Doc>, k: Key, v: Option<string>)
    requires Says(files, k, v)
    ensures v.None? <==> forall d <- files :: View(d, k).None?
    ensures v.Some? && (!Fills(k) || v.value != "") ==> exists d <- files :: View(d, k) == v
    ensures v == Some("") && Fills(k) ==> forall d <- files :: View(d, k).None? || View(d, k) == Some("")
  {
    hide View;
  }

  /**
   Merging the same files in any other order, or some of them again, raises in one case
   exactly when it raises in the other, and gives the same enum values, member defaults and
   knob types, as long as every two files conflict or leave no value half empty.
   */
  lemma MergeOrderIrrelevant(files: seq<Doc>, others: seq<Doc>)
    requires files != [] && others != [] && forall d <- files :: DocOk(d)
    requires Settled(files) && forall d :: d in files <==> d in others
    ensures SameOutcome(MergeAll(files), MergeAll(others))
  {
    hide View, DocOk, Says, MergeAll, Conflicting, HalfEmpty;
    assert Settled(others);
    SettledMerges(files);
    SettledMerges(others);
    if Unanimous(others, |others|) {
      UnanimousReordered(others, files);
    }
    if MergeAll(files).Some? {
      UnanimousReordered(files, others);
      var a, b := MergeAll(files).value, MergeAll(others).value;
      MergeAllExact(files);
      MergeAllExact(others);
      forall k ensures View(a, k) == View(b, k) {
        SaysUnique(files, others, k, View(a, k), View(b, k));
      }
    }
  }

  lemma UnanimousReordered(files: seq<Doc>, others: seq<Doc>)
    requires Unanimous(files, |files|) && forall d <- others :: d in files
    ensures Unanimous(others, |others|)
  {
    hide Conflicting;
    forall i, j | 0 <= i < |others| && 0 <= j < |others| ensures !Conflicting(others[i], others[j]) {
      assert others[i] in files && others[j] in files;
    }
  }

  /**
   The order of files never matters, for whatever selection of them is merged, if and only if
   every two of them conflict or leave no enum value or knob type empty in exactly one.
   */
  lemma MergeOrderIff(files: seq<Doc>)
    requires forall d <- files :: DocOk(d)
    ensures Settled(files) <==>
            forall xs, ys :: SameSelection(xs, ys, files) ==> SameOutcome(MergeAll(xs), MergeAll(ys))
  {
    hide View, DocOk, MergeDocs, Conflicting, HalfEmpty, SameOutcome;
    if Settled(files) {
      forall xs, ys | SameSelection(xs, ys, files) ensures SameOutcome(MergeAll(xs), MergeAll(ys)) {
        MergeOrderIrrelevant(xs, ys);
      }
    } else {
      var a, b :| a in files && b in files && !Conflicting(a, b) && HalfEmpty(a, b);
      MergeDocsOrderIff(a, b);
      MergeTwo(a, b);
      MergeTwo(b, a);
      assert SameSelection([a, b], [b, a], files);
    }
  }

  lemma MergeTwo(a: Doc, b: Doc)
    ensures MergeAll([a, b]) == MergeDocs(a, b)
  {
    hide MergeDocs;
    assert [a, b][..1] == [a];
  }
}
