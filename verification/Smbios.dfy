/**
 The walk over a raw SMBIOS table, against the structure layout of sections 6.1.2 and 6.1.3
 of DMTF DSP0134: a formatted area whose length its header gives, then a set of strings
 closed by an additional zero byte.
 */
module Smbios {
  import opened Bytes

  const END_OF_TABLE := 127

  /** A structure: its type, handle, the rest of its formatted area, and its strings. */
  datatype Structure = Structure(kind: Byte, handle: (Byte, Byte), body: seq<Byte>, strings: seq<seq<Byte>>)

  /** Strings are not empty and contain no zero byte. */
  predicate Plain(strings: seq<seq<Byte>>) {
    forall i :: 0 <= i < |strings| ==> strings[i] != [] && 0 !in strings[i]
  }

  predicate WellFormed(s: Structure) {
    |s.body| <= 251 && Plain(s.strings)
  }

  /** Zero-terminated strings, one after the other. */
  function Terminated(strings: seq<seq<Byte>>): seq<Byte> {
    if strings == [] then [] else strings[0] + [0] + Terminated(strings[1..])
  }

  /** The string set: two zero bytes when there is no string. */
  function StringSet(strings: seq<seq<Byte>>): seq<Byte> {
    if strings == [] then [0, 0] else Terminated(strings) + [0]
  }

  function StructureBytes(s: Structure): seq<Byte>
    requires WellFormed(s)
  {
    [s.kind, 4 + |s.body|, s.handle.0, s.handle.1] + s.body + StringSet(s.strings)
  }

  predicate AllWellFormed(ss: seq<Structure>) {
    forall i :: 0 <= i < |ss| ==> WellFormed(ss[i])
  }

  function Table(ss: seq<Structure>): seq<Byte>
    requires AllWellFormed(ss)
  {
    if ss == [] then [] else StructureBytes(ss[0]) + Table(ss[1..])
  }

  predicate HasEnd(ss: seq<Structure>) {
    ss != [] && (ss[0].kind == 127 || HasEnd(ss[1..]))
  }

  /** The structures of a type before the end marker, which is a structure of type 127. */
  function Wanted(ss: seq<Structure>, kind: Byte): seq<seq<Byte>>
    requires AllWellFormed(ss)
  {
    if ss == [] || ss[0].kind == 127 then []
    else (if ss[0].kind == kind then [StructureBytes(ss[0])] else []) + Wanted(ss[1..], kind)
  }

  // ------------------------------------------------------------------------ the code

  /** The scan for two zero bytes, at bytes i - 1 and i; None is an IndexError. */
  function ScanZeros(s: seq<Byte>, i: nat): (r: Option<nat>)
    requires i >= 1
    ensures r.Some? ==> i + 1 <= r.value <= |s|
    decreases |s| - i
  {
    if i >= |s| then None
    else if s[i - 1] == 0 && s[i] == 0 then Some(i + 1)
    else ScanZeros(s, i + 1)
  }

  /** calc_smbios_string_len, on the data from the string area on. */
  function StringLength(data: seq<Byte>, at: nat): Option<nat> {
    if at > |data| then None else ScanZeros(data[at..], 1)
  }

  /** The walk of locate_smbios_entry from an offset; None is an exception on a malformed table. */
  function Walk(data: seq<Byte>, offset: nat, kind: Byte): Option<seq<seq<Byte>>>
    decreases |data| - offset
  {
    if offset >= |data| then Some([])
    else if offset + 4 > |data| then None
    else if data[offset] == END_OF_TABLE then Some([])
    else
      var length := data[offset + 1];
      var strings := StringLength(data, offset + length);
      if strings.None? then None
      else
        var total := strings.value + length;
        var rest := Walk(data, offset + total, kind);
        if rest.None? then None
        else Some((if data[offset] == kind then [data[offset..offset + total]] else []) + rest.value)
  }

  /** The scan loop itself. */
  method CalcStringLength(data: seq<Byte>, at: nat) returns (r: Option<nat>)
    ensures r == StringLength(data, at)
  {
    if at > |data| {
      return None;
    }
    var i: nat := 1;
    while at + i < |data| && (data[at + i - 1] != 0 || data[at + i] != 0)
      invariant i >= 1 && ScanZeros(data[at..], 1) == ScanZeros(data[at..], i)
      decreases |data| - i
    {
      i := i + 1;
    }
    if at + i >= |data| {
      return None;
    }
    return Some(i + 1);
  }

  /** The walk loop itself; the outer option is None on an exception, the inner when nothing was found. */
  method LocateEntry(data: seq<Byte>, kind: Byte) returns (r: Option<Option<seq<seq<Byte>>>>)
    ensures var w := Walk(data, 0, kind);
            r == if w.None? then None else Some(if w.value == [] then None else Some(w.value))
  {
    hide StringLength, Walk;
    WalkStart(data, kind);
    var found: seq<seq<Byte>> := [];
    var offset := 0;
    while offset < |data|
      invariant Continues(data, kind, found, offset)
      decreases |data| - offset
    {
      WalkStep(data, kind, found, offset);
      if offset + 4 > |data| {
        return None;
      }
      var structureType, structureLength := data[offset], data[offset + 1];
      if structureType == END_OF_TABLE {
        break;
      }
      var strings := CalcStringLength(data, offset + structureLength);
      if strings.None? {
        return None;
      }
      StringLengthBound(data, offset + structureLength);
      var total := strings.value + structureLength;
      if structureType == kind {
        found := found + [data[offset..offset + total]];
      }
      offset := offset + total;
    }
    WalkStop(data, kind, found, offset);
    return Some(if found == [] then None else Some(found));
  }

  /** The whole walk is what has been found and then the walk from here. */
  predicate Continues(data: seq<Byte>, kind: Byte, found: seq<seq<Byte>>, offset: nat) {
    var w, rest := Walk(data, 0, kind), Walk(data, offset, kind);
    if rest.None? then w.None? else w == Some(found + rest.value)
  }

  lemma WalkStart(data: seq<Byte>, kind: Byte)
    ensures Continues(data, kind, [], 0)
  {
    hide Walk;
    assert Walk(data, 0, kind).Some? ==> [] + Walk(data, 0, kind).value == Walk(data, 0, kind).value;
  }

  /** One turn of the loop. */
  lemma WalkStep(data: seq<Byte>, kind: Byte, found: seq<seq<Byte>>, offset: nat)
    requires offset < |data| && Continues(data, kind, found, offset)
    ensures offset + 4 > |data| ==> Walk(data, 0, kind).None?
    ensures offset + 4 <= |data| && data[offset] != END_OF_TABLE ==>
              var length := data[offset + 1];
              var strings := StringLength(data, offset + length);
              if strings.None? then Walk(data, 0, kind).None?
              else
                var total := strings.value + length;
                && offset + total <= |data|
                && Continues(data, kind, if data[offset] == kind then found + [data[offset..offset + total]] else found,
                             offset + total)
  {
    hide StringLength;
    if offset + 4 <= |data| && StringLength(data, offset + data[offset + 1]).Some? {
      StringLengthBound(data, offset + data[offset + 1]);
      var total := StringLength(data, offset + data[offset + 1]).value + data[offset + 1];
      var first := if data[offset] == kind then [data[offset..offset + total]] else [];
      var rest := Walk(data, offset + total, kind);
      assert rest.Some? ==> found + (first + rest.value) == (found + first) + rest.value;
      assert found + [] == found;
    }
  }

  lemma WalkStop(data: seq<Byte>, kind: Byte, found: seq<seq<Byte>>, offset: nat)
    requires Continues(data, kind, found, offset)
    requires offset >= |data| || (offset + 4 <= |data| && data[offset] == END_OF_TABLE)
    ensures Walk(data, 0, kind) == Some(found)
  {
    hide StringLength;
    assert found + [] == found;
  }

  lemma StringLengthBound(data: seq<Byte>, at: nat)
    ensures StringLength(data, at).Some? ==> 2 <= StringLength(data, at).value <= |data| - at
  {}

  // ----------------------------------------------------------------------- the proof

  predicate NoZeroPair(s: seq<Byte>) {
    forall j :: 1 <= j < |s| ==> s[j - 1] != 0 || s[j] != 0
  }

  lemma {:induction false} TerminatedPlain(strings: seq<seq<Byte>>)
    requires Plain(strings)
    ensures NoZeroPair(Terminated(strings))
    ensures strings != [] ==> |Terminated(strings)| >= 2 && Terminated(strings)[0] != 0
                              && Terminated(strings)[|Terminated(strings)| - 1] == 0
  {
    if strings != [] {
      TerminatedPlain(strings[1..]);
      var t, rest := strings[0], Terminated(strings[1..]);
      var s := t + [0] + rest;
      assert t[0] in t;
      forall j | 1 <= j < |s| ensures s[j - 1] != 0 || s[j] != 0 {
        if j <= |t| {
          assert s[j - 1] == t[j - 1] && t[j - 1] in t;
        } else {
          assert s[j] == rest[j - |t| - 1];
          if j > |t| + 1 {
            assert s[j - 1] == rest[j - |t| - 2];
          }
        }
      }
    }
  }

  lemma {:induction false} ScanSkips(s: seq<Byte>, i: nat, n: nat)
    requires 1 <= i <= n < |s| && s[n - 1] == 0 && s[n] == 0
    requires forall j :: i <= j < n ==> s[j - 1] != 0 || s[j] != 0
    ensures ScanZeros(s, i) == Some(n + 1)
    decreases n - i
  {
    if i < n {
      ScanSkips(s, i + 1, n);
    }
  }

  /** The scan ends exactly at the end of the string set, whatever follows. */
  lemma ScanFindsEnd(strings: seq<seq<Byte>>, rest: seq<Byte>)
    requires Plain(strings)
    ensures ScanZeros(StringSet(strings) + rest, 1) == Some(|StringSet(strings)|)
  {
    var s := StringSet(strings) + rest;
    if strings != [] {
      TerminatedPlain(strings);
      var t := Terminated(strings);
      forall j | 1 <= j < |t| ensures s[j - 1] != 0 || s[j] != 0 {
        assert s[j - 1] == t[j - 1] && s[j] == t[j];
      }
      assert s[|t| - 1] == t[|t| - 1] && s[|t|] == 0;
      ScanSkips(s, 1, |t|);
    }
  }

  /** One structure at an offset: its header, its total length, and the bytes that are cut out. */
  lemma StructureAt(data: seq<Byte>, offset: nat, s: Structure, rest: seq<Byte>)
    requires WellFormed(s) && offset <= |data| && data[offset..] == StructureBytes(s) + rest
    ensures offset + 4 <= |data| && data[offset] == s.kind && data[offset + 1] == 4 + |s.body|
    ensures var at := offset + 4 + |s.body|;
            && StringLength(data, at) == Some(|StringSet(s.strings)|)
            && at + |StringSet(s.strings)| <= |data|
            && data[offset..at + |StringSet(s.strings)|] == StructureBytes(s)
            && data[at + |StringSet(s.strings)|..] == rest
  {
    hide StringSet, ScanZeros;
    var bytes, strings := StructureBytes(s), StringSet(s.strings);
    var at := offset + 4 + |s.body|;
    assert data[offset] == data[offset..][0] && data[offset + 1] == data[offset..][1];
    assert data[at..] == data[offset..][4 + |s.body|..] == strings + rest;
    ScanFindsEnd(s.strings, rest);
    assert data[offset..at + |strings|] == data[offset..][..|bytes|];
    assert data[at + |strings|..] == data[offset..][|bytes|..];
  }

  /**
   On every well-formed table the walk ends without an error, never splits a structure, and
   returns exactly the structures of the type before the end marker, in order. Anything may
   follow a table that has an end marker.
   */
  lemma {:induction false} WalkExact(data: seq<Byte>, offset: nat, ss: seq<Structure>, tail: seq<Byte>, kind: Byte)
    requires AllWellFormed(ss) && offset <= |data| && data[offset..] == Table(ss) + tail
    requires tail == [] || HasEnd(ss)
    ensures Walk(data, offset, kind) == Some(Wanted(ss, kind))
    decreases |ss|
  {
    hide StringLength, StructureBytes, StringSet, Table;
    if ss == [] {
      TableEmpty();
      assert data[offset..] == tail == [];
    } else {
      var s, rest := ss[0], Table(ss[1..]) + tail;
      TableCons(ss, tail);
      StructureAt(data, offset, s, rest);
      if s.kind != END_OF_TABLE {
        WalkExact(data, offset + 4 + |s.body| + |StringSet(s.strings)|, ss[1..], tail, kind);
      }
    }
  }

  lemma TableEmpty()
    ensures Table([]) == []
  {}

  lemma TableCons(ss: seq<Structure>, tail: seq<Byte>)
    requires AllWellFormed(ss) && ss != []
    ensures Table(ss) + tail == StructureBytes(ss[0]) + (Table(ss[1..]) + tail)
  {
    hide StructureBytes;
  }

  // -------------------------------------------------------------------- cut-off tables

  lemma {:induction false} ScanFindsNone(s: seq<Byte>, i: nat)
    requires i >= 1 && forall j :: i <= j < |s| ==> s[j - 1] != 0 || s[j] != 0
    ensures ScanZeros(s, i) == None
    decreases |s| - i
  {
    if i < |s| {
      ScanFindsNone(s, i + 1);
    }
  }

  /** A string set that is cut off has no end. */
  lemma CutStrings(strings: seq<seq<Byte>>, k: nat)
    requires Plain(strings) && k < |StringSet(strings)|
    ensures ScanZeros(StringSet(strings)[..k], 1) == None
  {
    if strings != [] {
      TerminatedPlain(strings);
      assert StringSet(strings)[..k] == Terminated(strings)[..k];
    }
    ScanFindsNone(StringSet(strings)[..k], 1);
  }

  /** The walk raises inside a structure that is cut off. */
  lemma CutStructure(data: seq<Byte>, offset: nat, s: Structure, k: nat, kind: Byte)
    requires WellFormed(s) && s.kind != END_OF_TABLE && 0 < k < |StructureBytes(s)|
    requires offset <= |data| && data[offset..] == StructureBytes(s)[..k]
    ensures Walk(data, offset, kind) == None
  {
    hide StringSet, ScanZeros;
    if k >= 4 {
      var at, strings := offset + 4 + |s.body|, StringSet(s.strings);
      assert data[offset] == data[offset..][0] && data[offset + 1] == data[offset..][1];
      if at <= |data| {
        var n := k - 4 - |s.body|;
        assert data[at..] == data[offset..][4 + |s.body|..] == strings[..n];
        CutStrings(s.strings, n);
      }
    }
  }

  /** On a table without an end marker that stops inside a structure the walk raises. */
  lemma {:induction false} CutTableFails(data: seq<Byte>, offset: nat, ss: seq<Structure>, s: Structure, k: nat,
                                         kind: Byte)
    requires AllWellFormed(ss) && !HasEnd(ss) && WellFormed(s) && s.kind != END_OF_TABLE && 0 < k < |StructureBytes(s)|
    requires offset <= |data| && data[offset..] == Table(ss) + StructureBytes(s)[..k]
    ensures Walk(data, offset, kind) == None
    decreases |ss|
  {
    hide StringLength, StructureBytes, StringSet, Table;
    var tail := StructureBytes(s)[..k];
    if ss == [] {
      TableEmpty();
      assert data[offset..] == tail;
      CutStructure(data, offset, s, k, kind);
    } else {
      TableCons(ss, tail);
      StructureAt(data, offset, ss[0], Table(ss[1..]) + tail);
      CutTableFails(data, offset + 4 + |ss[0].body| + |StringSet(ss[0].strings)|, ss[1..], s, k, kind);
    }
  }
}
