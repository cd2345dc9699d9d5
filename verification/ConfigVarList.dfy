/**
 ConfigVariableListLib: the retrieve and query entry points with their allocations, the
 growing entry array, and the encoder. The pool keeps a ghost set of live allocations, so
 that what a call leaves capacity is part of its contract.
 */
module ConfigVarList {
  import opened Bytes
  import opened VarList
  import opened VarRecords

  /** A pool allocation filled with bytes. */
  class Block {
    const bytes: seq<Byte>

    constructor (bytes: seq<Byte>)
      ensures this.bytes == bytes
    {
      this.bytes := bytes;
    }
  }

  /** CONFIG_VAR_LIST_ENTRY */
  datatype Entry = Entry(name: Block?, guid: Guid, attributes: Word, data: Block?, dataSize: nat)

  /** The memory allocator. Freeing requires a live allocation, so a double free does not verify. */
  class Pool {
    ghost var live: set<object?>

    constructor ()
      ensures live == {}
    {
      live := {};
    }

    method AllocateCopy(bytes: seq<Byte>) returns (b: Block)
      modifies this
      ensures fresh(b) && b.bytes == bytes && live == old(live) + {b}
    {
      b := new Block(bytes);
      live := live + {b};
    }

    /** AllocatePool for n entries: their contents are whatever the memory held. */
    method AllocateEntries(n: nat) returns (a: array<Entry>)
      modifies this
      ensures fresh(a) && a.Length == n && live == old(live) + {a}
    {
      a := new Entry[n];
      live := live + {a};
    }

    method Free(ghost o: object)
      requires o in live
      modifies this
      ensures live == old(live) - {o}
    {
      live := live - {o};
    }
  }

  /** The entry carries the record, in two allocations of its own. */
  ghost predicate Holds(e: Entry, r: Record) {
    && e.name != null && e.data != null && e.name != e.data
    && e.name.bytes == r.name && e.data.bytes == r.data && e.dataSize == |r.data|
    && e.guid == r.guid && e.attributes == r.attributes
  }

  /** ConvertVariableListToVariableEntry: an entry and the bytes it took, or an error and no allocation. */
  method Convert(crc: Checksum, pool: Pool, s: seq<Byte>) returns (status: Status, size: nat, entry: Entry)
    modifies pool
    ensures var p := ParseRecord(crc, s);
            if p.Parsed? then
              && status == SUCCESS && size == p.size && Holds(entry, p.record)
              && fresh(entry.name) && fresh(entry.data)
              && pool.live == old(pool.live) + {entry.name, entry.data}
            else
              status == p.status && pool.live == old(pool.live)
  {
    hide Unpack;
    entry := Entry(null, seq(16, _ => 0), 0, null, 0);
    size := 0;
    if |s| < 8 {
      return BUFFER_TOO_SMALL, size, entry;
    }
    var n, d := ReadWord(s[..4]), ReadWord(s[4..8]);
    var needed := NeededSize(n, d);
    if needed.None? {
      return BUFFER_TOO_SMALL, size, entry;
    }
    size := needed.value;
    if needed.value > |s| {
      return BUFFER_TOO_SMALL, size, entry;
    }
    var guid := s[8 + n..24 + n];
    var attributes := ReadWord(s[24 + n..28 + n]);
    var sum := ReadWord(s[28 + n + d..32 + n + d]);
    if sum != crc(s[..28 + n + d]) {
      return COMPROMISED_DATA, size, entry;
    }
    var name := pool.AllocateCopy(s[8..8 + n]);
    var data := pool.AllocateCopy(s[28 + n..28 + n + d]);
    entry := Entry(name, guid, attributes, data, d);
    return SUCCESS, size, entry;
  }

  // --------------------------------------------------------------- the full retrieve

  /** The entries carry the records, one each. */
  ghost predicate Carries(es: seq<Entry>, rs: seq<Record>) {
    |es| == |rs| && forall i :: 0 <= i < |es| ==> Holds(es[i], rs[i])
  }

  /** The allocations behind the entries. */
  ghost function Blocks(es: seq<Entry>): set<object?> {
    if es == [] then {} else Blocks(es[..|es| - 1]) + {es[|es| - 1].name, es[|es| - 1].data}
  }

  /** Every name and data is an allocation, and none is used twice. */
  ghost predicate Separate(es: seq<Entry>) {
    es == [] || var e := es[|es| - 1];
                var rest := es[..|es| - 1];
                Separate(rest) && e.name != null && e.data != null && e.name != e.data
                && e.name !in Blocks(rest) && e.data !in Blocks(rest)
  }

  lemma BlocksAppend(es: seq<Entry>, e: Entry)
    ensures Blocks(es + [e]) == Blocks(es) + {e.name, e.data}
    ensures Separate(es + [e]) <==> Separate(es) && e.name != null && e.data != null && e.name != e.data
                                    && e.name !in Blocks(es) && e.data !in Blocks(es)
  {
    assert (es + [e])[..|es|] == es;
  }

  lemma {:induction false} ListIsNoBlock(es: seq<Entry>, list: array<Entry>)
    ensures list !in Blocks(es)
  {
    if es != [] {
      ListIsNoBlock(es[..|es| - 1], list);
    }
  }

  /** The live allocations are those from before, the list, and the names and data of its entries. */
  ghost predicate Owns(live: set<object?>, before: set<object?>, list: array<Entry>, es: seq<Entry>) {
    list !in before && Separate(es) && Blocks(es) !! before && live == before + {list} + Blocks(es)
  }

  lemma OwnsNothing(before: set<object?>, list: array<Entry>)
    requires list !in before
    ensures Owns(before + {list}, before, list, [])
  {}

  lemma OwnsAppend(live: set<object?>, before: set<object?>, list: array<Entry>, es: seq<Entry>, e: Entry)
    requires Owns(live, before, list, es) && e.name != null && e.data != null && e.name != e.data
    requires e.name !in live && e.data !in live
    ensures Owns(live + {e.name, e.data}, before, list, es + [e])
  {
    BlocksAppend(es, e);
  }

  lemma CarriesAppend(es: seq<Entry>, rs: seq<Record>, e: Entry, r: Record)
    requires Carries(es, rs) && Holds(e, r)
    ensures Carries(es + [e], rs + [r]) && e.name != null && e.data != null && e.name != e.data
  {}

  /** ReallocatePool to twice the size. */
  method Grow(pool: Pool, list: array<Entry>) returns (bigger: array<Entry>)
    requires list in pool.live
    modifies pool
    ensures fresh(bigger) && bigger.Length == 2 * list.Length
    ensures forall i :: 0 <= i < list.Length ==> bigger[i] == list[i]
    ensures pool.live == old(pool.live) - {list} + {bigger}
  {
    bigger := pool.AllocateEntries(2 * list.Length);
    for i := 0 to list.Length
      invariant forall j :: 0 <= j < i ==> bigger[j] == list[j]
      invariant pool.live == old(pool.live) + {bigger}
    {
      bigger[i] := list[i];
    }
    pool.Free(list);
  }

  /** The cleanup of the exit path: every name and data from the last entry down, then the list. */
  method Release(pool: Pool, list: array<Entry>, count: nat, ghost before: set<object?>)
    requires count <= list.Length && Owns(pool.live, before, list, list[..count])
    modifies pool
    ensures pool.live == before
  {
    var n: nat := count;
    while n > 0
      invariant n <= count && Owns(pool.live, before, list, list[..n])
    {
      ghost var es := list[..n];
      assert list[..n - 1] == es[..n - 1];
      ListIsNoBlock(es, list);
      pool.Free(list[n - 1].name);
      pool.Free(list[n - 1].data);
      n := n - 1;
    }
    pool.Free(list);
  }

  /** Store an entry at the end of the list, growing it when it is half full. */
  method Append(pool: Pool, list: array<Entry>, count: nat, entry: Entry, ghost before: set<object?>)
    returns (list': array<Entry>)
    requires count < list.Length && Owns(pool.live, before, list, list[..count] + [entry])
    modifies pool, list
    ensures list' == list || fresh(list')
    ensures count + 1 < list'.Length && list'[..count + 1] == old(list[..count]) + [entry]
    ensures Owns(pool.live, before, list', list'[..count + 1])
  {
    list[count] := entry;
    assert list[..count + 1] == old(list[..count]) + [entry];
    list' := list;
    if list.Length <= (count + 1) * 2 {
      list' := Grow(pool, list);
      ListIsNoBlock(list[..count + 1], list);
      assert list'[..count + 1] == list[..count + 1];
    }
  }

  /** The loop of ParseActiveConfigVarList without a name: parse until the end or the first bad record. */
  method ParseAll(crc: Checksum, pool: Pool, buffer: seq<Byte>)
    returns (status: Status, list: array<Entry>, count: nat)
    modifies pool
    ensures fresh(list) && count < list.Length && Owns(pool.live, old(pool.live), list, list[..count])
    ensures Records(crc, buffer).Some? ==>
              status == SUCCESS && Carries(list[..count], Records(crc, buffer).value)
    ensures Records(crc, buffer).None? ==>
              && status == FirstError(crc, buffer) && (ParseRecord(crc, buffer).Failed? <==> count == 0)
              && status != SUCCESS
    ensures count > 0 ==> list[0].name != null
  {
    hide *;
    ghost var before := pool.live;
    list := pool.AllocateEntries(1);
    OwnsNothing(before, list);
    count := 0;
    var listIndex := 0;
    ghost var done: seq<Record> := [];
    status := SUCCESS;
    ProgressStart(crc, buffer);
    assert list[..0] == [];
    CarriesNothing();
    while listIndex < |buffer|
      invariant status == SUCCESS && count < list.Length && fresh(list)
      invariant Owns(pool.live, before, list, list[..count]) && Carries(list[..count], done)
      invariant Progress(crc, buffer, listIndex, done)
      invariant listIndex <= |buffer| && (count == 0 <==> listIndex == 0)
      invariant count > 0 ==> list[0].name != null && ParseRecord(crc, buffer).Parsed?
      decreases |buffer| - listIndex
    {
      assert listIndex == 0 ==> buffer[listIndex..] == buffer;
      ProgressStep(crc, buffer, listIndex, done);
      ghost var live := pool.live;
      var size, entry;
      status, size, entry := Convert(crc, pool, buffer[listIndex..]);
      if status != SUCCESS {
        return;
      }
      ghost var r := ParseRecord(crc, buffer[listIndex..]).record;
      CarriesAppend(list[..count], done, entry, r);
      OwnsAppend(live, before, list, list[..count], entry);
      done := done + [r];
      listIndex := listIndex + size;
      ghost var es := list[..count];
      list := Append(pool, list, count, entry, before);
      assert list[0] == list[..count + 1][0] == (es + [entry])[0];
      count := count + 1;
    }
    ProgressEnd(crc, buffer, listIndex, done);
  }

  lemma CarriesNothing()
    ensures Carries([], [])
  {}

  /**
   RetrieveActiveConfigVarList. It succeeds exactly on a non-empty concatenation of complete
   records and then returns them all in order; otherwise nothing is returned and everything
   the call allocated has been freed. The name test after the loop reads uninitialised memory
   when the very first record is bad, so there the status may also be NOT_FOUND.
   */
  method Retrieve(crc: Checksum, pool: Pool, buffer: seq<Byte>)
    returns (status: Status, list: array?<Entry>, count: nat)
    modifies pool
    ensures status == SUCCESS <==> buffer != [] && Records(crc, buffer).Some?
    ensures status == SUCCESS ==>
              && list != null && fresh(list) && count <= list.Length
              && Carries(list[..count], Records(crc, buffer).value)
              && Owns(pool.live, old(pool.live), list, list[..count])
    ensures status != SUCCESS ==> list == null && count == 0 && pool.live == old(pool.live)
    ensures buffer == [] ==> status == INVALID_PARAMETER
    ensures buffer != [] && Records(crc, buffer).None? ==>
              status == FirstError(crc, buffer) || (ParseRecord(crc, buffer).Failed? && status == NOT_FOUND)
  {
    hide ParseRecord, Owns, Blocks, Separate, FirstError;
    if buffer == [] {
      return INVALID_PARAMETER, null, 0;
    }
    ghost var before := pool.live;
    status, list, count := ParseAll(crc, pool, buffer);
    if list[0].name == null {
      status := NOT_FOUND;
    }
    if status != SUCCESS {
      Release(pool, list, count, before);
      return status, null, 0;
    }
  }

  /** The records up to an index have been parsed; what is left decides the rest. */
  ghost predicate Progress(crc: Checksum, buffer: seq<Byte>, i: nat, done: seq<Record>) {
    && i <= |buffer|
    && (Records(crc, buffer).Some? <==> Records(crc, buffer[i..]).Some?)
    && (Records(crc, buffer).Some? ==> Records(crc, buffer).value == done + Records(crc, buffer[i..]).value)
    && (Records(crc, buffer).None? ==> FirstError(crc, buffer) == FirstError(crc, buffer[i..]))
  }

  lemma ProgressStart(crc: Checksum, buffer: seq<Byte>)
    ensures Progress(crc, buffer, 0, [])
  {
    assert buffer[0..] == buffer;
  }

  lemma ProgressEnd(crc: Checksum, buffer: seq<Byte>, i: nat, done: seq<Record>)
    requires Progress(crc, buffer, i, done) && i == |buffer|
    ensures Records(crc, buffer) == Some(done)
  {
    assert buffer[i..] == [] && done + [] == done;
  }

  /** What one more record does to the progress. */
  lemma ProgressStep(crc: Checksum, buffer: seq<Byte>, i: nat, done: seq<Record>)
    requires Progress(crc, buffer, i, done) && i < |buffer|
    ensures var p := ParseRecord(crc, buffer[i..]);
            if p.Parsed? then 0 < p.size <= |buffer| - i && Progress(crc, buffer, i + p.size, done + [p.record])
            else Records(crc, buffer).None? && FirstError(crc, buffer) == p.status != SUCCESS
  {
    hide ParseRecord;
    var p := ParseRecord(crc, buffer[i..]);
    if p.Parsed? {
      assert buffer[i..][p.size..] == buffer[i + p.size..];
    }
  }

  // ------------------------------------------------------------------ query by name

  /**
   QuerySingleActiveConfigUnicodeVarList: the loop of ParseActiveConfigVarList with a name.
   Each record that does not match is freed again; a bad record after the first one reads as
   NOT_FOUND because the entry's name was reset.
   */
  method QuerySingle(crc: Checksum, pool: Pool, buffer: seq<Byte>, want: seq<Char16>, given: Entry)
    returns (status: Status, entry: Entry)
    modifies pool
    ensures status == SUCCESS <==> Find(crc, buffer, want).Hit?
    ensures status == SUCCESS ==>
              && Holds(entry, Find(crc, buffer, want).record) && fresh(entry.name) && fresh(entry.data)
              && pool.live == old(pool.live) + {entry.name, entry.data}
    ensures status != SUCCESS ==> pool.live == old(pool.live)
    ensures buffer == [] ==> status == INVALID_PARAMETER
    ensures buffer != [] && Find(crc, buffer, want).Miss? ==> status == NOT_FOUND
    ensures buffer != [] && Find(crc, buffer, want).Bad? ==>
              status == if ParseRecord(crc, buffer).Failed? && given.name != null
                        then Find(crc, buffer, want).status else NOT_FOUND
  {
    hide ParseRecord, StrnMatches, NameUnits;
    entry := given;
    if buffer == [] {
      return INVALID_PARAMETER, entry;
    }
    var listIndex := 0;
    status := SUCCESS;
    assert buffer[0..] == buffer;
    while listIndex < |buffer|
      invariant listIndex <= |buffer| && status == SUCCESS && pool.live == old(pool.live)
      invariant Find(crc, buffer, want) == Find(crc, buffer[listIndex..], want)
      invariant if listIndex == 0 then entry == given else entry.name == null && ParseRecord(crc, buffer).Parsed?
      decreases |buffer| - listIndex
    {
      var size, converted;
      status, size, converted := Convert(crc, pool, buffer[listIndex..]);
      if status != SUCCESS {
        break;
      }
      entry := converted;
      assert buffer[listIndex..][size..] == buffer[listIndex + size..];
      listIndex := listIndex + size;
      if !StrnMatches(want, NameUnits(entry.name.bytes)) {
        pool.Free(entry.name);
        pool.Free(entry.data);
        entry := entry.(name := null, data := null);
        continue;
      }
      return SUCCESS, entry;
    }
    if entry.name == null {
      status := NOT_FOUND;
    }
  }

  // --------------------------------------------------------------------- the encoder

  /** CopyMem to the place where the bytes written so far end. */
  method CopyMem(dst: array<Byte>, at: nat, src: seq<Byte>, ghost written: seq<Byte>, ghost was: seq<Byte>)
    requires at + |src| <= dst.Length == |was|
    requires dst[..at] == written && dst[at..] == was[at..]
    modifies dst
    ensures dst[..at + |src|] == written + src && dst[at + |src|..] == was[at + |src|..]
  {
    forall i | 0 <= i < |src| {
      dst[at + i] := src[i];
    }
    assert dst[..at] == written;
    assert dst[at..at + |src|] == src;
    assert forall i :: at + |src| <= i < dst.Length ==> dst[i] == was[at..][i - at];
  }

  /** The header, name, guid, attributes and data, copied one after the other. */
  method CopyFields(dst: array<Byte>, head: seq<Byte>, tail: seq<Byte>, name: seq<Byte>, guid: Guid, attr: seq<Byte>,
                    data: seq<Byte>, ghost was: seq<Byte>)
    requires |head| == |tail| == |attr| == 4 && 28 + |name| + |data| <= dst.Length && dst[..] == was
    modifies dst
    ensures dst[..28 + |name| + |data|] == head + tail + name + guid + attr + data
    ensures dst[28 + |name| + |data|..] == was[28 + |name| + |data|..]
  {
    CopyMem(dst, 0, head, [], was);
    ghost var done := head;
    CopyMem(dst, 4, tail, done, was);
    done := done + tail;
    CopyMem(dst, 8, name, done, was);
    done := done + name;
    CopyMem(dst, 8 + |name|, guid, done, was);
    done := done + guid;
    CopyMem(dst, 24 + |name|, attr, done, was);
    done := done + attr;
    CopyMem(dst, 28 + |name|, data, done, was);
  }

  /** The fields of a record, one after the other. */
  lemma RecordFields(crc: Checksum, r: Record)
    requires Fits(r)
    ensures var payload := ToLittleEndian(|r.name|, 4) + ToLittleEndian(|r.data|, 4) + r.name + r.guid
                           + ToLittleEndian(r.attributes, 4) + r.data;
            RecordBytes(crc, r) == payload + ToLittleEndian(crc(payload), 4)
  {
    PayloadAssociates(ToLittleEndian(|r.name|, 4), ToLittleEndian(|r.data|, 4), r.name, r.guid,
                      ToLittleEndian(r.attributes, 4), r.data);
  }

  lemma PayloadAssociates<T>(a: seq<T>, b: seq<T>, c: seq<T>, d: seq<T>, e: seq<T>, f: seq<T>)
    ensures a + b + c + d + e + f == a + b + (c + (d + (e + f)))
  {}

  /**
   ConvertVariableEntryToVariableList: one record at the front of the buffer, or the size it
   needs and an untouched buffer.
   */
  method ConvertEntry(crc: Checksum, name: seq<Char16>, guid: Guid, attributes: Word, data: seq<Byte>,
                      buffer: array<Byte>, available: nat) returns (status: Status, size: nat)
    requires |data| <= MAX_UINT32 && available <= buffer.Length
    modifies buffer
    ensures var record := Record(FirmwareName(name), guid, attributes, data);
            var bytes := RecordBytes(crc, record);
            && (status == SUCCESS <==> Fits(record) && |bytes| <= available)
            && (status == SUCCESS ==> size == |bytes| && buffer[..] == bytes + old(buffer[|bytes|..]))
            && (status != SUCCESS ==> status == BUFFER_TOO_SMALL && buffer[..] == old(buffer[..])
                                      && size == if Fits(record) then |bytes| else available)
  {
    hide FirmwareName, ToLittleEndian, RecordBytes;
    var nameBytes := FirmwareName(name);
    var needed := NeededSize(|nameBytes|, |data|);
    size := available;
    if needed.None? {
      return BUFFER_TOO_SMALL, size;
    }
    size := needed.value;
    if available < size {
      return BUFFER_TOO_SMALL, size;
    }
    ghost var was := buffer[..];
    var n := |nameBytes|;
    var head, tail, attr := ToLittleEndian(n, 4), ToLittleEndian(|data|, 4), ToLittleEndian(attributes, 4);
    CopyFields(buffer, head, tail, nameBytes, guid, attr, data, was);
    var offset := 28 + n + |data|;
    RecordFields(crc, Record(nameBytes, guid, attributes, data));
    CopyMem(buffer, offset, ToLittleEndian(crc(buffer[..offset]), 4), buffer[..offset], was);
    assert buffer[..] == buffer[..size] + buffer[size..];
    return SUCCESS, size;
  }
}
