/**
 The firmware library's view of a variable list: raw records with unsigned 32-bit
 sizes, the parse of one record, and the grammar the parse decides.
 */
module VarRecords {
  import opened Bytes
  import opened VarList

  datatype Status =
    | SUCCESS
    | INVALID_PARAMETER
    | BUFFER_TOO_SMALL
    | COMPROMISED_DATA
    | NOT_FOUND

  /** A record with its name as the raw bytes of the buffer, terminator included if there is one. */
  datatype Record = Record(name: seq<Byte>, guid: Guid, attributes: Word, data: seq<Byte>)

  const MAX_UINT32 := 0xffff_ffff

  /** GetVarListSize: two checked 32-bit additions to the fixed part; None is the overflow status. */
  function NeededSize(nameSize: Word, dataSize: Word): (r: Option<Word>)
    ensures r.Some? <==> 32 + nameSize + dataSize <= MAX_UINT32
    ensures r.Some? ==> r.value == 32 + nameSize + dataSize
  {
    var fixed := 8 + 16 + 4 + 4;
    if fixed + nameSize > MAX_UINT32 then None
    else if fixed + nameSize + dataSize > MAX_UINT32 then None
    else Some(fixed + nameSize + dataSize)
  }

  predicate Fits(r: Record) {
    32 + |r.name| + |r.data| <= MAX_UINT32
  }

  function RecordBytes(crc: Checksum, r: Record): (s: seq<Byte>)
    ensures |s| == 32 + |r.name| + |r.data|
  {
    Frame(crc, r.name, r.guid, r.attributes, r.data)
  }

  datatype Parsed = Parsed(record: Record, size: nat) | Failed(status: Status)

  function ReadWord(s: seq<Byte>): Word
    requires |s| == 4
  {
    UnpackInRange(U32, s);
    Unpack(U32, s).value
  }

  /** The record whose sizes are n and d, cut out of the front of the buffer. */
  function Cut(s: seq<Byte>, n: nat, d: nat): Record
    requires 32 + n + d <= |s|
  {
    Record(s[8..8 + n], s[8 + n..24 + n], ReadWord(s[24 + n..28 + n]), s[28 + n..28 + n + d])
  }

  /** ConvertVariableListToVariableEntry on the rest of the buffer. */
  function ParseRecord(crc: Checksum, s: seq<Byte>): (r: Parsed)
    ensures r.Parsed? ==> 32 <= r.size <= |s|
    ensures r.Failed? ==> r.status == BUFFER_TOO_SMALL || r.status == COMPROMISED_DATA
  {
    if |s| < 8 then Failed(BUFFER_TOO_SMALL)
    else
      var n, d := ReadWord(s[..4]), ReadWord(s[4..8]);
      var needed := NeededSize(n, d);
      if needed.None? then Failed(BUFFER_TOO_SMALL)
      else if needed.value > |s| then Failed(BUFFER_TOO_SMALL)
      else if ReadWord(s[28 + n + d..32 + n + d]) != crc(s[..28 + n + d]) then Failed(COMPROMISED_DATA)
      else Parsed(Cut(s, n, d), needed.value)
  }

  /** Every record of the buffer, or None if one of them is bad. */
  function Records(crc: Checksum, s: seq<Byte>): Option<seq<Record>>
    decreases |s|
  {
    if s == [] then Some([])
    else
      var one := ParseRecord(crc, s);
      if one.Failed? then None
      else
        var rest := Records(crc, s[one.size..]);
        if rest.None? then None else Some([one.record] + rest.value)
  }

  function AllBytes(crc: Checksum, rs: seq<Record>): seq<Byte> {
    if rs == [] then [] else RecordBytes(crc, rs[0]) + AllBytes(crc, rs[1..])
  }

  predicate AllFit(rs: seq<Record>) {
    forall i :: 0 <= i < |rs| ==> Fits(rs[i])
  }

  lemma WordRoundTrip(n: Word)
    ensures ReadWord(ToLittleEndian(n, 4)) == n
  {
    WordPack(n);
  }

  lemma WordBytes(s: seq<Byte>)
    requires |s| == 4
    ensures ToLittleEndian(ReadWord(s), 4) == s
  {
    hide FromLittleEndian, ToLittleEndian;
    UnpackInRange(U32, s);
  }

  /** Cutting and framing, with the pieces as plain sequences. */
  lemma Pieces(s: seq<Byte>, h1: seq<Byte>, h2: seq<Byte>, name: seq<Byte>, guid: seq<Byte>, a: seq<Byte>,
               data: seq<Byte>, sum: seq<Byte>, rest: seq<Byte>)
    requires |h1| == |h2| == |a| == |sum| == 4 && |guid| == 16
    requires s == h1 + h2 + (name + (guid + (a + data))) + sum + rest
    ensures var n := |name|;
            var d := |data|;
            && 32 + n + d <= |s| && s[..4] == h1 && s[4..8] == h2
            && s[8..8 + n] == name && s[8 + n..24 + n] == guid && s[24 + n..28 + n] == a
            && s[28 + n..28 + n + d] == data && s[28 + n + d..32 + n + d] == sum
            && s[..28 + n + d] == h1 + h2 + (name + (guid + (a + data))) && s[32 + n + d..] == rest
  {}

  /** A complete record at the front of any buffer parses, whatever follows it. */
  lemma ParseFrame(crc: Checksum, r: Record, rest: seq<Byte>)
    requires Fits(r)
    ensures ParseRecord(crc, RecordBytes(crc, r) + rest) == Parsed(r, |RecordBytes(crc, r)|)
    ensures (RecordBytes(crc, r) + rest)[|RecordBytes(crc, r)|..] == rest
  {
    hide ToLittleEndian, ReadWord;
    var payload := Payload(r.name, r.guid, r.attributes, r.data);
    Pieces(RecordBytes(crc, r) + rest, ToLittleEndian(|r.name|, 4), ToLittleEndian(|r.data|, 4), r.name, r.guid,
           ToLittleEndian(r.attributes, 4), r.data, ToLittleEndian(crc(payload), 4), rest);
    WordRoundTrip(|r.name|);
    WordRoundTrip(|r.data|);
    WordRoundTrip(r.attributes);
    WordRoundTrip(crc(payload));
  }

  lemma Glue(s: seq<Byte>, n: nat, d: nat)
    requires 32 + n + d <= |s|
    ensures s[..28 + n + d]
         == s[..4] + s[4..8] + (s[8..8 + n] + (s[8 + n..24 + n] + (s[24 + n..28 + n] + s[28 + n..28 + n + d])))
    ensures s[..32 + n + d] == s[..28 + n + d] + s[28 + n + d..32 + n + d]
  {}

  /** Whatever parses is a complete record with the right checksum. */
  lemma ParsedIsFrame(crc: Checksum, s: seq<Byte>)
    requires ParseRecord(crc, s).Parsed?
    ensures var p := ParseRecord(crc, s);
            Fits(p.record) && p.size == |RecordBytes(crc, p.record)| && s[..p.size] == RecordBytes(crc, p.record)
  {
    hide ToLittleEndian, ReadWord;
    var n, d := ReadWord(s[..4]), ReadWord(s[4..8]);
    Glue(s, n, d);
    WordBytes(s[..4]);
    WordBytes(s[4..8]);
    WordBytes(s[24 + n..28 + n]);
    WordBytes(s[28 + n + d..32 + n + d]);
  }

  /** The whole buffer parses to rs if and only if it is the concatenation of exactly these complete records. */
  lemma {:induction false} RecordsExact(crc: Checksum, s: seq<Byte>, rs: seq<Record>)
    ensures Records(crc, s) == Some(rs) <==> AllFit(rs) && s == AllBytes(crc, rs)
    decreases |s|
  {
    hide ParseRecord, RecordBytes;
    if s != [] {
      var one := ParseRecord(crc, s);
      if Records(crc, s) == Some(rs) {
        ParsedIsFrame(crc, s);
        RecordsExact(crc, s[one.size..], rs[1..]);
        assert s == s[..one.size] + s[one.size..];
        assert rs == [one.record] + rs[1..];
      }
      if AllFit(rs) && s == AllBytes(crc, rs) {
        ParseFrame(crc, rs[0], AllBytes(crc, rs[1..]));
        RecordsExact(crc, AllBytes(crc, rs[1..]), rs[1..]);
        assert rs == [rs[0]] + rs[1..];
      }
    }
  }

  /** A record whose last word is any other number is compromised data. */
  lemma WrongSumCompromised(crc: Checksum, r: Record, bad: Word, rest: seq<Byte>)
    requires Fits(r) && bad != crc(Payload(r.name, r.guid, r.attributes, r.data))
    ensures ParseRecord(crc, Payload(r.name, r.guid, r.attributes, r.data) + ToLittleEndian(bad, 4) + rest)
         == Failed(COMPROMISED_DATA)
  {
    hide ToLittleEndian, ReadWord;
    var payload := Payload(r.name, r.guid, r.attributes, r.data);
    Pieces(payload + ToLittleEndian(bad, 4) + rest, ToLittleEndian(|r.name|, 4), ToLittleEndian(|r.data|, 4), r.name,
           r.guid, ToLittleEndian(r.attributes, 4), r.data, ToLittleEndian(bad, 4), rest);
    WordRoundTrip(|r.name|);
    WordRoundTrip(|r.data|);
    WordRoundTrip(bad);
  }

  /** What the size fields at the front ask for: the fixed part, the name and the data. */
  function Asked(s: seq<Byte>): nat {
    if |s| < 8 then 8 else 32 + ReadWord(s[..4]) + ReadWord(s[4..8])
  }

  /** A record that asks for more than there is, or than 32 bits hold, is too small; a complete one is compromised. */
  lemma FailuresExact(crc: Checksum, s: seq<Byte>)
    ensures ParseRecord(crc, s) == Failed(BUFFER_TOO_SMALL) <==> |s| < Asked(s) || 0xffff_ffff < Asked(s)
    ensures ParseRecord(crc, s) == Failed(COMPROMISED_DATA) <==>
            Asked(s) <= |s| && Asked(s) <= 0xffff_ffff && ParseRecord(crc, s).Failed?
  {
    hide ReadWord;
  }

  lemma RecordHead(crc: Checksum, r: Record)
    ensures RecordBytes(crc, r)[..4] == ToLittleEndian(|r.name|, 4)
    ensures RecordBytes(crc, r)[4..8] == ToLittleEndian(|r.data|, 4)
  {
    hide ToLittleEndian;
    var h1, h2 := ToLittleEndian(|r.name|, 4), ToLittleEndian(|r.data|, 4);
    var body := r.name + (r.guid + (ToLittleEndian(r.attributes, 4) + r.data));
    var sum := ToLittleEndian(crc(h1 + h2 + body), 4);
    assert RecordBytes(crc, r) == h1 + h2 + body + sum;
  }

  /** A buffer that ends inside a record is too small. */
  lemma ShortIsTooSmall(crc: Checksum, r: Record, k: nat)
    requires Fits(r) && k < |RecordBytes(crc, r)|
    ensures ParseRecord(crc, RecordBytes(crc, r)[..k]) == Failed(BUFFER_TOO_SMALL)
  {
    hide ToLittleEndian, ReadWord, RecordBytes;
    var s := RecordBytes(crc, r)[..k];
    if k >= 8 {
      RecordHead(crc, r);
      assert s[..4] == RecordBytes(crc, r)[..4] && s[4..8] == RecordBytes(crc, r)[4..8];
      WordRoundTrip(|r.name|);
      WordRoundTrip(|r.data|);
    }
  }

  /** The status of the first bad record. */
  function FirstError(crc: Checksum, s: seq<Byte>): Status
    requires Records(crc, s).None?
    decreases |s|
  {
    var one := ParseRecord(crc, s);
    if one.Failed? then one.status else FirstError(crc, s[one.size..])
  }

  // ----------------------------------------------------------------- name matching

  /** The whole CHAR16 units of a name. */
  function NameUnits(s: seq<Byte>): (us: seq<Char16>)
    ensures |us| == |s| / 2
    decreases |s|
  {
    if |s| < 2 then []
    else
      var hi: int := s[1];
      [s[0] + 256 * hi] + NameUnits(s[2..])
  }

  /** 0 == StrnCmp (want, name, |name|), where want is NUL-terminated after its last unit. */
  predicate StrnMatches(want: seq<Char16>, name: seq<Char16>) {
    if name == [] then true
    else
      var a := if want == [] then 0 else want[0];
      if a != 0 && name[0] != 0 && a == name[0] && |name| > 1 then StrnMatches(want[1..], name[1..])
      else a == name[0]
  }

  /** The text of a name: the units before the first NUL. */
  function CString(us: seq<Char16>): seq<Char16> {
    if us == [] || us[0] == 0 then [] else [us[0]] + CString(us[1..])
  }

  /** What the comparison decides: equality for a terminated name, a prefix test for an unterminated one. */
  lemma {:induction false} StrnMatchesExact(want: seq<Char16>, name: seq<Char16>)
    requires 0 !in want
    ensures StrnMatches(want, name) <==> if 0 in name then want == CString(name) else name <= want
    decreases |name|
  {
    if name != [] && want != [] && want[0] == name[0] {
      StrnMatchesExact(want[1..], name[1..]);
      assert want == [want[0]] + want[1..] && name == [name[0]] + name[1..];
      assert (0 in name) == (0 in name[1..]);
      assert |name| == 1 ==> name[1..] == [];
    } else if name != [] && want != [] && name[0] != 0 {
      assert CString(name)[0] == name[0];
    }
  }

  /** What a query by name meets first: a matching record, a bad one, or the end. */
  datatype Query = Hit(record: Record) | Bad(status: Status) | Miss

  function Find(crc: Checksum, s: seq<Byte>, want: seq<Char16>): Query
    decreases |s|
  {
    if s == [] then Miss
    else
      var one := ParseRecord(crc, s);
      if one.Failed? then Bad(one.status)
      else if StrnMatches(want, NameUnits(one.record.name)) then Hit(one.record)
      else Find(crc, s[one.size..], want)
  }

  /** The name of a record, as text. */
  function NameOf(r: Record): seq<Char16> {
    CString(NameUnits(r.name))
  }

  predicate Terminated(r: Record) {
    0 in NameUnits(r.name)
  }

  /** rs[i] is the first record with the name. */
  predicate IsFirst(rs: seq<Record>, want: seq<Char16>, i: nat) {
    i < |rs| && NameOf(rs[i]) == want && forall j :: 0 <= j < i ==> NameOf(rs[j]) != want
  }

  function FirstNamed(rs: seq<Record>, want: seq<Char16>): (r: Option<nat>)
    ensures r.Some? ==> IsFirst(rs, want, r.value)
    ensures r.None? ==> forall i :: 0 <= i < |rs| ==> NameOf(rs[i]) != want
  {
    hide NameOf;
    if rs == [] then None
    else if NameOf(rs[0]) == want then Some(0)
    else
      var r := FirstNamed(rs[1..], want);
      assert forall i :: 0 < i < |rs| ==> rs[i] == rs[1..][i - 1];
      if r.None? then None else Some(r.value + 1)
  }

  lemma NoneNamed(want: seq<Char16>)
    ensures FirstNamed([], want) == None
  {}

  lemma FirstNamedCons(rs: seq<Record>, want: seq<Char16>)
    requires rs != []
    ensures var r := FirstNamed(rs[1..], want);
            FirstNamed(rs, want)
              == if NameOf(rs[0]) == want then Some(0) else if r.None? then None else Some(r.value + 1)
  {
    hide NameOf;
  }

  lemma MatchIsName(r: Record, want: seq<Char16>)
    requires Terminated(r) && 0 !in want
    ensures StrnMatches(want, NameUnits(r.name)) <==> NameOf(r) == want
  {
    hide StrnMatches, NameUnits, CString;
    StrnMatchesExact(want, NameUnits(r.name));
  }

  /** On a list whose names are all terminated, the query finds the first record with the name, or none has it. */
  lemma {:induction false} FindIsFirst(crc: Checksum, s: seq<Byte>, rs: seq<Record>, want: seq<Char16>)
    requires Records(crc, s) == Some(rs) && 0 !in want && forall r <- rs :: Terminated(r)
    ensures var first := FirstNamed(rs, want);
            Find(crc, s, want) == if first.Some? then Hit(rs[first.value]) else Miss
    decreases |s|
  {
    hide ParseRecord, StrnMatches, NameUnits, NameOf, Terminated, FirstNamed;
    if s == [] {
      NoneNamed(want);
    } else {
      var one := ParseRecord(crc, s);
      assert rs[0] == one.record && rs[0] in rs;
      MatchIsName(rs[0], want);
      FirstNamedCons(rs, want);
      assert Records(crc, s[one.size..]).value == rs[1..];
      FindIsFirst(crc, s[one.size..], rs[1..], want);
    }
  }

  /** CONF_VAR_NAME_LEN */
  const NAME_LIMIT := 0x80

  /** The name bytes the firmware encoder writes: the text up to its first NUL, at most 129 units with the NUL. */
  function FirmwareName(name: seq<Char16>): (s: seq<Byte>)
    ensures |s| <= 2 * (NAME_LIMIT + 1)
  {
    var text := CString(name);
    var n := if |text| < NAME_LIMIT then |text| else NAME_LIMIT;
    UnitsToBytes((text + [0])[..n + 1])
  }

  lemma {:induction false} CStringLength(us: seq<Char16>)
    ensures |CString(us)| <= |us| && (|CString(us)| == |us| <==> 0 !in us)
    ensures 0 !in us ==> CString(us) == us
  {
    if us != [] {
      CStringLength(us[1..]);
      assert us == [us[0]] + us[1..];
    }
  }

  /**
   The firmware encoder and the Python one write the same bytes if and only if the name has at
   most 128 units and no NUL inside.
   */
  lemma EncodersAgreeIff(crc: Checksum, v: Variable)
    requires CreateRecord(crc, v).Some?
    ensures |v.name| <= 128 && 0 !in v.name <==>
            CreateRecord(crc, v).value == Frame(crc, FirmwareName(v.name), v.guid, v.attributes, v.data)
  {
    hide Payload, UnitsToBytes, CString;
    CStringLength(v.name);
    if |v.name| <= NAME_LIMIT {
      assert (v.name + [0])[..|v.name| + 1] == v.name + [0];
    }
  }

  // ------------------------------------------------ the tools' lists, in firmware

  /** The record that create_vlist_buffer writes for a variable. */
  function ToRecord(v: Variable): Record {
    Record(UnitsToBytes(v.name + [0]), v.guid, v.attributes, v.data)
  }

  function ToRecords(vs: seq<Variable>): (rs: seq<Record>)
    ensures |rs| == |vs| && forall i :: 0 <= i < |vs| ==> rs[i] == ToRecord(vs[i])
  {
    if vs == [] then [] else [ToRecord(vs[0])] + ToRecords(vs[1..])
  }

  lemma {:induction false} WriteAllIsAllBytes(crc: Checksum, vs: seq<Variable>)
    requires WriteAll(crc, vs).Some?
    ensures WriteAll(crc, vs).value == AllBytes(crc, ToRecords(vs))
  {
    hide Frame, UnitsToBytes;
    if vs != [] {
      WriteAllIsAllBytes(crc, vs[1..]);
      assert ToRecords(vs)[1..] == ToRecords(vs[1..]);
      assert CreateRecord(crc, vs[0]) == Some(RecordBytes(crc, ToRecord(vs[0])));
    }
  }

  lemma {:induction false} UnitsOfBytes(us: seq<Char16>)
    ensures NameUnits(UnitsToBytes(us)) == us
  {
    if us != [] {
      UnitsOfBytes(us[1..]);
      var s := UnitsToBytes(us);
      var two := ToLittleEndian(us[0], 2);
      assert two == [us[0] % 256] + ToLittleEndian(us[0] / 256, 1);
      assert ToLittleEndian(us[0] / 256, 1) == [us[0] / 256 % 256] + ToLittleEndian(us[0] / 256 / 256, 0);
      assert s[2..] == UnitsToBytes(us[1..]);
      assert [us[0]] + us[1..] == us;
    }
  }

  lemma {:induction false} CStringTerminated(us: seq<Char16>)
    requires 0 !in us
    ensures CString(us + [0]) == us
  {
    if us != [] {
      CStringTerminated(us[1..]);
      assert (us + [0])[1..] == us[1..] + [0];
    }
  }

  /** The firmware reads a list written by the tools as the same variables, in order. */
  lemma FirmwareReadsTools(crc: Checksum, vs: seq<Variable>)
    requires forall v <- vs :: Storable(v) && 0 !in v.name && Fits(ToRecord(v))
    ensures WriteAll(crc, vs).Some?
    ensures var rs := Records(crc, WriteAll(crc, vs).value);
            && rs.Some? && |rs.value| == |vs|
            && forall i :: 0 <= i < |vs| ==>
                 var r := rs.value[i];
                 && CString(NameUnits(r.name)) == vs[i].name && 0 in NameUnits(r.name)
                 && r.guid == vs[i].guid && r.attributes == vs[i].attributes && r.data == vs[i].data
  {
    hide Storable, NoOuterNuls, UnitsToBytes, NameUnits, CString, Records, AllBytes, ReadAll;
    ReadWriteAll(crc, vs);
    WriteAllIsAllBytes(crc, vs);
    RecordsExact(crc, WriteAll(crc, vs).value, ToRecords(vs));
    forall i | 0 <= i < |vs|
      ensures CString(NameUnits(ToRecord(vs[i]).name)) == vs[i].name && 0 in NameUnits(ToRecord(vs[i]).name)
    {
      UnitsOfBytes(vs[i].name + [0]);
      CStringTerminated(vs[i].name);
      assert (vs[i].name + [0])[|vs[i].name|] == 0;
    }
  }
}
