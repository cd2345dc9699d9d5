/**
 The variable list format (the layout of the UEFI Shell dmpstore command) as the
 Python tools write and read it. The CRC is any function from bytes to 32 bits.
 */
module VarList {
  import opened Bytes

  type Word = n: int | 0 <= n <= 0xffff_ffff
  type Char16 = c: int | 0 <= c <= 0xffff
  type Guid = g: seq<Byte> | |g| == 16 witness seq(16, _ => 0)
  type Checksum = seq<Byte> -> Word

  /** UEFIVariable: the name in UTF-16 code units, without its terminator. */
  datatype Variable = Variable(name: seq<Char16>, guid: Guid, data: seq<Byte>, attributes: Word)

  function UnitsToBytes(us: seq<Char16>): (s: seq<Byte>)
    ensures |s| == 2 * |us|
  {
    if us == [] then [] else ToLittleEndian(us[0], 2) + UnitsToBytes(us[1..])
  }

  /** UTF-16LE decoding, code unit by code unit; an odd length is an error. */
  function BytesToUnits(s: seq<Byte>): Option<seq<Char16>> {
    if s == [] then Some([])
    else if |s| == 1 then None
    else
      var rest := BytesToUnits(s[2..]);
      if rest.None? then None
      else
        var unit: int := s[1];
        Some([s[0] + 256 * unit] + rest.value)
  }

  /** The bytes the checksum covers. */
  function Payload(name: seq<Byte>, guid: Guid, attributes: Word, data: seq<Byte>): seq<Byte> {
    ToLittleEndian(|name|, 4) + ToLittleEndian(|data|, 4)
    + (name + (guid + (ToLittleEndian(attributes, 4) + data)))
  }

  /** One complete record. */
  function Frame(crc: Checksum, name: seq<Byte>, guid: Guid, attributes: Word, data: seq<Byte>): (s: seq<Byte>)
    ensures |s| == 32 + |name| + |data|
  {
    var payload := Payload(name, guid, attributes, data);
    payload + ToLittleEndian(crc(payload), 4)
  }

  /** create_vlist_buffer; None when a size does not fit a signed 32-bit field. */
  function CreateRecord(crc: Checksum, v: Variable): (r: Option<seq<Byte>>)
    ensures r.Some? ==> |r.value| == 32 + 2 * (|v.name| + 1) + |v.data|
  {
    var name := UnitsToBytes(v.name + [0]);
    if |name| > I32.Max() || |v.data| > I32.Max() then None
    else Some(Frame(crc, name, v.guid, v.attributes, v.data))
  }

  function StripNulsLeft(us: seq<Char16>): seq<Char16> {
    if us != [] && us[0] == 0 then StripNulsLeft(us[1..]) else us
  }

  function StripNulsRight(us: seq<Char16>): seq<Char16> {
    if us != [] && us[|us| - 1] == 0 then StripNulsRight(us[..|us| - 1]) else us
  }

  /** The elements of a payload whose checksum was right, by Python slices. */
  function DecodePayload(payload: seq<Byte>, nameSize: int): Option<Variable> {
    var units := BytesToUnits(PySlice(payload, 8, nameSize + 8));
    var guid := PySlice(payload, nameSize + 8, nameSize + 24);
    var attributes := Unpack(U32, PySlice(payload, nameSize + 24, nameSize + 28));
    if units.None? || |guid| != 16 || attributes.None? then None
    else
      UnpackInRange(U32, PySlice(payload, nameSize + 24, nameSize + 28));
      Some(Variable(StripNulsRight(StripNulsLeft(units.value)), guid,
                    PySlice(payload, nameSize + 28, |payload|), attributes.value))
  }

  datatype ReadResult = ReadResult(variable: Variable, rest: seq<Byte>)

  /** One turn of the loop of read_vlist_from_buffer; None stands for any exception. */
  function ReadRecord(crc: Checksum, s: seq<Byte>): (r: Option<ReadResult>)
    ensures r.Some? ==> |r.value.rest| + 12 <= |s|
  {
    var nameSize := Unpack(I32, PySlice(s, 0, 4));
    var s1 := PySlice(s, 4, |s|);
    var dataSize := Unpack(I32, PySlice(s1, 0, 4));
    var s2 := PySlice(s1, 4, |s1|);
    if nameSize.None? || dataSize.None? then None
    else
      var remaining := nameSize.value + 20 + dataSize.value;
      var payload := PySlice(s, 0, 4) + PySlice(s1, 0, 4) + PySlice(s2, 0, remaining);
      var s3 := PySlice(s2, remaining, |s2|);
      var sum := Unpack(U32, PySlice(s3, 0, 4));
      if sum.None? || sum.value != crc(payload) then None
      else
        var v := DecodePayload(payload, nameSize.value);
        if v.None? then None else Some(ReadResult(v.value, PySlice(s3, 4, |s3|)))
  }

  /** read_vlist_from_buffer. */
  function ReadAll(crc: Checksum, s: seq<Byte>): Option<seq<Variable>>
    decreases |s|
  {
    if s == [] then Some([])
    else
      var r := ReadRecord(crc, s);
      if r.None? then None
      else
        var rest := ReadAll(crc, r.value.rest);
        if rest.None? then None else Some([r.value.variable] + rest.value)
  }

  /** The reader's loop. It ends on every byte string, whatever the size fields say. */
  method ReadVlistFromBuffer(crc: Checksum, buffer: seq<Byte>) returns (r: Option<seq<Variable>>)
    ensures r == ReadAll(crc, buffer)
  {
    hide ReadRecord;
    var variables: seq<Variable> := [];
    var tempArr := buffer;
    while |tempArr| != 0
      invariant ReadAll(crc, tempArr).None? <==> ReadAll(crc, buffer).None?
      invariant ReadAll(crc, buffer).Some? ==>
                  ReadAll(crc, buffer).value == variables + ReadAll(crc, tempArr).value
      decreases |tempArr|
    {
      var one := ReadRecord(crc, tempArr);
      if one.None? {
        return None;
      }
      variables := variables + [one.value.variable];
      tempArr := one.value.rest;
    }
    assert variables + [] == variables;
    return Some(variables);
  }

  // ------------------------------------------------------------------ round trip

  lemma {:induction false} UnitsRoundTrip(us: seq<Char16>)
    ensures BytesToUnits(UnitsToBytes(us)) == Some(us)
  {
    if us != [] {
      UnitsRoundTrip(us[1..]);
      var s := UnitsToBytes(us);
      var two := ToLittleEndian(us[0], 2);
      assert two == [us[0] % 256] + ToLittleEndian(us[0] / 256, 1);
      assert ToLittleEndian(us[0] / 256, 1) == [us[0] / 256 % 256] + ToLittleEndian(us[0] / 256 / 256, 0);
      assert s[2..] == UnitsToBytes(us[1..]);
      assert [us[0]] + us[1..] == us;
    }
  }

  /** A name that loses nothing when NULs are stripped from both ends. */
  predicate NoOuterNuls(us: seq<Char16>) {
    us != [] && us[0] != 0 && us[|us| - 1] != 0
  }

  lemma StripTerminator(us: seq<Char16>)
    requires NoOuterNuls(us)
    ensures StripNulsRight(StripNulsLeft(us + [0])) == us
  {
    assert (us + [0])[..|us|] == us;
  }

  /** Two concatenated pieces, taken apart at the seam by Python slices. */
  lemma SliceSeam<T>(a: seq<T>, b: seq<T>, k: int)
    requires k == |a|
    ensures PySlice(a + b, 0, k) == a && PySlice(a + b, k, |a + b|) == b
  {}

  lemma SmallPack(n: nat)
    requires n <= I32.Max()
    ensures Unpack(I32, ToLittleEndian(n, 4)) == Some(n)
  {
    PackRoundTrip(I32, n);
  }

  lemma WordPack(n: Word)
    ensures Unpack(U32, ToLittleEndian(n, 4)) == Some(n)
  {
    PackRoundTrip(U32, n);
  }

  /** The pieces of a payload sit where the reader slices them out. */
  lemma PayloadParts<T>(h1: seq<T>, h2: seq<T>, name: seq<T>, guid: seq<T>, attributes: seq<T>, data: seq<T>)
    requires |h1| == |h2| == |attributes| == 4 && |guid| == 16
    ensures var p := h1 + h2 + (name + (guid + (attributes + data)));
            var n := |name|;
            && PySlice(p, 8, n + 8) == name && PySlice(p, n + 8, n + 24) == guid
            && PySlice(p, n + 24, n + 28) == attributes && PySlice(p, n + 28, |p|) == data
  {}

  lemma PayloadDecodes(name: seq<Byte>, guid: Guid, attributes: Word, data: seq<Byte>)
    requires BytesToUnits(name).Some?
    ensures DecodePayload(Payload(name, guid, attributes, data), |name|)
         == Some(Variable(StripNulsRight(StripNulsLeft(BytesToUnits(name).value)), guid, data, attributes))
  {
    hide BytesToUnits, StripNulsLeft, StripNulsRight, ToLittleEndian, FromLittleEndian, PySlice;
    PayloadParts(ToLittleEndian(|name|, 4), ToLittleEndian(|data|, 4), name, guid, ToLittleEndian(attributes, 4), data);
    WordPack(attributes);
  }

  lemma FrameAssociates<T>(h1: seq<T>, h2: seq<T>, body: seq<T>, sum: seq<T>, rest: seq<T>)
    ensures h1 + h2 + body + sum + rest == h1 + (h2 + (body + (sum + rest)))
  {}

  /** One turn on a buffer in five pieces, the first two of which are the size fields. */
  lemma ReadPieces(crc: Checksum, h1: seq<Byte>, h2: seq<Byte>, body: seq<Byte>, sum: seq<Byte>, rest: seq<Byte>,
                   nameSize: int, dataSize: nat)
    requires |h1| == |h2| == |sum| == 4 && |body| == nameSize + 20 + dataSize
    requires Unpack(I32, h1) == Some(nameSize) && Unpack(I32, h2) == Some(dataSize)
    ensures ReadRecord(crc, h1 + (h2 + (body + (sum + rest))))
         == if Unpack(U32, sum) != Some(crc(h1 + h2 + body)) || DecodePayload(h1 + h2 + body, nameSize).None? then None
            else Some(ReadResult(DecodePayload(h1 + h2 + body, nameSize).value, rest))
  {
    hide DecodePayload, Unpack, PySlice;
    SliceSeam(h1, h2 + (body + (sum + rest)), 4);
    SliceSeam(h2, body + (sum + rest), 4);
    SliceSeam(body, sum + rest, |body|);
    SliceSeam(sum, rest, 4);
  }

  /** Reading a record at the front of a buffer returns its variable and what follows it. */
  lemma ReadFrame(crc: Checksum, name: seq<Byte>, guid: Guid, attributes: Word, data: seq<Byte>, rest: seq<Byte>)
    requires |name| <= I32.Max() && |data| <= I32.Max() && BytesToUnits(name).Some?
    ensures ReadRecord(crc, Frame(crc, name, guid, attributes, data) + rest)
         == Some(ReadResult(Variable(StripNulsRight(StripNulsLeft(BytesToUnits(name).value)), guid, data, attributes),
                             rest))
  {
    hide ReadRecord, ToLittleEndian, BytesToUnits, StripNulsLeft, StripNulsRight, Unpack;
    var h1, h2 := ToLittleEndian(|name|, 4), ToLittleEndian(|data|, 4);
    var body := name + (guid + (ToLittleEndian(attributes, 4) + data));
    var payload := Payload(name, guid, attributes, data);
    var sum := ToLittleEndian(crc(payload), 4);
    SmallPack(|name|);
    SmallPack(|data|);
    WordPack(crc(payload));
    PayloadDecodes(name, guid, attributes, data);
    ReadPieces(crc, h1, h2, body, sum, rest, |name|, |data|);
    FrameAssociates(h1, h2, body, sum, rest);
  }

  // ------------------------------------------------------- what the reader accepts

  /** The bytes of a name that reads as the variable's name, in a record whose sizes fit their fields. */
  predicate Names(name: seq<Byte>, v: Variable) {
    && BytesToUnits(name).Some? && StripNulsRight(StripNulsLeft(BytesToUnits(name).value)) == v.name
    && |name| <= I32.Max() && |v.data| <= I32.Max()
  }

  /** Neither size field at the front is negative. */
  predicate SizesPlain(s: seq<Byte>) {
    |s| >= 8 ==> Unpack(I32, s[..4]).value >= 0 && Unpack(I32, s[4..8]).value >= 0
  }

  lemma SmallUnpack(s: seq<Byte>)
    requires |s| == 4 && Unpack(I32, s).value >= 0
    ensures ToLittleEndian(Unpack(I32, s).value, 4) == s && Unpack(I32, s).value <= I32.Max()
  {
    UnpackInRange(I32, s);
  }

  /** What the reader does with the sizes n and d when the record is all there. */
  lemma ReadWhole(crc: Checksum, s: seq<Byte>, n: nat, d: nat)
    requires 32 + n + d <= |s| && Unpack(I32, s[..4]) == Some(n) && Unpack(I32, s[4..8]) == Some(d)
    ensures var payload, sum := s[..28 + n + d], s[28 + n + d..32 + n + d];
            ReadRecord(crc, s)
              == if Unpack(U32, sum) != Some(crc(payload)) || DecodePayload(payload, n).None? then None
                 else Some(ReadResult(DecodePayload(payload, n).value, s[32 + n + d..]))
  {
    hide DecodePayload, Unpack, ReadRecord;
    var h1, h2, body := s[..4], s[4..8], s[8..28 + n + d];
    var sum, rest := s[28 + n + d..32 + n + d], s[32 + n + d..];
    assert s == h1 + (h2 + (body + (sum + rest)));
    assert s[..28 + n + d] == h1 + h2 + body;
    ReadPieces(crc, h1, h2, body, sum, rest, n, d);
  }

  /** A buffer that ends inside a record is refused. */
  lemma ReadShort(crc: Checksum, s: seq<Byte>)
    requires SizesPlain(s)
    requires |s| >= 8 ==> 32 + Unpack(I32, s[..4]).value + Unpack(I32, s[4..8]).value > |s|
    ensures ReadRecord(crc, s).None?
  {
    hide DecodePayload, Unpack, PySlice;
    if |s| >= 8 {
      assert PySlice(s, 4, |s|) == s[4..] && PySlice(s[4..], 0, 4) == s[4..8] && PySlice(s[4..], 4, |s| - 4) == s[8..];
      var k := Unpack(I32, s[..4]).value + 20 + Unpack(I32, s[4..8]).value;
      NoSumLeft(s[8..], k);
    }
  }

  lemma NoSumLeft<T>(s: seq<T>, k: nat)
    requires k + 4 > |s|
    ensures |PySlice(PySlice(s, k, |s|), 0, 4)| < 4
  {}

  /**
   With plain size fields the reader accepts exactly the complete records: sizes, name, GUID,
   attributes, data and the checksum of these, and it returns what follows them.
   */
  lemma ReadExact(crc: Checksum, s: seq<Byte>, v: Variable, rest: seq<Byte>)
    ensures SizesPlain(s) && ReadRecord(crc, s) == Some(ReadResult(v, rest)) <==>
            exists name: seq<Byte> :: Names(name, v) && s == Frame(crc, name, v.guid, v.attributes, v.data) + rest
  {
    hide ReadRecord, Frame, BytesToUnits, StripNulsLeft, StripNulsRight, Unpack;
    if SizesPlain(s) && ReadRecord(crc, s) == Some(ReadResult(v, rest)) {
      var name := AcceptedFrame(crc, s, v, rest);
    }
    if name: seq<Byte> :| Names(name, v) && s == Frame(crc, name, v.guid, v.attributes, v.data) + rest {
      ReadFrame(crc, name, v.guid, v.attributes, v.data, rest);
      FrameSizes(crc, name, v.guid, v.attributes, v.data, rest);
    }
  }

  lemma FrameSizes(crc: Checksum, name: seq<Byte>, guid: Guid, attributes: Word, data: seq<Byte>, rest: seq<Byte>)
    requires |name| <= I32.Max() && |data| <= I32.Max()
    ensures SizesPlain(Frame(crc, name, guid, attributes, data) + rest)
  {
    hide ToLittleEndian, Unpack;
    var s := Frame(crc, name, guid, attributes, data) + rest;
    assert s[..4] == ToLittleEndian(|name|, 4) && s[4..8] == ToLittleEndian(|data|, 4);
    SmallPack(|name|);
    SmallPack(|data|);
  }

  lemma AcceptedFrame(crc: Checksum, s: seq<Byte>, v: Variable, rest: seq<Byte>) returns (name: seq<Byte>)
    requires SizesPlain(s) && ReadRecord(crc, s) == Some(ReadResult(v, rest))
    ensures Names(name, v) && s == Frame(crc, name, v.guid, v.attributes, v.data) + rest
  {
    hide ReadRecord, DecodePayload, BytesToUnits, StripNulsLeft, StripNulsRight, Unpack, ToLittleEndian, PySlice;
    if |s| < 8 {
      ReadShort(crc, s);
      assert false;
    }
    SmallUnpack(s[..4]);
    SmallUnpack(s[4..8]);
    var n, d := Unpack(I32, s[..4]).value, Unpack(I32, s[4..8]).value;
    if 32 + n + d > |s| {
      ReadShort(crc, s);
      assert false;
    }
    ReadWhole(crc, s, n, d);
    name := s[8..8 + n];
    var p, sum := s[..28 + n + d], s[28 + n + d..32 + n + d];
    assert p[..4] == s[..4] && p[4..8] == s[4..8] && p[8..8 + n] == name;
    PayloadAccepted(p, n, d, v);
    WordUnpack(sum);
    assert s == p + sum + s[32 + n + d..];
  }

  lemma WordUnpack(s: seq<Byte>)
    requires |s| == 4
    ensures 0 <= Unpack(U32, s).value <= U32.Max() && ToLittleEndian(Unpack(U32, s).value, 4) == s
  {
    UnpackInRange(U32, s);
  }

  lemma PayloadGlue<T>(p: seq<T>, n: nat)
    requires 28 + n <= |p|
    ensures p == p[..4] + p[4..8] + (p[8..8 + n] + (p[8 + n..24 + n] + (p[24 + n..28 + n] + p[28 + n..])))
    ensures |p[8..8 + n]| == n && |p[28 + n..|p|]| == |p| - 28 - n && p[28 + n..|p|] == p[28 + n..]
  {}

  /** A payload that decodes is the payload of the variable it decodes to. */
  lemma PayloadAccepted(p: seq<Byte>, n: nat, d: nat, v: Variable)
    requires |p| == 28 + n + d && n <= I32.Max() && d <= I32.Max() && DecodePayload(p, n) == Some(v)
    requires p[..4] == ToLittleEndian(n, 4) && p[4..8] == ToLittleEndian(d, 4)
    ensures Names(p[8..8 + n], v) && p == Payload(p[8..8 + n], v.guid, v.attributes, v.data)
  {
    hide BytesToUnits, StripNulsLeft, StripNulsRight, Unpack, ToLittleEndian, PySlice;
    WordUnpack(p[24 + n..28 + n]);
    PayloadGlue(p, n);
  }

  /** A record whose last word is any other number is refused. */
  lemma WrongSumRefused(crc: Checksum, name: seq<Byte>, guid: Guid, attributes: Word, data: seq<Byte>, bad: Word,
                        rest: seq<Byte>)
    requires |name| <= I32.Max() && |data| <= I32.Max() && bad != crc(Payload(name, guid, attributes, data))
    ensures ReadRecord(crc, Payload(name, guid, attributes, data) + ToLittleEndian(bad, 4) + rest).None?
  {
    hide ToLittleEndian, ReadRecord, DecodePayload, Unpack;
    var p, n, d := Payload(name, guid, attributes, data), |name|, |data|;
    var s := p + ToLittleEndian(bad, 4) + rest;
    assert s[..4] == ToLittleEndian(n, 4) && s[4..8] == ToLittleEndian(d, 4);
    assert s[..28 + n + d] == p && s[28 + n + d..32 + n + d] == ToLittleEndian(bad, 4);
    SmallPack(n);
    SmallPack(d);
    WordPack(bad);
    ReadWhole(crc, s, n, d);
  }

  /**
   A negative name size down to -8 is not an error: the name is empty, and GUID, attributes and
   data are cut out that many bytes earlier, inside the size fields.
   */
  lemma NegativeNameReads(crc: Checksum, s: seq<Byte>, n: int, d: nat)
    requires -8 <= n < 0 && 32 + n + d <= |s|
    requires Unpack(I32, s[..4]) == Some(n) && Unpack(I32, s[4..8]) == Some(d)
    ensures 0 <= Unpack(U32, s[24 + n..28 + n]).value <= U32.Max()
    ensures var payload, sum := s[..28 + n + d], s[28 + n + d..32 + n + d];
            ReadRecord(crc, s)
              == if Unpack(U32, sum) != Some(crc(payload)) then None
                 else Some(ReadResult(Variable([], s[8 + n..24 + n], s[28 + n..28 + n + d],
                                               Unpack(U32, s[24 + n..28 + n]).value),
                                      s[32 + n + d..]))
  {
    hide Unpack, DecodePayload, ReadRecord;
    var h1, h2, body := s[..4], s[4..8], s[8..28 + n + d];
    var sum, rest := s[28 + n + d..32 + n + d], s[32 + n + d..];
    assert s == h1 + (h2 + (body + (sum + rest)));
    assert s[..28 + n + d] == h1 + h2 + body;
    ReadPieces(crc, h1, h2, body, sum, rest, n, d);
    WordUnpack(s[24 + n..28 + n]);
    NegativePayload(s, s[..28 + n + d], n, d);
  }

  lemma NegativePayload(s: seq<Byte>, payload: seq<Byte>, n: int, d: nat)
    requires -8 <= n < 0 && 32 + n + d <= |s| && payload == s[..28 + n + d]
    ensures 0 <= Unpack(U32, s[24 + n..28 + n]).value <= U32.Max()
    ensures DecodePayload(payload, n)
         == Some(Variable([], s[8 + n..24 + n], s[28 + n..28 + n + d], Unpack(U32, s[24 + n..28 + n]).value))
  {
    hide Unpack;
    WordUnpack(s[24 + n..28 + n]);
    assert PySlice(payload, 8, n + 8) == [];
    assert payload[8 + n..24 + n] == s[8 + n..24 + n] && payload[24 + n..28 + n] == s[24 + n..28 + n];
    assert payload[28 + n..|payload|] == s[28 + n..28 + n + d];
  }

  /** No size field that the sizes before it lead to is negative. */
  predicate AllPlain(s: seq<Byte>)
    decreases |s|
  {
    SizesPlain(s)
    && (|s| >= 8 ==>
          var n, d := Unpack(I32, s[..4]).value, Unpack(I32, s[4..8]).value;
          32 + n + d <= |s| ==> AllPlain(s[32 + n + d..]))
  }

  /** The records of variables whose names are spelled by these bytes. */
  function Frames(crc: Checksum, names: seq<seq<Byte>>, vs: seq<Variable>): seq<Byte>
    requires |names| == |vs|
  {
    if vs == [] then []
    else Frame(crc, names[0], vs[0].guid, vs[0].attributes, vs[0].data) + Frames(crc, names[1..], vs[1..])
  }

  predicate Spells(crc: Checksum, s: seq<Byte>, names: seq<seq<Byte>>, vs: seq<Variable>) {
    |names| == |vs| && (forall i :: 0 <= i < |vs| ==> Names(names[i], vs[i])) && s == Frames(crc, names, vs)
  }

  /**
   A buffer without negative size fields reads as vs if and only if it is the concatenation of
   complete records with right checksums for exactly these variables, in this order.
   */
  lemma ReadAllExact(crc: Checksum, s: seq<Byte>, vs: seq<Variable>)
    ensures AllPlain(s) && ReadAll(crc, s) == Some(vs) <==> exists names :: Spells(crc, s, names, vs)
  {
    hide AllPlain, ReadAll, Spells;
    if AllPlain(s) && ReadAll(crc, s) == Some(vs) {
      var names := AcceptedFrames(crc, s, vs);
    }
    if names :| Spells(crc, s, names, vs) {
      FramesRead(crc, s, names, vs);
    }
  }

  /** Where the record the reader accepts ends. */
  lemma RestPlain(crc: Checksum, s: seq<Byte>)
    requires s != [] && AllPlain(s) && ReadRecord(crc, s).Some?
    ensures AllPlain(ReadRecord(crc, s).value.rest)
  {
    hide ReadRecord, Unpack, DecodePayload;
    if |s| < 8 {
      ReadShort(crc, s);
      assert false;
    } else {
      SmallUnpack(s[..4]);
      SmallUnpack(s[4..8]);
      var n, d := Unpack(I32, s[..4]).value, Unpack(I32, s[4..8]).value;
      if 32 + n + d <= |s| {
        ReadWhole(crc, s, n, d);
      } else {
        ReadShort(crc, s);
        assert false;
      }
    }
  }

  lemma {:induction false} AcceptedFrames(crc: Checksum, s: seq<Byte>, vs: seq<Variable>)
    returns (names: seq<seq<Byte>>)
    requires AllPlain(s) && ReadAll(crc, s) == Some(vs)
    ensures Spells(crc, s, names, vs)
    decreases |s|
  {
    hide ReadRecord, Frame, Names;
    if s == [] {
      names := [];
    } else {
      var one := ReadRecord(crc, s).value;
      var name := AcceptedFrame(crc, s, one.variable, one.rest);
      RestPlain(crc, s);
      var more := AcceptedFrames(crc, one.rest, vs[1..]);
      names := [name] + more;
      assert names[1..] == more && vs == [one.variable] + vs[1..];
    }
  }

  lemma {:induction false} FramesRead(crc: Checksum, s: seq<Byte>, names: seq<seq<Byte>>, vs: seq<Variable>)
    requires Spells(crc, s, names, vs)
    ensures AllPlain(s) && ReadAll(crc, s) == Some(vs)
    decreases |vs|
  {
    hide ReadRecord, Frame, Names, Unpack;
    if vs != [] {
      var v, rest := vs[0], Frames(crc, names[1..], vs[1..]);
      FramesRead(crc, rest, names[1..], vs[1..]);
      assert Names(names[0], v);
      FrontFrame(crc, names[0], v, rest);
      assert [v] + vs[1..] == vs;
    }
  }

  lemma FrontFrame(crc: Checksum, name: seq<Byte>, v: Variable, rest: seq<Byte>)
    requires Names(name, v) && AllPlain(rest)
    ensures var s := Frame(crc, name, v.guid, v.attributes, v.data) + rest;
            s != [] && AllPlain(s) && ReadRecord(crc, s) == Some(ReadResult(v, rest))
  {
    hide ToLittleEndian, ReadRecord, Unpack, BytesToUnits, StripNulsLeft, StripNulsRight;
    var s := Frame(crc, name, v.guid, v.attributes, v.data) + rest;
    ReadFrame(crc, name, v.guid, v.attributes, v.data, rest);
    assert s[..4] == ToLittleEndian(|name|, 4) && s[4..8] == ToLittleEndian(|v.data|, 4);
    SmallPack(|name|);
    SmallPack(|v.data|);
    assert s[32 + |name| + |v.data|..] == rest;
  }

  /** Exactly the byte strings of even length decode, and only from their own encoding. */
  lemma {:induction false} UnitsExact(s: seq<Byte>)
    ensures BytesToUnits(s).Some? <==> |s| % 2 == 0
    ensures BytesToUnits(s).Some? ==> UnitsToBytes(BytesToUnits(s).value) == s
    decreases |s|
  {
    if |s| >= 2 {
      UnitsExact(s[2..]);
      var unit: int := s[1];
      var u := s[0] + 256 * unit;
      assert ToLittleEndian(u, 2) == [u % 256] + ToLittleEndian(u / 256, 1);
      assert ToLittleEndian(unit, 1) == [unit % 256] + ToLittleEndian(unit / 256, 0);
      if BytesToUnits(s).Some? {
        assert BytesToUnits(s).value[1..] == BytesToUnits(s[2..]).value;
        assert s == [s[0], s[1]] + s[2..];
      }
    }
  }

  /** strip("\0"): nothing but NULs is taken, from both ends, and no NUL is left there. */
  lemma StripNulsExact(us: seq<Char16>) returns (left: seq<Char16>, right: seq<Char16>)
    ensures var r := StripNulsRight(StripNulsLeft(us));
            && us == left + r + right && (forall c <- left :: c == 0) && (forall c <- right :: c == 0)
            && (r == [] || NoOuterNuls(r))
  {
    left := StripLeftExact(us);
    right := StripRightExact(StripNulsLeft(us));
  }

  lemma {:induction false} StripLeftExact(us: seq<Char16>) returns (left: seq<Char16>)
    ensures us == left + StripNulsLeft(us) && (forall c <- left :: c == 0)
    ensures StripNulsLeft(us) != [] ==> StripNulsLeft(us)[0] != 0
  {
    if us != [] && us[0] == 0 {
      var more := StripLeftExact(us[1..]);
      left := [us[0]] + more;
    } else {
      left := [];
    }
  }

  lemma {:induction false} StripRightExact(us: seq<Char16>) returns (right: seq<Char16>)
    ensures us == StripNulsRight(us) + right && (forall c <- right :: c == 0)
    ensures StripNulsRight(us) != [] ==> StripNulsRight(us)[|StripNulsRight(us)| - 1] != 0
    decreases |us|
  {
    if us != [] && us[|us| - 1] == 0 {
      var more := StripRightExact(us[..|us| - 1]);
      right := more + [us[|us| - 1]];
    } else {
      right := [];
    }
  }

  /** A variable whose record can be written and read back. */
  predicate Storable(v: Variable) {
    NoOuterNuls(v.name) && 2 * (|v.name| + 1) <= I32.Max() && |v.data| <= I32.Max()
  }

  lemma ReadCreated(crc: Checksum, v: Variable, rest: seq<Byte>)
    requires Storable(v)
    ensures CreateRecord(crc, v).Some?
    ensures ReadRecord(crc, CreateRecord(crc, v).value + rest) == Some(ReadResult(v, rest))
  {
    UnitsRoundTrip(v.name + [0]);
    StripTerminator(v.name);
    ReadFrame(crc, UnitsToBytes(v.name + [0]), v.guid, v.attributes, v.data, rest);
  }

  /** The records of all variables, one after the other. */
  function WriteAll(crc: Checksum, vs: seq<Variable>): Option<seq<Byte>> {
    if vs == [] then Some([])
    else
      var a, b := CreateRecord(crc, vs[0]), WriteAll(crc, vs[1..]);
      if a.None? || b.None? then None else Some(a.value + b.value)
  }

  /** Reading the concatenation of the encoded records returns the variables, in order. */
  lemma {:induction false} ReadWriteAll(crc: Checksum, vs: seq<Variable>)
    requires forall v <- vs :: Storable(v)
    ensures WriteAll(crc, vs).Some? && ReadAll(crc, WriteAll(crc, vs).value) == Some(vs)
  {
    hide ReadRecord, CreateRecord, Storable;
    if vs != [] {
      ReadWriteAll(crc, vs[1..]);
      ReadCreated(crc, vs[0], WriteAll(crc, vs[1..]).value);
      assert [vs[0]] + vs[1..] == vs;
    }
  }

  // ------------------------------------------------------ where a record's data is

  function VariableSize(v: Variable): nat {
    32 + 2 * (|v.name| + 1) + |v.data|
  }

  /** The bytes of the first j records. */
  function SpanOf(vs: seq<Variable>, j: nat): nat
    requires j <= |vs|
  {
    if j == 0 then 0 else VariableSize(vs[0]) + SpanOf(vs[1..], j - 1)
  }

  lemma RecordLength(crc: Checksum, v: Variable)
    requires CreateRecord(crc, v).Some?
    ensures |CreateRecord(crc, v).value| == VariableSize(v) >= 4 + |v.data|
  {}

  lemma FrameData(crc: Checksum, v: Variable)
    requires CreateRecord(crc, v).Some?
    ensures var s := CreateRecord(crc, v).value;
            s[VariableSize(v) - 4 - |v.data|..VariableSize(v) - 4] == v.data
  {
    hide ToLittleEndian, UnitsToBytes;
  }

  lemma {:induction false} WriteAllLength(crc: Checksum, vs: seq<Variable>)
    requires WriteAll(crc, vs).Some?
    ensures |WriteAll(crc, vs).value| == SpanOf(vs, |vs|)
  {
    hide CreateRecord, VariableSize;
    if vs != [] {
      RecordLength(crc, vs[0]);
      WriteAllLength(crc, vs[1..]);
    }
  }

  /** The bytes before record j, the record, and the bytes after it. */
  lemma {:induction false} SplitAtRecord(crc: Checksum, vs: seq<Variable>, j: nat) returns (p: seq<Byte>, t: seq<Byte>)
    requires WriteAll(crc, vs).Some? && j < |vs|
    ensures CreateRecord(crc, vs[j]).Some?
    ensures WriteAll(crc, vs).value == p + CreateRecord(crc, vs[j]).value + t && |p| == SpanOf(vs, j)
    decreases j
  {
    hide CreateRecord, VariableSize;
    var a, b := CreateRecord(crc, vs[0]).value, WriteAll(crc, vs[1..]).value;
    if j == 0 {
      p, t := [], b;
      assert [] + a == a;
    } else {
      var q;
      q, t := SplitAtRecord(crc, vs[1..], j - 1);
      p := a + q;
      RecordLength(crc, vs[0]);
      var r := CreateRecord(crc, vs[j]).value;
      assert a + (q + r + t) == a + q + r + t;
    }
  }

  lemma SliceInside<T>(p: seq<T>, r: seq<T>, t: seq<T>, k: nat, n: nat)
    requires k + n <= |r|
    ensures (p + r + t)[|p| + k..|p| + k + n] == r[k..k + n]
  {}

  /** The data of record j, at the place its neighbours' sizes put it. */
  lemma RecordDataAt(crc: Checksum, vs: seq<Variable>, j: nat)
    requires WriteAll(crc, vs).Some? && j < |vs|
    ensures var s := WriteAll(crc, vs).value;
            var at := SpanOf(vs, j) + VariableSize(vs[j]) - 4 - |vs[j].data|;
            && |s| == SpanOf(vs, |vs|) && 0 <= at <= at + |vs[j].data| <= |s|
            && s[at..at + |vs[j].data|] == vs[j].data
  {
    hide CreateRecord, WriteAll, SpanOf, VariableSize;
    WriteAllLength(crc, vs);
    var p, t := SplitAtRecord(crc, vs, j);
    RecordLength(crc, vs[j]);
    FrameData(crc, vs[j]);
    SliceInside(p, CreateRecord(crc, vs[j]).value, t, VariableSize(vs[j]) - 4 - |vs[j].data|, |vs[j].data|);
  }
}
