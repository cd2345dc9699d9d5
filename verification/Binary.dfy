/**
 The binary form of a value: size_in_bytes, object_to_binary and binary_to_object.
 */
module Binary {
  import opened Bytes
  import opened Formats

  function Size(f: Format): nat
    decreases f
  {
    match f
    case IntF(t) => t.Width()
    case BoolF => 1
    case EnumF(_, _, _) => 4
    case ArrayF(e, n) => Size(e) * n
    case StructF(_, ms) => SizeFields(ms)
  }

  function SizeFields(ms: seq<Member>): nat
    decreases ms
  {
    if ms == [] then 0 else Size(ms[0].format) + SizeFields(ms[1..])
  }

  /** bool(v), as struct.pack("<?", v) takes it. */
  predicate Truthy(v: Value) {
    match v
    case Null => false
    case Num(n) => n != 0
    case Flag(b) => b
    case Arr(es) => es != []
    case Rec(fs) => fs != []
  }

  function PackNumber(t: IntType, v: Value): Option<seq<Byte>> {
    var n := AsNumber(v);
    if n.None? then None else Pack(t, n.value)
  }

  /** object_to_binary; None stands for any exception. */
  function Encode(f: Format, v: Value): Option<seq<Byte>>
    decreases f, 0, 0
  {
    match f
    case IntF(t) => PackNumber(t, v)
    case BoolF => Some([if Truthy(v) then 1 else 0])
    case EnumF(_, _, _) => PackNumber(U32, v)
    case ArrayF(e, _) => if v.Arr? then EncodeElems(e, v.elems) else None
    case StructF(_, ms) => if v.Rec? && |v.fields| == |ms| then EncodeFields(ms, v.fields) else None
  }

  function EncodeElems(e: Format, vs: seq<Value>): Option<seq<Byte>>
    decreases e, 1, |vs|
  {
    if vs == [] then Some([])
    else
      var a := Encode(e, vs[0]);
      var b := EncodeElems(e, vs[1..]);
      if a.None? || b.None? then None else Some(a.value + b.value)
  }

  function EncodeFields(ms: seq<Member>, vs: seq<Value>): Option<seq<Byte>>
    requires |ms| == |vs|
    decreases ms, 0, 0
  {
    if ms == [] then Some([])
    else
      var a := Encode(ms[0].format, vs[0]);
      var b := EncodeFields(ms[1..], vs[1..]);
      // The code asserts that each member has exactly its own size.
      if a.None? || b.None? || |a.value| != Size(ms[0].format) then None else Some(a.value + b.value)
  }

  /** binary_to_object; None stands for struct.error. */
  function Decode(f: Format, s: seq<Byte>): Option<Value>
    decreases f, 0, 0
  {
    match f
    case IntF(t) => var n := Unpack(t, s); if n.None? then None else Some(Num(n.value))
    case BoolF => if |s| != 1 then None else Some(Flag(s[0] != 0))
    case EnumF(_, _, _) => var n := Unpack(U32, s); if n.None? then None else Some(Num(n.value))
    case ArrayF(e, n) => var vs := DecodeElems(e, n, s); if vs.None? then None else Some(Arr(vs.value))
    case StructF(_, ms) => var vs := DecodeFields(ms, s); if vs.None? then None else Some(Rec(vs.value))
  }

  function DecodeElems(e: Format, n: nat, s: seq<Byte>): (r: Option<seq<Value>>)
    ensures r.Some? ==> |r.value| == n
    decreases e, 1, n
  {
    if n == 0 then Some([])
    else
      var a := Decode(e, PySlice(s, 0, Size(e)));
      var b := DecodeElems(e, n - 1, PySlice(s, Size(e), |s|));
      if a.None? || b.None? then None else Some([a.value] + b.value)
  }

  function DecodeFields(ms: seq<Member>, s: seq<Byte>): (r: Option<seq<Value>>)
    ensures r.Some? ==> |r.value| == |ms|
    decreases ms, 0, 0
  {
    if ms == [] then Some([])
    else
      var a := Decode(ms[0].format, PySlice(s, 0, Size(ms[0].format)));
      var b := DecodeFields(ms[1..], PySlice(s, Size(ms[0].format), |s|));
      if a.None? || b.None? then None else Some([a.value] + b.value)
  }

  /** Whatever encodes has exactly its format's size and decodes to itself. */
  lemma {:induction false} DecodeEncode(f: Format, v: Value)
    requires Shaped(f, v) && Encode(f, v).Some?
    ensures |Encode(f, v).value| == Size(f)
    ensures Decode(f, Encode(f, v).value) == Some(v)
    decreases f, 0, 0
  {
    match f
    case IntF(t) => PackRoundTrip(t, v.n);
    case BoolF =>
    case EnumF(_, _, _) => PackRoundTrip(U32, v.n);
    case ArrayF(e, n) => DecodeEncodeElems(e, v.elems);
    case StructF(_, ms) => DecodeEncodeFields(ms, v.fields);
  }

  lemma {:induction false} DecodeEncodeElems(e: Format, vs: seq<Value>)
    requires (forall x <- vs :: Shaped(e, x)) && EncodeElems(e, vs).Some?
    ensures |EncodeElems(e, vs).value| == Size(e) * |vs|
    ensures DecodeElems(e, |vs|, EncodeElems(e, vs).value) == Some(vs)
    decreases e, 1, |vs|
  {
    hide PySlice, Size, Encode, Decode, Shaped;
    if vs != [] {
      DecodeEncode(e, vs[0]);
      DecodeEncodeElems(e, vs[1..]);
      var a, b := Encode(e, vs[0]).value, EncodeElems(e, vs[1..]).value;
      SliceParts(a, b);
      MulSucc(Size(e), |vs| - 1);
      assert [vs[0]] + vs[1..] == vs;
    }
  }

  lemma SliceParts<T>(a: seq<T>, b: seq<T>)
    ensures PySlice(a + b, 0, |a|) == a
    ensures PySlice(a + b, |a|, |a + b|) == b
  {}

  lemma MulSucc(a: int, n: int)
    ensures a * (n + 1) == a * n + a
  {}

  lemma {:induction false} DecodeEncodeFields(ms: seq<Member>, vs: seq<Value>)
    requires |ms| == |vs|
    requires (forall i :: 0 <= i < |ms| ==> Shaped(ms[i].format, vs[i])) && EncodeFields(ms, vs).Some?
    ensures |EncodeFields(ms, vs).value| == SizeFields(ms)
    ensures DecodeFields(ms, EncodeFields(ms, vs).value) == Some(vs)
    decreases ms, 0, 0
  {
    hide PySlice, Encode, Decode, Shaped;
    if ms != [] {
      assert Shaped(ms[0].format, vs[0]);
      DecodeEncode(ms[0].format, vs[0]);
      forall i | 0 <= i < |ms| - 1 ensures Shaped(ms[1..][i].format, vs[1..][i]) {
        assert Shaped(ms[i + 1].format, vs[i + 1]);
      }
      DecodeEncodeFields(ms[1..], vs[1..]);
      var a, b := Encode(ms[0].format, vs[0]).value, EncodeFields(ms[1..], vs[1..]).value;
      SliceParts(a, b);
      assert [vs[0]] + vs[1..] == vs;
    }
  }

  /** Every enum number is a 32-bit unsigned number, the width enums are packed in. */
  predicate EnumsFit(f: Format) {
    match f
    case EnumF(_, values, _) => forall e <- values :: 0 <= e.number <= 0xffff_ffff
    case ArrayF(e, _) => EnumsFit(e)
    case StructF(_, ms) => forall m <- ms :: EnumsFit(m.format)
    case _ => true
  }

  /** Every number at an enum leaf of the value is one. */
  predicate EnumLeavesFit(f: Format, v: Value)
    requires Shaped(f, v)
  {
    match f
    case EnumF(_, _, _) => 0 <= v.n <= 0xffff_ffff
    case ArrayF(e, _) => forall x <- v.elems :: EnumLeavesFit(e, x)
    case StructF(_, ms) => forall i :: 0 <= i < |ms| ==> EnumLeavesFit(ms[i].format, v.fields[i])
    case _ => true
  }

  /** A value inside its format's own bounds encodes if and only if its enum numbers fit 32 bits. */
  lemma {:induction false} InBoundsEncodesIff(f: Format, v: Value)
    requires FormatOk(f) && Shaped(f, v) && InBounds(f, v, Implicit(f, Min), Implicit(f, Max))
    ensures Encode(f, v).Some? <==> EnumLeavesFit(f, v)
    decreases f, 0, 0
  {
    match f
    case IntF(_) =>
    case BoolF =>
    case EnumF(_, _, _) =>
    case ArrayF(e, n) =>
      ArrayInBounds(f, v, Implicit(f, Min), Implicit(f, Max));
      forall x | x in v.elems ensures Encode(e, x).Some? <==> EnumLeavesFit(e, x) {
        var i :| 0 <= i < n && v.elems[i] == x;
        assert InBounds(e, v.elems[i], Implicit(f, Min).elems[i], Implicit(f, Max).elems[i]);
        InBoundsEncodesIff(e, x);
      }
      ElemsEncodeIff(e, v.elems);
    case StructF(_, ms) =>
      forall i | 0 <= i < |ms|
        ensures Encode(ms[i].format, v.fields[i]).Some? <==> EnumLeavesFit(ms[i].format, v.fields[i])
      {
        MemberInOwnBounds(f, v, i);
        InBoundsEncodesIff(ms[i].format, v.fields[i]);
      }
      FieldsEncodeIff(ms, v.fields);
  }

  lemma {:induction false} InBoundsFit(f: Format, v: Value)
    requires FormatOk(f) && EnumsFit(f) && Shaped(f, v)
    requires InBounds(f, v, Implicit(f, Min), Implicit(f, Max))
    ensures EnumLeavesFit(f, v)
    decreases f
  {
    match f
    case IntF(_) =>
    case BoolF =>
    case EnumF(_, _, _) =>
    case ArrayF(e, n) =>
      ArrayInBounds(f, v, Implicit(f, Min), Implicit(f, Max));
      forall x | x in v.elems ensures EnumLeavesFit(e, x) {
        var i :| 0 <= i < n && v.elems[i] == x;
        assert InBounds(e, v.elems[i], Implicit(f, Min).elems[i], Implicit(f, Max).elems[i]);
        InBoundsFit(e, x);
      }
    case StructF(_, ms) =>
      forall i | 0 <= i < |ms| ensures EnumLeavesFit(ms[i].format, v.fields[i]) {
        MemberInOwnBounds(f, v, i);
        InBoundsFit(ms[i].format, v.fields[i]);
      }
  }

  lemma {:induction false} ElemsEncodeIff(e: Format, vs: seq<Value>)
    ensures EncodeElems(e, vs).Some? <==> forall x <- vs :: Encode(e, x).Some?
    decreases |vs|
  {
    hide Encode;
    if vs != [] {
      ElemsEncodeIff(e, vs[1..]);
      assert vs[0] in vs && forall x <- vs[1..] :: x in vs;
      assert forall x <- vs :: x == vs[0] || x in vs[1..];
    }
  }

  lemma {:induction false} FieldsEncodeIff(ms: seq<Member>, vs: seq<Value>)
    requires |ms| == |vs| && forall i :: 0 <= i < |ms| ==> Shaped(ms[i].format, vs[i])
    ensures EncodeFields(ms, vs).Some? <==> forall i :: 0 <= i < |ms| ==> Encode(ms[i].format, vs[i]).Some?
    decreases |ms|
  {
    hide Encode, Shaped;
    if ms != [] {
      assert Shaped(ms[0].format, vs[0]);
      if Encode(ms[0].format, vs[0]).Some? {
        DecodeEncode(ms[0].format, vs[0]);
      }
      forall i | 0 <= i < |ms| - 1
        ensures Shaped(ms[1..][i].format, vs[1..][i])
        ensures Encode(ms[1..][i].format, vs[1..][i]) == Encode(ms[i + 1].format, vs[i + 1])
      {
        assert Shaped(ms[i + 1].format, vs[i + 1]);
      }
      FieldsEncodeIff(ms[1..], vs[1..]);
      if forall i :: 0 <= i < |ms| - 1 ==> Encode(ms[1..][i].format, vs[1..][i]).Some? {
        forall i | 0 < i < |ms| ensures Encode(ms[i].format, vs[i]).Some? {
          assert Encode(ms[1..][i - 1].format, vs[1..][i - 1]).Some?;
        }
      }
    }
  }

  /**
   The codec law for a value that passed a bounds check against bounds the schema
   loader accepted: it encodes, to exactly size_in_bytes bytes, and decodes to itself.
   */
  lemma CheckedValueRoundTrips(f: Format, v: Value, lo: Value, hi: Value)
    requires FormatOk(f) && EnumsFit(f)
    requires Shaped(f, v) && BoundShaped(f, lo) && BoundShaped(f, hi)
    requires InBounds(f, lo, Implicit(f, Min), Implicit(f, Max))
    requires InBounds(f, hi, Implicit(f, Min), Implicit(f, Max))
    requires InBounds(f, v, lo, hi)
    ensures Encode(f, v).Some? && |Encode(f, v).value| == Size(f)
    ensures Decode(f, Encode(f, v).value) == Some(v)
  {
    ImplicitBoundShaped(f, Min);
    ImplicitBoundShaped(f, Max);
    BoundsNest(f, v, lo, hi, Implicit(f, Min), Implicit(f, Max));
    InBoundsFit(f, v);
    InBoundsEncodesIff(f, v);
    DecodeEncode(f, v);
  }

  /** Decoding succeeds on every byte string of the right size, with a well-shaped value. */
  lemma {:induction false} DecodeTotal(f: Format, s: seq<Byte>)
    requires |s| == Size(f)
    ensures Decode(f, s).Some?
    decreases f, 0, 0
  {
    match f
    case IntF(_) =>
    case BoolF =>
    case EnumF(_, _, _) =>
    case ArrayF(e, n) => DecodeElemsTotal(e, n, s);
    case StructF(_, ms) => DecodeFieldsTotal(ms, s);
  }

  lemma {:induction false} DecodeElemsTotal(e: Format, n: nat, s: seq<Byte>)
    requires |s| == Size(e) * n
    ensures DecodeElems(e, n, s).Some?
    decreases e, 1, n
  {
    hide PySlice, Size, Decode;
    if n != 0 {
      MulSucc(Size(e), n - 1);
      SliceParts(s[..Size(e)], s[Size(e)..]);
      assert s[..Size(e)] + s[Size(e)..] == s;
      DecodeTotal(e, s[..Size(e)]);
      DecodeElemsTotal(e, n - 1, s[Size(e)..]);
    }
  }

  lemma {:induction false} DecodeFieldsTotal(ms: seq<Member>, s: seq<Byte>)
    requires |s| == SizeFields(ms)
    ensures DecodeFields(ms, s).Some?
    decreases ms, 0, 0
  {
    hide PySlice, Decode;
    if ms != [] {
      var k := Size(ms[0].format);
      SliceParts(s[..k], s[k..]);
      assert s[..k] + s[k..] == s;
      DecodeTotal(ms[0].format, s[..k]);
      DecodeFieldsTotal(ms[1..], s[k..]);
    }
  }

  /** Whatever decodes is well shaped. */
  lemma {:induction false} DecodeShaped(f: Format, s: seq<Byte>)
    requires Decode(f, s).Some?
    ensures Shaped(f, Decode(f, s).value)
    decreases f, 0, 0
  {
    match f
    case IntF(_) =>
    case BoolF =>
    case EnumF(_, _, _) =>
    case ArrayF(e, n) => DecodeElemsShaped(e, n, s);
    case StructF(_, ms) => DecodeFieldsShaped(ms, s);
  }

  lemma {:induction false} DecodeElemsShaped(e: Format, n: nat, s: seq<Byte>)
    requires DecodeElems(e, n, s).Some?
    ensures forall x <- DecodeElems(e, n, s).value :: Shaped(e, x)
    decreases e, 1, n
  {
    hide PySlice, Size, Decode, Shaped;
    if n != 0 {
      DecodeShaped(e, PySlice(s, 0, Size(e)));
      DecodeElemsShaped(e, n - 1, PySlice(s, Size(e), |s|));
      var rest := DecodeElems(e, n - 1, PySlice(s, Size(e), |s|)).value;
      assert DecodeElems(e, n, s).value == [Decode(e, PySlice(s, 0, Size(e))).value] + rest;
    }
  }

  lemma {:induction false} DecodeFieldsShaped(ms: seq<Member>, s: seq<Byte>)
    requires DecodeFields(ms, s).Some?
    ensures var vs := DecodeFields(ms, s).value;
            forall i :: 0 <= i < |ms| ==> Shaped(ms[i].format, vs[i])
    decreases ms, 0, 0
  {
    hide PySlice, Size, Decode, Shaped;
    if ms != [] {
      var k := Size(ms[0].format);
      DecodeShaped(ms[0].format, PySlice(s, 0, k));
      DecodeFieldsShaped(ms[1..], PySlice(s, k, |s|));
      var vs, rest := DecodeFields(ms, s).value, DecodeFields(ms[1..], PySlice(s, k, |s|)).value;
      forall i | 0 <= i < |ms| ensures Shaped(ms[i].format, vs[i]) {
        if i > 0 {
          assert Shaped(ms[1..][i - 1].format, rest[i - 1]);
        }
      }
    }
  }

  // ------------------------------------------------ encoding what was decoded

  /** Byte k of the binary form is a bool. */
  predicate BoolAt(f: Format, k: int)
    decreases f, 0, 0
  {
    match f
    case BoolF => k == 0
    case ArrayF(e, n) => BoolAtElem(e, n, k)
    case StructF(_, ms) => BoolAtField(ms, k)
    case _ => false
  }

  predicate BoolAtElem(e: Format, n: nat, k: int)
    decreases e, 1, n
  {
    n > 0 && if k < Size(e) then BoolAt(e, k) else BoolAtElem(e, n - 1, k - Size(e))
  }

  predicate BoolAtField(ms: seq<Member>, k: int)
    decreases ms, 0, 0
  {
    ms != [] && if k < Size(ms[0].format) then BoolAt(ms[0].format, k) else BoolAtField(ms[1..], k - Size(ms[0].format))
  }

  /** The bytes with every bool byte as struct.pack writes it: any byte but 0 reads as True. */
  function Normal(f: Format, s: seq<Byte>): seq<Byte> {
    seq(|s|, k requires 0 <= k < |s| => if BoolAt(f, k) && s[k] != 0 then 1 else s[k])
  }

  function NormalElems(e: Format, n: nat, s: seq<Byte>): seq<Byte> {
    seq(|s|, k requires 0 <= k < |s| => if BoolAtElem(e, n, k) && s[k] != 0 then 1 else s[k])
  }

  function NormalFields(ms: seq<Member>, s: seq<Byte>): seq<Byte> {
    seq(|s|, k requires 0 <= k < |s| => if BoolAtField(ms, k) && s[k] != 0 then 1 else s[k])
  }

  lemma NormalElemsParts(e: Format, n: nat, s: seq<Byte>)
    requires n > 0 && |s| >= Size(e)
    ensures NormalElems(e, n, s) == Normal(e, s[..Size(e)]) + NormalElems(e, n - 1, s[Size(e)..])
  {
    hide Size;
  }

  lemma NormalFieldsParts(ms: seq<Member>, s: seq<Byte>)
    requires ms != [] && |s| >= Size(ms[0].format)
    ensures var m := Size(ms[0].format);
            NormalFields(ms, s) == Normal(ms[0].format, s[..m]) + NormalFields(ms[1..], s[m..])
  {
    hide Size;
  }

  /** Bytes of the right size decode to a value that encodes to the same bytes, but for bools written as 0 and 1. */
  lemma {:induction false} EncodeDecode(f: Format, s: seq<Byte>)
    requires |s| == Size(f)
    ensures Decode(f, s).Some? && Encode(f, Decode(f, s).value) == Some(Normal(f, s))
    decreases f, 0, 0
  {
    hide NormalElems, NormalFields;
    match f
    case IntF(t) =>
      UnpackInRange(t, s);
      assert Normal(f, s) == s;
    case BoolF => assert Normal(f, s) == [if s[0] != 0 then 1 else 0];
    case EnumF(_, _, _) =>
      UnpackInRange(U32, s);
      assert Normal(f, s) == s;
    case ArrayF(e, n) =>
      EncodeDecodeElems(e, n, s);
      NormalOfArray(e, n, s);
    case StructF(_, ms) =>
      EncodeDecodeFields(ms, s);
      NormalOfStruct(f, s);
  }

  lemma NormalOfArray(e: Format, n: nat, s: seq<Byte>)
    ensures Normal(ArrayF(e, n), s) == NormalElems(e, n, s)
  {
    hide BoolAtElem;
  }

  lemma NormalOfStruct(f: Format, s: seq<Byte>)
    requires f.StructF?
    ensures Normal(f, s) == NormalFields(f.members, s)
  {
    hide BoolAtField;
  }

  lemma {:induction false} EncodeDecodeElems(e: Format, n: nat, s: seq<Byte>)
    requires |s| == Size(e) * n
    ensures DecodeElems(e, n, s).Some? && EncodeElems(e, DecodeElems(e, n, s).value) == Some(NormalElems(e, n, s))
    decreases e, 1, n
  {
    hide PySlice, Size, Decode, Encode, Normal, NormalElems;
    if n == 0 {
      assert s == [];
      NoBytes(e, n, []);
    } else {
      var m := Size(e);
      MulSucc(m, n - 1);
      var a, b := s[..m], s[m..];
      assert a + b == s;
      SliceParts(a, b);
      EncodeDecode(e, a);
      EncodeDecodeElems(e, n - 1, b);
      NormalElemsParts(e, n, s);
      var x, vs := Decode(e, a).value, DecodeElems(e, n - 1, b).value;
      assert DecodeElems(e, n, s) == Some([x] + vs) && ([x] + vs)[1..] == vs;
    }
  }

  lemma {:induction false} EncodeDecodeFields(ms: seq<Member>, s: seq<Byte>)
    requires |s| == SizeFields(ms)
    ensures DecodeFields(ms, s).Some? && EncodeFields(ms, DecodeFields(ms, s).value) == Some(NormalFields(ms, s))
    decreases ms, 0, 0
  {
    hide PySlice, Decode, Encode, Normal, NormalFields;
    if ms == [] {
      assert s == [];
      NoBytes(BoolF, 0, ms);
    } else {
      var f, m := ms[0].format, Size(ms[0].format);
      var a, b := s[..m], s[m..];
      assert a + b == s;
      SliceParts(a, b);
      EncodeDecode(f, a);
      EncodeDecodeFields(ms[1..], b);
      NormalFieldsParts(ms, s);
      NormalSize(f, a);
      var x, vs := Decode(f, a).value, DecodeFields(ms[1..], b).value;
      assert DecodeFields(ms, s) == Some([x] + vs) && ([x] + vs)[1..] == vs;
    }
  }

  lemma NoBytes(e: Format, n: nat, ms: seq<Member>)
    ensures NormalElems(e, n, []) == [] && NormalFields(ms, []) == []
  {}

  lemma NormalSize(f: Format, s: seq<Byte>)
    ensures |Normal(f, s)| == |s|
  {}

  /** Bytes of the right size are what their own value encodes to if and only if every bool byte is 0 or 1. */
  lemma EncodeDecodeIff(f: Format, s: seq<Byte>)
    requires |s| == Size(f)
    ensures Decode(f, s).Some?
    ensures Encode(f, Decode(f, s).value) == Some(s) <==> forall k :: 0 <= k < |s| && BoolAt(f, k) ==> s[k] <= 1
  {
    hide Decode, Encode, Size, BoolAt;
    EncodeDecode(f, s);
    var t := Normal(f, s);
    if forall k :: 0 <= k < |s| && BoolAt(f, k) ==> s[k] <= 1 {
      assert t == s;
    }
    if t == s {
      forall k | 0 <= k < |s| && BoolAt(f, k) ensures s[k] <= 1 {
        assert t[k] == s[k];
      }
    }
  }
}
