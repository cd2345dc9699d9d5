/**
 Byte strings, optional results, and the little-endian integer packing that both
 the Python tools (struct.pack with a '<' prefix) and the firmware library use.
 */
module Bytes {
  type Byte = b: int | 0 <= b < 256

  datatype Option<+T> = None | Some(value: T)

  function Pow256(k: nat): (p: nat)
    ensures p >= 1
  {
    if k == 0 then 1 else 256 * Pow256(k - 1)
  }

  /** The k low bytes of n, least significant first. */
  function ToLittleEndian(n: nat, k: nat): (s: seq<Byte>)
    ensures |s| == k
  {
    if k == 0 then [] else [n % 256] + ToLittleEndian(n / 256, k - 1)
  }

  function FromLittleEndian(s: seq<Byte>): nat {
    if s == [] then 0 else s[0] + 256 * FromLittleEndian(s[1..])
  }

  lemma {:induction false} LittleEndianRoundTrip(n: nat, k: nat)
    requires n < Pow256(k)
    ensures FromLittleEndian(ToLittleEndian(n, k)) == n
  {
    if k > 0 {
      LittleEndianRoundTrip(n / 256, k - 1);
      assert ToLittleEndian(n, k)[1..] == ToLittleEndian(n / 256, k - 1);
    }
  }

  lemma {:induction false} FromLittleEndianBound(s: seq<Byte>)
    ensures FromLittleEndian(s) < Pow256(|s|)
  {
    if s != [] {
      FromLittleEndianBound(s[1..]);
    }
  }

  lemma {:induction false} BytesRoundTrip(s: seq<Byte>)
    ensures ToLittleEndian(FromLittleEndian(s), |s|) == s
  {
    if s != [] {
      BytesRoundTrip(s[1..]);
      assert (s[0] + 256 * FromLittleEndian(s[1..])) / 256 == FromLittleEndian(s[1..]);
    }
  }

  /** The fixed-width integer types a knob can have. */
  datatype IntType = U8 | I8 | U16 | I16 | U32 | I32 | U64 | I64 {
    function Width(): nat {
      match this
      case U8 => 1 case I8 => 1
      case U16 => 2 case I16 => 2
      case U32 => 4 case I32 => 4
      case U64 => 8 case I64 => 8
    }

    function Min(): int {
      match this
      case I8 => -0x80 case I16 => -0x8000
      case I32 => -0x8000_0000 case I64 => -0x8000_0000_0000_0000
      case _ => 0
    }

    function Max(): int {
      match this
      case U8 => 0xff case I8 => 0x7f
      case U16 => 0xffff case I16 => 0x7fff
      case U32 => 0xffff_ffff case I32 => 0x7fff_ffff
      case U64 => 0xffff_ffff_ffff_ffff case I64 => 0x7fff_ffff_ffff_ffff
    }

    /** How many distinct values the type has: 256 to the power Width(). */
    function Modulus(): nat {
      Max() - Min() + 1
    }
  }

  /** struct.pack for one integer: an error outside the type's range. */
  function Pack(t: IntType, n: int): (r: Option<seq<Byte>>)
    ensures r.Some? <==> t.Min() <= n <= t.Max()
    ensures r.Some? ==> |r.value| == t.Width()
  {
    if n < t.Min() || n > t.Max() then None
    else Some(ToLittleEndian(if n < 0 then n + t.Modulus() else n, t.Width()))
  }

  /** struct.unpack for one integer: an error unless the length is exact. */
  function Unpack(t: IntType, s: seq<Byte>): (r: Option<int>)
    ensures r.Some? <==> |s| == t.Width()
  {
    if |s| != t.Width() then None
    else
      var u := FromLittleEndian(s);
      Some(if u > t.Max() then u - t.Modulus() else u)
  }

  lemma ModulusIsPower(t: IntType)
    ensures t.Modulus() == Pow256(t.Width())
  {
    assert Pow256(1) == 256;
    assert Pow256(2) == 256 * Pow256(1);
    assert Pow256(3) == 256 * Pow256(2);
    assert Pow256(4) == 256 * Pow256(3);
    assert Pow256(5) == 256 * Pow256(4);
    assert Pow256(6) == 256 * Pow256(5);
    assert Pow256(7) == 256 * Pow256(6);
    assert Pow256(8) == 256 * Pow256(7);
  }

  lemma PackRoundTrip(t: IntType, n: int)
    requires t.Min() <= n <= t.Max()
    ensures Unpack(t, Pack(t, n).value) == Some(n)
  {
    ModulusIsPower(t);
    var u := if n < 0 then n + t.Modulus() else n;
    LittleEndianRoundTrip(u, t.Width());
  }

  lemma UnpackInRange(t: IntType, s: seq<Byte>)
    requires |s| == t.Width()
    ensures t.Min() <= Unpack(t, s).value <= t.Max()
    ensures Pack(t, Unpack(t, s).value) == Some(s)
  {
    ModulusIsPower(t);
    FromLittleEndianBound(s);
    BytesRoundTrip(s);
  }

  /** Python's s[lo:hi]: negative bounds count from the end, out-of-range bounds clamp. */
  function PySlice<T>(s: seq<T>, lo: int, hi: int): (r: seq<T>)
    ensures |r| <= |s|
    ensures 0 <= lo <= hi <= |s| ==> r == s[lo..hi]
  {
    var a := PyIndex(|s|, lo);
    var b := PyIndex(|s|, hi);
    if a <= b then s[a..b] else []
  }

  function PyIndex(n: nat, i: int): (k: nat)
    ensures k <= n
  {
    if i >= 0 then (if i <= n then i else n)
    else if i + n >= 0 then i + n
    else 0
  }
}
