/**
 Bit fields in little-endian byte arrays: get_bits_from_bytes and set_bits_to_bytes, with
 Python's unbounded integers and bitwise operators.
 */
module BitField {
  import opened Bytes

  /** Bit i of an integer in two's complement; division and remainder here round down. */
  predicate Bit(n: int, i: nat)
    decreases i
  {
    if i == 0 then n % 2 == 1 else Bit(n / 2, i - 1)
  }

  /** a & b for a non-negative a. */
  function And(a: nat, b: int): nat {
    if a == 0 then 0 else (if a % 2 == 1 && b % 2 == 1 then 1 else 0) + 2 * And(a / 2, b / 2)
  }

  /** a | b for non-negative operands. */
  function Or(a: nat, b: nat): nat
    decreases a + b
  {
    if a == 0 && b == 0 then 0 else (if a % 2 == 1 || b % 2 == 1 then 1 else 0) + 2 * Or(a / 2, b / 2)
  }

  /** ~a */
  function Not(a: int): int {
    -a - 1
  }

  function ShiftLeft(n: nat, k: nat): nat {
    if k == 0 then n else 2 * ShiftLeft(n, k - 1)
  }

  function ShiftRight(n: nat, k: nat): nat {
    if k == 0 then n else ShiftRight(n / 2, k - 1)
  }

  /** (1 << length) - 1 */
  function Mask(length: nat): nat {
    ShiftLeftPositive(1, length);
    ShiftLeft(1, length) - 1
  }

  lemma {:induction false} ShiftLeftPositive(n: nat, k: nat)
    requires n > 0
    ensures ShiftLeft(n, k) > 0
  {
    if k > 0 {
      ShiftLeftPositive(n, k - 1);
    }
  }

  // --------------------------------------------------------------- bits of operators

  lemma {:induction false} AndBit(a: nat, b: int, i: nat)
    ensures Bit(And(a, b), i) <==> Bit(a, i) && Bit(b, i)
    decreases i
  {
    if a == 0 {
      ZeroBit(i);
    } else if i > 0 {
      AndBit(a / 2, b / 2, i - 1);
      assert And(a, b) / 2 == And(a / 2, b / 2);
    }
  }

  lemma OrStep(a: nat, b: nat)
    requires a != 0 || b != 0
    ensures Or(a, b) / 2 == Or(a / 2, b / 2)
    ensures Or(a, b) % 2 == 1 <==> a % 2 == 1 || b % 2 == 1
  {}

  lemma OrLow(a: nat, b: nat)
    requires a != 0 || b != 0
    ensures Bit(Or(a, b), 0) <==> Bit(a, 0) || Bit(b, 0)
  {
    OrStep(a, b);
    hide Or;
  }

  lemma OrHalf(a: nat, b: nat, i: nat)
    requires (a != 0 || b != 0) && i > 0
    ensures Bit(Or(a, b), i) <==> Bit(Or(a / 2, b / 2), i - 1)
  {
    OrStep(a, b);
    hide Or;
  }

  lemma {:induction false} OrBit(a: nat, b: nat, i: nat)
    ensures Bit(Or(a, b), i) <==> Bit(a, i) || Bit(b, i)
    decreases i
  {
    if a == 0 && b == 0 {
      ZeroBit(i);
    } else if i > 0 {
      OrBit(a / 2, b / 2, i - 1);
      OrHalf(a, b, i);
    } else {
      OrLow(a, b);
    }
  }

  lemma {:induction false} NotBit(a: int, i: nat)
    ensures Bit(Not(a), i) <==> !Bit(a, i)
    decreases i
  {
    if i > 0 {
      NotBit(a / 2, i - 1);
      assert Not(a) / 2 == Not(a / 2);
    }
  }

  lemma {:induction false} ZeroBit(i: nat)
    ensures !Bit(0, i)
  {
    if i > 0 {
      ZeroBit(i - 1);
    }
  }

  lemma {:induction false} ShiftLeftBit(n: nat, k: nat, i: nat)
    ensures Bit(ShiftLeft(n, k), i) <==> i >= k && Bit(n, i - k)
    decreases k
  {
    if k > 0 && i > 0 {
      ShiftLeftBit(n, k - 1, i - 1);
      assert ShiftLeft(n, k) / 2 == ShiftLeft(n, k - 1);
    }
  }

  lemma {:induction false} ShiftRightBit(n: nat, k: nat, i: nat)
    ensures Bit(ShiftRight(n, k), i) <==> Bit(n, i + k)
    decreases k
  {
    if k > 0 {
      ShiftRightBit(n / 2, k - 1, i);
    }
  }

  lemma {:induction false} MaskBit(length: nat, i: nat)
    ensures Bit(Mask(length), i) <==> i < length
    decreases length
  {
    hide Mask;
    MaskDoubles(length);
    if length == 0 {
      ZeroBit(i);
    } else if i > 0 {
      MaskBit(length - 1, i - 1);
      assert Mask(length) / 2 == Mask(length - 1);
    }
  }

  lemma MaskDoubles(length: nat)
    ensures Mask(length) == if length == 0 then 0 else 2 * Mask(length - 1) + 1
  {}

  /** Two non-negative integers with the same bits are equal. */
  lemma {:induction false} SameBits(a: nat, b: nat)
    requires forall i: nat :: Bit(a, i) <==> Bit(b, i)
    ensures a == b
    decreases a + b
  {
    assert Bit(a, 0) <==> Bit(b, 0);
    if a > 0 || b > 0 {
      forall i: nat ensures Bit(a / 2, i) <==> Bit(b / 2, i) {
        assert Bit(a, i + 1) <==> Bit(b, i + 1);
      }
      SameBits(a / 2, b / 2);
    }
  }

  /** value & mask is the value modulo the power of two, for negative values too. */
  lemma {:induction false} MaskIsModulo(v: int, length: nat)
    ensures And(Mask(length), v) == v % ShiftLeft(1, length)
    decreases length
  {
    ShiftLeftPositive(1, length);
    if length > 0 {
      ShiftLeftPositive(1, length - 1);
      MaskIsModulo(v / 2, length - 1);
      var p := ShiftLeft(1, length - 1);
      assert Mask(length) / 2 == Mask(length - 1) && Mask(length) % 2 == 1;
      ModuloDouble(v, p);
    }
  }

  lemma ModuloDouble(v: int, p: nat)
    requires p > 0
    ensures v % (2 * p) == v % 2 + 2 * ((v / 2) % p)
  {
    var q, r := (v / 2) / p, (v / 2) % p;
    assert v / 2 == p * q + r;
    var x := v % 2 + 2 * r;
    assert v == (2 * p) * q + x by {
      assert v == 2 * (v / 2) + v % 2;
      assert 2 * (p * q) == (2 * p) * q;
    }
    assert 0 <= x < 2 * p;
    ModuloUnique(v, 2 * p, q, x);
  }

  lemma ModuloUnique(v: int, m: int, q: int, x: int)
    requires m > 0 && v == m * q + x && 0 <= x < m
    ensures v % m == x
  {
    var q', x' := v / m, v % m;
    var d := q - q';
    Distribute(m, q, q');
    assert m * d == x' - x;
    if d >= 1 {
      AtLeast(m, d);
    } else if d <= -1 {
      AtLeast(m, -d);
      Distribute(m, 0, d);
    }
  }

  lemma Distribute(m: int, a: int, b: int)
    ensures m * (a - b) == m * a - m * b
  {}

  lemma AtLeast(m: int, d: int)
    requires m > 0 && d >= 1
    ensures m * d >= m
  {}

  // --------------------------------------------------------------- bits of byte strings

  lemma {:induction false} BitOfSum(b: nat, r: nat, k: nat, i: nat)
    requires b < ShiftLeft(1, k)
    ensures Bit(b + ShiftLeft(1, k) * r, i) <==> if i < k then Bit(b, i) else Bit(r, i - k)
    decreases k
  {
    if k > 0 {
      var p := ShiftLeft(1, k - 1);
      assert ShiftLeft(1, k) * r == 2 * (p * r);
      assert (b + 2 * (p * r)) / 2 == b / 2 + p * r && (b + 2 * (p * r)) % 2 == b % 2;
      if i > 0 {
        BitOfSum(b / 2, r, k - 1, i - 1);
      }
    }
  }

  lemma PowerIs256()
    ensures ShiftLeft(1, 8) == 256
  {
    assert ShiftLeft(1, 4) == 16;
    assert ShiftLeft(1, 6) == 64;
  }

  /** Bit j of a byte string: bit j % 8 of byte j / 8. */
  predicate BitIn(s: seq<Byte>, j: nat) {
    j / 8 < |s| && Bit(s[j / 8], j % 8)
  }

  /** The bits of the little-endian value are the bits of the bytes. */
  lemma {:induction false} ValueBit(s: seq<Byte>, j: nat)
    ensures Bit(FromLittleEndian(s), j) <==> BitIn(s, j)
    decreases |s|
  {
    if s == [] {
      ZeroBit(j);
    } else {
      PowerIs256();
      BitOfSum(s[0], FromLittleEndian(s[1..]), 8, j);
      if j >= 8 {
        ValueBit(s[1..], j - 8);
        assert (j - 8) / 8 == j / 8 - 1 && (j - 8) % 8 == j % 8;
      }
    }
  }

  lemma {:induction false} HighBitsClear(n: nat, k: nat)
    requires forall i: nat :: i >= k ==> !Bit(n, i)
    ensures n < ShiftLeft(1, k)
    decreases k
  {
    if k == 0 {
      forall i: nat ensures Bit(n, i) <==> Bit(0, i) { ZeroBit(i); }
      SameBits(n, 0);
    } else {
      forall i: nat | i >= k - 1 ensures !Bit(n / 2, i) {
        assert !Bit(n, i + 1);
      }
      HighBitsClear(n / 2, k - 1);
    }
  }

  lemma {:induction false} PowerOfBytes(k: nat)
    ensures ShiftLeft(1, 8 * k) == Pow256(k)
  {
    if k > 0 {
      PowerOfBytes(k - 1);
      ShiftEight(8 * (k - 1));
      assert 8 * k == 8 * (k - 1) + 8;
    }
  }

  lemma ShiftEight(k: nat)
    ensures ShiftLeft(1, k + 8) == 256 * ShiftLeft(1, k)
  {
    assert ShiftLeft(1, k + 2) == 4 * ShiftLeft(1, k);
    assert ShiftLeft(1, k + 4) == 4 * ShiftLeft(1, k + 2);
    assert ShiftLeft(1, k + 6) == 4 * ShiftLeft(1, k + 4);
  }

  // ------------------------------------------------------------------------ the code

  /** get_bits_from_bytes */
  function GetBits(s: seq<Byte>, start: nat, length: nat): nat {
    if length == 0 then 0
    else
      var first, last := start / 8, (start + length - 1) / 8;
      And(ShiftRight(FromLittleEndian(PySlice(s, first, last + 1)), start % 8), Mask(length))
  }

  /** The value set_bits_to_bytes computes for the bytes the field touches. */
  function Rewritten(v: nat, shift: nat, length: nat, field: int): nat {
    Or(And(v, Not(ShiftLeft(Mask(length), shift))), ShiftLeft(And(Mask(length), field), shift))
  }

  /** Every bit of the rewritten value: the field's inside the field, the old one outside. */
  lemma RewrittenBit(v: nat, shift: nat, length: nat, field: int, i: nat)
    ensures Bit(Rewritten(v, shift, length, field), i) <==>
            if shift <= i < shift + length then Bit(field, i - shift) else Bit(v, i)
  {
    var m := ShiftLeft(Mask(length), shift);
    var x := ShiftLeft(And(Mask(length), field), shift);
    OrBit(And(v, Not(m)), x, i);
    AndBit(v, Not(m), i);
    NotBit(m, i);
    ShiftLeftBit(Mask(length), shift, i);
    ShiftLeftBit(And(Mask(length), field), shift, i);
    if i >= shift {
      MaskBit(length, i - shift);
      AndBit(Mask(length), field, i - shift);
    }
  }

  /** The rewritten value fits the bytes it came from, so value_to_bytes never overflows. */
  lemma RewrittenFits(v: nat, shift: nat, length: nat, field: int, k: nat)
    requires v < Pow256(k) && shift + length <= 8 * k
    ensures Rewritten(v, shift, length, field) < Pow256(k)
  {
    var r := Rewritten(v, shift, length, field);
    PowerOfBytes(k);
    forall i: nat | i >= 8 * k ensures !Bit(r, i) {
      RewrittenBit(v, shift, length, field, i);
      SmallHasNoHighBits(v, 8 * k, i);
    }
    HighBitsClear(r, 8 * k);
  }

  lemma {:induction false} SmallHasNoHighBits(v: nat, k: nat, i: nat)
    requires v < ShiftLeft(1, k) && i >= k
    ensures !Bit(v, i)
    decreases k
  {
    if k == 0 {
      ZeroBit(i);
    } else {
      SmallHasNoHighBits(v / 2, k - 1, i - 1);
    }
  }

  /** set_bits_to_bytes on the bytes before and after: the touched slice is replaced. */
  function SetBits(s: seq<Byte>, start: nat, length: nat, field: int): (r: seq<Byte>)
    requires start + length <= 8 * |s|
    ensures |r| == |s|
  {
    if length == 0 then s
    else
      var first, last := start / 8, (start + length - 1) / 8;
      var v := Rewritten(FromLittleEndian(s[first..last + 1]), start % 8, length, field);
      s[..first] + ToLittleEndian(v, last + 1 - first) + s[last + 1..]
  }

  /** The in-place update of the byte array. */
  method SetBitsToBytes(bytes: array<Byte>, start: nat, length: nat, field: int)
    requires start + length <= 8 * bytes.Length
    modifies bytes
    ensures bytes[..] == SetBits(old(bytes[..]), start, length, field)
  {
    hide Rewritten, FromLittleEndian, ToLittleEndian;
    if length == 0 {
      return;
    }
    var first, last := start / 8, (start + length - 1) / 8;
    FieldInBytes(bytes.Length, start, length);
    var v := Rewritten(FromLittleEndian(bytes[first..last + 1]), start % 8, length, field);
    var replacement := ToLittleEndian(v, last + 1 - first);
    assert bytes[first..last + 1] == bytes[..][first..last + 1];
    ghost var was := bytes[..];
    forall i | first <= i <= last {
      bytes[i] := replacement[i - first];
    }
    assert bytes[..] == was[..first] + replacement + was[last + 1..];
  }

  lemma FieldInBytes(n: nat, start: nat, length: nat)
    requires length > 0 && start + length <= 8 * n
    ensures var first, last := start / 8, (start + length - 1) / 8;
            first <= last < n && start % 8 + length <= 8 * (last + 1 - first)
  {}

  /** Every bit after a field has been set: the field's bits inside, every other bit as before. */
  lemma SetBitsBit(s: seq<Byte>, start: nat, length: nat, field: int, j: nat)
    requires start + length <= 8 * |s| && j < 8 * |s|
    ensures BitIn(SetBits(s, start, length, field), j) <==>
            if start <= j < start + length then Bit(field, j - start) else BitIn(s, j)
  {
    hide Bit, Rewritten, FromLittleEndian, ToLittleEndian;
    if length > 0 {
      var first, last := start / 8, (start + length - 1) / 8;
      FieldInBytes(|s|, start, length);
      var was := s[first..last + 1];
      var k := last + 1 - first;
      var v := Rewritten(FromLittleEndian(was), start % 8, length, field);
      FromLittleEndianBound(was);
      RewrittenFits(FromLittleEndian(was), start % 8, length, field, k);
      LittleEndianRoundTrip(v, k);
      var now := ToLittleEndian(v, k);
      var r := SetBits(s, start, length, field);
      if first <= j / 8 <= last {
        var i := j - 8 * first;
        assert i / 8 == j / 8 - first && i % 8 == j % 8;
        assert r[j / 8] == now[i / 8] && s[j / 8] == was[i / 8];
        ValueBit(now, i);
        ValueBit(was, i);
        RewrittenBit(FromLittleEndian(was), start % 8, length, field, i);
        assert i - start % 8 == j - start;
      } else {
        assert r[j / 8] == s[j / 8];
      }
    }
  }

  lemma GetBitsBit(s: seq<Byte>, start: nat, length: nat, i: nat)
    requires start + length <= 8 * |s|
    ensures Bit(GetBits(s, start, length), i) <==> i < length && BitIn(s, start + i)
  {
    if length == 0 {
      ZeroBit(i);
    } else {
      var first, last := start / 8, (start + length - 1) / 8;
      FieldInBytes(|s|, start, length);
      var part := s[first..last + 1];
      var v := FromLittleEndian(part);
      AndBit(ShiftRight(v, start % 8), Mask(length), i);
      MaskBit(length, i);
      if i < length {
        ShiftRightBit(v, start % 8, i);
        var j := i + start % 8;
        ValueBit(part, j);
        assert j / 8 == (start + i) / 8 - first && j % 8 == (start + i) % 8;
        assert part[j / 8] == s[(start + i) / 8];
      }
    }
  }

  /** Reading back a field gives the value modulo two to the field's length. */
  lemma SetThenGet(s: seq<Byte>, start: nat, length: nat, field: int)
    requires start + length <= 8 * |s|
    ensures ShiftLeft(1, length) > 0
    ensures GetBits(SetBits(s, start, length, field), start, length) == field % ShiftLeft(1, length)
  {
    hide Bit, And, Mask, SetBits, GetBits, BitIn, ShiftLeft;
    ShiftLeftPositive(1, length);
    var r := SetBits(s, start, length, field);
    var got := GetBits(r, start, length);
    forall i: nat ensures Bit(got, i) <==> Bit(And(Mask(length), field), i) {
      GetBitsBit(r, start, length, i);
      AndBit(Mask(length), field, i);
      MaskBit(length, i);
      if i < length {
        SetBitsBit(s, start, length, field, start + i);
      }
    }
    SameBits(got, And(Mask(length), field));
    MaskIsModulo(field, length);
  }
}
