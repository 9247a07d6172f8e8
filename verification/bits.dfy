/**
 * Bit-level helpers: powers of two, most-significant-bit-first bit strings,
 * and the unsigned right shift `>>>` of JavaScript, which the bit writer
 * uses to take the bits of a value one at a time.
 */
module Bits {

  function Pow2(n: nat): (r: nat)
    ensures r >= 1
  {
    if n == 0 then 1 else 2 * Pow2(n - 1)
  }

  lemma Pow2Add(a: nat, b: nat)
    ensures Pow2(a + b) == Pow2(a) * Pow2(b)
    decreases b
  {
    if b > 0 {
      Pow2Add(a, b - 1);
    }
  }

  lemma Pow2Monotone(a: nat, b: nat)
    requires a <= b
    ensures Pow2(a) <= Pow2(b)
    decreases b
  {
    if a < b {
      Pow2Monotone(a, b - 1);
    }
  }

  /** Integer division and remainder are determined by any witness pair. */
  lemma DivModUnique(x: int, d: int, q: int, r: int)
    requires d > 0 && x == q * d + r && 0 <= r < d
    ensures x / d == q && x % d == r
  {
    var q', r' := x / d, x % d;
    assert (q - q') * d == r' - r;
    if q > q' {
      MulAtLeast(q - q', d);
    } else if q < q' {
      MulAtLeast(q' - q, d);
    }
  }

  /** Whole bytes: `8 n` bits are `n` bytes and end on a byte boundary. */
  lemma Bytes(n: nat)
    ensures (8 * n) % 8 == 0 && (8 * n) / 8 == n
  {
    DivModUnique(8 * n, 8, n, 0);
  }

  lemma MulAtLeast(k: int, d: int)
    requires k >= 1 && d > 0
    ensures k * d >= d
  {
  }

  lemma MulCancel(x: int, y: int, b: int)
    requires b > 0 && x * b <= y * b
    ensures x <= y
  {
  }

  /** A quotient by `b` of a number below `s * b` is below `s`. */
  lemma DivBelow(x: nat, b: nat, s: nat)
    requires b > 0 && x < s * b
    ensures x / b < s
  {
    var q, r := x / b, x % b;
    assert q * b <= x;
    MulCancel(q, s, b);
  }

  lemma DivMono(a: nat, c: nat, b: nat)
    requires a <= c && b > 0
    ensures a / b <= c / b
  {
    var qa, ra, qc, rc := a / b, a % b, c / b, c % b;
    assert (qa - qc) * b == (a - ra) - (c - rc);
    assert (qa - qc) * b < 1 * b;
    MulCancel(qa - qc, 0, b);
  }

  lemma DivDiv(x: nat, a: nat, b: nat)
    requires a > 0 && b > 0
    ensures x / a / b == x / (a * b)
  {
    var q1, r1 := x / a, x % a;
    var q2, r2 := q1 / b, q1 % b;
    assert x == q2 * (a * b) + (r2 * a + r1) by {
      assert x == q1 * a + r1;
      assert q1 == q2 * b + r2;
    }
    assert r2 * a + r1 < a * b by {
      assert r2 <= b - 1;
      assert r2 * a <= (b - 1) * a;
    }
    DivModUnique(x, a * b, q2, r2 * a + r1);
  }

  /** The `n` low bits of `x`, most significant first. */
  function ToBits(x: nat, n: nat): (r: seq<bool>)
    ensures |r| == n
  {
    if n == 0 then [] else ToBits(x / 2, n - 1) + [x % 2 == 1]
  }

  /** The number a most-significant-first bit string denotes. */
  function FromBits(b: seq<bool>): (r: nat)
    ensures r < Pow2(|b|)
  {
    if |b| == 0 then 0 else 2 * FromBits(b[..|b| - 1]) + (if b[|b| - 1] then 1 else 0)
  }

  /** The `i`-th bit of `ToBits(x, n)` is bit `n - 1 - i` of `x`. */
  lemma {:induction false} ToBitsIndex(x: nat, n: nat, i: nat)
    requires i < n
    ensures ToBits(x, n)[i] == (x / Pow2(n - 1 - i) % 2 == 1)
  {
    if i == n - 1 {
      assert Pow2(0) == 1;
    } else {
      ToBitsIndex(x / 2, n - 1, i);
      DivDiv(x, 2, Pow2(n - 2 - i));
    }
  }

  lemma {:induction false} FromToBits(x: nat, n: nat)
    requires x < Pow2(n)
    ensures FromBits(ToBits(x, n)) == x
  {
    if n > 0 {
      var b := ToBits(x, n);
      assert b[..n - 1] == ToBits(x / 2, n - 1);
      FromToBits(x / 2, n - 1);
    }
  }

  lemma {:induction false} ToFromBits(b: seq<bool>)
    ensures ToBits(FromBits(b), |b|) == b
  {
    if |b| > 0 {
      var p := b[..|b| - 1];
      var x := FromBits(b);
      assert x / 2 == FromBits(p);
      ToFromBits(p);
      assert b == p + [b[|b| - 1]];
    }
  }

  /**
   * Bit `shift` of `data >>> shift & 1` in JavaScript: the operand is first
   * reduced to an unsigned 32-bit integer and the shift count modulo 32.
   */
  predicate UnsignedShiftBit(data: int, shift: nat)
  {
    data % 0x1_0000_0000 / Pow2(shift % 32) % 2 == 1
  }

  /** The bits `(data >>> (len - i - 1)) & 1` for `i` in `0 .. len - 1`. */
  function ShiftedBits(data: int, len: nat): (r: seq<bool>)
    ensures |r| == len
  {
    seq(len, i requires 0 <= i < len => UnsignedShiftBit(data, len - i - 1))
  }

  lemma Pow2Word()
    ensures Pow2(32) == 0x1_0000_0000
  {
    assert Pow2(8) == 256;
    Pow2Add(8, 8);
    Pow2Add(16, 16);
  }

  /** Below 2^32 the unsigned shift is plain division by a power of two. */
  lemma UnsignedShiftBitSmall(data: nat, sh: nat)
    requires data < 0x1_0000_0000 && sh < 32
    ensures UnsignedShiftBit(data, sh) == (data / Pow2(sh) % 2 == 1)
  {
    DivModUnique(data, 0x1_0000_0000, 0, data);
    assert sh % 32 == sh;
  }

  /** One bit of `ShiftedBits`, for a value that fits its field. */
  lemma ShiftedBitAt(data: nat, len: nat, i: nat)
    requires len <= 32 && data < Pow2(len) && i < len
    ensures ShiftedBits(data, len)[i] == ToBits(data, len)[i]
  {
    Pow2Monotone(len, 32);
    Pow2Word();
    UnsignedShiftBitSmall(data, len - i - 1);
    ToBitsIndex(data, len, i);
  }

  /** For a value that fits its field, the shifted bits are its binary digits. */
  lemma ShiftedBitsFit(data: nat, len: nat)
    requires len <= 32 && data < Pow2(len)
    ensures ShiftedBits(data, len) == ToBits(data, len)
    ensures FromBits(ShiftedBits(data, len)) == data
  {
    forall i | 0 <= i < len
      ensures ShiftedBits(data, len)[i] == ToBits(data, len)[i]
    {
      ShiftedBitAt(data, len, i);
    }
    FromToBits(data, len);
  }
}
