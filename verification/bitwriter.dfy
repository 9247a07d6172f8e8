/**
 * The bit writer `#encodeCodeword`: values are appended most significant bit
 * first to a zero-initialised `Uint8Array`, eight bits per byte, and bits
 * that fall past the end of the array are dropped.
 *
 * The array the writer has produced so far is described by the bits written
 * so far: `Pack(bits, n)` is the `n`-byte array holding them.
 */
module BitWriter {
  import opened Bits

  /** `0x80 >>> j`: the mask of bit `j` of a byte, counting from the most significant. */
  function Mask(j: nat): bv8
    requires j < 8
  {
    0x80 >> j
  }

  /** Whether bit `j` (0 = most significant) of a byte is set. */
  predicate ByteBit(b: bv8, j: nat)
    requires j < 8
  {
    b & Mask(j) != 0
  }

  /** Bit `i` of a bit string, reading absent bits as clear. */
  predicate BitAt(bits: seq<bool>, i: nat)
  {
    i < |bits| && bits[i]
  }

  /** Bit `j` of byte `k` of a bit string. */
  predicate Slot(bits: seq<bool>, k: nat, j: nat)
  {
    BitAt(bits, 8 * k + j)
  }

  /** The first `m` bits of byte `k`, ORed in one at a time as the writer does. */
  function PartialByte(bits: seq<bool>, k: nat, m: nat): bv8
    requires m <= 8
  {
    if m == 0 then 0
    else PartialByte(bits, k, m - 1) | (if Slot(bits, k, m - 1) then Mask(m - 1) else 0)
  }

  /** The `n`-byte array holding `bits`: missing bits are zero, surplus bits are dropped. */
  function Pack(bits: seq<bool>, n: nat): (r: seq<bv8>)
    ensures |r| == n
  {
    seq(n, k requires 0 <= k < n => PartialByte(bits, k, 8))
  }

  /** The bits of a byte array, most significant bit of each byte first. */
  function Unpack(bytes: seq<bv8>): (r: seq<bool>)
    ensures |r| == 8 * |bytes|
  {
    seq(8 * |bytes|, i requires 0 <= i < 8 * |bytes| => ByteBit(bytes[i / 8], i % 8))
  }

  lemma MaskBit(a: nat, j: nat)
    requires a < 8 && j < 8
    ensures Mask(a) & Mask(j) != 0 <==> a == j
  {
    assert a == 0 || a == 1 || a == 2 || a == 3 || a == 4 || a == 5 || a == 6 || a == 7;
    assert j == 0 || j == 1 || j == 2 || j == 3 || j == 4 || j == 5 || j == 6 || j == 7;
  }

  lemma OrBit(x: bv8, y: bv8, m: bv8)
    ensures (x | y) & m != 0 <==> x & m != 0 || y & m != 0
  {
  }

  lemma OrZero(x: bv8)
    ensures x | 0 == x
  {
  }

  /** Bit `j` of a partially written byte is the `j`-th bit of the stream, once written. */
  lemma {:induction false} PartialByteBit(bits: seq<bool>, k: nat, m: nat, j: nat)
    requires m <= 8 && j < 8
    ensures ByteBit(PartialByte(bits, k, m), j) <==> j < m && BitAt(bits, 8 * k + j)
  {
    if m > 0 {
      PartialByteBit(bits, k, m - 1, j);
      var t: bv8 := if BitAt(bits, 8 * k + m - 1) then Mask(m - 1) else 0;
      OrBit(PartialByte(bits, k, m - 1), t, Mask(j));
      if BitAt(bits, 8 * k + m - 1) {
        MaskBit(m - 1, j);
      }
    }
  }

  /** Reading back a packed array gives the bits written, zero-filled and cut to its size. */
  lemma PackBit(bits: seq<bool>, n: nat, i: nat)
    requires i < 8 * n
    ensures Unpack(Pack(bits, n))[i] == BitAt(bits, i)
  {
    PartialByteBit(bits, i / 8, 8, i % 8);
  }

  /** Packing and unpacking are inverse on whole bytes. */
  lemma UnpackPack(bits: seq<bool>)
    requires |bits| % 8 == 0
    ensures Unpack(Pack(bits, |bits| / 8)) == bits
  {
    var n := |bits| / 8;
    forall i | 0 <= i < |bits|
      ensures Unpack(Pack(bits, n))[i] == bits[i]
    {
      PackBit(bits, n, i);
    }
  }

  /** A byte depends only on the stream bits that fall inside it. */
  lemma {:induction false} PartialByteSame(a: seq<bool>, b: seq<bool>, k: nat, m: nat)
    requires m <= 8
    requires forall j | 0 <= j < m :: Slot(a, k, j) == Slot(b, k, j)
    ensures PartialByte(a, k, m) == PartialByte(b, k, m)
  {
    if m > 0 {
      PartialByteSame(a, b, k, m - 1);
      assert Slot(a, k, m - 1) == Slot(b, k, m - 1);
    }
  }

  /** Appending one bit ORs its mask into the byte the bit falls in. */
  lemma {:induction false} PartialByteAppend(bits: seq<bool>, bit: bool, m: nat)
    requires m <= 8
    ensures var k, j := |bits| / 8, |bits| % 8;
            PartialByte(bits + [bit], k, m)
            == PartialByte(bits, k, m) | (if bit && j < m then Mask(j) else 0)
  {
    var k, j := |bits| / 8, |bits| % 8;
    var s := bits + [bit];
    if m > 0 {
      PartialByteAppend(bits, bit, m - 1);
      var p := PartialByte(bits, k, m - 1);
      if m - 1 < j {
        assert BitAt(s, 8 * k + m - 1) == BitAt(bits, 8 * k + m - 1);
      } else if m - 1 == j {
        assert BitAt(s, 8 * k + m - 1) == bit;
        assert !BitAt(bits, 8 * k + m - 1);
        OrZero(p);
      } else {
        assert !BitAt(s, 8 * k + m - 1);
        assert !BitAt(bits, 8 * k + m - 1);
        OrZero(p);
        OrZero(p | (if bit then Mask(j) else 0));
      }
    }
  }

  /** The array after appending one bit: one byte changes, and only if the bit is set and fits. */
  lemma PackAppend(bits: seq<bool>, bit: bool, n: nat)
    ensures var k := |bits| / 8;
            Pack(bits + [bit], n)
            == if k < n && bit then Pack(bits, n)[k := Pack(bits, n)[k] | Mask(|bits| % 8)]
               else Pack(bits, n)
  {
    var k := |bits| / 8;
    var s := bits + [bit];
    forall q | 0 <= q < n && q != k
      ensures PartialByte(s, q, 8) == PartialByte(bits, q, 8)
    {
      forall j | 0 <= j < 8
        ensures Slot(s, q, j) == Slot(bits, q, j)
      {
        assert 8 * q + j != |bits|;
      }
      PartialByteSame(s, bits, q, 8);
    }
    if k < n {
      PartialByteAppend(bits, bit, 8);
      if !bit {
        OrZero(PartialByte(bits, k, 8));
      }
    }
  }

  /**
   * `#encodeCodeword`: writes the low `bitLen` bits of `data` (as `>>>`
   * yields them) at bit offset `bitLength` of `codewords`. Given the array
   * that holds the bits written so far, the result holds those bits followed
   * by the new ones, and the offset advances by exactly `bitLen`, whether or
   * not the bits still fit.
   */
  method EncodeCodeword(codewords: seq<bv8>, bitLength: nat, data: int, bitLen: nat, ghost written: seq<bool>)
    returns (r: seq<bv8>, newLength: nat)
    requires |written| == bitLength && codewords == Pack(written, |codewords|)
    ensures newLength == bitLength + bitLen
    ensures r == Pack(written + ShiftedBits(data, bitLen), |codewords|)
  {
    var n := |codewords|;
    var bits := ShiftedBits(data, bitLen);
    r, newLength := codewords, bitLength;
    var i := 0;
    assert written + bits[..0] == written;
    while i < bitLen
      invariant 0 <= i <= bitLen
      invariant newLength == bitLength + i
      invariant r == Pack(written + bits[..i], n)
    {
      var bit := UnsignedShiftBit(data, bitLen - i - 1);
      var codewordIndex := newLength / 8;
      ghost var before := written + bits[..i];
      assert bits[..i + 1] == bits[..i] + [bit];
      assert written + bits[..i + 1] == before + [bit];
      PackAppend(before, bit, n);
      if bit && codewordIndex < n {
        r := r[codewordIndex := r[codewordIndex] | Mask(newLength % 8)];
      }
      newLength := newLength + 1;
      i := i + 1;
    }
    assert bits[..bitLen] == bits;
  }
}
