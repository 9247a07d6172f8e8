/**
 * UTF-8 encoding of a string, as the platform's TextEncoder produces it.
 * Characters are Unicode scalar values, so every character has an encoding
 * of one to four bytes.
 */
module Utf8 {
  import Bits

  type byte = x: int | 0 <= x < 256

  /** The UTF-8 bytes of one character. */
  function EncodeChar(c: char): (r: seq<byte>)
    ensures 1 <= |r| <= 4
    ensures |r| == 1 <==> (c as int) < 0x80
  {
    var cp := c as int;
    if cp < 0x80 then
      [cp]
    else if cp < 0x800 then
      [(0xC0 + cp / 0x40), (0x80 + cp % 0x40)]
    else if cp < 0x10000 then
      [(0xE0 + cp / 0x1000), (0x80 + cp / 0x40 % 0x40), (0x80 + cp % 0x40)]
    else
      [(0xF0 + cp / 0x40000), (0x80 + cp / 0x1000 % 0x40),
       (0x80 + cp / 0x40 % 0x40), (0x80 + cp % 0x40)]
  }

  /** The UTF-8 bytes of a string: the encodings of its characters, in order. */
  function Encode(s: string): (r: seq<byte>)
    ensures |s| <= |r| <= 4 * |s|
  {
    if |s| == 0 then [] else Encode(s[..|s| - 1]) + EncodeChar(s[|s| - 1])
  }

  predicate IsAscii(s: string)
  {
    forall i | 0 <= i < |s| :: (s[i] as int) < 0x80
  }

  lemma {:induction false} EncodeAppend(a: string, b: string)
    ensures Encode(a + b) == Encode(a) + Encode(b)
    decreases |b|
  {
    if |b| > 0 {
      assert (a + b)[..|a + b| - 1] == a + b[..|b| - 1];
      EncodeAppend(a, b[..|b| - 1]);
    } else {
      assert a + b == a;
    }
  }

  /** An ASCII string encodes to its own code points, one byte each. */
  lemma {:induction false} EncodeAscii(s: string)
    requires IsAscii(s)
    ensures |Encode(s)| == |s|
    ensures forall i | 0 <= i < |s| :: Encode(s)[i] == s[i] as int
  {
    if |s| > 0 {
      EncodeAscii(s[..|s| - 1]);
    }
  }

  /** The encoding is exactly one byte per character only for ASCII strings. */
  lemma {:induction false} EncodeLengthAscii(s: string)
    ensures |Encode(s)| == |s| <==> IsAscii(s)
  {
    if |s| > 0 {
      EncodeLengthAscii(s[..|s| - 1]);
      if !IsAscii(s[..|s| - 1]) {
        var i :| 0 <= i < |s| - 1 && (s[..|s| - 1][i] as int) >= 0x80;
        assert s[i] == s[..|s| - 1][i];
      }
    }
  }

  /**
   * Decoding: the inverse of `Encode`, reading one lead byte and its
   * continuation bytes at a time.
   */
  function DecodeFrom(b: seq<byte>): (r: string)
    decreases |b|
  {
    if |b| == 0 then []
    else
      var n := LeadLength(b[0]);
      if |b| < n then []
      else
        var cp := CodePoint(b[..n]);
        if 0 <= cp < 0xD800 || 0xE000 <= cp < 0x11_0000 then [cp as char] + DecodeFrom(b[n..])
        else []
  }

  function LeadLength(lead: byte): (r: nat)
    ensures 1 <= r <= 4
  {
    if lead < 0x80 then 1 else if lead < 0xE0 then 2 else if lead < 0xF0 then 3 else 4
  }

  function CodePoint(b: seq<byte>): int
    requires 1 <= |b| <= 4
  {
    var b0: int, n := b[0], |b|;
    if n == 1 then b0
    else if n == 2 then (b0 - 0xC0) * 0x40 + Cont(b[1])
    else if n == 3 then (b0 - 0xE0) * 0x1000 + Cont(b[1]) * 0x40 + Cont(b[2])
    else (b0 - 0xF0) * 0x40000 + Cont(b[1]) * 0x1000 + Cont(b[2]) * 0x40 + Cont(b[3])
  }

  /** The six payload bits of a continuation byte. */
  function Cont(x: byte): int { x as int - 0x80 }

  lemma EncodeCharCodePoint(c: char)
    ensures CodePoint(EncodeChar(c)) == c as int
    ensures LeadLength(EncodeChar(c)[0]) == |EncodeChar(c)|
  {
    var cp := c as int;
    if cp < 0x80 {
    } else if cp < 0x800 {
      TwoBytes(cp);
    } else if cp < 0x10000 {
      ThreeBytes(cp);
    } else {
      FourBytes(cp);
    }
  }

  lemma TwoBytes(cp: int)
    requires 0x80 <= cp < 0x800
    ensures 0xC0 <= 0xC0 + cp / 0x40 < 0xE0
    ensures (0xC0 + cp / 0x40 - 0xC0) * 0x40 + cp % 0x40 == cp
  {
  }

  lemma ThreeBytes(cp: int)
    requires 0x800 <= cp < 0x10000
    ensures 0xE0 <= 0xE0 + cp / 0x1000 < 0xF0
    ensures cp / 0x1000 * 0x1000 + cp / 0x40 % 0x40 * 0x40 + cp % 0x40 == cp
  {
    var a, r := cp / 0x1000, cp % 0x1000;
    var b, c := r / 0x40, r % 0x40;
    Bits.DivModUnique(cp, 0x40, a * 0x40 + b, c);
    Bits.DivModUnique(cp / 0x40, 0x40, a, b);
  }

  lemma FourBytes(cp: int)
    requires 0x10000 <= cp < 0x11_0000
    ensures 0xF0 <= 0xF0 + cp / 0x40000 < 0x100
    ensures cp / 0x40000 * 0x40000 + cp / 0x1000 % 0x40 * 0x1000 + cp / 0x40 % 0x40 * 0x40 + cp % 0x40 == cp
  {
    var a, r := cp / 0x40000, cp % 0x40000;
    var b, r2 := r / 0x1000, r % 0x1000;
    var c, d := r2 / 0x40, r2 % 0x40;
    Bits.DivModUnique(cp / 0x1000, 0x40, a, b);
    Bits.DivModUnique(cp, 0x1000, a * 0x40 + b, r2);
    Bits.DivModUnique(cp, 0x40, a * 0x1000 + b * 0x40 + c, d);
    Bits.DivModUnique(cp / 0x40, 0x40, a * 0x40 + b, c);
  }

  lemma EncodeCharDecodes(c: char, rest: seq<byte>)
    ensures DecodeFrom(EncodeChar(c) + rest) == [c] + DecodeFrom(rest)
  {
    var e := EncodeChar(c);
    var b := e + rest;
    assert b[..|e|] == e;
    assert b[|e|..] == rest;
    EncodeCharCodePoint(c);
  }

  /** Decoding the encoding gives the string back. */
  lemma DecodeEncode(s: string)
    ensures DecodeFrom(Encode(s)) == s
  {
    DecodeEncodeFrom(s, 0);
  }

  lemma {:induction false} DecodeEncodeFrom(s: string, i: nat)
    requires i <= |s|
    ensures DecodeFrom(Encode(s[i..])) == s[i..]
    decreases |s| - i
  {
    if i < |s| {
      assert s[i..] == [s[i]] + s[i + 1..];
      EncodeAppend([s[i]], s[i + 1..]);
      assert Encode([s[i]]) == EncodeChar(s[i]) by {
        assert [s[i]][..0] == [];
      }
      EncodeCharDecodes(s[i], Encode(s[i + 1..]));
      DecodeEncodeFrom(s, i + 1);
    }
  }
}
