/**
 * The encoder's helper functions: the character classes of the three
 * segment modes, the bit cost of a segment, the width of the character
 * count indicator, the capacity of a version, and the (value, width) chunks
 * a segment's payload is written as.
 */
module Utils {
  import opened Types
  import opened Constants
  import Bits
  import Utf8

  /** `[0-9]` */
  predicate IsDigit(c: char) { '0' <= c <= '9' }

  /** `[A-Z $%*+\-./:]`: the alphanumeric characters that are not digits. */
  predicate IsAlphaOnly(c: char)
  {
    ('A' <= c <= 'Z') || c == ' ' || c == '$' || c == '%' || c == '*' || c == '+'
      || c == '-' || c == '.' || c == '/' || c == ':'
  }

  /**
   * The mode whose character class holds `c`; the three classes partition
   * all characters.
   */
  function ClassOf(c: char): (m: Mode)
    ensures m != Kanji
    ensures m == Numeric <==> IsDigit(c)
    ensures m == AlphaNumeric <==> IsAlphaOnly(c)
  {
    if IsAlphaOnly(c) then AlphaNumeric else if IsDigit(c) then Numeric else Byte
  }

  /** Every character of `s` is in the class of mode `m`. */
  predicate InClass(s: string, m: Mode)
  {
    forall i | 0 <= i < |s| :: ClassOf(s[i]) == m
  }

  /** Every character of `s` is in the alphanumeric charset: a digit or `[A-Z $%*+\-./:]`. */
  predicate InCharset(s: string)
  {
    forall i | 0 <= i < |s| :: ClassOf(s[i]) != Byte
  }

  /**
   * The texts a mode can carry: digits for Numeric, charset characters for
   * AlphaNumeric, anything for Byte. Kanji is never produced.
   */
  predicate Encodable(s: string, m: Mode)
  {
    match m
    case Numeric => InClass(s, Numeric)
    case AlphaNumeric => InCharset(s)
    case Byte => true
    case Kanji => false
  }

  /**
   * Position of `c` in the alphanumeric charset, -1 when absent: the
   * `indexOf` of the charset (see `AlphaIndexIsIndexOf`), written out per
   * character range.
   */
  function AlphaIndex(c: char): (r: int)
    ensures -1 <= r < 45
    ensures r >= 0 <==> IsDigit(c) || IsAlphaOnly(c)
  {
    if IsDigit(c) then c as int - '0' as int
    else if 'A' <= c <= 'Z' then c as int - 'A' as int + 10
    else if c == ' ' then 36 else if c == '$' then 37 else if c == '%' then 38
    else if c == '*' then 39 else if c == '+' then 40 else if c == '-' then 41
    else if c == '.' then 42 else if c == '/' then 43 else if c == ':' then 44
    else -1
  }

  function IndexOf(s: string, c: char): (r: int)
    ensures -1 <= r < |s|
    ensures r >= 0 ==> s[r] == c && forall i | 0 <= i < r :: s[i] != c
    ensures r == -1 <==> c !in s
  {
    if |s| == 0 then -1
    else if s[0] == c then 0
    else
      var k := IndexOf(s[1..], c);
      if k == -1 then -1 else k + 1
  }

  lemma CharsetLength()
    ensures |AlphanumericCharset| == 45
  {
  }

  lemma DigitInCharset(c: char)
    requires IsDigit(c)
    ensures c in AlphanumericCharset
  {
    var k := c as int - '0' as int;
    CharsetSlot(k);
    assert AlphanumericCharset[k] == c;
  }

  lemma LetterInCharset(c: char)
    requires 'A' <= c <= 'Z'
    ensures c in AlphanumericCharset
  {
    var k := c as int - 'A' as int + 10;
    CharsetSlot(k);
    assert AlphanumericCharset[k] == c;
  }

  lemma SpecialInCharset(c: char)
    requires IsAlphaOnly(c) && !('A' <= c <= 'Z')
    ensures c in AlphanumericCharset
  {
    var k := AlphaIndex(c);
    CharsetSlot(k);
    assert AlphanumericCharset[k] == c;
  }

  /** Position `k` of the charset holds `CharsetAt(k)`, part by part. */
  lemma CharsetSlot(k: int)
    requires 0 <= k < 45
    ensures AlphanumericCharset[k] == CharsetAt(k)
  {
    var cs := AlphanumericCharset;
    if k < 10 {
      assert cs[k] == CharsetDigits[k];
      DigitsSlot(k);
    } else if k < 23 {
      assert cs[k] == CharsetLettersAM[k - 10];
      LettersSlot(CharsetLettersAM, 'A', k - 10);
    } else if k < 36 {
      assert cs[k] == CharsetLettersNZ[k - 23];
      LettersSlot(CharsetLettersNZ, 'N', k - 23);
    } else {
      assert cs[k] == CharsetSpecials[k - 36];
      SpecialsSlot(k - 36);
    }
  }

  lemma DigitsSlot(j: int)
    requires 0 <= j < 10
    ensures CharsetDigits[j] == CharsetAt(j)
  {
    assert j == 0 || j == 1 || j == 2 || j == 3 || j == 4 || j == 5 || j == 6 || j == 7 || j == 8 || j == 9;
  }

  /** The thirteen letters from `first` on sit at positions `first - 'A' + 10` onwards. */
  lemma LettersSlot(part: string, first: char, j: int)
    requires (part == CharsetLettersAM && first == 'A') || (part == CharsetLettersNZ && first == 'N')
    requires 0 <= j < 13
    ensures part[j] == CharsetAt(first as int - 'A' as int + 10 + j)
  {
    assert j == 0 || j == 1 || j == 2 || j == 3 || j == 4 || j == 5 || j == 6 || j == 7 || j == 8 || j == 9
      || j == 10 || j == 11 || j == 12;
  }

  lemma SpecialsSlot(j: int)
    requires 0 <= j < 9
    ensures CharsetSpecials[j] == CharsetAt(36 + j)
  {
    assert j == 0 || j == 1 || j == 2 || j == 3 || j == 4 || j == 5 || j == 6 || j == 7 || j == 8;
  }

  /** The alphanumeric charset is exactly the digits and the alphanumeric-only characters. */
  lemma CharsetMembership(c: char)
    ensures c in AlphanumericCharset <==> IsDigit(c) || IsAlphaOnly(c)
  {
    if IsDigit(c) {
      DigitInCharset(c);
    } else if 'A' <= c <= 'Z' {
      LetterInCharset(c);
    } else if IsAlphaOnly(c) {
      SpecialInCharset(c);
    } else if c in AlphanumericCharset {
      var k :| 0 <= k < 45 && AlphanumericCharset[k] == c;
      CharsetClass(k);
    }
  }

  lemma CharsetClass(k: nat)
    requires k < 45
    ensures IsDigit(AlphanumericCharset[k]) || IsAlphaOnly(AlphanumericCharset[k])
  {
    CharsetSlot(k);
  }

  /** The numeric value JavaScript's `Number` gives a string of 1..3 digits. */
  function DigitsValue(s: string): nat
  {
    if |s| == 0 then 0 else 10 * DigitsValue(s[..|s| - 1]) + (s[|s| - 1] as int - '0' as int) % 10
  }

  /**
   * `Number(s)` for a group of a numeric segment: its decimal value when it
   * is all digits; otherwise `NaN`, which the bit writer's `>>>` turns into 0.
   */
  function NumberOf(s: string): nat
  {
    if forall i | 0 <= i < |s| :: IsDigit(s[i]) then DigitsValue(s) else 0
  }

  /** A piece of a segment's payload: a value and the number of bits it is written in. */
  datatype Chunk = Chunk(data: int, bitLength: nat)

  /** The payload of a numeric segment: groups of three digits, then the one or two left. */
  function NumericChunks(s: string): seq<Chunk>
  {
    if |s| == 0 then []
    else if |s| >= 3 then [Chunk(NumberOf(s[..3]), ModeBits(Numeric)[2])] + NumericChunks(s[3..])
    else if |s| == 2 then [Chunk(NumberOf(s), ModeBits(Numeric)[1])]
    else [Chunk(NumberOf(s), ModeBits(Numeric)[0])]
  }

  /** The charset positions of the characters of `s` (`indexOf` per character). */
  function AlphaIndices(s: string): (r: seq<int>)
    ensures |r| == |s|
  {
    seq(|s|, i requires 0 <= i < |s| => AlphaIndex(s[i]))
  }

  /** Charset positions written as pairs `45 * first + second`, then a single. */
  function PairChunks(idx: seq<int>): seq<Chunk>
  {
    if |idx| == 0 then []
    else if |idx| >= 2 then
      [Chunk(idx[0] * 45 + idx[1], ModeBits(AlphaNumeric)[1])] + PairChunks(idx[2..])
    else [Chunk(idx[0], ModeBits(AlphaNumeric)[0])]
  }

  /** The payload of an alphanumeric segment. */
  function AlphaChunks(s: string): seq<Chunk>
  {
    PairChunks(AlphaIndices(s))
  }

  function ByteChunks(b: seq<Utf8.byte>): (r: seq<Chunk>)
    ensures |r| == |b|
    ensures forall i | 0 <= i < |b| :: r[i] == Chunk(b[i], 8)
  {
    if |b| == 0 then [] else ByteChunks(b[..|b| - 1]) + [Chunk(b[|b| - 1], ModeBits(Byte)[0])]
  }

  /** `getEncodedSegmentData`: the chunks of a segment (none for Kanji). */
  function EncodedSegmentData(seg: Segment): seq<Chunk>
  {
    match seg.mode
    case Numeric => NumericChunks(seg.value)
    case AlphaNumeric => AlphaChunks(seg.value)
    case Byte => ByteChunks(Utf8.Encode(seg.value))
    case Kanji => []
  }

  /** `getBitsLength`: the payload size of a segment, in bits. */
  function BitsLength(seg: Segment): nat
  {
    var n := |seg.value|;
    match seg.mode
    case Numeric => 10 * (n / 3) + (if n % 3 != 0 then n % 3 * 3 + 1 else 0)
    case AlphaNumeric => 11 * (n / 2) + 6 * (n % 2)
    case _ => |Utf8.Encode(seg.value)| * 8
  }

  /** `getCharCountIndicator`: the count-field width for a version, by regime 1-9, 10-26, 27-40. */
  function CharCountIndicator(m: Mode, version: int): (r: nat)
    ensures r == CharacterCountIndicator(m)[CciIndex(version)]
  {
    var index := if version > 26 then 2 else if version > 9 then 1 else 0;
    CharacterCountIndicator(m)[index]
  }

  /** The character-count regime a version belongs to. */
  function CciIndex(version: int): (r: nat)
    ensures r < 3
    ensures r == 0 <==> version <= 9
    ensures r == 2 <==> version > 26
  {
    if version > 26 then 2 else if version > 9 then 1 else 0
  }

  /** The widths of each mode never shrink from one regime to the next. */
  lemma CciWidthsMonotone(m: Mode, i: nat, j: nat)
    requires i <= j < 3
    ensures CharacterCountIndicator(m)[i] <= CharacterCountIndicator(m)[j]
  {
  }

  /** The capacity question asked of `getCapacity`: a mix of segments, or one mode. */
  datatype CapacityMode = Mixed | Single(mode: Mode)

  function DataBits(v: nat, ec: EcLevel): int
    requires ValidVersion(v)
  {
    DataCodewordCount(v, ec) * 8
  }

  /**
   * `getCapacity`: for `Mixed` the data bits of the version; for one mode the
   * number of characters (bytes for Byte) that fit after the mode indicator
   * and the count field.
   */
  function Capacity(v: nat, ec: EcLevel, mode: CapacityMode): int
    requires ValidVersion(v)
  {
    var dataBits := DataBits(v, ec);
    match mode
    case Mixed => dataBits
    case Single(m) =>
      var usable := dataBits - (CharCountIndicator(m, v) + ModeIndicatorBits);
      match m
      case Numeric => usable * 3 / 10
      case AlphaNumeric => usable * 2 / 11
      case Kanji => usable / 13
      case Byte => usable / 8
  }

  /** The bits a single segment of `n` characters (bytes for Byte) of mode `m` needs. */
  function SingleSegmentBits(m: Mode, n: nat, v: nat): nat
  {
    ModeIndicatorBits + CharCountIndicator(m, v) +
      (match m
       case Numeric => 10 * (n / 3) + (if n % 3 != 0 then n % 3 * 3 + 1 else 0)
       case AlphaNumeric => 11 * (n / 2) + 6 * (n % 2)
       case Byte => 8 * n
       case Kanji => 13 * n)
  }

  /**
   * The capacity is exact: `n` characters fit a version by the capacity
   * table exactly when the mode indicator, count field and payload fit its
   * data bits.
   */
  lemma CapacityExact(v: nat, ec: EcLevel, m: Mode, n: nat)
    requires ValidVersion(v)
    ensures n <= Capacity(v, ec, Single(m)) <==> SingleSegmentBits(m, n, v) <= DataBits(v, ec)
  {
    var u := DataBits(v, ec) - (CharCountIndicator(m, v) + ModeIndicatorBits);
    match m
    case Numeric =>
      var p := 10 * (n / 3) + (if n % 3 != 0 then n % 3 * 3 + 1 else 0);
      NumericCost(n);
      if n <= u * 3 / 10 {
        assert 10 * n <= 3 * u;
      } else {
        assert 10 * n > 3 * u;
      }
    case AlphaNumeric =>
      if n <= u * 2 / 11 {
        assert 11 * n <= 2 * u;
      } else {
        assert 11 * n > 2 * u;
      }
    case Kanji =>
    case Byte =>
  }

  /**
   * Numeric payload `p(n)`: `p(n) <= u` exactly when `10 n <= 3 u`, i.e. the
   * payload is the least bit count that is at least `10 n / 3`.
   */
  lemma NumericCost(n: nat)
    ensures var p := 10 * (n / 3) + (if n % 3 != 0 then n % 3 * 3 + 1 else 0);
            3 * p >= 10 * n && 3 * (p - 1) < 10 * n
  {
  }

  /** Total width of a list of chunks. */
  function ChunkBits(chunks: seq<Chunk>): nat
  {
    if |chunks| == 0 then 0 else ChunkBits(chunks[..|chunks| - 1]) + chunks[|chunks| - 1].bitLength
  }

  lemma {:induction false} ChunkBitsAppend(a: seq<Chunk>, b: seq<Chunk>)
    ensures ChunkBits(a + b) == ChunkBits(a) + ChunkBits(b)
    decreases |b|
  {
    if |b| == 0 {
      assert a + b == a;
    } else {
      assert (a + b)[..|a + b| - 1] == a + b[..|b| - 1];
      ChunkBitsAppend(a, b[..|b| - 1]);
    }
  }

  /** Every chunk's value fits in its width. */
  predicate ChunksFit(chunks: seq<Chunk>)
  {
    forall i | 0 <= i < |chunks| :: 0 <= chunks[i].data < Bits.Pow2(chunks[i].bitLength) && chunks[i].bitLength <= 32
  }

  /**
   * The cost the version search uses agrees with what the writer emits: the
   * bit length of a numeric, alphanumeric or byte segment is the total width
   * of its chunks.
   */
  lemma BitsLengthIsChunkWidth(seg: Segment)
    requires seg.mode != Kanji
    ensures BitsLength(seg) == ChunkBits(EncodedSegmentData(seg))
  {
    match seg.mode
    case Numeric => NumericWidth(seg.value);
    case AlphaNumeric => AlphaWidth(seg.value);
    case Byte => ByteWidth(Utf8.Encode(seg.value));
  }

  lemma {:induction false} NumericWidth(s: string)
    ensures ChunkBits(NumericChunks(s)) == 10 * (|s| / 3) + (if |s| % 3 != 0 then |s| % 3 * 3 + 1 else 0)
    decreases |s|
  {
    if |s| >= 3 {
      var c := Chunk(NumberOf(s[..3]), 10);
      ChunkBitsAppend([c], NumericChunks(s[3..]));
      assert ChunkBits([c]) == 10 by { assert [c][..0] == []; }
      NumericWidth(s[3..]);
    } else if |s| > 0 {
      var c := NumericChunks(s)[0];
      assert NumericChunks(s) == [c];
      assert ChunkBits([c]) == c.bitLength by { assert [c][..0] == []; }
    }
  }

  lemma AlphaWidth(s: string)
    ensures ChunkBits(AlphaChunks(s)) == 11 * (|s| / 2) + 6 * (|s| % 2)
  {
    PairWidth(AlphaIndices(s));
  }

  lemma {:induction false} PairWidth(idx: seq<int>)
    ensures ChunkBits(PairChunks(idx)) == 11 * (|idx| / 2) + 6 * (|idx| % 2)
    decreases |idx|
  {
    if |idx| >= 2 {
      var c := PairChunks(idx)[0];
      assert PairChunks(idx) == [c] + PairChunks(idx[2..]);
      ChunkBitsAppend([c], PairChunks(idx[2..]));
      assert ChunkBits([c]) == 11 by { assert [c][..0] == []; }
      PairWidth(idx[2..]);
    } else if |idx| == 1 {
      var c := PairChunks(idx)[0];
      assert PairChunks(idx) == [c];
      assert ChunkBits([c]) == 6 by { assert [c][..0] == []; }
    }
  }

  lemma {:induction false} ByteWidth(b: seq<Utf8.byte>)
    ensures ChunkBits(ByteChunks(b)) == |b| * 8
  {
    if |b| > 0 {
      var p := b[..|b| - 1];
      assert ByteChunks(b)[..|b| - 1] == ByteChunks(p);
      ByteWidth(p);
    }
  }

  /** The decimal digit character of `d`. */
  function DigitChar(d: nat): char
    requires d < 10
  {
    ('0' as int + d) as char
  }

  /** The `n` decimal digits of `v`, most significant first. */
  function DigitsOf(v: nat, n: nat): (r: string)
    ensures |r| == n
  {
    if n == 0 then [] else DigitsOf(v / 10, n - 1) + [DigitChar(v % 10)]
  }

  function Pow10(n: nat): nat
  {
    if n == 0 then 1 else 10 * Pow10(n - 1)
  }

  predicate AllDigits(s: string)
  {
    forall i | 0 <= i < |s| :: IsDigit(s[i])
  }

  lemma {:induction false} DigitsRoundTrip(s: string)
    requires AllDigits(s)
    ensures DigitsValue(s) < Pow10(|s|)
    ensures DigitsOf(DigitsValue(s), |s|) == s
  {
    if |s| > 0 {
      var p := s[..|s| - 1];
      DigitsRoundTrip(p);
      var d := s[|s| - 1] as int - '0' as int;
      assert DigitsValue(s) == 10 * DigitsValue(p) + d;
      assert DigitsValue(s) / 10 == DigitsValue(p);
      assert s == p + [s[|s| - 1]];
    }
  }

  /** Reading chunks back into characters: the inverse of the payload encoders. */
  function DecodeNumeric(chunks: seq<Chunk>): string
  {
    if |chunks| == 0 then []
    else
      var c := chunks[0];
      var n := if c.bitLength == 10 then 3 else if c.bitLength == 7 then 2 else 1;
      DigitsOf(if c.data < 0 then 0 else c.data, n) + DecodeNumeric(chunks[1..])
  }

  /** The charset character at position `k` (a space outside 0..44). */
  function CharsetAt(k: int): char
  {
    if 0 <= k < 10 then ('0' as int + k) as char
    else if 10 <= k < 36 then ('A' as int + k - 10) as char
    else if k == 37 then '$' else if k == 38 then '%' else if k == 39 then '*'
    else if k == 40 then '+' else if k == 41 then '-' else if k == 42 then '.'
    else if k == 43 then '/' else if k == 44 then ':' else ' '
  }

  /** Charset positions back from pair and single chunks. */
  function DecodePairs(chunks: seq<Chunk>): seq<int>
  {
    if |chunks| == 0 then []
    else
      var c := chunks[0];
      (if c.bitLength == 11 then [c.data / 45, c.data % 45] else [c.data]) + DecodePairs(chunks[1..])
  }

  function DecodeAlpha(chunks: seq<Chunk>): (r: string)
    ensures |r| == |DecodePairs(chunks)|
  {
    var idx := DecodePairs(chunks);
    seq(|idx|, i requires 0 <= i < |idx| => CharsetAt(idx[i]))
  }

  function DecodeBytes(chunks: seq<Chunk>): seq<Utf8.byte>
  {
    if |chunks| == 0 then []
    else [if 0 <= chunks[0].data < 256 then chunks[0].data else 0] + DecodeBytes(chunks[1..])
  }

  /** The payload decoder of each mode. */
  function DecodeSegmentData(m: Mode, chunks: seq<Chunk>): string
  {
    match m
    case Numeric => DecodeNumeric(chunks)
    case AlphaNumeric => DecodeAlpha(chunks)
    case _ => Utf8.DecodeFrom(DecodeBytes(chunks))
  }

  /**
   * For a segment its mode can encode (what the segmenter produces), every
   * chunk fits its width and decoding the chunks gives back the segment's text.
   */
  lemma SegmentDataRoundTrip(seg: Segment)
    requires Encodable(seg.value, seg.mode)
    ensures ChunksFit(EncodedSegmentData(seg))
    ensures DecodeSegmentData(seg.mode, EncodedSegmentData(seg)) == seg.value
  {
    match seg.mode
    case Numeric => NumericRoundTrip(seg.value);
    case AlphaNumeric => AlphaRoundTrip(seg.value);
    case Byte =>
      var b := Utf8.Encode(seg.value);
      ByteRoundTrip(b);
      Utf8.DecodeEncode(seg.value);
  }

  lemma ChunksFitCons(c: Chunk, rest: seq<Chunk>)
    requires 0 <= c.data < Bits.Pow2(c.bitLength) && c.bitLength <= 32 && ChunksFit(rest)
    ensures ChunksFit([c] + rest)
  {
  }

  /** One numeric group of 1..3 digits: its chunk fits and reads back as the group. */
  lemma NumericGroup(g: string)
    requires 1 <= |g| <= 3 && AllDigits(g)
    ensures var c := Chunk(NumberOf(g), ModeBits(Numeric)[|g| - 1]);
            0 <= c.data < Bits.Pow2(c.bitLength) && c.bitLength <= 32
            && DigitsOf(c.data, if c.bitLength == 10 then 3 else if c.bitLength == 7 then 2 else 1) == g
  {
    DigitsRoundTrip(g);
    assert Bits.Pow2(4) == 16 && Bits.Pow2(7) == 128 && Bits.Pow2(10) == 1024;
    assert Pow10(1) == 10 && Pow10(2) == 100 && Pow10(3) == 1000;
  }

  lemma {:induction false} NumericRoundTrip(s: string)
    requires InClass(s, Numeric)
    ensures ChunksFit(NumericChunks(s))
    ensures DecodeNumeric(NumericChunks(s)) == s
    decreases |s|
  {
    if |s| > 0 {
      var n := if |s| >= 3 then 3 else |s|;
      var g := s[..n];
      assert AllDigits(g) by {
        forall i | 0 <= i < |g| ensures IsDigit(g[i]) {
          assert ClassOf(s[i]) == Numeric;
        }
      }
      NumericGroup(g);
      var c := Chunk(NumberOf(g), ModeBits(Numeric)[n - 1]);
      var rest := s[n..];
      assert InClass(rest, Numeric) by {
        forall i | 0 <= i < |rest| ensures ClassOf(rest[i]) == Numeric {
          assert rest[i] == s[n + i];
        }
      }
      if |s| >= 3 {
        assert NumericChunks(s) == [c] + NumericChunks(rest);
      } else {
        assert g == s && rest == [];
        assert NumericChunks(s) == [c] + NumericChunks(rest);
      }
      NumericRoundTrip(rest);
      ChunksFitCons(c, NumericChunks(rest));
      assert DecodeNumeric([c] + NumericChunks(rest)) == g + DecodeNumeric(NumericChunks(rest)) by {
        assert ([c] + NumericChunks(rest))[0] == c;
        assert ([c] + NumericChunks(rest))[1..] == NumericChunks(rest);
      }
      assert s == g + rest;
    }
  }

  /** The position formula inverts the charset, and `CharsetAt` reads it. */
  lemma AlphaIndexOfCharset(k: nat)
    requires k < 45
    ensures AlphaIndex(AlphanumericCharset[k]) == k
    ensures CharsetAt(k) == AlphanumericCharset[k]
  {
    CharsetSlot(k);
  }

  /** `AlphaIndex` is `ALPHANUMERIC_CHARSET.indexOf`. */
  lemma AlphaIndexIsIndexOf(c: char)
    ensures AlphaIndex(c) == IndexOf(AlphanumericCharset, c)
  {
    CharsetMembership(c);
    CharsetLength();
    var r := IndexOf(AlphanumericCharset, c);
    if r >= 0 {
      AlphaIndexOfCharset(r);
    }
  }

  lemma AlphaIndexInRange(c: char)
    requires ClassOf(c) != Byte
    ensures 0 <= AlphaIndex(c) < 45 && CharsetAt(AlphaIndex(c)) == c
  {
  }

  /** One alphanumeric pair: `45 a + b` fits in 11 bits and splits back into `a` and `b`. */
  lemma AlphaPair(a: int, b: int)
    requires 0 <= a < 45 && 0 <= b < 45
    ensures 0 <= a * 45 + b < Bits.Pow2(11)
    ensures (a * 45 + b) / 45 == a && (a * 45 + b) % 45 == b
  {
    Bits.DivModUnique(a * 45 + b, 45, a, b);
    assert Bits.Pow2(11) == 2048;
  }

  /** Charset positions survive the pair encoding. */
  lemma {:induction false} PairRoundTrip(idx: seq<int>)
    requires forall i | 0 <= i < |idx| :: 0 <= idx[i] < 45
    ensures ChunksFit(PairChunks(idx))
    ensures DecodePairs(PairChunks(idx)) == idx
    decreases |idx|
  {
    if |idx| >= 2 {
      var c := Chunk(idx[0] * 45 + idx[1], 11);
      var rc := PairChunks(idx[2..]);
      PairRoundTrip(idx[2..]);
      AlphaPair(idx[0], idx[1]);
      ChunksFitCons(c, rc);
      assert PairChunks(idx) == [c] + rc;
      assert ([c] + rc)[0] == c && ([c] + rc)[1..] == rc;
      assert idx == [idx[0], idx[1]] + idx[2..];
    } else if |idx| == 1 {
      var c := Chunk(idx[0], 6);
      assert Bits.Pow2(6) == 64;
      assert PairChunks(idx) == [c];
      assert [c][1..] == [];
    }
  }

  lemma AlphaRoundTrip(s: string)
    requires InCharset(s)
    ensures ChunksFit(AlphaChunks(s))
    ensures DecodeAlpha(AlphaChunks(s)) == s
  {
    var idx := AlphaIndices(s);
    forall i | 0 <= i < |s|
      ensures 0 <= idx[i] < 45 && CharsetAt(idx[i]) == s[i]
    {
      AlphaIndexInRange(s[i]);
    }
    PairRoundTrip(idx);
  }

  lemma {:induction false} ByteRoundTrip(b: seq<Utf8.byte>)
    ensures ChunksFit(ByteChunks(b))
    ensures DecodeBytes(ByteChunks(b)) == b
  {
    assert Bits.Pow2(8) == 256;
    if |b| > 0 {
      ByteRoundTrip(b[1..]);
      assert ByteChunks(b) == [Chunk(b[0], 8)] + ByteChunks(b[1..]) by {
        assert ByteChunks(b[1..]) == ByteChunks(b)[1..];
      }
    }
  }
}
