/**
 * The data part of `#generateCodeword`: every segment is written as a
 * four-bit mode indicator, a character count and its payload; then come the
 * terminator, the zero bits up to the next byte boundary and the alternating
 * pad bytes 0xEC, 0x11 (sections 7.4.2 to 7.4.10 of ISO/IEC 18004:2015).
 *
 * The bits are described as one stream; the data codewords are the stream
 * packed into `dataTotalCodeword` bytes by the bit writer. A decoder for the
 * stream is given too, and reading the stream back yields the segments.
 */
module Codeword {
  import opened Types
  import opened Constants
  import opened Bits
  import opened Utils
  import opened BitWriter
  import Utf8

  /** The bits of a list of chunks, each in its own width. */
  function ChunkStream(chunks: seq<Chunk>): seq<bool>
  {
    if |chunks| == 0 then [] else ShiftedBits(chunks[0].data, chunks[0].bitLength) + ChunkStream(chunks[1..])
  }

  /** The value of the character count indicator: UTF-8 bytes for Byte, characters otherwise. */
  function CharCount(seg: Segment): nat
  {
    if seg.mode == Byte then |EncodedSegmentData(seg)| else |seg.value|
  }

  /** The bits of one segment: mode indicator, character count, payload. */
  function SegmentStream(seg: Segment, version: nat): seq<bool>
  {
    ShiftedBits(ModeIndicator(seg.mode), ModeIndicatorBits)
      + ShiftedBits(CharCount(seg), CharCountIndicator(seg.mode, version))
      + ChunkStream(EncodedSegmentData(seg))
  }

  /** The bits of all segments, in order. */
  function SegmentsStream(segs: seq<Segment>, version: nat): seq<bool>
  {
    if |segs| == 0 then [] else SegmentStream(segs[0], version) + SegmentsStream(segs[1..], version)
  }

  /** The four-bit terminator, written only when at least four bits remain. */
  function Terminate(s: seq<bool>, dataBits: nat): seq<bool>
  {
    if |s| + 4 <= dataBits then s + ShiftedBits(0, 4) else s
  }

  /** Zero bits up to the next byte boundary. */
  function AlignToByte(s: seq<bool>): (r: seq<bool>)
    ensures |r| % 8 == 0
  {
    if |s| % 8 != 0 then s + ShiftedBits(0, 8 - |s| % 8) else s
  }

  /**
   * The number of iterations of the pad loop: `i < remainingByte` with the
   * real quotient `remainingByte = (dataBits - len) / 8`.
   */
  function PadCount(len: nat, dataBits: nat): nat
  {
    if dataBits > len then (dataBits - len + 7) / 8 else 0
  }

  /** The real test `i < (dataBits - len) / 8` holds exactly below `PadCount`. */
  lemma PadTest(i: nat, len: nat, dataBits: nat)
    ensures (i as real) < (dataBits - len) as real / 8.0 <==> i < PadCount(len, dataBits)
  {
    var d := dataBits - len;
    assert (i as real) < d as real / 8.0 <==> 8 * i < d;
    if d > 0 {
      var q, r := (d + 7) / 8, (d + 7) % 8;
      assert d + 7 == 8 * q + r;
    }
  }

  /** `count` pad bytes, alternating 0xEC and 0x11 and starting with 0xEC. */
  function Pads(count: nat): (r: seq<bool>)
    ensures |r| == 8 * count
  {
    if count == 0 then [] else Pads(count - 1) + ShiftedBits(PadCodewords[(count - 1) % 2], 8)
  }

  /** Terminator, byte alignment and padding after the segment bits `s`. */
  function Finish(s: seq<bool>, dataBits: nat): seq<bool>
  {
    var a := AlignToByte(Terminate(s, dataBits));
    a + Pads(PadCount(|a|, dataBits))
  }

  /** The complete data bit stream for a symbol with `dataBits` data bits. */
  function FinalStream(segs: seq<Segment>, version: nat, dataBits: nat): seq<bool>
  {
    Finish(SegmentsStream(segs, version), dataBits)
  }

  /** The data codewords: the stream packed into the `Uint8Array` of data codewords. */
  function DataCodewords(segs: seq<Segment>, version: nat, ec: EcLevel): (r: seq<bv8>)
    requires ValidVersion(version)
    ensures |r| == DataCodewordCount(version, ec)
  {
    var n := DataCodewordCount(version, ec);
    Pack(FinalStream(segs, version, 8 * n), n)
  }

  // ---------------------------------------------------------------------
  // Lengths and layout

  lemma {:induction false} ChunkStreamLength(chunks: seq<Chunk>)
    ensures |ChunkStream(chunks)| == ChunkBits(chunks)
    decreases |chunks|
  {
    if |chunks| > 0 {
      ChunkStreamLength(chunks[1..]);
      ChunkBitsAppend([chunks[0]], chunks[1..]);
      assert [chunks[0]] + chunks[1..] == chunks;
      assert ChunkBits([chunks[0]]) == chunks[0].bitLength by {
        assert [chunks[0]][..0] == [];
      }
    }
  }

  /**
   * A segment takes exactly the bits the version search charges for it:
   * four for the mode, the count-field width and `getBitsLength`.
   */
  lemma SegmentStreamLength(seg: Segment, version: nat)
    requires seg.mode != Kanji
    ensures |SegmentStream(seg, version)|
            == ModeIndicatorBits + CharCountIndicator(seg.mode, version) + BitsLength(seg)
  {
    ChunkStreamLength(EncodedSegmentData(seg));
    BitsLengthIsChunkWidth(seg);
  }

  lemma {:induction false} SegmentsStreamAppend(a: seq<Segment>, b: seq<Segment>, version: nat)
    ensures SegmentsStream(a + b, version) == SegmentsStream(a, version) + SegmentsStream(b, version)
    decreases |a|
  {
    if |a| == 0 {
      assert a + b == b;
    } else {
      assert (a + b)[1..] == a[1..] + b;
      SegmentsStreamAppend(a[1..], b, version);
    }
  }

  lemma {:induction false} ChunkStreamAppend(a: seq<Chunk>, b: seq<Chunk>)
    ensures ChunkStream(a + b) == ChunkStream(a) + ChunkStream(b)
    decreases |a|
  {
    if |a| == 0 {
      assert a + b == b;
    } else {
      assert (a + b)[1..] == a[1..] + b;
      ChunkStreamAppend(a[1..], b);
    }
  }

  lemma ZeroBits(n: nat)
    ensures ShiftedBits(0, n) == seq(n, i => false)
  {
    forall i | 0 <= i < n
      ensures !ShiftedBits(0, n)[i]
    {
      var p := Pow2((n - i - 1) % 32);
      assert 0 % 0x1_0000_0000 == 0;
      assert 0 / p == 0;
      assert !UnsignedShiftBit(0, n - i - 1);
    }
  }

  /**
   * Terminator and alignment: the bits `s` stay in front, a four-bit
   * terminator follows exactly when four bits remain, and only zeros are
   * added, up to a byte boundary no later than `dataBits`.
   */
  lemma AlignedShape(s: seq<bool>, dataBits: nat)
    requires dataBits % 8 == 0 && |s| <= dataBits
    ensures var a := AlignToByte(Terminate(s, dataBits));
            && |s| <= |a| <= dataBits
            && (|s| + 4 <= dataBits ==> |a| >= |s| + 4)
            && a[..|s|] == s
            && (forall i | |s| <= i < |a| :: !a[i])
  {
    var t := Terminate(s, dataBits);
    ZeroBits(4);
    ZeroBits(8 - |t| % 8);
    assert |AlignToByte(t)| <= dataBits by {
      if |t| % 8 != 0 {
        assert |t| / 8 < dataBits / 8;
      }
    }
    assert t[..|s|] == s;
    assert AlignToByte(t)[..|t|] == t;
  }

  /** With the segments fitting, the padded stream is exactly `dataBits` long. */
  lemma FinishLength(s: seq<bool>, dataBits: nat)
    requires dataBits % 8 == 0 && |s| <= dataBits
    ensures |Finish(s, dataBits)| == dataBits
    ensures Finish(s, dataBits)[..|s|] == s
  {
    var a := AlignToByte(Terminate(s, dataBits));
    AlignedShape(s, dataBits);
    assert PadCount(|a|, dataBits) == (dataBits - |a|) / 8;
    assert Finish(s, dataBits)[..|a|] == a;
  }

  lemma SliceAfter<T>(x: seq<T>, y: seq<T>, i: nat, j: nat)
    requires |x| <= i <= j <= |x| + |y|
    ensures (x + y)[i..j] == y[i - |x|..j - |x|]
  {
  }

  lemma Regroup<T>(a: seq<T>, b: seq<T>, c: seq<T>, d: seq<T>)
    ensures a + b + c + d == a + (b + c + d)
  {
  }

  /** After the aligned bits `a` come pad bytes alternating 0xEC and 0x11. */
  lemma FinishPads(s: seq<bool>, dataBits: nat, k: nat)
    requires dataBits % 8 == 0 && |s| <= dataBits
    ensures var a := |AlignToByte(Terminate(s, dataBits))|;
            k < (dataBits - a) / 8 ==>
              Finish(s, dataBits)[a + 8 * k .. a + 8 * k + 8] == ToBits(PadCodewords[k % 2], 8)
  {
    var al := AlignToByte(Terminate(s, dataBits));
    var a := |al|;
    AlignedShape(s, dataBits);
    if k < (dataBits - a) / 8 {
      var count := (dataBits - a) / 8;
      assert PadCount(a, dataBits) == count;
      PadsAt(count, k);
      PadBits(k % 2);
      SliceAfter(al, Pads(count), a + 8 * k, a + 8 * k + 8);
    }
  }

  /** Each pad codeword fits in a byte, so writing it emits its eight bits. */
  lemma PadBits(i: nat)
    requires i < 2
    ensures ShiftedBits(PadCodewords[i], 8) == ToBits(PadCodewords[i], 8)
  {
    assert Pow2(8) == 256 by {
      Pow2Add(4, 4);
    }
    ShiftedBitsFit(PadCodewords[i], 8);
  }

  /** Pad byte `k` is 0xEC for even `k` and 0x11 for odd `k`. */
  lemma {:induction false} PadsAt(count: nat, k: nat)
    requires k < count
    ensures Pads(count)[8 * k .. 8 * k + 8] == ShiftedBits(PadCodewords[k % 2], 8)
  {
    var front, last := Pads(count - 1), ShiftedBits(PadCodewords[(count - 1) % 2], 8);
    assert Pads(count) == front + last;
    assert |front| == 8 * (count - 1);
    if k == count - 1 {
      SliceRight(front, last);
    } else {
      assert front[8 * k .. 8 * k + 8] == ShiftedBits(PadCodewords[k % 2], 8) by {
        PadsAt(count - 1, k);
      }
      SliceLeft(front, last, 8 * k, 8 * k + 8);
    }
  }

  /** When the segments overflow the data bits nothing but alignment is added. */
  lemma FinishOverflow(s: seq<bool>, dataBits: nat)
    requires dataBits % 8 == 0 && |s| > dataBits
    ensures Finish(s, dataBits) == AlignToByte(s)
  {
    assert PadCount(|AlignToByte(s)|, dataBits) == 0;
  }

  /** The data codewords read back, bit by bit, as the data stream. */
  lemma DataCodewordsBits(segs: seq<Segment>, version: nat, ec: EcLevel)
    requires ValidVersion(version)
    requires |SegmentsStream(segs, version)| <= DataBits(version, ec)
    ensures Unpack(DataCodewords(segs, version, ec)) == FinalStream(segs, version, DataBits(version, ec))
  {
    var n := DataCodewordCount(version, ec);
    var f := FinalStream(segs, version, 8 * n);
    Bytes(n);
    assert DataBits(version, ec) == 8 * n;
    assert |f| == 8 * n by {
      FinishLength(SegmentsStream(segs, version), 8 * n);
    }
    assert DataCodewords(segs, version, ec) == Pack(f, n);
    UnpackPack(f);
  }

  // ---------------------------------------------------------------------
  // Reading the stream back

  /** Reads an `n`-bit number from the front of `bits`. */
  function ReadBits(bits: seq<bool>, n: nat): Option<(nat, seq<bool>)>
  {
    if |bits| < n then None else Some((FromBits(bits[..n]), bits[n..]))
  }

  /** Reads one chunk per width. */
  function ReadChunks(bits: seq<bool>, widths: seq<nat>): Option<(seq<Chunk>, seq<bool>)>
    decreases |widths|
  {
    if |widths| == 0 then Some(([], bits))
    else
      match ReadBits(bits, widths[0])
      case None => None
      case Some((x, rest)) =>
        match ReadChunks(rest, widths[1..])
        case None => None
        case Some((cs, tail)) => Some(([Chunk(x, widths[0])] + cs, tail))
  }

  function Repeat(w: nat, k: nat): (r: seq<nat>)
    ensures |r| == k
  {
    if k == 0 then [] else [w] + Repeat(w, k - 1)
  }

  /** The payload chunk widths of `count` characters (bytes for Byte). */
  function PayloadWidths(m: Mode, count: nat): seq<nat>
  {
    match m
    case Numeric => Repeat(10, count / 3) + (if count % 3 == 2 then [7] else if count % 3 == 1 then [4] else [])
    case AlphaNumeric => Repeat(11, count / 2) + (if count % 2 == 1 then [6] else [])
    case Byte => Repeat(8, count)
    case Kanji => []
  }

  /** The mode a four-bit indicator denotes; Kanji is not read. */
  function ModeOf(indicator: nat): Option<Mode>
  {
    if indicator == 1 then Some(Numeric)
    else if indicator == 2 then Some(AlphaNumeric)
    else if indicator == 4 then Some(Byte)
    else None
  }

  /** Reads one segment: mode indicator, count, payload. */
  function ParseSegment(bits: seq<bool>, version: nat): (r: Option<(Segment, seq<bool>)>)
    ensures r.Some? ==> |r.value.1| <= |bits| - 4
  {
    match ReadBits(bits, ModeIndicatorBits)
    case None => None
    case Some((indicator, r1)) =>
      match ModeOf(indicator)
      case None => None
      case Some(m) =>
        match ReadBits(r1, CharCountIndicator(m, version))
        case None => None
        case Some((count, r2)) =>
          match ReadChunks(r2, PayloadWidths(m, count))
          case None => None
          case Some((chunks, r3)) =>
            ReadChunksShrinks(r2, PayloadWidths(m, count));
            Some((Segment(DecodeSegmentData(m, chunks), m), r3))
  }

  lemma {:induction false} ReadChunksShrinks(bits: seq<bool>, widths: seq<nat>)
    ensures ReadChunks(bits, widths).Some? ==> |ReadChunks(bits, widths).value.1| <= |bits|
    decreases |widths|
  {
    if |widths| > 0 && ReadBits(bits, widths[0]).Some? {
      ReadChunksShrinks(bits[widths[0]..], widths[1..]);
    }
  }

  /**
   * Reads segments until fewer than four bits remain or a zero mode
   * indicator (the terminator) is met.
   */
  function ParseSegments(bits: seq<bool>, version: nat): Option<seq<Segment>>
    decreases |bits|
  {
    if |bits| < 4 || FromBits(bits[..4]) == 0 then Some([])
    else
      match ParseSegment(bits, version)
      case None => None
      case Some((seg, rest)) =>
        match ParseSegments(rest, version)
        case None => None
        case Some(segs) => Some([seg] + segs)
  }

  /** The widths of a list of chunks. */
  function Widths(chunks: seq<Chunk>): (r: seq<nat>)
    ensures |r| == |chunks|
  {
    seq(|chunks|, i requires 0 <= i < |chunks| => chunks[i].bitLength)
  }

  lemma ReadShifted(data: nat, len: nat, rest: seq<bool>)
    requires len <= 32 && data < Pow2(len)
    ensures ReadBits(ShiftedBits(data, len) + rest, len) == Some((data, rest))
  {
    ShiftedBitsFit(data, len);
    var b := ShiftedBits(data, len) + rest;
    assert b[..len] == ShiftedBits(data, len);
    assert b[len..] == rest;
  }

  lemma ReadChunksCons(bits: seq<bool>, w: nat, ws: seq<nat>, x: nat, rest: seq<bool>, cs: seq<Chunk>, tail: seq<bool>)
    requires ReadBits(bits, w) == Some((x, rest)) && ReadChunks(rest, ws) == Some((cs, tail))
    ensures ReadChunks(bits, [w] + ws) == Some(([Chunk(x, w)] + cs, tail))
  {
    assert ([w] + ws)[0] == w && ([w] + ws)[1..] == ws;
  }

  lemma ChunksFitTail(chunks: seq<Chunk>)
    requires |chunks| > 0 && ChunksFit(chunks)
    ensures ChunksFit(chunks[1..])
    ensures 0 <= chunks[0].data < Pow2(chunks[0].bitLength) && chunks[0].bitLength <= 32
  {
    forall i | 0 <= i < |chunks| - 1
      ensures 0 <= chunks[1..][i].data < Pow2(chunks[1..][i].bitLength) && chunks[1..][i].bitLength <= 32
    {
      assert chunks[1..][i] == chunks[i + 1];
    }
  }

  /** The written payload reads back, chunk by chunk, given the widths. */
  lemma {:induction false} ReadChunkStream(chunks: seq<Chunk>, rest: seq<bool>)
    requires ChunksFit(chunks)
    ensures ReadChunks(ChunkStream(chunks) + rest, Widths(chunks)) == Some((chunks, rest))
    decreases |chunks|
  {
    if |chunks| > 0 {
      var c := chunks[0];
      var tail := ChunkStream(chunks[1..]) + rest;
      var bits := ShiftedBits(c.data, c.bitLength) + tail;
      ChunksFitTail(chunks);
      assert ReadChunks(tail, Widths(chunks[1..])) == Some((chunks[1..], rest)) by {
        ReadChunkStream(chunks[1..], rest);
      }
      assert ReadBits(bits, c.bitLength) == Some((c.data as nat, tail)) by {
        ReadShifted(c.data, c.bitLength, tail);
      }
      ReadChunksCons(bits, c.bitLength, Widths(chunks[1..]), c.data, tail, chunks[1..], rest);
      assert ChunkStream(chunks) + rest == bits;
      assert Widths(chunks) == [c.bitLength] + Widths(chunks[1..]);
      assert [Chunk(c.data, c.bitLength)] + chunks[1..] == chunks;
    } else {
      assert ChunkStream(chunks) + rest == rest;
    }
  }

  lemma {:induction false} NumericWidths(s: string)
    ensures Widths(NumericChunks(s)) == PayloadWidths(Numeric, |s|)
    decreases |s|
  {
    if |s| >= 3 {
      NumericWidths(s[3..]);
      assert NumericChunks(s)[1..] == NumericChunks(s[3..]);
      assert Widths(NumericChunks(s)) == [10] + Widths(NumericChunks(s[3..]));
      assert |s| / 3 == (|s| - 3) / 3 + 1 && |s| % 3 == (|s| - 3) % 3;
    }
  }

  lemma {:induction false} PairWidths(idx: seq<int>)
    ensures Widths(PairChunks(idx)) == PayloadWidths(AlphaNumeric, |idx|)
    decreases |idx|
  {
    if |idx| >= 2 {
      PairWidths(idx[2..]);
      assert PairChunks(idx)[1..] == PairChunks(idx[2..]);
      assert Widths(PairChunks(idx)) == [11] + Widths(PairChunks(idx[2..]));
      assert |idx| / 2 == (|idx| - 2) / 2 + 1 && |idx| % 2 == (|idx| - 2) % 2;
    }
  }

  lemma ByteWidths(b: seq<Utf8.byte>)
    ensures Widths(ByteChunks(b)) == PayloadWidths(Byte, |b|)
  {
    RepeatAt(8, |b|);
  }

  lemma {:induction false} RepeatAt(w: nat, k: nat)
    ensures forall i | 0 <= i < k :: Repeat(w, k)[i] == w
  {
    if k > 0 {
      RepeatAt(w, k - 1);
    }
  }

  /** The payload widths are determined by the mode and the character count. */
  lemma SegmentWidths(seg: Segment)
    requires seg.mode != Kanji
    ensures Widths(EncodedSegmentData(seg)) == PayloadWidths(seg.mode, CharCount(seg))
  {
    match seg.mode
    case Numeric => NumericWidths(seg.value);
    case AlphaNumeric => PairWidths(AlphaIndices(seg.value));
    case Byte => ByteWidths(Utf8.Encode(seg.value));
  }

  /** The segments this encoder can write: encodable text whose count fits its field. */
  predicate Writable(seg: Segment, version: nat)
  {
    Encodable(seg.value, seg.mode) && CharCount(seg) < CountLimit(seg.mode, version)
  }

  /** `2^w` for the count-field width `w` of a mode and version. */
  function CountLimit(m: Mode, version: nat): nat
  {
    var w := CharCountIndicator(m, version);
    if w == 8 then 0x100 else if w == 9 then 0x200 else if w == 10 then 0x400
    else if w == 11 then 0x800 else if w == 12 then 0x1000 else if w == 13 then 0x2000
    else if w == 14 then 0x4000 else 0x1_0000
  }

  lemma CountLimitIsPow2(m: Mode, version: nat)
    ensures CountLimit(m, version) == Pow2(CharCountIndicator(m, version))
    ensures CharCountIndicator(m, version) <= 16
  {
    assert Pow2(8) == 0x100;
    assert Pow2(16) == 0x1_0000;
  }

  lemma ModeOfIndicator(m: Mode)
    requires m != Kanji
    ensures ModeOf(ModeIndicator(m)) == Some(m)
  {
  }

  /** `ParseSegment` once its three reads are known. */
  lemma ParseSegmentOf(bits: seq<bool>, version: nat, m: Mode, count: nat, r1: seq<bool>, r2: seq<bool>,
                       chunks: seq<Chunk>, r3: seq<bool>)
    requires m != Kanji
    requires ReadBits(bits, ModeIndicatorBits) == Some((ModeIndicator(m), r1))
    requires ReadBits(r1, CharCountIndicator(m, version)) == Some((count, r2))
    requires ReadChunks(r2, PayloadWidths(m, count)) == Some((chunks, r3))
    ensures ParseSegment(bits, version) == Some((Segment(DecodeSegmentData(m, chunks), m), r3))
  {
    ModeOfIndicator(m);
  }

  /** Reading a written segment gives the segment back, and the bits after it. */
  lemma SegmentRoundTrip(seg: Segment, version: nat, rest: seq<bool>)
    requires Writable(seg, version)
    ensures ParseSegment(SegmentStream(seg, version) + rest, version) == Some((seg, rest))
  {
    var m := seg.mode;
    var chunks := EncodedSegmentData(seg);
    var cci := CharCountIndicator(m, version);
    var r2 := ChunkStream(chunks) + rest;
    var r1 := ShiftedBits(CharCount(seg), cci) + r2;
    var bits := SegmentStream(seg, version) + rest;
    assert bits == ShiftedBits(ModeIndicator(m), 4) + r1;
    assert ReadBits(bits, 4) == Some((ModeIndicator(m), r1)) by {
      assert Pow2(4) == 16;
      ReadShifted(ModeIndicator(m), 4, r1);
    }
    assert ReadBits(r1, cci) == Some((CharCount(seg), r2)) by {
      CountLimitIsPow2(m, version);
      ReadShifted(CharCount(seg), cci, r2);
    }
    assert ReadChunks(r2, PayloadWidths(m, CharCount(seg))) == Some((chunks, rest)) by {
      SegmentDataRoundTrip(seg);
      SegmentWidths(seg);
      ReadChunkStream(chunks, rest);
    }
    assert DecodeSegmentData(m, chunks) == seg.value by {
      SegmentDataRoundTrip(seg);
    }
    ParseSegmentOf(bits, version, m, CharCount(seg), r1, r2, chunks, rest);
  }

  /** Where reading stops: fewer than four bits, or a zero mode indicator. */
  predicate Stops(tail: seq<bool>)
  {
    |tail| < 4 || FromBits(tail[..4]) == 0
  }

  /**
   * Reading a stream of written segments followed by a stop gives the
   * segments back. Every segment starts with a non-zero mode indicator, so
   * the reader does not stop early.
   */
  lemma {:induction false} SegmentsRoundTrip(segs: seq<Segment>, version: nat, tail: seq<bool>)
    requires forall i | 0 <= i < |segs| :: Writable(segs[i], version)
    requires Stops(tail)
    ensures ParseSegments(SegmentsStream(segs, version) + tail, version) == Some(segs)
    decreases |segs|
  {
    if |segs| == 0 {
      assert SegmentsStream(segs, version) + tail == tail;
    } else {
      SegmentsRoundTrip(segs[1..], version, tail);
      SegmentsStep(segs[0], segs[1..], version, tail);
      assert [segs[0]] + segs[1..] == segs;
    }
  }

  lemma SegmentsStep(seg: Segment, segs: seq<Segment>, version: nat, tail: seq<bool>)
    requires Writable(seg, version)
    requires ParseSegments(SegmentsStream(segs, version) + tail, version) == Some(segs)
    ensures ParseSegments(SegmentsStream([seg] + segs, version) + tail, version) == Some([seg] + segs)
  {
    var rest := SegmentsStream(segs, version) + tail;
    var bits := SegmentStream(seg, version) + rest;
    assert SegmentsStream([seg] + segs, version) + tail == bits by {
      StreamCons(seg, segs, version, tail);
    }
    assert ParseSegment(bits, version) == Some((seg, rest)) by {
      SegmentRoundTrip(seg, version, rest);
    }
    assert |bits| >= 4 && FromBits(bits[..4]) != 0 by {
      IndicatorNonZero(seg, version, rest);
    }
    ParseSegmentsCons(bits, version, seg, rest, segs);
  }

  lemma StreamCons(seg: Segment, segs: seq<Segment>, version: nat, tail: seq<bool>)
    ensures SegmentsStream([seg] + segs, version) + tail
         == SegmentStream(seg, version) + (SegmentsStream(segs, version) + tail)
  {
    assert ([seg] + segs)[1..] == segs;
    Regroup3(SegmentStream(seg, version), SegmentsStream(segs, version), tail);
  }

  lemma Regroup3<T>(a: seq<T>, b: seq<T>, c: seq<T>)
    ensures a + b + c == a + (b + c)
  {
  }

  lemma ParseSegmentsCons(bits: seq<bool>, version: nat, seg: Segment, rest: seq<bool>, segs: seq<Segment>)
    requires |bits| >= 4 && FromBits(bits[..4]) != 0
    requires ParseSegment(bits, version) == Some((seg, rest))
    requires ParseSegments(rest, version) == Some(segs)
    ensures ParseSegments(bits, version) == Some([seg] + segs)
  {
  }

  lemma IndicatorNonZero(seg: Segment, version: nat, rest: seq<bool>)
    requires seg.mode != Kanji
    ensures var b := SegmentStream(seg, version) + rest;
            |b| >= 4 && FromBits(b[..4]) == ModeIndicator(seg.mode) != 0
  {
    var b := SegmentStream(seg, version) + rest;
    assert b[..4] == ShiftedBits(ModeIndicator(seg.mode), 4);
    assert Pow2(4) == 16;
    ShiftedBitsFit(ModeIndicator(seg.mode), 4);
  }

  /**
   * End to end: the data stream of segments that fit the data bits reads
   * back as those segments. What follows them is a zero terminator, or
   * fewer than four bits.
   */
  lemma FinalStreamRoundTrip(segs: seq<Segment>, version: nat, dataBits: nat)
    requires dataBits % 8 == 0
    requires forall i | 0 <= i < |segs| :: Writable(segs[i], version)
    requires |SegmentsStream(segs, version)| <= dataBits
    ensures ParseSegments(FinalStream(segs, version, dataBits), version) == Some(segs)
  {
    var s := SegmentsStream(segs, version);
    var f := FinalStream(segs, version, dataBits);
    assert |s| <= |f| && f[..|s|] == s && Stops(f[|s|..]) by {
      FinishLength(s, dataBits);
      FinishStops(s, dataBits);
    }
    SplitAt(f, |s|);
    SegmentsRoundTrip(segs, version, f[|s|..]);
  }

  lemma SliceRight<T>(a: seq<T>, b: seq<T>)
    ensures (a + b)[|a| .. |a| + |b|] == b
  {
  }

  lemma SliceLeft<T>(a: seq<T>, b: seq<T>, i: nat, j: nat)
    requires i <= j <= |a|
    ensures (a + b)[i .. j] == a[i .. j]
  {
  }

  lemma SplitAt<T>(x: seq<T>, k: nat)
    requires k <= |x|
    ensures x == x[..k] + x[k..]
  {
  }

  /** After the segment bits the reader meets a zero terminator or fewer than four bits. */
  lemma FinishStops(s: seq<bool>, dataBits: nat)
    requires dataBits % 8 == 0 && |s| <= dataBits
    ensures |s| <= |Finish(s, dataBits)| && Stops(Finish(s, dataBits)[|s|..])
  {
    var f := Finish(s, dataBits);
    var a := AlignToByte(Terminate(s, dataBits));
    FinishLength(s, dataBits);
    AlignedShape(s, dataBits);
    var tail := f[|s|..];
    if |tail| >= 4 {
      assert |s| + 4 <= dataBits;
      assert tail[..4] == ToBits(0, 4) by {
        forall i | 0 <= i < 4 ensures tail[..4][i] == ToBits(0, 4)[i] {
          assert tail[i] == f[|s| + i] == a[|s| + i];
          ToBitsIndex(0, 4, i);
          assert 0 / Pow2(4 - 1 - i) == 0;
        }
      }
      assert Pow2(4) == 16;
      FromToBits(0, 4);
    }
  }

  // ---------------------------------------------------------------------
  // The writer loop

  lemma PackEmpty(n: nat)
    ensures Pack([], n) == seq(n, k => 0 as bv8)
  {
    forall k | 0 <= k < n
      ensures PartialByte([], k, 8) == 0
    {
      PartialByteSame([], [], k, 8);
      EmptyByte(k, 8);
    }
  }

  lemma {:induction false} EmptyByte(k: nat, m: nat)
    requires m <= 8
    ensures PartialByte([], k, m) == 0
  {
    if m > 0 {
      EmptyByte(k, m - 1);
      OrZero(0);
    }
  }

  lemma SegmentsStreamSnoc(segs: seq<Segment>, i: nat, version: nat)
    requires i < |segs|
    ensures SegmentsStream(segs[..i + 1], version) == SegmentsStream(segs[..i], version) + SegmentStream(segs[i], version)
  {
    assert segs[..i + 1] == segs[..i] + [segs[i]];
    SegmentsStreamAppend(segs[..i], [segs[i]], version);
    assert SegmentsStream([segs[i]], version) == SegmentStream(segs[i], version) + SegmentsStream([], version);
  }

  lemma ChunkStreamSnoc(chunks: seq<Chunk>, i: nat)
    requires i < |chunks|
    ensures ChunkStream(chunks[..i + 1]) == ChunkStream(chunks[..i]) + ShiftedBits(chunks[i].data, chunks[i].bitLength)
  {
    assert chunks[..i + 1] == chunks[..i] + [chunks[i]];
    ChunkStreamAppend(chunks[..i], [chunks[i]]);
    assert ChunkStream([chunks[i]]) == ShiftedBits(chunks[i].data, chunks[i].bitLength) + ChunkStream([]);
  }

  /** The payload loop: one `#encodeCodeword` call per chunk. */
  method WriteChunks(dcData: seq<bv8>, codeBitLength: nat, chunks: seq<Chunk>, ghost written: seq<bool>)
    returns (r: seq<bv8>, newLength: nat)
    requires codeBitLength == |written| && dcData == Pack(written, |dcData|)
    ensures newLength == |written + ChunkStream(chunks)|
    ensures r == Pack(written + ChunkStream(chunks), |dcData|)
  {
    r, newLength := dcData, codeBitLength;
    ghost var w := written;
    var i := 0;
    while i < |chunks|
      invariant 0 <= i <= |chunks|
      invariant w == written + ChunkStream(chunks[..i])
      invariant newLength == |w|
      invariant r == Pack(w, |dcData|)
    {
      r, newLength := EncodeCodeword(r, newLength, chunks[i].data, chunks[i].bitLength, w);
      ChunkStreamSnoc(chunks, i);
      w := w + ShiftedBits(chunks[i].data, chunks[i].bitLength);
      i := i + 1;
    }
    assert chunks[..i] == chunks;
  }

  /** One segment: mode indicator, character count indicator, payload. */
  method WriteSegment(dcData: seq<bv8>, codeBitLength: nat, segment: Segment, version: nat, ghost written: seq<bool>)
    returns (r: seq<bv8>, newLength: nat)
    requires codeBitLength == |written| && dcData == Pack(written, |dcData|)
    ensures newLength == |written + SegmentStream(segment, version)|
    ensures r == Pack(written + SegmentStream(segment, version), |dcData|)
  {
    var mode := ShiftedBits(ModeIndicator(segment.mode), ModeIndicatorBits);
    r, newLength := EncodeCodeword(dcData, codeBitLength, ModeIndicator(segment.mode), ModeIndicatorBits, written);
    var segmentBitArray := EncodedSegmentData(segment);
    var ccLength := if segment.mode == Byte then |segmentBitArray| else |segment.value|;
    var count := ShiftedBits(ccLength, CharCountIndicator(segment.mode, version));
    r, newLength := EncodeCodeword(r, newLength, ccLength, CharCountIndicator(segment.mode, version), written + mode);
    r, newLength := WriteChunks(r, newLength, segmentBitArray, written + mode + count);
    Regroup(written, mode, count, ChunkStream(segmentBitArray));
  }

  /** The segment loop of `#generateCodeword`. */
  method WriteSegments(dcData: seq<bv8>, segs: seq<Segment>, version: nat) returns (r: seq<bv8>, newLength: nat)
    requires dcData == Pack([], |dcData|)
    ensures newLength == |SegmentsStream(segs, version)|
    ensures r == Pack(SegmentsStream(segs, version), |dcData|)
  {
    r, newLength := dcData, 0;
    var index := 0;
    while index < |segs|
      invariant 0 <= index <= |segs|
      invariant newLength == |SegmentsStream(segs[..index], version)|
      invariant r == Pack(SegmentsStream(segs[..index], version), |dcData|)
    {
      r, newLength := WriteSegment(r, newLength, segs[index], version, SegmentsStream(segs[..index], version));
      SegmentsStreamSnoc(segs, index, version);
      index := index + 1;
    }
    assert segs[..index] == segs;
  }

  /** Terminator, zero bits to the byte boundary, and the pad loop over the real `remainingByte`. */
  method WritePadding(dcData: seq<bv8>, codeBitLength: nat, dataTotalCodewordBit: nat, ghost written: seq<bool>)
    returns (r: seq<bv8>, newLength: nat)
    requires codeBitLength == |written| && dcData == Pack(written, |dcData|)
    ensures r == Pack(Finish(written, dataTotalCodewordBit), |dcData|)
  {
    r, newLength := dcData, codeBitLength;
    ghost var w := written;
    if newLength + 4 <= dataTotalCodewordBit {
      r, newLength := EncodeCodeword(r, newLength, 0, 4, w);
      w := w + ShiftedBits(0, 4);
    }
    assert w == Terminate(written, dataTotalCodewordBit);
    if newLength % 8 != 0 {
      r, newLength := EncodeCodeword(r, newLength, 0, 8 - newLength % 8, w);
      w := w + ShiftedBits(0, 8 - |w| % 8);
    }
    assert w == AlignToByte(Terminate(written, dataTotalCodewordBit));
    r, newLength := WritePads(r, newLength, dataTotalCodewordBit, w);
  }

  /** The pad loop: `0xEC`, `0x11`, ... while the real quotient `remainingByte` exceeds the count. */
  method WritePads(dcData: seq<bv8>, codeBitLength: nat, dataTotalCodewordBit: nat, ghost a: seq<bool>)
    returns (r: seq<bv8>, newLength: nat)
    requires codeBitLength == |a| && dcData == Pack(a, |dcData|)
    requires |a| % 8 == 0
    ensures r == Pack(a + Pads(PadCount(|a|, dataTotalCodewordBit)), |dcData|)
  {
    r, newLength := dcData, codeBitLength;
    ghost var w := a;
    var remainingByte: real := (dataTotalCodewordBit - newLength) as real / 8.0;
    var i := 0;
    while (i as real) < remainingByte
      invariant 0 <= i <= PadCount(|a|, dataTotalCodewordBit)
      invariant w == a + Pads(i)
      invariant newLength == |w|
      invariant r == Pack(w, |dcData|)
      decreases dataTotalCodewordBit - |a| - 8 * i
    {
      PadTest(i, codeBitLength, dataTotalCodewordBit);
      r, newLength := EncodeCodeword(r, newLength, PadCodewords[i % 2], 8, w);
      w := w + ShiftedBits(PadCodewords[i % 2], 8);
      i := i + 1;
    }
    PadTest(i, codeBitLength, dataTotalCodewordBit);
  }

  /**
   * The data-codeword part of `#generateCodeword`, written as it
   * is computed there: one `#encodeCodeword` call per header field, chunk,
   * terminator, alignment and pad byte. The result packs the data
   * stream.
   */
  method GenerateDataCodewords(segs: seq<Segment>, version: nat, ec: EcLevel) returns (dcData: seq<bv8>)
    requires ValidVersion(version)
    ensures dcData == DataCodewords(segs, version, ec)
  {
    var dataTotalCodeword := DataCodewordCount(version, ec);
    var dataTotalCodewordBit := 8 * dataTotalCodeword;
    dcData := seq(dataTotalCodeword, k => 0 as bv8);
    PackEmpty(dataTotalCodeword);
    var codeBitLength;
    dcData, codeBitLength := WriteSegments(dcData, segs, version);
    dcData, codeBitLength := WritePadding(dcData, codeBitLength, dataTotalCodewordBit, SegmentsStream(segs, version));
  }
}
