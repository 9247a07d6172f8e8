/**
 * The encoder as a whole (the `QR` class of packages/core/src/qr.ts): the
 * constructor rejects an empty string, splits the input into runs, picks the
 * version, and `#generateQr` then writes the codewords, draws the function
 * patterns in order, places the codewords, masks the symbol and writes the
 * format information.
 */
module Qr {
  import opened Types
  import opened Constants
  import opened Matrix
  import opened FunctionPatterns
  import InfoBits
  import Utils
  import Segmentation
  import Version
  import Codeword
  import Blocks
  import BlockAssembly
  import Alignment
  import Placement
  import Masking

  /** A finished symbol: the public fields of a constructed `QR`. */
  datatype Code = Code(
    version: nat,
    errorCorrection: EcLevel,
    segments: seq<Segment>,
    codewords: seq<bv8>,
    maskPattern: nat,
    gridSize: nat,
    data: seq<bool>)

  // ---------------------------------------------------------------- the plan: segments and version

  /** `getBasicInputSegments` followed by `#getVersion`: the version and the segments it encodes. */
  function Plan(input: string, ec: EcLevel): (nat, seq<Segment>)
    requires |input| > 0
  {
    var basic := Segmentation.BasicSegments(input);
    Segmentation.BasicSegmentsRuns(input);
    Segmentation.ClassRunsCarried(basic, input);
    Version.GetVersion(Version.Regimes(basic), ec)
  }

  /**
   * The plan keeps the text: the segments chosen spell out the input, each
   * in a mode that can encode it, and a version it picks holds their bit
   * stream.
   */
  lemma PlanSpec(input: string, ec: EcLevel)
    requires |input| > 0
    ensures var (v, segs) := Plan(input, ec);
      && Version.Encoded(segs)
      && Concat(segs) == input
      && (v != 0 ==> ValidVersion(v) && |Codeword.SegmentsStream(segs, v)| <= Utils.DataBits(v, ec))
  {
    var basic := Segmentation.BasicSegments(input);
    Segmentation.BasicSegmentsRuns(input);
    Segmentation.ClassRunsCarried(basic, input);
    var rs := Version.Regimes(basic);
    var last := Version.GetVersionSpec(rs, ec);
    Version.VersionHoldsData(rs, ec);
    assert Concat(rs[last]) == input;
  }

  // ---------------------------------------------------------------- the codewords

  /** `#generateCodeword`: the data codewords of the segments, split into blocks and interleaved with their error correction. */
  function Codewords(segs: seq<Segment>, version: nat, ec: EcLevel): (cw: seq<bv8>)
    requires ValidVersion(version)
    ensures |cw| == TotalCodewords(version)
  {
    var l := Blocks.LayoutOf(version, ec);
    Blocks.CodewordSequence(Codeword.DataCodewords(segs, version, ec), l)
  }

  /** `#generateCodeword`, computed by its loops. */
  method GenerateCodeword(segs: seq<Segment>, version: nat, ec: EcLevel) returns (codewords: seq<bv8>)
    requires ValidVersion(version)
    ensures codewords == Codewords(segs, version, ec)
  {
    var dcData := Codeword.GenerateDataCodewords(segs, version, ec);
    codewords := BlockAssembly.GenerateCodewords(dcData, Blocks.LayoutOf(version, ec));
  }

  // ---------------------------------------------------------------- the function patterns

  /**
   * Drawing stage `stage` of `#generateQr`: 1 the finder patterns, 2 the
   * timing patterns, 3 the alignment patterns, 4 the version information
   * (from version 7 on), 5 the reserved areas.
   */
  function DrawStage(s: Symbol, version: nat, stage: nat): (t: Symbol)
    requires ValidVersion(version) && s.Valid() && s.size == 4 * version + 17 && 1 <= stage <= 5
    ensures t.Valid() && t.size == s.size
  {
    match stage
    case 1 => FillFinderPatterns(s)
    case 2 => FillTimingPattern(s)
    case 3 => Alignment.FillAlignmentPattern(s, version)
    case 4 => if version >= 7 then FillVersionInfo(s, version) else s
    case _ => ReserveBits(s)
  }

  /** Stage 1 draws the finder patterns. */
  lemma StageFinder(s: Symbol, version: nat)
    requires ValidVersion(version) && s.Valid() && s.size == 4 * version + 17
    ensures DrawStage(s, version, 1) == FillFinderPatterns(s)
  {
  }

  /** Stage 2 draws the timing patterns. */
  lemma StageTiming(s: Symbol, version: nat)
    requires ValidVersion(version) && s.Valid() && s.size == 4 * version + 17
    ensures DrawStage(s, version, 2) == FillTimingPattern(s)
  {
  }

  /** Stage 5 reserves the separators, the format areas and the dark module. */
  lemma StageReserve(s: Symbol, version: nat)
    requires ValidVersion(version) && s.Valid() && s.size == 4 * version + 17
    ensures DrawStage(s, version, 5) == ReserveBits(s)
  {
  }

  /** A blank grid of `4 * version + 17` modules after the first `stages` drawing stages. */
  function Drawn(version: nat, stages: nat): (s: Symbol)
    requires ValidVersion(version) && stages <= 5
    ensures s.Valid() && s.size == 4 * version + 17
  {
    if stages == 0 then Blank(4 * version + 17) else DrawStage(Drawn(version, stages - 1), version, stages)
  }

  /** `#generateQr` up to `#fillCodeword`: all five drawing stages. */
  function Framed(version: nat): (s: Symbol)
    requires ValidVersion(version)
    ensures s.Valid() && s.size == 4 * version + 17 && Placement.PathShape(s.size)
  {
    GridShape(version);
    Drawn(version, 5)
  }

  /** Every grid size `4 * version + 17` is odd and at least 21: the placement path is defined for it. */
  lemma GridShape(version: nat)
    requires ValidVersion(version)
    ensures Placement.PathShape(4 * version + 17)
  {
    assert 4 * version + 17 == 2 * (2 * version + 8) + 1;
  }

  /** After `#fillCodeword`: the codewords placed into the free modules. */
  function Filled(version: nat, codewords: seq<bv8>): (t: Symbol)
    requires ValidVersion(version)
    ensures t.Valid() && t.size == 4 * version + 17
  {
    Placement.PlaceCodewords(Framed(version), codewords)
  }

  /** The finished symbol: the placed codewords masked with `mask`, with that mask's format information. */
  function Final(version: nat, codewords: seq<bv8>, ec: EcLevel, mask: nat): (t: Symbol)
    requires ValidVersion(version) && mask < 8
    ensures t.Valid() && t.size == 4 * version + 17
  {
    Masking.Candidate(Filled(version, codewords), ec, mask)
  }

  lemma FillBlockExtends(s: Symbol, x: int, y: int, n: nat, kind: ReservedKind)
    requires s.Valid() && 0 <= x && x + n <= s.size && 0 <= y && y + n <= s.size
    ensures Extends(s, FillBlock(s, x, y, n, kind))
  {
  }

  lemma FinderExtends(s: Symbol)
    requires s.Valid() && s.size >= 21
    ensures Extends(s, FillFinderPatterns(s))
  {
    var g := s.size;
    var s1 := FillBlock(s, 0, 0, 7, FinderPattern);
    var s2 := FillBlock(s1, 0, g - 7, 7, FinderPattern);
    var s3 := FillBlock(s2, g - 7, 0, 7, FinderPattern);
    FillBlockExtends(s, 0, 0, 7, FinderPattern);
    FillBlockExtends(s1, 0, g - 7, 7, FinderPattern);
    FillBlockExtends(s2, g - 7, 0, 7, FinderPattern);
    ExtendsTransitive(s, s1, s2);
    ExtendsTransitive(s, s2, s3);
  }

  lemma {:induction false} BlocksExtend(s: Symbol, centres: seq<(int, int)>)
    requires s.Valid()
    requires forall k | 0 <= k < |centres| ::
               2 <= centres[k].0 && centres[k].0 + 3 <= s.size && 2 <= centres[k].1 && centres[k].1 + 3 <= s.size
    ensures Extends(s, Alignment.FillBlocks(s, centres))
  {
    if |centres| > 0 {
      var front := centres[..|centres| - 1];
      var c := centres[|centres| - 1];
      BlocksExtend(s, front);
      var t := Alignment.FillBlocks(s, front);
      FillBlockExtends(t, c.0 - 2, c.1 - 2, AlignmentPatternSize, AlignmentPattern);
      ExtendsTransitive(s, t, Alignment.FillBlocks(s, centres));
    }
  }

  lemma ReserveExtends(s: Symbol)
    requires s.Valid() && s.size >= 21
    ensures Extends(s, ReserveBits(s))
  {
    var g := s.size;
    var s1 := ReserveSeparators(s, 0, 0);
    var s2 := ReserveSeparators(s1, 0, g - 7);
    var s3 := ReserveSeparators(s2, g - 7, 0);
    var s4 := Paint(s3, (r, c) => FormatAreaWrite(g, r, c));
    var s5 := Paint(s4, (r, c) => DarkModuleWrite(g, r, c));
    PaintExtends(s, (r, c) => SeparatorWrite(g, 0, 0, r, c));
    PaintExtends(s1, (r, c) => SeparatorWrite(g, 0, g - 7, r, c));
    PaintExtends(s2, (r, c) => SeparatorWrite(g, g - 7, 0, r, c));
    PaintExtends(s3, (r, c) => FormatAreaWrite(g, r, c));
    PaintExtends(s4, (r, c) => DarkModuleWrite(g, r, c));
    ExtendsTransitive(s, s1, s2);
    ExtendsTransitive(s, s2, s3);
    ExtendsTransitive(s, s3, s4);
    ExtendsTransitive(s, s4, s5);
  }

  /** The alignment patterns only add reservations. */
  lemma AlignmentExtends(s: Symbol, version: nat)
    requires ValidVersion(version) && s.Valid() && s.size == 4 * version + 17
    ensures Extends(s, Alignment.FillAlignmentPattern(s, version))
  {
    if version > 1 {
      Alignment.CentresRange(version);
      BlocksExtend(s, Alignment.Centres(version));
    }
  }

  /** Stage 3 draws the alignment patterns. */
  lemma StageAlignment(s: Symbol, version: nat)
    requires ValidVersion(version) && s.Valid() && s.size == 4 * version + 17
    ensures DrawStage(s, version, 3) == Alignment.FillAlignmentPattern(s, version)
  {
  }

  /** Stage 4 draws the version information from version 7 on and nothing before. */
  lemma StageVersionInfo(s: Symbol, version: nat)
    requires ValidVersion(version) && s.Valid() && s.size == 4 * version + 17
    ensures DrawStage(s, version, 4) == if version >= 7 then FillVersionInfo(s, version) else s
  {
  }

  /** The version information only adds reservations. */
  lemma VersionInfoExtends(s: Symbol, version: nat)
    requires ValidVersion(version) && s.Valid() && s.size == 4 * version + 17
    ensures Extends(s, if version >= 7 then FillVersionInfo(s, version) else s)
  {
    if version >= 7 {
      PaintExtends(s, (r, c) => VersionWrite(s.size, InfoBits.VersionInfoBits(version as bv32), r, c));
    }
  }

  /** Each drawing stage only adds reservations. */
  lemma StageExtends(s: Symbol, version: nat, stage: nat)
    requires ValidVersion(version) && s.Valid() && s.size == 4 * version + 17 && 1 <= stage <= 5
    ensures Extends(s, DrawStage(s, version, stage))
  {
    if stage == 1 {
      StageFinder(s, version);
      FinderExtends(s);
    } else if stage == 2 {
      StageTiming(s, version);
      PaintExtends(s, (r, c) => TimingWrite(s.size, r, c));
    } else if stage == 3 {
      StageAlignment(s, version);
      AlignmentExtends(s, version);
    } else if stage == 4 {
      StageVersionInfo(s, version);
      VersionInfoExtends(s, version);
    } else {
      StageReserve(s, version);
      ReserveExtends(s);
    }
  }

  /** Stage `k` only adds to the reservations of the first `k - 1`. */
  lemma DrawnStep(version: nat, k: nat)
    requires ValidVersion(version) && 1 <= k <= 5
    ensures Extends(Drawn(version, k - 1), Drawn(version, k))
  {
    StageExtends(Drawn(version, k - 1), version, k);
  }

  /** The later drawing stages only add to the reservations of the earlier ones. */
  lemma {:induction false} DrawnExtends(version: nat, j: nat, k: nat)
    requires ValidVersion(version) && j <= k <= 5
    ensures Extends(Drawn(version, j), Drawn(version, k))
    decreases k
  {
    if j < k {
      DrawnExtends(version, j, k - 1);
      DrawnStep(version, k);
      ExtendsTransitive(Drawn(version, j), Drawn(version, k - 1), Drawn(version, k));
    }
  }

  /** Every module left free for the codewords is still light: the premise of reading them back. */
  lemma FramedFreeLight(version: nat)
    requires ValidVersion(version)
    ensures Placement.FreeLight(Framed(version))
  {
    DrawnExtends(version, 0, 5);
  }

  /** The finder blocks reserve column 6 in their seven rows at the top and at the bottom. */
  lemma FinderColumn6(s: Symbol, r: int)
    requires s.Valid() && s.size >= 21 && 0 <= r < s.size && (r < 7 || r >= s.size - 7)
    ensures !FillFinderPatterns(s).Free(r, 6)
  {
    var x := if r < 7 then 0 else s.size - 7;
    FinderCells(s, x, 0, r - x, 6);
  }

  /** The vertical timing pattern reserves column 6 between the separators. */
  lemma TimingColumn6(s: Symbol, r: int)
    requires s.Valid() && 8 <= r <= s.size - 9
    ensures !FillTimingPattern(s).Free(r, 6)
  {
    TimingCells(s, r);
  }

  /** The separators below the top-left and above the bottom-left finder block reserve column 6 too. */
  lemma SeparatorColumn6(s: Symbol, r: int)
    requires s.Valid() && s.size >= 21 && (r == 7 || r == s.size - 8)
    ensures !ReserveBits(s).Free(r, 6)
  {
    ReserveBitsAt(s, r, 6);
  }

  lemma Column6Finder(version: nat, r: int)
    requires ValidVersion(version) && 0 <= r < 4 * version + 17
    requires r < 7 || r >= 4 * version + 10
    ensures !Drawn(version, 1).Free(r, 6)
  {
    var b := Blank(4 * version + 17);
    StageFinder(b, version);
    FinderColumn6(b, r);
  }

  lemma Column6Timing(version: nat, r: int)
    requires ValidVersion(version) && 8 <= r <= 4 * version + 8
    ensures !Drawn(version, 2).Free(r, 6)
  {
    StageTiming(Drawn(version, 1), version);
    TimingColumn6(Drawn(version, 1), r);
  }

  lemma Column6Separator(version: nat, r: int)
    requires ValidVersion(version) && (r == 7 || r == 4 * version + 9)
    ensures !Drawn(version, 5).Free(r, 6)
  {
    StageReserve(Drawn(version, 4), version);
    SeparatorColumn6(Drawn(version, 4), r);
  }

  /**
   * Column 6 is reserved from top to bottom before the codewords are
   * placed: the finder blocks and their separators at both ends, the
   * vertical timing pattern between them.
   */
  lemma FramedColumn6(version: nat, r: int)
    requires ValidVersion(version) && 0 <= r < 4 * version + 17
    ensures !Framed(version).Free(r, 6)
  {
    var g := 4 * version + 17;
    if r < 7 || r >= g - 7 {
      Column6Finder(version, r);
      DrawnExtends(version, 1, 5);
    } else if r == 7 || r == g - 8 {
      Column6Separator(version, r);
    } else {
      Column6Timing(version, r);
      DrawnExtends(version, 2, 5);
    }
  }

  // ---------------------------------------------------------------- reading the symbol back

  /**
   * Reading the free modules of the placed symbol along the path gives the
   * codeword bits in order, then remainder bits of 0.
   */
  lemma FilledReadsBack(version: nat, codewords: seq<bv8>)
    requires ValidVersion(version)
    ensures var s := Framed(version);
      var bits := Placement.ReadFree(s, Filled(version, codewords), Placement.Path(s.size));
      bits == Placement.Stream(codewords, |bits|)
  {
    FramedFreeLight(version);
    Placement.ReadBack(Framed(version), codewords);
  }

  /**
   * Masking and the format information leave a free module holding its
   * codeword bit XOR the mask condition: the format information lands only
   * on reserved modules.
   */
  lemma FinalModule(version: nat, codewords: seq<bv8>, ec: EcLevel, mask: nat, r: int, c: int)
    requires ValidVersion(version) && mask < 8
    requires Framed(version).In(r, c) && Framed(version).Free(r, c)
    ensures Final(version, codewords, ec, mask).data[r][c] == (Filled(version, codewords).data[r][c] != MaskPattern(mask, r, c))
    ensures Final(version, codewords, ec, mask).reserved[r][c].None?
  {
    StageReserve(Drawn(version, 4), version);
    CandidateAt(Drawn(version, 4), Filled(version, codewords), ec, mask, r, c);
  }

  /** A module `#reserveBits` leaves free ends up as its value XOR the mask condition in every candidate. */
  lemma CandidateAt(s: Symbol, f: Symbol, ec: EcLevel, mask: nat, r: int, c: int)
    requires s.Valid() && s.size >= 21 && f.Valid() && f.size == s.size && mask < 8
    requires s.In(r, c) && ReserveBits(s).Free(r, c) && f.Free(r, c)
    ensures Masking.Candidate(f, ec, mask).data[r][c] == (f.data[r][c] != MaskPattern(mask, r, c))
    ensures Masking.Candidate(f, ec, mask).reserved[r][c] == f.reserved[r][c]
  {
    OutsideFormatArea(s, r, c);
    FormatKeepsFree(Masking.ApplyMask(f, mask), ec, mask, r, c);
    Masking.MaskFlips(f, mask, r, c);
  }

  /** Masking a free module of the finished symbol again gives back the placed codeword bit. */
  lemma UnmaskAt(version: nat, codewords: seq<bv8>, ec: EcLevel, mask: nat, r: int, c: int)
    requires ValidVersion(version) && mask < 8
    requires Framed(version).In(r, c) && Framed(version).Free(r, c)
    ensures Masking.ApplyMask(Final(version, codewords, ec, mask), mask).data[r][c] == Filled(version, codewords).data[r][c]
  {
    FinalModule(version, codewords, ec, mask, r, c);
    Masking.MaskFlips(Final(version, codewords, ec, mask), mask, r, c);
  }

  /**
   * What a reader of the finished symbol recovers: undoing the mask and
   * reading the modules left free by the function patterns along the
   * placement path gives the codeword bits in order, then remainder bits
   * of 0.
   */
  lemma DecodesBack(version: nat, codewords: seq<bv8>, ec: EcLevel, mask: nat)
    requires ValidVersion(version) && mask < 8
    ensures var s := Framed(version);
      var bits := Placement.ReadFree(s, Masking.ApplyMask(Final(version, codewords, ec, mask), mask), Placement.Path(s.size));
      |bits| == Placement.FreeCount(s, Placement.Path(s.size)) && bits == Placement.Stream(codewords, |bits|)
  {
    var s := Framed(version);
    var unmasked := Masking.ApplyMask(Final(version, codewords, ec, mask), mask);
    var filled := Filled(version, codewords);
    forall r, c | s.In(r, c) && s.Free(r, c)
      ensures unmasked.data[r][c] == filled.data[r][c]
    {
      UnmaskAt(version, codewords, ec, mask, r, c);
    }
    Placement.ReadFreeAgree(s, unmasked, filled, Placement.Path(s.size));
    FilledReadsBack(version, codewords);
  }

  // ---------------------------------------------------------------- the constructor

  /**
   * What `#generateQr` leaves after `#fillCodeword`: `mask` scores no more
   * than any other mask and strictly less than every earlier one, and `data`
   * holds the finished symbol's modules row by row.
   */
  predicate Rendered(version: nat, codewords: seq<bv8>, ec: EcLevel, mask: nat, data: seq<bool>)
    requires ValidVersion(version)
  {
    && mask < 8
    && Masking.EarliestMinimum(Masking.Scores(Filled(version, codewords), ec, 8), mask)
    && data == Flat(Final(version, codewords, ec, mask).data)
  }

  /**
   * `#generateQr` from the drawing stages on: the function patterns drawn
   * stage by stage, the codewords placed, the best mask applied and the
   * format information written; the flat module array holds
   * `gridSize * gridSize` entries.
   */
  method Render(version: nat, codewords: seq<bv8>, ec: EcLevel) returns (maskPattern: nat, gridSize: nat, data: seq<bool>)
    requires ValidVersion(version)
    ensures Rendered(version, codewords, ec, maskPattern, data)
    ensures gridSize == 4 * version + 17 && |data| == gridSize * gridSize
  {
    var framed := Framed(version);
    var filled := Placement.FillCodeword(framed, codewords);
    assert filled == Filled(version, codewords);
    var t;
    maskPattern, t := Masking.Mask(filled, ec);
    assert t == Final(version, codewords, ec, maskPattern);
    FlatSize(t);
    gridSize, data := t.size, Flat(t.data);
  }

  /** A symbol flattens to `size * size` modules. */
  lemma FlatSize(t: Symbol)
    requires t.Valid()
    ensures |Flat(t.data)| == t.size * t.size
  {
    FlatLength(t.data, t.size);
  }

  /** What a constructed `QR` of a given version and segments holds: its codewords and the symbol rendered from them. */
  predicate Generated(q: Code, ec: EcLevel)
  {
    && ValidVersion(q.version)
    && q.errorCorrection == ec
    && q.gridSize == 4 * q.version + 17
    && q.codewords == Codewords(q.segments, q.version, ec)
    && Rendered(q.version, q.codewords, ec, q.maskPattern, q.data)
  }

  /** `#generateQr`: the codewords are generated and the symbol rendered from them. */
  method GenerateQr(version: nat, segments: seq<Segment>, ec: EcLevel) returns (q: Code)
    requires ValidVersion(version)
    ensures Generated(q, ec) && |q.data| == q.gridSize * q.gridSize
    ensures q.version == version && q.segments == segments
  {
    q := Code(version, ec, segments, [], 0, 0, []);
    assert q.version == version && q.segments == segments;
    var codewords := GenerateCodeword(segments, version, ec);
    var maskPattern, gridSize, data := Render(version, codewords, ec);
    q := q.(codewords := codewords, maskPattern := maskPattern, gridSize := gridSize, data := data);
  }

  /**
   * The `QR` constructor: an empty string is rejected, an input no version
   * holds fails, and otherwise the planned version and segments are
   * generated. The segments spell out the input and their bit stream fits
   * the version's data capacity.
   */
  method Encode(input: string, ec: EcLevel) returns (r: Result<Code>)
    ensures |input| == 0 ==> r == Failure(EmptyInput)
    ensures |input| > 0 && Plan(input, ec).0 == 0 ==> r == Failure(CapacityExceeded)
    ensures |input| > 0 && Plan(input, ec).0 != 0 ==>
      r.Success? && (r.value.version, r.value.segments) == Plan(input, ec) && Generated(r.value, ec)
    ensures r.Success? ==>
      && Concat(r.value.segments) == input
      && |Codeword.SegmentsStream(r.value.segments, r.value.version)| <= Utils.DataBits(r.value.version, ec)
      && |r.value.data| == r.value.gridSize * r.value.gridSize
  {
    if |input| == 0 {
      return Failure(EmptyInput);
    }
    var (version, segments) := Plan(input, ec);
    assert (version, segments) == Plan(input, ec);
    PlanSpec(input, ec);
    if version == 0 {
      return Failure(CapacityExceeded);
    }
    var code := GenerateQr(version, segments, ec);
    return Success(code);
  }
}
