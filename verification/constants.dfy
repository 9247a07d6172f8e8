/**
 * The constant tables of the encoder (versions 1..40, levels L/M/Q/H), and
 * the facts about them that the block split and the version search rely on.
 * Every table indexed by version is a 40-entry sequence read at `version - 1`.
 */
module Constants {
  import opened Types

  const MinVersion := 1
  const MaxVersion := 40

  predicate ValidVersion(v: int) { MinVersion <= v <= MaxVersion }

  /** The 45 characters of the alphanumeric mode, in code order. */
  const AlphanumericCharset: string := CharsetDigits + CharsetLettersAM + CharsetLettersNZ + CharsetSpecials
  const CharsetDigits: string := "0123456789"
  const CharsetLettersAM: string := "ABCDEFGHIJKLM"
  const CharsetLettersNZ: string := "NOPQRSTUVWXYZ"
  const CharsetSpecials: string := " $%*+-./:"

  const FinderPatternSize := 7
  const AlignmentPatternSize := 5
  const ModeIndicatorBits := 4

  /** Number of alignment patterns, indexed by `version / 7`. */
  const AlignmentPatternTotals: seq<nat> := [1, 6, 13, 22, 33, 46]

  /** Spacing between alignment-pattern centres, indexed by `version - 1`. */
  const AlignmentPatternDiffs: seq<nat> := [
    0, 12, 16, 20, 24, 28, 16, 18, 20, 22, 24, 26, 28, 20, 22, 24, 24, 26, 28, 28,
    22, 24, 24, 26, 26, 28, 28, 24, 24, 26, 26, 26, 28, 28, 24, 26, 26, 26, 28, 28]

  /** The four-bit mode indicator. */
  function ModeIndicator(m: Mode): (r: nat)
    ensures r < 16
  {
    match m
    case Numeric => 1
    case AlphaNumeric => 2
    case Byte => 4
    case Kanji => 8
  }

  /** The largest version of each character-count regime. */
  const CharacterCountMaxVersion: seq<nat> := [9, 26, 40]

  /** Width of the character count indicator per mode, one entry per regime. */
  function CharacterCountIndicator(m: Mode): (r: seq<nat>)
    ensures |r| == 3
  {
    match m
    case Numeric => [10, 12, 14]
    case AlphaNumeric => [9, 11, 13]
    case Byte => [8, 16, 16]
    case Kanji => [8, 10, 12]
  }

  /** Bits per group: numeric groups of 1/2/3 digits, alphanumeric groups of 1/2. */
  function ModeBits(m: Mode): (r: seq<nat>)
    ensures |r| >= 1
  {
    match m
    case Numeric => [4, 7, 10]
    case AlphaNumeric => [6, 11]
    case Byte => [8]
    case Kanji => [13]
  }

  /** The alternating pad bytes that fill the data codewords. */
  const PadCodewords: seq<nat> := [0xEC, 0x11]

  /** Total codewords of each version. */
  const Codewords: seq<nat> := [
    26, 44, 70, 100, 134, 172, 196, 242, 292, 346, 404, 466, 532, 581, 655, 733,
    815, 901, 991, 1085, 1156, 1258, 1364, 1474, 1588, 1706, 1828, 1921, 2051,
    2185, 2323, 2465, 2611, 2761, 2876, 3034, 3196, 3362, 3532, 3706]

  const EcCodewordsL: seq<nat> := [
    7, 10, 15, 20, 26, 36, 40, 48, 60, 72, 80, 96, 104, 120, 132, 144, 168, 180,
    196, 224, 224, 252, 270, 300, 312, 336, 360, 390, 420, 450, 480, 510, 540,
    570, 570, 600, 630, 660, 720, 750]
  const EcCodewordsM: seq<nat> := [
    10, 16, 26, 36, 48, 64, 72, 88, 110, 130, 150, 176, 198, 216, 240, 280, 308,
    338, 364, 416, 442, 476, 504, 560, 588, 644, 700, 728, 784, 812, 868, 924,
    980, 1036, 1064, 1120, 1204, 1260, 1316, 1372]
  const EcCodewordsQ: seq<nat> := [
    13, 22, 36, 52, 72, 96, 108, 132, 160, 192, 224, 260, 288, 320, 360, 408,
    448, 504, 546, 600, 644, 690, 750, 810, 870, 952, 1020, 1050, 1140, 1200,
    1290, 1350, 1440, 1530, 1590, 1680, 1770, 1860, 1950, 2040]
  const EcCodewordsH: seq<nat> := [
    17, 28, 44, 64, 88, 112, 130, 156, 192, 224, 264, 308, 352, 384, 432, 480,
    532, 588, 650, 700, 750, 816, 900, 960, 1050, 1110, 1200, 1260, 1350, 1440,
    1530, 1620, 1710, 1800, 1890, 1980, 2100, 2220, 2310, 2430]

  const EcBlocksL: seq<nat> := [
    1, 1, 1, 1, 1, 2, 2, 2, 2, 4, 4, 4, 4, 4, 6, 6, 6, 6, 7, 8, 8, 9, 9, 10, 12,
    12, 12, 13, 14, 15, 16, 17, 18, 19, 19, 20, 21, 22, 24, 25]
  const EcBlocksM: seq<nat> := [
    1, 1, 1, 2, 2, 4, 4, 4, 5, 5, 5, 8, 9, 9, 10, 10, 11, 13, 14, 16, 17, 17,
    18, 20, 21, 23, 25, 26, 28, 29, 31, 33, 35, 37, 38, 40, 43, 45, 47, 49]
  const EcBlocksQ: seq<nat> := [
    1, 1, 2, 2, 4, 4, 6, 6, 8, 8, 8, 10, 12, 16, 12, 17, 16, 18, 21, 20, 23, 23,
    25, 27, 29, 34, 34, 35, 38, 40, 43, 45, 48, 51, 53, 56, 59, 62, 65, 68]
  const EcBlocksH: seq<nat> := [
    1, 1, 2, 4, 4, 4, 5, 6, 8, 8, 11, 11, 16, 16, 18, 16, 19, 21, 25, 25, 25,
    34, 30, 32, 35, 37, 40, 42, 45, 48, 51, 54, 57, 60, 63, 66, 70, 74, 77, 81]

  function EcCodewordsTable(ec: EcLevel): (r: seq<nat>)
    ensures |r| == 40
  {
    match ec
    case L => EcCodewordsL
    case M => EcCodewordsM
    case Q => EcCodewordsQ
    case H => EcCodewordsH
  }

  function EcBlocksTable(ec: EcLevel): (r: seq<nat>)
    ensures |r| == 40
  {
    match ec
    case L => EcBlocksL
    case M => EcBlocksM
    case Q => EcBlocksQ
    case H => EcBlocksH
  }

  function TotalCodewords(v: nat): nat
    requires ValidVersion(v)
  {
    Codewords[v - 1]
  }

  function EcCodewordCount(v: nat, ec: EcLevel): nat
    requires ValidVersion(v)
  {
    EcCodewordsTable(ec)[v - 1]
  }

  function EcBlockCount(v: nat, ec: EcLevel): nat
    requires ValidVersion(v)
  {
    EcBlocksTable(ec)[v - 1]
  }

  /**
   * The two-bit level field of the format information (`ERROR_CORRECTION_BITS`):
   * L = 01, M = 00, Q = 11, H = 10, as in Table 12 of ISO/IEC 18004:2015
   * (section 7.9.1). packages/core/src/constants.ts, which holds the table
   * `QR` imports, is not part of this model; the values are the standard's.
   */
  function ErrorCorrectionBits(ec: EcLevel): (r: bv32)
    ensures r < 4
  {
    match ec
    case L => 1
    case M => 0
    case Q => 3
    case H => 2
  }

  /**
   * The eight data-mask conditions (`MASK_PATTERNS`) on row `i` and column
   * `j`; a module is flipped when its condition holds. The conditions are
   * those of Table 10 of ISO/IEC 18004:2015 (section 7.8.2).
   * packages/core/src/constants.ts, which holds the table `QR` imports, is
   * not part of this model; the conditions are the standard's.
   */
  predicate MaskPattern(m: nat, i: nat, j: nat)
    requires m < 8
  {
    match m
    case 0 => (i + j) % 2 == 0
    case 1 => i % 2 == 0
    case 2 => j % 3 == 0
    case 3 => (i + j) % 3 == 0
    case 4 => (i / 2 + j / 3) % 2 == 0
    case 5 => (i * j) % 2 + (i * j) % 3 == 0
    case 6 => ((i * j) % 2 + (i * j) % 3) % 2 == 0
    case _ => ((i + j) % 2 + (i * j) % 3) % 2 == 0
  }

  /** The conditions the block split needs from one row of the tables. */
  predicate BlockShapeOk(total: nat, ecTotal: nat, blocks: nat)
  {
    && blocks > 0
    && ecTotal % blocks == 0
    && ecTotal / blocks >= 1
    && ecTotal <= 30 * blocks
    && ecTotal < total
    && total - ecTotal >= blocks
  }

  lemma BlockShapeL(i: nat)
    requires i < 40
    ensures BlockShapeOk(Codewords[i], EcCodewordsL[i], EcBlocksL[i])
  {
    if i < 10 { BlockShapeLRows(i, 0); }
    else if i < 20 { BlockShapeLRows(i, 10); }
    else if i < 30 { BlockShapeLRows(i, 20); }
    else { BlockShapeLRows(i, 30); }
  }

  /** Rows `lo` to `lo + 9` of the level-L tables, checked one by one. */
  lemma BlockShapeLRows(i: nat, lo: nat)
    requires lo == 0 || lo == 10 || lo == 20 || lo == 30
    requires lo <= i < lo + 10
    ensures BlockShapeOk(Codewords[i], EcCodewordsL[i], EcBlocksL[i])
  {
    assert i == lo || i == lo + 1 || i == lo + 2 || i == lo + 3 || i == lo + 4 || i == lo + 5 || i == lo + 6 || i == lo + 7 || i == lo + 8 || i == lo + 9;
  }

  lemma BlockShapeM(i: nat)
    requires i < 40
    ensures BlockShapeOk(Codewords[i], EcCodewordsM[i], EcBlocksM[i])
  {
    if i < 10 { BlockShapeMRows(i, 0); }
    else if i < 20 { BlockShapeMRows(i, 10); }
    else if i < 30 { BlockShapeMRows(i, 20); }
    else { BlockShapeMRows(i, 30); }
  }

  /** Rows `lo` to `lo + 9` of the level-M tables, checked one by one. */
  lemma BlockShapeMRows(i: nat, lo: nat)
    requires lo == 0 || lo == 10 || lo == 20 || lo == 30
    requires lo <= i < lo + 10
    ensures BlockShapeOk(Codewords[i], EcCodewordsM[i], EcBlocksM[i])
  {
    assert i == lo || i == lo + 1 || i == lo + 2 || i == lo + 3 || i == lo + 4 || i == lo + 5 || i == lo + 6 || i == lo + 7 || i == lo + 8 || i == lo + 9;
  }

  lemma BlockShapeQ(i: nat)
    requires i < 40
    ensures BlockShapeOk(Codewords[i], EcCodewordsQ[i], EcBlocksQ[i])
  {
    if i < 10 { BlockShapeQRows(i, 0); }
    else if i < 20 { BlockShapeQRows(i, 10); }
    else if i < 30 { BlockShapeQRows(i, 20); }
    else { BlockShapeQRows(i, 30); }
  }

  /** Rows `lo` to `lo + 9` of the level-Q tables, checked one by one. */
  lemma BlockShapeQRows(i: nat, lo: nat)
    requires lo == 0 || lo == 10 || lo == 20 || lo == 30
    requires lo <= i < lo + 10
    ensures BlockShapeOk(Codewords[i], EcCodewordsQ[i], EcBlocksQ[i])
  {
    assert i == lo || i == lo + 1 || i == lo + 2 || i == lo + 3 || i == lo + 4 || i == lo + 5 || i == lo + 6 || i == lo + 7 || i == lo + 8 || i == lo + 9;
  }

  lemma BlockShapeH(i: nat)
    requires i < 40
    ensures BlockShapeOk(Codewords[i], EcCodewordsH[i], EcBlocksH[i])
  {
    if i < 10 { BlockShapeHRows(i, 0); }
    else if i < 20 { BlockShapeHRows(i, 10); }
    else if i < 30 { BlockShapeHRows(i, 20); }
    else { BlockShapeHRows(i, 30); }
  }

  /** Rows `lo` to `lo + 9` of the level-H tables, checked one by one. */
  lemma BlockShapeHRows(i: nat, lo: nat)
    requires lo == 0 || lo == 10 || lo == 20 || lo == 30
    requires lo <= i < lo + 10
    ensures BlockShapeOk(Codewords[i], EcCodewordsH[i], EcBlocksH[i])
  {
    assert i == lo || i == lo + 1 || i == lo + 2 || i == lo + 3 || i == lo + 4 || i == lo + 5 || i == lo + 6 || i == lo + 7 || i == lo + 8 || i == lo + 9;
  }

  /**
   * Every version and level splits into at least one block, the error
   * correction codewords divide evenly among the blocks, each block gets
   * between one and thirty of them, and every block gets at least one data
   * codeword.
   */
  lemma BlockShape(v: nat, ec: EcLevel)
    requires ValidVersion(v)
    ensures BlockShapeOk(TotalCodewords(v), EcCodewordCount(v, ec), EcBlockCount(v, ec))
  {
    match ec
    case L => BlockShapeL(v - 1);
    case M => BlockShapeM(v - 1);
    case Q => BlockShapeQ(v - 1);
    case H => BlockShapeH(v - 1);
  }

  /** Every version and level leaves some codewords for data. */
  lemma DataCodewordsPositive(v: nat, ec: EcLevel)
    requires ValidVersion(v)
    ensures EcCodewordCount(v, ec) < TotalCodewords(v)
  {
    BlockShape(v, ec);
  }

  /** `dataTotalCodeword`: the codewords of a symbol left for data. */
  function DataCodewordCount(v: nat, ec: EcLevel): nat
    requires ValidVersion(v)
  {
    DataCodewordsPositive(v, ec);
    TotalCodewords(v) - EcCodewordCount(v, ec)
  }

  /** Rows `lo` to `lo + 9` of the level-L tables against the next row, checked one by one. */
  lemma DataGrowsLRows(i: nat, lo: nat)
    requires lo == 0 || lo == 10 || lo == 20 || lo == 30
    requires lo <= i < lo + 10 && i < 39
    ensures Codewords[i] - EcCodewordsL[i] + 6 <= Codewords[i + 1] - EcCodewordsL[i + 1]
  {
    assert i == lo || i == lo + 1 || i == lo + 2 || i == lo + 3 || i == lo + 4 || i == lo + 5 || i == lo + 6 || i == lo + 7 || i == lo + 8 || i == lo + 9;
  }

  lemma DataGrowsL(i: nat)
    requires i < 39
    ensures Codewords[i] - EcCodewordsL[i] + 6 <= Codewords[i + 1] - EcCodewordsL[i + 1]
  {
    if i < 10 { DataGrowsLRows(i, 0); }
    else if i < 20 { DataGrowsLRows(i, 10); }
    else if i < 30 { DataGrowsLRows(i, 20); }
    else { DataGrowsLRows(i, 30); }
  }

  /** Rows `lo` to `lo + 9` of the level-M tables against the next row, checked one by one. */
  lemma DataGrowsMRows(i: nat, lo: nat)
    requires lo == 0 || lo == 10 || lo == 20 || lo == 30
    requires lo <= i < lo + 10 && i < 39
    ensures Codewords[i] - EcCodewordsM[i] + 6 <= Codewords[i + 1] - EcCodewordsM[i + 1]
  {
    assert i == lo || i == lo + 1 || i == lo + 2 || i == lo + 3 || i == lo + 4 || i == lo + 5 || i == lo + 6 || i == lo + 7 || i == lo + 8 || i == lo + 9;
  }

  lemma DataGrowsM(i: nat)
    requires i < 39
    ensures Codewords[i] - EcCodewordsM[i] + 6 <= Codewords[i + 1] - EcCodewordsM[i + 1]
  {
    if i < 10 { DataGrowsMRows(i, 0); }
    else if i < 20 { DataGrowsMRows(i, 10); }
    else if i < 30 { DataGrowsMRows(i, 20); }
    else { DataGrowsMRows(i, 30); }
  }

  /** Rows `lo` to `lo + 9` of the level-Q tables against the next row, checked one by one. */
  lemma DataGrowsQRows(i: nat, lo: nat)
    requires lo == 0 || lo == 10 || lo == 20 || lo == 30
    requires lo <= i < lo + 10 && i < 39
    ensures Codewords[i] - EcCodewordsQ[i] + 6 <= Codewords[i + 1] - EcCodewordsQ[i + 1]
  {
    assert i == lo || i == lo + 1 || i == lo + 2 || i == lo + 3 || i == lo + 4 || i == lo + 5 || i == lo + 6 || i == lo + 7 || i == lo + 8 || i == lo + 9;
  }

  lemma DataGrowsQ(i: nat)
    requires i < 39
    ensures Codewords[i] - EcCodewordsQ[i] + 6 <= Codewords[i + 1] - EcCodewordsQ[i + 1]
  {
    if i < 10 { DataGrowsQRows(i, 0); }
    else if i < 20 { DataGrowsQRows(i, 10); }
    else if i < 30 { DataGrowsQRows(i, 20); }
    else { DataGrowsQRows(i, 30); }
  }

  /** Rows `lo` to `lo + 9` of the level-H tables against the next row, checked one by one. */
  lemma DataGrowsHRows(i: nat, lo: nat)
    requires lo == 0 || lo == 10 || lo == 20 || lo == 30
    requires lo <= i < lo + 10 && i < 39
    ensures Codewords[i] - EcCodewordsH[i] + 6 <= Codewords[i + 1] - EcCodewordsH[i + 1]
  {
    assert i == lo || i == lo + 1 || i == lo + 2 || i == lo + 3 || i == lo + 4 || i == lo + 5 || i == lo + 6 || i == lo + 7 || i == lo + 8 || i == lo + 9;
  }

  lemma DataGrowsH(i: nat)
    requires i < 39
    ensures Codewords[i] - EcCodewordsH[i] + 6 <= Codewords[i + 1] - EcCodewordsH[i + 1]
  {
    if i < 10 { DataGrowsHRows(i, 0); }
    else if i < 20 { DataGrowsHRows(i, 10); }
    else if i < 30 { DataGrowsHRows(i, 20); }
    else { DataGrowsHRows(i, 30); }
  }

  /** Each version holds at least six more data codewords than the one before it, at every level. */
  lemma DataCodewordsGrow(v: nat, ec: EcLevel)
    requires 1 <= v < MaxVersion
    ensures DataCodewordCount(v, ec) + 6 <= DataCodewordCount(v + 1, ec)
  {
    match ec
    case L => DataGrowsL(v - 1);
    case M => DataGrowsM(v - 1);
    case Q => DataGrowsQ(v - 1);
    case H => DataGrowsH(v - 1);
  }
}
