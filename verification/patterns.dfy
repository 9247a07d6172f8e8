/**
 * The function patterns of `QR` (packages/core/src/qr.ts): finder blocks,
 * timing lines, version information, the separator and format-area
 * reservations, the dark module and the format information. Each drawing
 * loop writes every module it touches once, so each stage is
 * a `Paint` with a per-module rule; the rule's conditions are the loop's
 * index arithmetic solved for (row, column).
 */
module FunctionPatterns {
  import opened Types
  import opened Constants
  import opened Matrix
  import InfoBits

  function Abs(a: int): nat
  {
    if a < 0 then -a else a
  }

  /** The larger of the row and column distances. */
  function Chebyshev(a: int, b: int): nat
  {
    if Abs(a) < Abs(b) then Abs(b) else Abs(a)
  }

  /** A light reservation that leaves the data alone. */
  function Light(kind: ReservedKind): Option<Write>
  {
    Some(Write(Reserved(kind, false), None))
  }

  // ---------------------------------------------------------------- fillBlock

  /**
   * `#fillBlock`'s test for a dark module at offset (i, j) of an n x n block:
   * first or last column, first or last row, or the inner square two
   * modules in from every edge.
   */
  predicate BlockDark(i: int, j: int, n: int)
  {
    j == 0 || j == n - 1 || i == 0 || i == n - 1 || (2 <= j <= n - 3 && 2 <= i <= n - 3)
  }

  /** Every module of the block is reserved; a dark one is also set to 1, a light one keeps its data. */
  function BlockWrite(x: int, y: int, n: int, kind: ReservedKind, r: int, c: int): Option<Write>
  {
    if x <= r < x + n && y <= c < y + n then
      var dark := BlockDark(r - x, c - y, n);
      Some(Write(Reserved(kind, dark), if dark then Some(true) else None))
    else None
  }

  /** `#fillBlock(x, y, size, rbType)`: the block with top-left module (x, y). */
  function FillBlock(s: Symbol, x: int, y: int, n: nat, kind: ReservedKind): (t: Symbol)
    requires s.Valid() && 0 <= x && x + n <= s.size && 0 <= y && y + n <= s.size
    ensures t.Valid() && t.size == s.size
  {
    Paint(s, (r, c) => BlockWrite(x, y, n, kind, r, c))
  }

  /** A finder block is dark exactly off the ring at Chebyshev distance 2 from its centre. */
  lemma FinderRing(i: int, j: int)
    requires 0 <= i < FinderPatternSize && 0 <= j < FinderPatternSize
    ensures BlockDark(i, j, FinderPatternSize) <==> Chebyshev(i - 3, j - 3) != 2
  {
  }

  /** An alignment block is dark exactly off the ring at Chebyshev distance 1 from its centre. */
  lemma AlignmentRing(i: int, j: int)
    requires 0 <= i < AlignmentPatternSize && 0 <= j < AlignmentPatternSize
    ensures BlockDark(i, j, AlignmentPatternSize) <==> Chebyshev(i - 2, j - 2) != 1
  {
  }

  // ---------------------------------------------------------------- finder patterns

  /** `#fillFinderPattern`: blocks at the top-left, top-right and bottom-left corners. */
  function FillFinderPatterns(s: Symbol): (t: Symbol)
    requires s.Valid() && s.size >= FinderPatternSize
    ensures t.Valid() && t.size == s.size
  {
    var g := s.size;
    var s1 := FillBlock(s, 0, 0, 7, FinderPattern);
    var s2 := FillBlock(s1, 0, g - 7, 7, FinderPattern);
    FillBlock(s2, g - 7, 0, 7, FinderPattern)
  }

  /** The top-left module of each of the three finder blocks. */
  predicate FinderCorner(g: int, x: int, y: int)
  {
    (x == 0 && y == 0) || (x == 0 && y == g - 7) || (x == g - 7 && y == 0)
  }

  /**
   * After the finder stage every module of each finder block is a finder
   * module, dark (and 1) exactly off the Chebyshev ring 2; all other modules
   * are unchanged.
   */
  lemma FinderCells(s: Symbol, x: int, y: int, i: int, j: int)
    requires s.Valid() && s.size >= 21
    requires FinderCorner(s.size, x, y) && 0 <= i < 7 && 0 <= j < 7
    ensures var t := FillFinderPatterns(s);
            var dark := Chebyshev(i - 3, j - 3) != 2;
            && t.reserved[x + i][y + j] == Some(Reserved(FinderPattern, dark))
            && t.data[x + i][y + j] == (dark || s.data[x + i][y + j])
  {
    FinderRing(i, j);
  }

  lemma FinderFrame(s: Symbol, r: int, c: int)
    requires s.Valid() && s.size >= 21 && s.In(r, c)
    requires !(r < 7 && c < 7) && !(r < 7 && c >= s.size - 7) && !(r >= s.size - 7 && c < 7)
    ensures FillFinderPatterns(s).reserved[r][c] == s.reserved[r][c]
    ensures FillFinderPatterns(s).data[r][c] == s.data[r][c]
  {
  }

  // ---------------------------------------------------------------- timing patterns

  /** Step `i` of the timing loop: dark when `i` is odd, data written either way. */
  function TimingMark(i: int): Option<Write>
  {
    var dark := i % 2 != 0;
    Some(Write(Reserved(TimingPattern, dark), Some(dark)))
  }

  /** Step `i` (1 .. gridSize - 16) writes (6, 7 + i) and (7 + i, 6). */
  function TimingWrite(g: int, r: int, c: int): Option<Write>
  {
    if r == 6 && 8 <= c <= g - 9 then TimingMark(c - 7)
    else if c == 6 && 8 <= r <= g - 9 then TimingMark(r - 7)
    else None
  }

  /** `#fillTimingPattern` */
  function FillTimingPattern(s: Symbol): (t: Symbol)
    requires s.Valid()
    ensures t.Valid() && t.size == s.size
  {
    Paint(s, (r, c) => TimingWrite(s.size, r, c))
  }

  /** A timing module on row 6 or column 6 is dark, and 1, exactly when its varying coordinate is even. */
  lemma TimingCells(s: Symbol, k: int)
    requires s.Valid() && 8 <= k <= s.size - 9
    ensures var t := FillTimingPattern(s);
            && t.reserved[6][k] == Some(Reserved(TimingPattern, k % 2 == 0)) && t.data[6][k] == (k % 2 == 0)
            && t.reserved[k][6] == Some(Reserved(TimingPattern, k % 2 == 0)) && t.data[k][6] == (k % 2 == 0)
  {
  }

  // ---------------------------------------------------------------- version information

  /** Bit `i` of the version field, `(bits >> i) & 1`. */
  function FieldBit(bits: bv32, i: nat): bool
    requires i < 32
  {
    (bits >> i) & 1 == 1
  }

  function VersionMark(bits: bv32, i: int): Option<Write>
    requires 0 <= i < 18
  {
    var bit := FieldBit(bits, i);
    Some(Write(Reserved(VersionInfo, bit), Some(bit)))
  }

  /**
   * Step `i` of `#fillVersionInfo` writes bit `i` at row `i / 3`, column
   * `gridSize - 11 + i % 3`, and at the transposed module.
   */
  function VersionWrite(g: int, bits: bv32, r: int, c: int): Option<Write>
  {
    if 0 <= r < 6 && g - 11 <= c < g - 8 then VersionMark(bits, 3 * r + (c - (g - 11)))
    else if 0 <= c < 6 && g - 11 <= r < g - 8 then VersionMark(bits, 3 * c + (r - (g - 11)))
    else None
  }

  /** `#fillVersionInfo`, called for versions 7 and up. */
  function FillVersionInfo(s: Symbol, version: nat): (t: Symbol)
    requires s.Valid() && 7 <= version <= 40
    ensures t.Valid() && t.size == s.size
  {
    Paint(s, (r, c) => VersionWrite(s.size, InfoBits.VersionInfoBits(version as bv32), r, c))
  }

  /** Bit `i` of the version field lands at (i / 3, gridSize - 11 + i % 3) and at its transpose. */
  lemma VersionInfoCells(s: Symbol, version: nat, i: nat)
    requires s.Valid() && 7 <= version <= 40 && s.size == 4 * version + 17 && i < 18
    ensures var t := FillVersionInfo(s, version);
            var bit := FieldBit(InfoBits.VersionInfoBits(version as bv32), i);
            var row, col := i / 3, s.size - 11 + i % 3;
            && t.data[row][col] == bit && t.reserved[row][col] == Some(Reserved(VersionInfo, bit))
            && t.data[col][row] == bit && t.reserved[col][row] == Some(Reserved(VersionInfo, bit))
  {
    assert 3 * (i / 3) + i % 3 == i;
  }

  // ---------------------------------------------------------------- reserveBits

  /**
   * `#reserveFinderSeparatorBits(x, y)`: step `i` (0 .. 7) reserves `top`
   * (x - 1, y + i), `left` (x + i - 1, y - 1), `down` (x + 7, y + i - 1) as
   * separators and `right` (x + i, y + 7) as a finder module, each under its
   * bounds guard; `LeftGuard` and `RightGuard` show the flat-index guards are these
   * row/column conditions. The four lines never meet, so each module is
   * written at most once.
   */
  function SeparatorWrite(g: int, x: int, y: int, r: int, c: int): Option<Write>
  {
    if x > 0 && r == x - 1 && y <= c <= y + 7 && c < g then Light(Separator)
    else if y > 0 && c == y - 1 && x - 1 <= r <= x + 6 && r >= 0 then Light(Separator)
    else if g - x > 7 && r == x + 7 && y - 1 <= c <= y + 6 && c >= 0 then Light(Separator)
    else if g - y > 7 && c == y + 7 && x <= r <= x + 7 && r < g then Light(FinderPattern)
    else None
  }

  /** The flat-index guard of `left` (`index >= 0`) holds exactly when the row is inside the grid. */
  lemma LeftGuard(g: int, x: int, y: int, i: int)
    requires 0 <= x && x + 7 <= g && 0 < y && y + 7 <= g && 0 <= i <= 7
    ensures g * (i + x - 1) + y - 1 >= 0 <==> i + x >= 1
  {
    if i + x < 1 {
      assert g * (i + x - 1) == -g;
    }
  }

  /** The flat-index guard of `right` (`index <= data.length`) holds exactly when the row is inside the grid. */
  lemma RightGuard(g: int, x: int, y: int, i: int)
    requires 0 <= x && x + 7 <= g && 0 <= y && y + 7 < g && 0 <= i <= 7
    ensures g * (i + x) + y + 7 <= g * g <==> i + x < g
  {
    if i + x < g {
      assert g * (i + x) <= g * (g - 1) by { RowBound(g, i + x); }
    } else {
      assert g * (i + x) >= g * g;
    }
  }

  lemma RowBound(g: int, a: int)
    requires 0 <= a < g
    ensures g * a <= g * (g - 1)
  {
  }

  /**
   * The format-area loop of `#reserveBits`: column 8 at rows 0 .. 7 except
   * the timing row 6 (`rightTop`) and at the bottom seven rows
   * (`rightBottom`), row 8 at columns 0 .. 5, 7, 8 (`bottomLeft`, which
   * steps over the timing column) and at the right eight columns
   * (`bottomRight`); all as light finder modules.
   */
  function FormatAreaWrite(g: int, r: int, c: int): Option<Write>
  {
    if c == 8 && ((0 <= r <= 7 && r != 6) || g - 7 <= r < g) then Light(FinderPattern)
    else if r == 8 && (0 <= c <= 5 || c == 7 || c == 8 || g - 8 <= c < g) then Light(FinderPattern)
    else None
  }

  /** The dark module at (gridSize - 8, 8). */
  function DarkModuleWrite(g: int, r: int, c: int): Option<Write>
  {
    if r == g - 8 && c == 8 then Some(Write(Reserved(DarkModule, true), Some(true))) else None
  }

  function ReserveSeparators(s: Symbol, x: int, y: int): (t: Symbol)
    requires s.Valid()
    ensures t.Valid() && t.size == s.size
  {
    Paint(s, (r, c) => SeparatorWrite(s.size, x, y, r, c))
  }

  /** `#reserveBits` */
  function ReserveBits(s: Symbol): (t: Symbol)
    requires s.Valid() && s.size >= 21
    ensures t.Valid() && t.size == s.size
  {
    var g := s.size;
    var s1 := ReserveSeparators(s, 0, 0);
    var s2 := ReserveSeparators(s1, 0, g - 7);
    var s3 := ReserveSeparators(s2, g - 7, 0);
    var s4 := Paint(s3, (r, c) => FormatAreaWrite(g, r, c));
    Paint(s4, (r, c) => DarkModuleWrite(g, r, c))
  }

  /** What `#reserveBits` leaves in one module: its five writes applied in order. */
  lemma ReserveBitsAt(s: Symbol, r: int, c: int)
    requires s.Valid() && s.size >= 21 && s.In(r, c)
    ensures var g := s.size;
            ReserveBits(s).reserved[r][c] ==
              NewMark(NewMark(NewMark(NewMark(NewMark(s.reserved[r][c],
                SeparatorWrite(g, 0, 0, r, c)), SeparatorWrite(g, 0, g - 7, r, c)), SeparatorWrite(g, g - 7, 0, r, c)),
                FormatAreaWrite(g, r, c)), DarkModuleWrite(g, r, c))
    ensures var g := s.size;
            ReserveBits(s).data[r][c] ==
              NewBit(NewBit(NewBit(NewBit(NewBit(s.data[r][c],
                SeparatorWrite(g, 0, 0, r, c)), SeparatorWrite(g, 0, g - 7, r, c)), SeparatorWrite(g, g - 7, 0, r, c)),
                FormatAreaWrite(g, r, c)), DarkModuleWrite(g, r, c))
  {
  }

  /** After `#reserveBits` the dark module is reserved as such and holds 1. */
  lemma DarkModuleSet(s: Symbol)
    requires s.Valid() && s.size >= 21
    ensures ReserveBits(s).data[s.size - 8][8]
    ensures ReserveBits(s).reserved[s.size - 8][8] == Some(Reserved(DarkModule, true))
  {
    ReserveBitsAt(s, s.size - 8, 8);
  }

  /**
   * The separator reservations beside the top-left finder: row 7 and
   * column 7. The column strip is tagged as finder modules, as
   * `#reserveFinderSeparatorBits` tags its `right` line.
   */
  lemma TopLeftSeparator(s: Symbol, k: int)
    requires s.Valid() && s.size >= 21 && 0 <= k < 7
    ensures var t := ReserveBits(s);
            && t.reserved[7][k] == Some(Reserved(Separator, false))
            && t.reserved[k][7] == Some(Reserved(FinderPattern, false))
  {
    ReserveBitsAt(s, 7, k);
    ReserveBitsAt(s, k, 7);
  }

  /** Beside the top-right finder: column `gridSize - 8` and row 7. */
  lemma TopRightSeparator(s: Symbol, k: int)
    requires s.Valid() && s.size >= 21 && 0 <= k < 7
    ensures var t := ReserveBits(s); var g := s.size;
            && t.reserved[k][g - 8] == Some(Reserved(Separator, false))
            && t.reserved[7][g - 1 - k] == Some(Reserved(Separator, false))
  {
    ReserveBitsAt(s, k, s.size - 8);
    ReserveBitsAt(s, 7, s.size - 1 - k);
  }

  /** Beside the bottom-left finder: row `gridSize - 8` and column 7 (tagged as finder modules). */
  lemma BottomLeftSeparator(s: Symbol, k: int)
    requires s.Valid() && s.size >= 21 && 0 <= k < 7
    ensures var t := ReserveBits(s); var g := s.size;
            && t.reserved[g - 8][k] == Some(Reserved(Separator, false))
            && t.reserved[g - 1 - k][7] == Some(Reserved(FinderPattern, false))
  {
    ReserveBitsAt(s, s.size - 8, k);
    ReserveBitsAt(s, s.size - 1 - k, 7);
  }

  // ---------------------------------------------------------------- format information

  function FormatMark(bits: bv32, i: int): Option<Write>
    requires 0 <= i < 15
  {
    var bit := FieldBit(bits, i);
    Some(Write(Reserved(FormatInfo, bit), Some(bit)))
  }

  /**
   * `#fillFormatInfo`'s two copies of the 15 bits, solved for the bit index:
   * down column 8 (rows 0 .. 5, then 7, 8, then the bottom seven rows) and
   * along row 8 (the right eight columns, then 7, then 5 .. 0).
   */
  function FormatWrite(g: int, bits: bv32, r: int, c: int): Option<Write>
  {
    if c == 8 && 0 <= r < 6 then FormatMark(bits, r)
    else if c == 8 && (r == 7 || r == 8) then FormatMark(bits, r - 1)
    else if c == 8 && g - 7 <= r < g then FormatMark(bits, r - g + 15)
    else if r == 8 && g - 8 <= c < g then FormatMark(bits, g - 1 - c)
    else if r == 8 && c == 7 then FormatMark(bits, 8)
    else if r == 8 && 0 <= c <= 5 then FormatMark(bits, 14 - c)
    else None
  }

  /** `#fillFormatInfo(mask)` on a symbol, for error correction level `ec`. */
  function FillFormatInfo(s: Symbol, ec: EcLevel, mask: nat): (t: Symbol)
    requires s.Valid() && s.size >= 21 && mask < 8
    ensures t.Valid() && t.size == s.size
  {
    var bits := InfoBits.FormatInfoBits(ErrorCorrectionBits(ec), mask as bv32);
    Paint(s, (r, c) => FormatWrite(s.size, bits, r, c))
  }

  /**
   * Bit `i` goes where `#fillFormatInfo`'s loop puts it: vertically to row `i`
   * (i < 6), `i + 1` (i < 8) or `gridSize - 15 + i` of column 8;
   * horizontally to column `gridSize - 1 - i` (i < 8), `15 - i` (i = 8) or
   * `14 - i` of row 8.
   */
  lemma FormatPlacement(g: int, bits: bv32, i: int)
    requires g >= 21 && 0 <= i < 15
    ensures var row := if i < 6 then i else if i < 8 then i + 1 else g - 15 + i;
            FormatWrite(g, bits, row, 8) == FormatMark(bits, i)
    ensures var col := if i < 8 then g - i - 1 else if i < 9 then 15 - i else 15 - i - 1;
            FormatWrite(g, bits, 8, col) == FormatMark(bits, i)
  {
  }

  /** The modules the format information occupies are exactly the format area `#reserveBits` reserves. */
  lemma FormatAreaExact(g: int, bits: bv32, r: int, c: int)
    requires g >= 21 && 0 <= r < g && 0 <= c < g
    ensures FormatWrite(g, bits, r, c).Some? <==> FormatAreaWrite(g, r, c).Some?
  {
  }

  /** Every format-information module is reserved once `#reserveBits` has run. */
  lemma FormatCellsReserved(s: Symbol, bits: bv32, r: int, c: int)
    requires s.Valid() && s.size >= 21 && s.In(r, c)
    requires FormatWrite(s.size, bits, r, c).Some?
    ensures !ReserveBits(s).Free(r, c)
  {
    FormatAreaExact(s.size, bits, r, c);
    ReserveBitsAt(s, r, c);
  }

  /** A module `#reserveBits` leaves free lies outside the format areas it reserved. */
  lemma OutsideFormatArea(s: Symbol, r: int, c: int)
    requires s.Valid() && s.size >= 21 && s.In(r, c) && ReserveBits(s).Free(r, c)
    ensures FormatAreaWrite(s.size, r, c).None?
  {
    ReserveBitsAt(s, r, c);
  }

  /** The format information never overwrites a module outside the format areas. */
  lemma FormatKeepsFree(t: Symbol, ec: EcLevel, mask: nat, r: int, c: int)
    requires t.Valid() && t.size >= 21 && mask < 8 && t.In(r, c)
    requires FormatAreaWrite(t.size, r, c).None?
    ensures FillFormatInfo(t, ec, mask).data[r][c] == t.data[r][c]
    ensures FillFormatInfo(t, ec, mask).reserved[r][c] == t.reserved[r][c]
  {
    FormatAt(t, ec, mask, r, c);
    FormatAreaExact(t.size, InfoBits.FormatInfoBits(ErrorCorrectionBits(ec), mask as bv32), r, c);
  }

  /** What `#fillFormatInfo(mask)` leaves in one module: its format write applied. */
  lemma FormatAt(t: Symbol, ec: EcLevel, mask: nat, r: int, c: int)
    requires t.Valid() && t.size >= 21 && mask < 8 && t.In(r, c)
    ensures var w := FormatWrite(t.size, InfoBits.FormatInfoBits(ErrorCorrectionBits(ec), mask as bv32), r, c);
      && FillFormatInfo(t, ec, mask).data[r][c] == NewBit(t.data[r][c], w)
      && FillFormatInfo(t, ec, mask).reserved[r][c] == NewMark(t.reserved[r][c], w)
  {
  }
}
