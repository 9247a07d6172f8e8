/**
 * `#fillCodeword` (packages/core/src/qr.ts): the codeword bits are laid
 * along a zigzag path over column pairs, right to left, skipping the
 * vertical timing column 6. The first pair runs upwards and each pair
 * reverses direction; within a row the right column comes first. Every
 * module the function patterns left free takes the next bit, most
 * significant bit of each codeword first; free modules past the last
 * codeword keep their value.
 *
 * `Path(g)` is that path as a sequence of modules and `PathIndex` its
 * inverse; `PlaceCodewords` says what each module holds afterwards and
 * `FillCodeword` is `#fillCodeword`'s triple loop.
 */
module Placement {
  import opened Types
  import opened Matrix
  import opened BitWriter

  /** Grid sizes the path is defined for: `4 * version + 17` is odd and at least 21. */
  predicate PathShape(g: nat)
  {
    g % 2 == 1 && g >= 21
  }

  /** The number of column pairs: every column except column 6, two at a time. */
  function NumPairs(g: nat): nat
  {
    if g == 0 then 0 else (g - 1) / 2
  }

  /** The right column of pair `p`: `g - 1`, `g - 3`, ..., 8, then 5, 3, 1. */
  function PairColumn(g: nat, p: nat): int
  {
    if p < (g - 7) / 2 then g - 1 - 2 * p else 5 - 2 * (p - (g - 7) / 2)
  }

  /** Where pair `p` starts on the path: each pair is `2 * g` steps long. */
  function Start(g: nat, p: nat): nat
  {
    2 * g * p
  }

  lemma StartNext(g: nat, p: nat)
    ensures Start(g, p + 1) == Start(g, p) + 2 * g
  {
  }

  /**
   * Pair `p` step by step: step `m` is row offset `m / 2` in the travel
   * direction (upwards for even pairs) and the right (`m % 2 == 0`) or left
   * column.
   */
  function Segment(g: nat, p: nat): (cells: seq<(int, int)>)
    requires PathShape(g) && p < NumPairs(g)
    ensures |cells| == 2 * g
    ensures forall m | 0 <= m < |cells| :: 0 <= cells[m].0 < g && 0 <= cells[m].1 < g && cells[m].1 != 6
  {
    PairColumns(g, p, 0);
    PairColumns(g, p, 1);
    seq(2 * g, m requires 0 <= m < 2 * g => (if p % 2 == 0 then g - 1 - m / 2 else m / 2, PairColumn(g, p) - m % 2))
  }

  /** The first `n` pairs end to end. */
  function Segments(g: nat, n: nat): seq<(int, int)>
    requires PathShape(g) && n <= NumPairs(g)
  {
    if n == 0 then [] else Segments(g, n - 1) + Segment(g, n - 1)
  }

  /** The whole path. */
  function Path(g: nat): seq<(int, int)>
    requires PathShape(g)
  {
    Segments(g, NumPairs(g))
  }

  /** The pair holding column `c` (not 6). */
  function PairOf(g: nat, c: int): int
  {
    if c >= 7 then (g - 1 - c) / 2 else (g - 7) / 2 + (5 - c) / 2
  }

  /** 0 for the right column of its pair, 1 for the left. */
  function Side(g: nat, c: int): int
  {
    if c >= 7 then (g - 1 - c) % 2 else (5 - c) % 2
  }

  /** Where module (r, c) sits on the path. */
  function PathIndex(g: nat, r: int, c: int): int
  {
    var p := PairOf(g, c);
    var t := if p % 2 == 0 then g - 1 - r else r;
    (if p >= 0 then Start(g, p) else 0) + 2 * t + Side(g, c)
  }

  /** Every column but 6 is the right or left column of exactly one pair. */
  lemma ColumnInPair(g: nat, c: int)
    requires PathShape(g) && 0 <= c < g && c != 6
    ensures 0 <= PairOf(g, c) < NumPairs(g) && 0 <= Side(g, c) < 2
    ensures PairColumn(g, PairOf(g, c)) - Side(g, c) == c
  {
  }

  /** A pair's two columns lead back to the pair. */
  lemma PairColumns(g: nat, p: nat, j: int)
    requires PathShape(g) && p < NumPairs(g) && 0 <= j < 2
    ensures var c := PairColumn(g, p) - j;
            0 <= c < g && c != 6 && PairOf(g, c) == p && Side(g, c) == j
  {
  }

  lemma {:induction false} SegmentsLength(g: nat, n: nat)
    requires PathShape(g) && n <= NumPairs(g)
    ensures |Segments(g, n)| == Start(g, n)
  {
    if n > 0 {
      SegmentsLength(g, n - 1);
      StartNext(g, n - 1);
    }
  }

  /** The first `n` pairs are a prefix of the first `n2`. */
  lemma {:induction false} SegmentsPrefix(g: nat, n: nat, n2: nat)
    requires PathShape(g) && n <= n2 <= NumPairs(g)
    ensures Segments(g, n) <= Segments(g, n2)
  {
    if n < n2 {
      SegmentsPrefix(g, n, n2 - 1);
    }
  }

  /** Step `m` of pair `p` is module `Start(g, p) + m` of the path. */
  lemma PathAt(g: nat, p: nat, m: int)
    requires PathShape(g) && p < NumPairs(g) && 0 <= m < 2 * g
    ensures Start(g, p) + m < |Path(g)|
    ensures Path(g)[Start(g, p) + m] == Segment(g, p)[m]
  {
    SegmentsPrefix(g, p + 1, NumPairs(g));
    SegmentsLength(g, p);
    assert Segments(g, p + 1) == Segments(g, p) + Segment(g, p);
    assert Segments(g, p + 1)[Start(g, p) + m] == Segment(g, p)[m];
  }

  /** The path position `k` lies in pair `p` at step `m`. */
  lemma {:induction false} Locate(g: nat, n: nat, k: int) returns (p: nat, m: int)
    requires PathShape(g) && n <= NumPairs(g) && 0 <= k < Start(g, n)
    ensures p < n && 0 <= m < 2 * g && k == Start(g, p) + m
  {
    StartNext(g, n - 1);
    if k < Start(g, n - 1) {
      p, m := Locate(g, n - 1, k);
    } else {
      p, m := n - 1, k - Start(g, n - 1);
    }
  }

  /** The path has `2 * g` steps per pair. */
  lemma PathLength(g: nat)
    requires PathShape(g)
    ensures |Path(g)| == Start(g, NumPairs(g))
  {
    SegmentsLength(g, NumPairs(g));
  }

  /** Every step of the path is a module of the grid outside column 6. */
  lemma PathCell(g: nat, k: int)
    requires PathShape(g) && 0 <= k < |Path(g)|
    ensures 0 <= Path(g)[k].0 < g && 0 <= Path(g)[k].1 < g && Path(g)[k].1 != 6
  {
    PathLength(g);
    var p, m := Locate(g, NumPairs(g), k);
    PathAt(g, p, m);
  }

  /** Module (r, c), outside column 6, is on the path at `PathIndex(g, r, c)`. */
  lemma PathIndexInverse(g: nat, r: int, c: int)
    requires PathShape(g) && 0 <= r < g && 0 <= c < g && c != 6
    ensures 0 <= PathIndex(g, r, c) < |Path(g)|
    ensures Path(g)[PathIndex(g, r, c)] == (r, c)
  {
    ColumnInPair(g, c);
    var p := PairOf(g, c);
    var t := if p % 2 == 0 then g - 1 - r else r;
    PathAt(g, p, 2 * t + Side(g, c));
  }

  /** The path visits each module once: position `k` is where its module's index says. */
  lemma PathVisitsOnce(g: nat, k: int)
    requires PathShape(g) && 0 <= k < |Path(g)|
    ensures PathIndex(g, Path(g)[k].0, Path(g)[k].1) == k
  {
    PathLength(g);
    var p, m := Locate(g, NumPairs(g), k);
    PathAt(g, p, m);
    var cell := Segment(g, p)[m];
    assert Path(g)[k] == cell;
    assert PathIndex(g, cell.0, cell.1) == k by { SegmentIndex(g, p, m); }
  }

  /** Step `m` of pair `p` is the module whose index is `Start(g, p) + m`. */
  lemma SegmentIndex(g: nat, p: nat, m: int)
    requires PathShape(g) && p < NumPairs(g) && 0 <= m < 2 * g
    ensures PathIndex(g, Segment(g, p)[m].0, Segment(g, p)[m].1) == Start(g, p) + m
  {
    var j := m % 2;
    var t := m / 2;
    PairColumns(g, p, j);
    assert Segment(g, p)[m] == (if p % 2 == 0 then g - 1 - t else t, PairColumn(g, p) - j);
    assert m == 2 * t + j;
  }

  // ---------------------------------------------------------------- what lands where

  /** A module of the grid that no function pattern has reserved. */
  predicate IsFree(s: Symbol, cell: (int, int))
    requires s.Valid()
  {
    s.In(cell.0, cell.1) && s.Free(cell.0, cell.1)
  }

  /** How many of `cells` are free in `s`. */
  function FreeCount(s: Symbol, cells: seq<(int, int)>): nat
    requires s.Valid()
  {
    if |cells| == 0 then 0
    else FreeCount(s, cells[..|cells| - 1]) + (if IsFree(s, cells[|cells| - 1]) then 1 else 0)
  }

  /** How many free modules the first `k` steps of the path pass. */
  function FreeBefore(s: Symbol, k: int): nat
    requires s.Valid() && PathShape(s.size)
  {
    var path := Path(s.size);
    if 0 <= k <= |path| then FreeCount(s, path[..k]) else 0
  }

  /** The index of the bit module (r, c) receives: the free modules the path passes before it. */
  function Rank(s: Symbol, r: int, c: int): nat
    requires s.Valid() && PathShape(s.size)
  {
    FreeBefore(s, PathIndex(s.size, r, c))
  }

  /** Bit `k` of the codewords, most significant first; bits past the end read as 0. */
  predicate CodewordBit(codewords: seq<bv8>, k: nat)
  {
    BitAt(Unpack(codewords), k)
  }

  /**
   * After `#fillCodeword`: a free module outside column 6 is set when the
   * bit of its rank is 1; every other module, and every reservation, is
   * unchanged.
   */
  function PlaceCodewords(s: Symbol, codewords: seq<bv8>): (t: Symbol)
    requires s.Valid() && PathShape(s.size)
    ensures t.Valid() && t.size == s.size && t.reserved == s.reserved
  {
    Symbol(s.size,
      seq(s.size, r requires 0 <= r < s.size => seq(s.size, c requires 0 <= c < s.size =>
        s.data[r][c] || (c != 6 && s.Free(r, c) && CodewordBit(codewords, Rank(s, r, c))))),
      s.reserved)
  }

  // ---------------------------------------------------------------- `#fillCodeword`

  /** The data after the first `k` path steps. */
  ghost predicate PlacedUpTo(s: Symbol, codewords: seq<bv8>, t: Symbol, k: int)
    requires s.Valid() && PathShape(s.size) && t.Valid() && t.size == s.size
  {
    forall r, c | s.In(r, c) ::
      t.data[r][c] == (s.data[r][c] || (c != 6 && s.Free(r, c) && PathIndex(s.size, r, c) < k
                                        && CodewordBit(codewords, Rank(s, r, c))))
  }

  /**
   * The loop state after `k` path steps: reservations untouched, the bit
   * cursor (`dataIndex`, `bitIndex`) at the number of free modules passed,
   * and the data as `PlacedUpTo` says.
   */
  ghost predicate Progress(s: Symbol, codewords: seq<bv8>, t: Symbol, k: int, dataIndex: nat, bitIndex: nat)
    requires s.Valid() && PathShape(s.size)
  {
    && t.Valid() && t.size == s.size && t.reserved == s.reserved
    && bitIndex < 8 && 8 * dataIndex + (7 - bitIndex) == FreeBefore(s, k)
    && PlacedUpTo(s, codewords, t, k)
  }

  /** `1 << bitIndex` is the mask of bit `7 - bitIndex` counted from the most significant. */
  lemma ShiftMask(bitIndex: nat)
    requires bitIndex < 8
    ensures (1 as bv8) << bitIndex == Mask(7 - bitIndex)
  {
    assert bitIndex == 0 || bitIndex == 1 || bitIndex == 2 || bitIndex == 3
        || bitIndex == 4 || bitIndex == 5 || bitIndex == 6 || bitIndex == 7;
  }

  /** `#fillCodeword`'s bit test reads the codeword bit of the running count. */
  lemma BitTest(codewords: seq<bv8>, dataIndex: nat, bitIndex: nat)
    requires bitIndex < 8
    ensures CodewordBit(codewords, 8 * dataIndex + (7 - bitIndex)) ==
            (dataIndex < |codewords| && codewords[dataIndex] & ((1 as bv8) << bitIndex) != 0)
  {
    ShiftMask(bitIndex);
    var k := 8 * dataIndex + (7 - bitIndex);
    assert k / 8 == dataIndex && k % 8 == 7 - bitIndex by { DivMod8(dataIndex, 7 - bitIndex); }
    if dataIndex < |codewords| {
      assert k < |Unpack(codewords)|;
      assert Unpack(codewords)[k] == ByteBit(codewords[dataIndex], 7 - bitIndex);
    }
  }

  lemma DivMod8(d: nat, j: nat)
    requires j < 8
    ensures (8 * d + j) / 8 == d && (8 * d + j) % 8 == j
  {
  }

  lemma FreeBeforeStep(s: Symbol, k: int)
    requires s.Valid() && PathShape(s.size) && 0 <= k < |Path(s.size)|
    ensures FreeBefore(s, k + 1) == FreeBefore(s, k) + (if IsFree(s, Path(s.size)[k]) then 1 else 0)
  {
    var path := Path(s.size);
    assert path[..k + 1][..k] == path[..k];
  }

  /**
   * Extending `PlacedUpTo` by one step: only the module at step `k` may
   * change, and it takes the bit of its rank when free.
   */
  lemma PlacedStep(s: Symbol, codewords: seq<bv8>, t: Symbol, t2: Symbol, k: int, row: int, col: int)
    requires s.Valid() && PathShape(s.size) && t.Valid() && t.size == s.size && t2.Valid() && t2.size == s.size
    requires s.In(row, col) && col != 6 && PathIndex(s.size, row, col) == k
    requires PlacedUpTo(s, codewords, t, k)
    requires forall r, c | s.In(r, c) && (r, c) != (row, col) :: t2.data[r][c] == t.data[r][c]
    requires t2.data[row][col] == (t.data[row][col] || (s.Free(row, col) && CodewordBit(codewords, Rank(s, row, col))))
    ensures PlacedUpTo(s, codewords, t2, k + 1)
  {
    forall r, c | s.In(r, c)
      ensures t2.data[r][c] == (s.data[r][c] || (c != 6 && s.Free(r, c) && PathIndex(s.size, r, c) < k + 1
                                                 && CodewordBit(codewords, Rank(s, r, c))))
    {
      if c != 6 && (r, c) != (row, col) {
        PathIndexInverse(s.size, r, c);
        PathIndexInverse(s.size, row, col);
      }
    }
  }

  /**
   * One module of the innermost loop: a free module takes the bit under
   * (`dataIndex`, `bitIndex`), then the bit cursor moves on.
   */
  method PlaceModule(s: Symbol, codewords: seq<bv8>, t: Symbol, ghost k: int, row: int, col: int,
                     dataIndex: nat, bitIndex: nat)
    returns (t2: Symbol, dataIndex2: nat, bitIndex2: nat)
    requires s.Valid() && PathShape(s.size)
    requires 0 <= k < |Path(s.size)| && Path(s.size)[k] == (row, col)
    requires Progress(s, codewords, t, k, dataIndex, bitIndex)
    ensures Progress(s, codewords, t2, k + 1, dataIndex2, bitIndex2)
  {
    PathCell(s.size, k);
    PathVisitsOnce(s.size, k);
    FreeBeforeStep(s, k);
    t2, dataIndex2, bitIndex2 := t, dataIndex, bitIndex;
    if t.reserved[row][col].None? {
      BitTest(codewords, dataIndex, bitIndex);
      if dataIndex < |codewords| && codewords[dataIndex] & ((1 as bv8) << bitIndex) != 0 {
        t2 := t.(data := t.data[row := t.data[row][col := true]]);
      }
      if bitIndex == 0 {
        dataIndex2, bitIndex2 := dataIndex + 1, 7;
      } else {
        bitIndex2 := bitIndex - 1;
      }
    }
    PlacedStep(s, codewords, t, t2, k, row, col);
  }

  /** Step `2 * t + j` of pair `p`: row offset `t`, side `j`. */
  lemma StepCell(g: nat, p: nat, t: int, j: int)
    requires PathShape(g) && p < NumPairs(g) && 0 <= t < g && 0 <= j < 2
    ensures Segment(g, p)[2 * t + j] == (if p % 2 == 0 then g - 1 - t else t, PairColumn(g, p) - j)
  {
    assert (2 * t + j) / 2 == t && (2 * t + j) % 2 == j;
  }

  /** Before the first step nothing has changed. */
  lemma PlacedNone(s: Symbol, codewords: seq<bv8>)
    requires s.Valid() && PathShape(s.size)
    ensures PlacedUpTo(s, codewords, s, Start(s.size, 0))
  {
    forall r, c | s.In(r, c) && c != 6
      ensures PathIndex(s.size, r, c) >= 0
    {
      PathIndexInverse(s.size, r, c);
    }
  }

  /** Once every step is taken, the data is what `PlaceCodewords` describes. */
  lemma PlacedAll(s: Symbol, codewords: seq<bv8>, t: Symbol)
    requires s.Valid() && PathShape(s.size) && t.Valid() && t.size == s.size && t.reserved == s.reserved
    requires PlacedUpTo(s, codewords, t, Start(s.size, NumPairs(s.size)))
    ensures t == PlaceCodewords(s, codewords)
  {
    var g := s.size;
    PathLength(g);
    forall r, c | s.In(r, c) && c != 6
      ensures PathIndex(g, r, c) < Start(g, NumPairs(g))
    {
      PathIndexInverse(g, r, c);
    }
    forall r | 0 <= r < g
      ensures t.data[r] == PlaceCodewords(s, codewords).data[r]
    {
    }
  }

  /** Step `j` of row offset `t0` in pair `p` visits `(row, col - j)`. */
  lemma RowCell(g: nat, p: nat, col: int, row: int, t0: int, k: int, j: int)
    requires PathShape(g) && p < NumPairs(g) && col == PairColumn(g, p) && 0 <= t0 < g
    requires row == if p % 2 == 0 then g - 1 - t0 else t0
    requires k == Start(g, p) + 2 * t0 && 0 <= j < 2
    ensures 0 <= k + j < |Path(g)| && Path(g)[k + j] == (row, col - j)
  {
    StepCell(g, p, t0, j);
    PathAt(g, p, 2 * t0 + j);
  }

  /** The `j` loop, both of its steps written out: the right and then the left module of one row of a column pair. */
  method FillRow(s: Symbol, codewords: seq<bv8>, t: Symbol, ghost p: nat, col: int, row: int, ghost t0: int,
                 ghost k: int, dataIndex: nat, bitIndex: nat)
    returns (t2: Symbol, dataIndex2: nat, bitIndex2: nat)
    requires s.Valid() && PathShape(s.size)
    requires p < NumPairs(s.size) && col == PairColumn(s.size, p) && 0 <= t0 < s.size
    requires row == if p % 2 == 0 then s.size - 1 - t0 else t0
    requires k == Start(s.size, p) + 2 * t0
    requires Progress(s, codewords, t, k, dataIndex, bitIndex)
    ensures Progress(s, codewords, t2, k + 2, dataIndex2, bitIndex2)
  {
    RowCell(s.size, p, col, row, t0, k, 0);
    var t1, dataIndex1, bitIndex1 := PlaceModule(s, codewords, t, k, row, col, dataIndex, bitIndex);
    RowCell(s.size, p, col, row, t0, k, 1);
    t2, dataIndex2, bitIndex2 := PlaceModule(s, codewords, t1, k + 1, row, col - 1, dataIndex1, bitIndex1);
  }

  /**
   * The `i` loop for one column pair: rows from `g - 1` down to 0, read
   * upwards or downwards as `reverse` says; `reverse` flips after row 0.
   */
  method FillPair(s: Symbol, codewords: seq<bv8>, t: Symbol, col: int, reverse: bool, ghost p: nat,
                  dataIndex: nat, bitIndex: nat)
    returns (t2: Symbol, reverse2: bool, dataIndex2: nat, bitIndex2: nat)
    requires s.Valid() && PathShape(s.size)
    requires p < NumPairs(s.size) && col == PairColumn(s.size, p) && reverse == (p % 2 == 0)
    requires Progress(s, codewords, t, Start(s.size, p), dataIndex, bitIndex)
    ensures reverse2 == !reverse
    ensures Progress(s, codewords, t2, Start(s.size, p + 1), dataIndex2, bitIndex2)
  {
    var g := s.size;
    t2, reverse2, dataIndex2, bitIndex2 := t, reverse, dataIndex, bitIndex;
    var i: int := g - 1;
    ghost var k := Start(g, p);
    while i >= 0
      invariant -1 <= i <= g - 1
      invariant reverse2 == (if i >= 0 then reverse else !reverse)
      invariant k == Start(g, p) + 2 * (g - 1 - i)
      invariant Progress(s, codewords, t2, k, dataIndex2, bitIndex2)
    {
      var row := if reverse2 then i else g - i - 1;
      t2, dataIndex2, bitIndex2 := FillRow(s, codewords, t2, p, col, row, g - 1 - i, k, dataIndex2, bitIndex2);
      if i == 0 {
        reverse2 := !reverse2;
      }
      i := i - 1;
      k := k + 2;
    }
    StartNext(g, p);
    assert k == Start(g, p + 1);
  }

  /** `col` at the top of the column loop: it reads 6 where the loop body moves it to 5. */
  function HeadColumn(g: nat, p: nat): int
  {
    if p <= (g - 7) / 2 then g - 1 - 2 * p else 5 - 2 * (p - (g - 7) / 2)
  }

  lemma HeadColumnStep(g: nat, p: nat)
    requires PathShape(g) && p <= NumPairs(g)
    ensures HeadColumn(g, p) >= 1 <==> p < NumPairs(g)
    ensures p < NumPairs(g) ==> PairColumn(g, p) == (if HeadColumn(g, p) == 6 then 5 else HeadColumn(g, p))
    ensures p < NumPairs(g) ==> HeadColumn(g, p + 1) == PairColumn(g, p) - 2
  {
  }

  lemma Parity(p: nat)
    ensures (p + 1) % 2 == 0 <==> p % 2 != 0
  {
  }

  /** `#fillCodeword`: the column loop, stepping from column 6 to 5. */
  method FillCodeword(s: Symbol, codewords: seq<bv8>) returns (t: Symbol)
    requires s.Valid() && PathShape(s.size)
    ensures t == PlaceCodewords(s, codewords)
  {
    var g := s.size;
    t := s;
    var dataIndex, bitIndex := 0, 7;
    var reverse := true;
    var col: int := g - 1;
    ghost var p := 0;
    PlacedNone(s, codewords);
    while col >= 1
      invariant 0 <= p <= NumPairs(g)
      invariant col == HeadColumn(g, p)
      invariant reverse == (p % 2 == 0)
      invariant Progress(s, codewords, t, Start(g, p), dataIndex, bitIndex)
    {
      HeadColumnStep(g, p);
      if col == 6 {
        col := 5;
      }
      assert p < NumPairs(g) && col == PairColumn(g, p);
      ghost var next := HeadColumn(g, p + 1);
      assert next == col - 2;
      t, reverse, dataIndex, bitIndex := FillPair(s, codewords, t, col, reverse, p, dataIndex, bitIndex);
      col := col - 2;
      Parity(p);
      p := p + 1;
      assert col == next;
    }
    HeadColumnStep(g, p);
    PlacedAll(s, codewords, t);
  }

  // ---------------------------------------------------------------- reading the symbol back

  /** The data of `t` at those of `cells` that are free in `s`, in order. */
  function ReadFree(s: Symbol, t: Symbol, cells: seq<(int, int)>): (bits: seq<bool>)
    requires s.Valid() && t.Valid() && t.size == s.size
    ensures |bits| == FreeCount(s, cells)
  {
    if |cells| == 0 then []
    else
      var cell := cells[|cells| - 1];
      ReadFree(s, t, cells[..|cells| - 1]) + (if IsFree(s, cell) then [t.data[cell.0][cell.1]] else [])
  }

  /** Reading only looks at the free modules: two symbols that agree on them read the same. */
  lemma {:induction false} ReadFreeAgree(s: Symbol, t: Symbol, u: Symbol, cells: seq<(int, int)>)
    requires s.Valid() && t.Valid() && u.Valid() && t.size == s.size && u.size == s.size
    requires forall r, c | s.In(r, c) && s.Free(r, c) :: t.data[r][c] == u.data[r][c]
    ensures ReadFree(s, t, cells) == ReadFree(s, u, cells)
  {
    if |cells| > 0 {
      ReadFreeAgree(s, t, u, cells[..|cells| - 1]);
    }
  }

  /** The first `n` codeword bits, with 0 past the end (the remainder bits). */
  function Stream(codewords: seq<bv8>, n: nat): (bits: seq<bool>)
    ensures |bits| == n
    ensures forall i | 0 <= i < n :: bits[i] == BitAt(Unpack(codewords), i)
  {
    seq(n, i requires 0 <= i < n => CodewordBit(codewords, i))
  }

  /** Every free module is light: what the function-pattern stages leave behind. */
  ghost predicate FreeLight(s: Symbol)
    requires s.Valid()
  {
    forall r, c | s.In(r, c) && s.Free(r, c) :: !s.data[r][c]
  }

  /** Step `k` of the path reads back bit `FreeBefore(s, k)` when its module is free. */
  lemma ReadStep(s: Symbol, codewords: seq<bv8>, k: int)
    requires s.Valid() && PathShape(s.size) && FreeLight(s) && 0 <= k < |Path(s.size)|
    ensures var cell := Path(s.size)[k];
            IsFree(s, cell) ==> PlaceCodewords(s, codewords).data[cell.0][cell.1] == CodewordBit(codewords, FreeBefore(s, k))
  {
    var cell := Path(s.size)[k];
    PathCell(s.size, k);
    PathVisitsOnce(s.size, k);
    assert Rank(s, cell.0, cell.1) == FreeBefore(s, k);
  }

  /** The first `k` steps read back the first `FreeBefore(s, k)` bits of the stream. */
  lemma {:induction false} ReadBackPrefix(s: Symbol, codewords: seq<bv8>, k: nat)
    requires s.Valid() && PathShape(s.size) && FreeLight(s) && k <= |Path(s.size)|
    ensures ReadFree(s, PlaceCodewords(s, codewords), Path(s.size)[..k]) == Stream(codewords, FreeBefore(s, k))
  {
    if k > 0 {
      ReadBackPrefix(s, codewords, k - 1);
      ReadBackStep(s, codewords, k - 1);
    }
  }

  /** One more path step reads one more stream bit, or nothing when its module is reserved. */
  lemma ReadBackStep(s: Symbol, codewords: seq<bv8>, k: nat)
    requires s.Valid() && PathShape(s.size) && FreeLight(s) && k < |Path(s.size)|
    requires ReadFree(s, PlaceCodewords(s, codewords), Path(s.size)[..k]) == Stream(codewords, FreeBefore(s, k))
    ensures ReadFree(s, PlaceCodewords(s, codewords), Path(s.size)[..k + 1]) == Stream(codewords, FreeBefore(s, k + 1))
  {
    var t := PlaceCodewords(s, codewords);
    var path := Path(s.size);
    var cell := path[k];
    assert path[..k + 1][..k] == path[..k];
    assert path[..k + 1][k] == cell;
    FreeBeforeStep(s, k);
    ReadStep(s, codewords, k);
    var n := FreeBefore(s, k);
    var front := ReadFree(s, t, path[..k]);
    assert ReadFree(s, t, path[..k + 1]) == front + (if IsFree(s, cell) then [t.data[cell.0][cell.1]] else []);
    if IsFree(s, cell) {
      StreamSnoc(codewords, n);
    }
  }

  lemma StreamSnoc(codewords: seq<bv8>, n: nat)
    ensures Stream(codewords, n + 1) == Stream(codewords, n) + [CodewordBit(codewords, n)]
  {
  }

  /**
   * Reading the free modules of the filled symbol along the path gives the
   * codeword bits in order, most significant bit first, followed by
   * remainder bits of 0: the decoder's view of `#fillCodeword`.
   */
  lemma ReadBack(s: Symbol, codewords: seq<bv8>)
    requires s.Valid() && PathShape(s.size) && FreeLight(s)
    ensures var bits := ReadFree(s, PlaceCodewords(s, codewords), Path(s.size));
            |bits| == FreeCount(s, Path(s.size)) && bits == Stream(codewords, |bits|)
  {
    var path := Path(s.size);
    ReadBackPrefix(s, codewords, |path|);
    assert path[..|path|] == path;
  }

  /** When the codewords fit the free modules, they are read back whole. */
  lemma ReadBackWhole(s: Symbol, codewords: seq<bv8>)
    requires s.Valid() && PathShape(s.size) && FreeLight(s)
    requires 8 * |codewords| <= FreeCount(s, Path(s.size))
    ensures ReadFree(s, PlaceCodewords(s, codewords), Path(s.size))[..8 * |codewords|] == Unpack(codewords)
  {
    ReadBack(s, codewords);
  }
}
