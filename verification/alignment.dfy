/**
 * `#fillAlignmentPattern` (packages/core/src/qr.ts). The centre coordinates
 * are 6, then `last - i * diff` for `i` from `version / 7` down to 1, then
 * `last = gridSize - 7`. A block is drawn at every pair of coordinates
 * except the three pairs covered by finder patterns. The method reaches
 * those pairs by walking two indices with skip rules; `AlignmentCentres`
 * models that walk and proves it yields exactly the non-corner pairs in
 * row-major order.
 */
module Alignment {
  import opened Types
  import opened Constants
  import opened Matrix
  import opened FunctionPatterns

  /** The `k`-th middle coordinate, `last - (sub - k) * diff`. */
  function MiddlePosition(last: int, sub: nat, diff: nat, k: int): int
  {
    last - (sub - k) * diff
  }

  /** The `positions` array of `#fillAlignmentPattern` for versions 2 .. 40. */
  function AlignmentPositions(version: nat): (p: seq<int>)
    requires 2 <= version <= 40
    ensures |p| == version / 7 + 2 && p[0] == 6 && p[|p| - 1] == 4 * version + 10
  {
    var sub := version / 7;
    var last := 4 * version + 10;
    var diff := AlignmentPatternDiffs[version - 1];
    [6] + Middles(last, sub, diff, sub) + [last]
  }

  /** The first `m` middle coordinates. */
  function Middles(last: int, sub: nat, diff: nat, m: nat): (mid: seq<int>)
    ensures |mid| == m && forall k | 0 <= k < m :: mid[k] == MiddlePosition(last, sub, diff, k)
  {
    seq(m, k requires 0 <= k < m => MiddlePosition(last, sub, diff, k))
  }

  lemma MiddlesSnoc(last: int, sub: nat, diff: nat, m: nat)
    ensures Middles(last, sub, diff, m + 1) == Middles(last, sub, diff, m) + [MiddlePosition(last, sub, diff, m)]
  {
  }

  /** What the difference table guarantees from version 7 on: steps of at least 12, first middle coordinate at least 22. */
  lemma DiffTable(version: nat)
    requires 7 <= version <= 40
    ensures var diff := AlignmentPatternDiffs[version - 1];
            12 <= diff && (version / 7) * diff <= 4 * version - 12
  {
    assert version == 7 || version == 8 || version == 9 || version == 10 || version == 11 || version == 12
        || version == 13 || version == 14 || version == 15 || version == 16 || version == 17 || version == 18
        || version == 19 || version == 20 || version == 21 || version == 22 || version == 23 || version == 24
        || version == 25 || version == 26 || version == 27 || version == 28 || version == 29 || version == 30
        || version == 31 || version == 32 || version == 33 || version == 34 || version == 35 || version == 36
        || version == 37 || version == 38 || version == 39 || version == 40;
  }

  lemma MiddleGap(last: int, sub: nat, diff: nat, k1: int, k2: int)
    requires 0 <= k1 < k2 <= sub
    ensures MiddlePosition(last, sub, diff, k1) + diff <= MiddlePosition(last, sub, diff, k2)
  {
    var m2, d := sub - k2, k2 - k1;
    assert sub - k1 == m2 + d;
    MulSplit(m2, d, diff);
  }

  lemma MulSplit(m: nat, d: nat, c: nat)
    requires d >= 1
    ensures (m + d) * c >= m * c + c
  {
    assert (m + d) * c == m * c + d * c;
  }

  /** A coordinate strictly between the first and the last is a middle coordinate. */
  lemma PositionMiddle(version: nat, k: int)
    requires 2 <= version <= 40 && 0 < k < version / 7 + 1
    ensures AlignmentPositions(version)[k]
            == MiddlePosition(4 * version + 10, version / 7, AlignmentPatternDiffs[version - 1], k - 1)
  {
  }

  /** The first middle coordinate is at least 22. */
  lemma FirstMiddle(version: nat, k: int)
    requires 7 <= version <= 40 && 0 <= k <= version / 7
    ensures MiddlePosition(4 * version + 10, version / 7, AlignmentPatternDiffs[version - 1], k) >= 22
  {
    var sub, diff := version / 7, AlignmentPatternDiffs[version - 1];
    DiffTable(version);
    if k > 0 {
      MiddleGap(4 * version + 10, sub, diff, 0, k);
    }
  }

  /** Consecutive coordinates from the first middle one on are at least `diff >= 12` apart. */
  lemma LaterGap(version: nat, a: int, b: int)
    requires 7 <= version <= 40 && 0 < a < b < version / 7 + 2
    ensures AlignmentPositions(version)[a] + 12 <= AlignmentPositions(version)[b]
  {
    var sub, diff, last := version / 7, AlignmentPatternDiffs[version - 1], 4 * version + 10;
    DiffTable(version);
    PositionMiddle(version, a);
    if b < sub + 1 {
      PositionMiddle(version, b);
      MiddleGap(last, sub, diff, a - 1, b - 1);
    } else {
      MiddleGap(last, sub, diff, a - 1, sub);
    }
  }

  /** After the first coordinate 6, every coordinate is at least 18. */
  lemma FirstGap(version: nat, b: int)
    requires 2 <= version <= 40 && 0 < b < version / 7 + 2
    ensures AlignmentPositions(version)[b] >= 18
  {
    if b < version / 7 + 1 {
      PositionMiddle(version, b);
      FirstMiddle(version, b - 1);
    }
  }

  /**
   * The coordinates are at least 5 apart and increase, so no two alignment
   * blocks overlap and a coordinate identifies its index.
   */
  lemma PositionSpacing(version: nat, a: int, b: int)
    requires 2 <= version <= 40
    requires 0 <= a < b < version / 7 + 2
    ensures AlignmentPositions(version)[a] + 5 <= AlignmentPositions(version)[b]
  {
    if a == 0 {
      FirstGap(version, b);
    } else {
      LaterGap(version, a, b);
    }
  }

  /** Every coordinate lies between 6 and `gridSize - 7`. */
  lemma PositionRange(version: nat)
    requires 2 <= version <= 40
    ensures var p := AlignmentPositions(version);
            forall a | 0 <= a < |p| :: 6 <= p[a] <= 4 * version + 10
  {
    var p := AlignmentPositions(version);
    forall a | 0 < a < |p| - 1
      ensures 6 <= p[a] <= 4 * version + 10
    {
      PositionSpacing(version, 0, a);
      PositionSpacing(version, a, |p| - 1);
    }
  }

  lemma PositionsDistinct(version: nat, a: int, b: int)
    requires 2 <= version <= 40
    requires 0 <= a < version / 7 + 2 && 0 <= b < version / 7 + 2
    requires AlignmentPositions(version)[a] == AlignmentPositions(version)[b]
    ensures a == b
  {
    if a < b {
      PositionSpacing(version, a, b);
    } else if b < a {
      PositionSpacing(version, b, a);
    }
  }

  // ---------------------------------------------------------------- index pairs

  /** The three index pairs whose centres fall on a finder pattern. */
  predicate Corner(n: int, a: int, b: int)
  {
    (a == 0 && b == 0) || (a == 0 && b == n - 1) || (a == n - 1 && b == 0)
  }

  /** (a, b) comes strictly before (x, y) in row-major order. */
  predicate Precedes(a: int, b: int, x: int, y: int)
  {
    a < x || (a == x && b < y)
  }

  /** The non-corner index pairs of an n x n table that precede (x, y), in row-major order. */
  function PairsBefore(n: nat, x: nat, y: nat): (pairs: seq<(nat, nat)>)
    requires y <= n
    ensures forall k | 0 <= k < |pairs| :: pairs[k].1 < n && Precedes(pairs[k].0, pairs[k].1, x, y)
    decreases x, y
  {
    if y == 0 then (if x == 0 then [] else PairsBefore(n, x - 1, n))
    else PairsBefore(n, x, y - 1) + (if Corner(n, x, y - 1) then [] else [(x, y - 1)])
  }

  /** A pair is listed exactly when it is in the table, precedes (x, y) and is not a corner. */
  lemma {:induction false} PairsMembership(n: nat, x: nat, y: nat, a: nat, b: nat)
    requires y <= n
    ensures (a, b) in PairsBefore(n, x, y) <==> b < n && Precedes(a, b, x, y) && !Corner(n, a, b)
    decreases x, y
  {
    if y == 0 {
      if x > 0 {
        PairsMembership(n, x - 1, n, a, b);
      }
    } else {
      PairsMembership(n, x, y - 1, a, b);
    }
  }

  /** Pairs listed before an earlier position form a prefix of those listed before a later one. */
  lemma {:induction false} PairsPrefix(n: nat, x: nat, y: nat, x2: nat, y2: nat)
    requires y <= n && y2 <= n
    requires x < x2 || (x == x2 && y <= y2)
    ensures PairsBefore(n, x, y) <= PairsBefore(n, x2, y2)
    decreases x2, y2
  {
    if x == x2 && y == y2 {
    } else if y2 == 0 {
      PairsPrefix(n, x, y, x2 - 1, n);
    } else {
      PairsPrefix(n, x, y, x2, y2 - 1);
    }
  }

  /** How many corners precede (x, y). */
  function CornersBefore(n: int, x: int, y: int): nat
  {
    (if x > 0 || y > 0 then 1 else 0)
    + (if x > 0 || y > n - 1 then 1 else 0)
    + (if x > n - 1 || (x == n - 1 && y > 0) then 1 else 0)
  }

  lemma {:induction false} PairsCount(n: nat, x: nat, y: nat)
    requires n >= 2 && y <= n
    ensures |PairsBefore(n, x, y)| == x * n + y - CornersBefore(n, x, y)
    decreases x, y
  {
    if y == 0 {
      if x > 0 {
        PairsCount(n, x - 1, n);
        assert (x - 1) * n + n == x * n;
      }
    } else {
      PairsCount(n, x, y - 1);
    }
  }

  /** The whole table lists `n * n - 3` pairs, the `ALIGNMENT_PATTERN_TOTALS` entry. */
  lemma PairsTotal(sub: nat)
    requires sub <= 5
    ensures |PairsBefore(sub + 2, sub + 2, 0)| == AlignmentPatternTotals[sub]
  {
    PairsCount(sub + 2, sub + 2, 0);
    assert sub == 0 || sub == 1 || sub == 2 || sub == 3 || sub == 4 || sub == 5;
  }

  /** Pairs listed before a position inside the table index the table. */
  lemma PairsBounded(n: nat, x: nat, y: nat)
    requires x < n && y <= n
    ensures forall k | 0 <= k < |PairsBefore(n, x, y)| :: PairsBefore(n, x, y)[k].0 < n && PairsBefore(n, x, y)[k].1 < n
  {
  }

  /** The centres of a list of index pairs. */
  function Project(p: seq<int>, pairs: seq<(nat, nat)>): (centres: seq<(int, int)>)
    requires forall k | 0 <= k < |pairs| :: pairs[k].0 < |p| && pairs[k].1 < |p|
    ensures |centres| == |pairs|
    ensures forall k | 0 <= k < |pairs| :: centres[k] == (p[pairs[k].0], p[pairs[k].1])
  {
    if |pairs| == 0 then [] else Project(p, pairs[..|pairs| - 1]) + [(p[pairs[|pairs| - 1].0], p[pairs[|pairs| - 1].1])]
  }

  /** The centres of every alignment block, in the order `#fillAlignmentPattern` draws them. */
  function Centres(version: nat): seq<(int, int)>
    requires 2 <= version <= 40
  {
    var p := AlignmentPositions(version);
    Project(p, PairsBefore(|p|, |p|, 0))
  }

  /** The `k`-th centre is the pair of coordinates at the `k`-th listed index pair. */
  lemma CentreAt(version: nat, k: int)
    requires 2 <= version <= 40 && 0 <= k < |Centres(version)|
    ensures var p := AlignmentPositions(version);
            var e := PairsBefore(|p|, |p|, 0)[k];
            e.0 < |p| && e.1 < |p| && Centres(version)[k] == (p[e.0], p[e.1])
  {
  }

  /** Every centre lies between 6 and `gridSize - 7` in both directions. */
  lemma CentresRange(version: nat)
    requires 2 <= version <= 40
    ensures forall k | 0 <= k < |Centres(version)| ::
              6 <= Centres(version)[k].0 <= 4 * version + 10 && 6 <= Centres(version)[k].1 <= 4 * version + 10
  {
    PositionRange(version);
    forall k | 0 <= k < |Centres(version)|
      ensures 6 <= Centres(version)[k].0 <= 4 * version + 10 && 6 <= Centres(version)[k].1 <= 4 * version + 10
    {
      CentreAt(version, k);
    }
  }

  /**
   * The blocks are centred on exactly the coordinate pairs other than the
   * three that coincide with finder patterns.
   */
  lemma CentresExact(version: nat, a: nat, b: nat)
    requires 2 <= version <= 40
    requires a < version / 7 + 2 && b < version / 7 + 2
    ensures var p := AlignmentPositions(version);
            (p[a], p[b]) in Centres(version) <==> !Corner(|p|, a, b)
  {
    var p := AlignmentPositions(version);
    var n := |p|;
    var pairs := PairsBefore(n, n, 0);
    var centres := Centres(version);
    PairsMembership(n, n, 0, a, b);
    if !Corner(n, a, b) {
      var k :| 0 <= k < |pairs| && pairs[k] == (a, b);
      CentreAt(version, k);
      assert centres[k] == (p[a], p[b]);
    }
    if (p[a], p[b]) in centres {
      var k :| 0 <= k < |centres| && centres[k] == (p[a], p[b]);
      CentreAt(version, k);
      var e := pairs[k];
      assert p[e.0] == p[a] && p[e.1] == p[b];
      PositionsDistinct(version, e.0, a);
      PositionsDistinct(version, e.1, b);
      assert e == (a, b);
      assert (a, b) in pairs;
    }
  }

  /** There are `ALIGNMENT_PATTERN_TOTALS[version / 7]` blocks. */
  lemma CentresCount(version: nat)
    requires 2 <= version <= 40
    ensures |Centres(version)| == AlignmentPatternTotals[version / 7]
  {
    PairsTotal(version / 7);
  }

  lemma PairsStep(n: nat, x: nat, y: nat)
    requires y < n && !Corner(n, x, y)
    ensures PairsBefore(n, x, y + 1) == PairsBefore(n, x, y) + [(x, y)]
  {
  }

  lemma ProjectAppend(p: seq<int>, pairs: seq<(nat, nat)>, e: (nat, nat))
    requires forall k | 0 <= k < |pairs| :: pairs[k].0 < |p| && pairs[k].1 < |p|
    requires e.0 < |p| && e.1 < |p|
    ensures Project(p, pairs + [e]) == Project(p, pairs) + [(p[e.0], p[e.1])]
  {
    assert (pairs + [e])[..|pairs|] == pairs;
  }

  /** `#fillAlignmentPattern`'s loop pushing `last - i * diff` for `i` from `sub` down to 1. */
  method PushMiddles(last: int, sub: nat, diff: nat) returns (mid: seq<int>)
    ensures mid == Middles(last, sub, diff, sub)
  {
    mid := [];
    var i := sub;
    while i >= 1
      invariant 0 <= i <= sub
      invariant mid == Middles(last, sub, diff, sub - i)
    {
      assert MiddlePosition(last, sub, diff, sub - i) == last - i * diff;
      MiddlesSnoc(last, sub, diff, sub - i);
      mid := mid + [last - i * diff];
      i := i - 1;
    }
  }

  /** The coordinate list as `#fillAlignmentPattern` builds it: `first`, the middles, `last`. */
  method BuildPositions(version: nat) returns (positions: seq<int>)
    requires 2 <= version <= 40
    ensures positions == AlignmentPositions(version)
  {
    var last := 4 * version + 17 - 7;
    var mid := PushMiddles(last, version / 7, AlignmentPatternDiffs[version - 1]);
    positions := [6] + mid + [last];
  }

  predicate Increasing(p: seq<int>)
  {
    forall a, b | 0 <= a < b < |p| :: p[a] < p[b]
  }

  lemma PositionsIncreasing(version: nat)
    requires 2 <= version <= 40
    ensures Increasing(AlignmentPositions(version))
  {
    var p := AlignmentPositions(version);
    forall a, b | 0 <= a < b < |p|
      ensures p[a] < p[b]
    {
      PositionSpacing(version, a, b);
    }
  }

  /**
   * The three index moves at the top of each step of the walk: to the next
   * row when the column index has run off the end, then past the pair
   * (first, last), then past (last, first). None of them skips a listed pair.
   */
  method SkipCorners(positions: seq<int>, first: int, last: int, xIndex: nat, yIndex: nat)
    returns (x: nat, y: nat)
    requires |positions| >= 2 && Increasing(positions)
    requires positions[0] == first && positions[|positions| - 1] == last
    requires xIndex < |positions| && yIndex <= |positions| && (xIndex == 0 ==> yIndex >= 1)
    requires |PairsBefore(|positions|, xIndex, yIndex)| < |PairsBefore(|positions|, |positions|, 0)|
    ensures x < |positions| && y < |positions| && !Corner(|positions|, x, y)
    ensures PairsBefore(|positions|, x, y) == PairsBefore(|positions|, xIndex, yIndex)
  {
    var n := |positions|;
    x, y := xIndex, yIndex;
    if y == n {
      assert PairsBefore(n, x + 1, 0) == PairsBefore(n, x, y);
      x, y := x + 1, 0;
    }
    if positions[x] == first && positions[y] == last {
      assert x == 0 && y == n - 1;
      assert PairsBefore(n, 1, 0) == PairsBefore(n, 0, n - 1);
      x, y := x + 1, 0;
    }
    if positions[x] == last && positions[y] == first {
      assert x == n - 1 && y == 0;
      assert PairsBefore(n, x, 1) == PairsBefore(n, x, 0);
      y := y + 1;
    }
  }

  /** Emitting the centre of a listed pair extends the centres of the pairs before it by one. */
  lemma EmitStep(positions: seq<int>, x: nat, y: nat, centres: seq<(int, int)>)
    requires x < |positions| && y < |positions| && !Corner(|positions|, x, y)
    requires (PairsBounded(|positions|, x, y); centres == Project(positions, PairsBefore(|positions|, x, y)))
    ensures |PairsBefore(|positions|, x, y + 1)| == |PairsBefore(|positions|, x, y)| + 1
    ensures (PairsBounded(|positions|, x, y + 1);
             centres + [(positions[x], positions[y])] == Project(positions, PairsBefore(|positions|, x, y + 1)))
  {
    var n := |positions|;
    PairsStep(n, x, y);
    PairsBounded(n, x, y);
    ProjectAppend(positions, PairsBefore(n, x, y), (x, y));
  }

  /**
   * The loop of `#fillAlignmentPattern` over `total` steps, each applying
   * the skip rules and emitting the centre at the current pair of indices.
   */
  method WalkPairs(positions: seq<int>, first: int, last: int, total: nat) returns (centres: seq<(int, int)>)
    requires |positions| >= 2 && Increasing(positions)
    requires positions[0] == first && positions[|positions| - 1] == last
    requires total == |PairsBefore(|positions|, |positions|, 0)|
    ensures centres == Project(positions, PairsBefore(|positions|, |positions|, 0))
  {
    var n := |positions|;
    var xIndex, yIndex := 0, 1;
    centres := [];
    var index := 0;
    while index < total
      invariant 0 <= index <= total
      invariant xIndex < n && yIndex <= n && (xIndex == 0 ==> yIndex >= 1)
      invariant |PairsBefore(n, xIndex, yIndex)| == index
      invariant (PairsBounded(n, xIndex, yIndex); centres == Project(positions, PairsBefore(n, xIndex, yIndex)))
    {
      var x, y := SkipCorners(positions, first, last, xIndex, yIndex);
      EmitStep(positions, x, y, centres);
      centres := centres + [(positions[x], positions[y])];
      xIndex, yIndex := x, y + 1;
      index := index + 1;
    }
    PairsPrefix(n, xIndex, yIndex, n, 0);
  }

  /** `#fillAlignmentPattern`'s centres for versions 2 .. 40, in drawing order. */
  method AlignmentCentres(version: nat) returns (centres: seq<(int, int)>)
    requires 2 <= version <= 40
    ensures centres == Centres(version)
  {
    var positions := BuildPositions(version);
    var total := AlignmentPatternTotals[version / 7];
    PairsTotal(version / 7);
    PositionsIncreasing(version);
    centres := WalkPairs(positions, 6, 4 * version + 17 - 7, total);
  }

  // ---------------------------------------------------------------- drawing

  /** `#fillBlock` at each centre in turn, top-left corner two modules up and left of it. */
  function FillBlocks(s: Symbol, centres: seq<(int, int)>): (t: Symbol)
    requires s.Valid()
    requires forall k | 0 <= k < |centres| ::
               2 <= centres[k].0 && centres[k].0 + 3 <= s.size && 2 <= centres[k].1 && centres[k].1 + 3 <= s.size
    ensures t.Valid() && t.size == s.size
  {
    if |centres| == 0 then s
    else
      var c := centres[|centres| - 1];
      FillBlock(FillBlocks(s, centres[..|centres| - 1]), c.0 - 2, c.1 - 2, AlignmentPatternSize, AlignmentPattern)
  }

  /** `#fillAlignmentPattern`: nothing for version 1. */
  function FillAlignmentPattern(s: Symbol, version: nat): (t: Symbol)
    requires s.Valid() && 1 <= version <= 40 && s.size == 4 * version + 17
    ensures t.Valid() && t.size == s.size
  {
    if version == 1 then s else CentresRange(version); FillBlocks(s, Centres(version))
  }

  /**
   * No alignment block touches a finder pattern or its separator: each
   * block stays clear of the three 8 x 8 corner squares.
   */
  lemma ClearOfFinders(version: nat, a: nat, b: nat)
    requires 2 <= version <= 40
    requires a < version / 7 + 2 && b < version / 7 + 2 && !Corner(version / 7 + 2, a, b)
    ensures var p := AlignmentPositions(version);
            var g := 4 * version + 17;
            && !(p[a] - 2 <= 7 && p[b] - 2 <= 7)
            && !(p[a] - 2 <= 7 && p[b] + 2 >= g - 8)
            && !(p[a] + 2 >= g - 8 && p[b] - 2 <= 7)
  {
    var p := AlignmentPositions(version);
    var n := |p|;
    if a != 0 {
      PositionSpacing(version, 0, a);
    }
    if b != 0 {
      PositionSpacing(version, 0, b);
    }
    if a != n - 1 {
      PositionSpacing(version, a, n - 1);
    }
    if b != n - 1 {
      PositionSpacing(version, b, n - 1);
    }
  }
}
