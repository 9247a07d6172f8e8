/**
 * The mask penalty (`getMaskPenalty` in utils.ts): the score that decides
 * which of the eight data masks the symbol keeps. Four rules add up:
 *   1. a run of five or more equal modules in a row or column scores
 *      3 + (length - 5);
 *   2. every 2 x 2 block of equal modules scores 3;
 *   3. every window of eleven modules in a row or column that reads
 *      1011101 0000 or 0000 1011101 scores 40;
 *   4. the share of dark modules scores 10 for every full 5 % step it is
 *      away from 50 %.
 * The grid is the symbol's rows (`Matrix.Symbol.data`); `getMaskPenalty` reads
 * the same modules out of the flat array, row `i` at `i * size`.
 */
module Penalty {
  import opened Matrix
  import Bits

  // ---------------------------------------------------------------- grid access

  /** A grid of `n` rows of `n` modules. */
  predicate Square(m: seq<seq<bool>>)
  {
    forall r | 0 <= r < |m| :: |m[r]| == |m|
  }

  /**
   * Column `c`, read top to bottom: `data[j * size + c]` for `j` from 0.
   * On a square grid every row has module `c`; the guard only keeps the
   * function total.
   */
  function Column(m: seq<seq<bool>>, c: nat): (col: seq<bool>)
    ensures |col| == |m|
  {
    seq(|m|, r requires 0 <= r < |m| => if c < |m[r]| then m[r][c] else false)
  }

  // ---------------------------------------------------------------- rule 1: runs

  /** `len` modules of one colour. */
  datatype Run = Run(dark: bool, len: nat)

  function Repeat(b: bool, n: nat): (s: seq<bool>)
    ensures |s| == n
  {
    if n == 0 then [] else Repeat(b, n - 1) + [b]
  }

  /** The line a sequence of runs spells out. */
  function Expand(runs: seq<Run>): seq<bool>
  {
    if |runs| == 0 then []
    else Expand(runs[..|runs| - 1]) + Repeat(runs[|runs| - 1].dark, runs[|runs| - 1].len)
  }

  /** Runs `i` and `i + 1` differ in colour. */
  predicate Alternate(runs: seq<Run>, i: nat)
    requires i + 1 < |runs|
  {
    runs[i].dark != runs[i + 1].dark
  }

  /** No run is empty and neighbouring runs differ in colour. */
  predicate Maximal(runs: seq<Run>)
  {
    && (forall i | 0 <= i < |runs| :: runs[i].len >= 1)
    && (forall i: nat | i + 1 < |runs| :: Alternate(runs, i))
  }

  /** The runs after one more module of colour `b`: the last run grows, or a new run starts. */
  function Extend(prev: seq<Run>, b: bool): (runs: seq<Run>)
    ensures |runs| > 0 && runs[|runs| - 1].dark == b
  {
    if |prev| > 0 && prev[|prev| - 1].dark == b then prev[..|prev| - 1] + [Run(b, prev[|prev| - 1].len + 1)]
    else prev + [Run(b, 1)]
  }

  /** The runs of a line, read left to right. */
  function Runs(line: seq<bool>): seq<Run>
  {
    if |line| == 0 then [] else Extend(Runs(line[..|line| - 1]), line[|line| - 1])
  }

  lemma ExtendSame(done: seq<Run>, b: bool, n: nat)
    ensures Extend(done + [Run(b, n)], b) == done + [Run(b, n + 1)]
  {
    assert (done + [Run(b, n)])[..|done|] == done;
  }

  lemma ExtendNew(done: seq<Run>, b: bool)
    requires |done| == 0 || done[|done| - 1].dark != b
    ensures Extend(done, b) == done + [Run(b, 1)]
  {
  }

  lemma ExpandSnoc(runs: seq<Run>, r: Run)
    ensures Expand(runs + [r]) == Expand(runs) + Repeat(r.dark, r.len)
  {
    assert (runs + [r])[..|runs|] == runs;
  }

  lemma RepeatSnoc(b: bool, n: nat)
    ensures Repeat(b, n + 1) == Repeat(b, n) + [b]
  {
  }

  lemma MaximalPrefix(runs: seq<Run>, k: nat)
    requires Maximal(runs) && k <= |runs|
    ensures Maximal(runs[..k])
  {
    var p := runs[..k];
    forall i: nat | i + 1 < |p|
      ensures Alternate(p, i)
    {
      assert Alternate(runs, i);
    }
  }

  lemma MaximalSnoc(runs: seq<Run>, r: Run)
    requires Maximal(runs) && r.len >= 1 && (|runs| == 0 || runs[|runs| - 1].dark != r.dark)
    ensures Maximal(runs + [r])
  {
    var q := runs + [r];
    forall i | 0 <= i < |q|
      ensures q[i].len >= 1
    {
      if i < |runs| {
        assert q[i] == runs[i];
      }
    }
    forall i: nat | i + 1 < |q|
      ensures Alternate(q, i)
    {
      if i + 1 < |runs| {
        assert Alternate(runs, i);
      }
    }
  }

  /** Extending maximal runs keeps them maximal. */
  lemma MaximalExtend(prev: seq<Run>, b: bool)
    requires Maximal(prev)
    ensures Maximal(Extend(prev, b))
  {
    if |prev| > 0 && prev[|prev| - 1].dark == b {
      var n := |prev| - 1;
      MaximalPrefix(prev, n);
      if n > 0 {
        assert Alternate(prev, n - 1);
      }
      MaximalSnoc(prev[..n], Run(b, prev[n].len + 1));
    } else {
      MaximalSnoc(prev, Run(b, 1));
    }
  }

  /** Extending the runs by `b` extends the spelled-out line by `b`. */
  lemma ExpandExtend(prev: seq<Run>, b: bool)
    ensures Expand(Extend(prev, b)) == Expand(prev) + [b]
  {
    if |prev| > 0 && prev[|prev| - 1].dark == b {
      var n := |prev| - 1;
      var last := prev[n];
      assert prev == prev[..n] + [last];
      ExpandSnoc(prev[..n], last);
      ExpandSnoc(prev[..n], Run(b, last.len + 1));
      RepeatSnoc(b, last.len);
    } else {
      ExpandSnoc(prev, Run(b, 1));
      assert Repeat(b, 1) == [b];
    }
  }

  /** The runs of a line spell the line out, and they are maximal. */
  lemma {:induction false} RunsDecompose(line: seq<bool>)
    ensures Maximal(Runs(line)) && Expand(Runs(line)) == line
  {
    if |line| > 0 {
      var front := line[..|line| - 1];
      var b := line[|line| - 1];
      RunsDecompose(front);
      var prev := Runs(front);
      assert Runs(line) == Extend(prev, b);
      assert Maximal(Extend(prev, b)) by { MaximalExtend(prev, b); }
      assert Expand(Extend(prev, b)) == front + [b] by { ExpandExtend(prev, b); }
      assert front + [b] == line;
    }
  }

  /** The last run of a nonempty line has the colour of its last module. */
  lemma RunsLast(line: seq<bool>)
    requires |line| > 0
    ensures |Runs(line)| > 0 && Runs(line)[|Runs(line)| - 1].dark == line[|line| - 1]
  {
    assert Runs(line) == Extend(Runs(line[..|line| - 1]), line[|line| - 1]);
  }

  lemma RepeatAppend(line: seq<bool>, b: bool, n: nat)
    requires n >= 1
    ensures var ext := line + Repeat(b, n);
            |ext| > 0 && ext[..|ext| - 1] == line + Repeat(b, n - 1) && ext[|ext| - 1] == b
  {
    RepeatSnoc(b, n - 1);
    assert line + Repeat(b, n) == (line + Repeat(b, n - 1)) + [b];
  }

  /** Appending a run of a new colour to a line appends that run to its runs. */
  lemma {:induction false} RunsAppend(line: seq<bool>, b: bool, n: nat)
    requires n >= 1 && (|line| == 0 || line[|line| - 1] != b)
    ensures Runs(line + Repeat(b, n)) == Runs(line) + [Run(b, n)]
  {
    if n == 1 {
      RunsAppendOne(line, b);
    } else {
      RunsAppend(line, b, n - 1);
      RunsAppendMore(line, b, n);
    }
  }

  lemma RunsAppendOne(line: seq<bool>, b: bool)
    requires |line| == 0 || line[|line| - 1] != b
    ensures Runs(line + Repeat(b, 1)) == Runs(line) + [Run(b, 1)]
  {
    var ext := line + Repeat(b, 1);
    assert ext == line + [b];
    assert ext[..|ext| - 1] == line;
    assert Runs(ext) == Extend(Runs(line), b);
    if |line| > 0 {
      RunsLast(line);
    }
    ExtendNew(Runs(line), b);
  }

  lemma RunsAppendMore(line: seq<bool>, b: bool, n: nat)
    requires n >= 2
    requires Runs(line + Repeat(b, n - 1)) == Runs(line) + [Run(b, n - 1)]
    ensures Runs(line + Repeat(b, n)) == Runs(line) + [Run(b, n)]
  {
    var ext := line + Repeat(b, n);
    var front := line + Repeat(b, n - 1);
    RepeatAppend(line, b, n);
    assert Runs(ext) == Extend(Runs(front), b);
    ExtendSame(Runs(line), b, n - 1);
  }

  /** The last module of a nonempty spelled-out line has the last run's colour. */
  lemma ExpandLast(runs: seq<Run>)
    requires Maximal(runs) && |runs| > 0
    ensures |Expand(runs)| > 0 && Expand(runs)[|Expand(runs)| - 1] == runs[|runs| - 1].dark
  {
    ExpandSnoc(runs[..|runs| - 1], runs[|runs| - 1]);
    assert runs[..|runs| - 1] + [runs[|runs| - 1]] == runs;
  }

  /** Maximal runs are the only decomposition: `Runs` recovers them from the line. */
  lemma {:induction false} RunsUnique(runs: seq<Run>)
    requires Maximal(runs)
    ensures Runs(Expand(runs)) == runs
  {
    if |runs| > 0 {
      var front := runs[..|runs| - 1];
      var r := runs[|runs| - 1];
      MaximalPrefix(runs, |runs| - 1);
      RunsUnique(front);
      if |front| > 0 {
        ExpandLast(front);
        assert Alternate(runs, |runs| - 2);
      }
      RunsAppend(Expand(front), r.dark, r.len);
      assert front + [r] == runs;
    }
  }

  /** What one run scores: 3 for five modules, one more for each module beyond. */
  function RunPenalty(run: Run): nat
  {
    if run.len >= 5 then 3 + (run.len - 5) else 0
  }

  function RunsPenalty(runs: seq<Run>): nat
  {
    if |runs| == 0 then 0 else RunPenalty(runs[0]) + RunsPenalty(runs[1..])
  }

  /** Rule 1 for one row or column: the score of its maximal runs. */
  function LinePenalty(line: seq<bool>): nat
  {
    RunsPenalty(Runs(line))
  }

  lemma {:induction false} RunsPenaltySnoc(runs: seq<Run>, r: Run)
    ensures RunsPenalty(runs + [r]) == RunsPenalty(runs) + RunPenalty(r)
  {
    if |runs| == 0 {
      assert runs + [r] == [r];
      assert [r][1..] == [];
    } else {
      assert (runs + [r])[1..] == runs[1..] + [r];
      RunsPenaltySnoc(runs[1..], r);
    }
  }

  lemma RunsPrefixStep(line: seq<bool>, j: nat)
    requires j < |line|
    ensures Runs(line[..j + 1]) == Extend(Runs(line[..j]), line[j])
  {
    assert line[..j + 1][..j] == line[..j];
  }

  /**
   * The scan after `j > 0` modules: the runs so far are the scored runs
   * `done` and the open run of `count` modules of colour `last`.
   */
  ghost predicate Scanned(line: seq<bool>, j: nat, last: bool, count: nat, done: seq<Run>, penalty: nat)
  {
    && 0 < j <= |line|
    && Runs(line[..j]) == done + [Run(last, count)]
    && (|done| == 0 || done[|done| - 1].dark != last)
    && penalty == RunsPenalty(done)
  }

  /** A module of the open run's colour lengthens it. */
  lemma ScanSame(line: seq<bool>, j: nat, last: bool, count: nat, done: seq<Run>, penalty: nat)
    requires j < |line| && line[j] == last
    requires (j == 0 && count == 0 && done == [] && penalty == 0) || Scanned(line, j, last, count, done, penalty)
    ensures Scanned(line, j + 1, last, count + 1, done, penalty)
  {
    RunsPrefixStep(line, j);
    if j == 0 {
      assert line[..0] == [];
      assert Runs(line[..1]) == done + [Run(last, 1)];
    } else {
      ExtendSame(done, last, count);
    }
  }

  /** A module of the other colour closes the open run and opens a new one. */
  lemma ScanNew(line: seq<bool>, j: nat, last: bool, count: nat, done: seq<Run>, penalty: nat)
    requires j < |line| && line[j] != last
    requires Scanned(line, j, last, count, done, penalty)
    ensures Scanned(line, j + 1, line[j], 1, done + [Run(last, count)], penalty + RunPenalty(Run(last, count)))
  {
    RunsPrefixStep(line, j);
    RunsPenaltySnoc(done, Run(last, count));
    var closed := done + [Run(last, count)];
    assert closed[|closed| - 1].dark == last;
    ExtendNew(closed, line[j]);
  }

  /**
   * The rule 1 scan of one line: count the current run, score it when the
   * colour changes and once more after the last module.
   */
  method ScanLine(line: seq<bool>) returns (penalty: nat)
    ensures penalty == LinePenalty(line)
  {
    penalty := 0;
    if |line| == 0 {
      return;
    }
    var last := line[0];
    var count := 0;
    ghost var done: seq<Run> := [];
    var j := 0;
    while j < |line|
      invariant 0 <= j <= |line|
      invariant j == 0 ==> count == 0 && last == line[0] && done == [] && penalty == 0
      invariant j > 0 ==> Scanned(line, j, last, count, done, penalty)
    {
      if line[j] == last {
        ScanSame(line, j, last, count, done, penalty);
        count := count + 1;
      } else {
        ScanNew(line, j, last, count, done, penalty);
        if count >= 5 {
          penalty := penalty + 3 + (count - 5);
        }
        done := done + [Run(last, count)];
        count := 1;
        last := line[j];
      }
      j := j + 1;
    }
    if count >= 5 {
      penalty := penalty + 3 + (count - 5);
    }
    assert line[..|line|] == line;
    RunsPenaltySnoc(done, Run(last, count));
  }

  /** Rule 1 over rows and columns `0 .. k - 1`. */
  function Rule1(m: seq<seq<bool>>, k: nat): nat
    requires k <= |m|
  {
    if k == 0 then 0 else Rule1(m, k - 1) + LinePenalty(m[k - 1]) + LinePenalty(Column(m, k - 1))
  }

  // ---------------------------------------------------------------- rule 2: 2 x 2 blocks

  /** The block with top-left module (i, j) is all one colour. */
  predicate Block(m: seq<seq<bool>>, i: nat, j: nat)
    requires Square(m) && i + 1 < |m| && j + 1 < |m|
  {
    var color := m[i][j];
    color == m[i + 1][j] && color == m[i][j + 1] && color == m[i + 1][j + 1]
  }

  /** Monochrome blocks with top row `i` and left column below `k`. */
  function BlocksInRow(m: seq<seq<bool>>, i: nat, k: nat): nat
    requires Square(m) && i + 1 < |m| && k + 1 <= |m|
  {
    if k == 0 then 0 else BlocksInRow(m, i, k - 1) + (if Block(m, i, k - 1) then 1 else 0)
  }

  /** Monochrome blocks with top row below `k`. */
  function Blocks(m: seq<seq<bool>>, k: nat): nat
    requires Square(m) && k + 1 <= |m|
  {
    if k == 0 then 0 else Blocks(m, k - 1) + BlocksInRow(m, k - 1, |m| - 1)
  }

  // ---------------------------------------------------------------- rule 3: finder-like windows

  /** `[1, 0, 1, 1, 1, 0, 1, 0, 0, 0, 0]`: a finder row followed by four light modules. */
  const Finder1: seq<bool> := [true, false, true, true, true, false, true, false, false, false, false]

  /** `[0, 0, 0, 0, 1, 0, 1, 1, 1, 0, 1]`: four light modules, then a finder row. */
  const Finder2: seq<bool> := [false, false, false, false, true, false, true, true, true, false, true]

  /** The first `k` modules from `j` agree with the pattern, compared one at a time. */
  predicate Agree(line: seq<bool>, j: nat, pattern: seq<bool>, k: nat)
    requires j + k <= |line| && k <= |pattern|
  {
    k == 0 || (Agree(line, j, pattern, k - 1) && line[j + k - 1] == pattern[k - 1])
  }

  lemma {:induction false} AgreeAll(line: seq<bool>, j: nat, pattern: seq<bool>, k: nat)
    requires j + k <= |line| && k <= |pattern|
    ensures Agree(line, j, pattern, k) <==> forall t | 0 <= t < k :: line[j + t] == pattern[t]
  {
    if k > 0 {
      AgreeAll(line, j, pattern, k - 1);
    }
  }

  /** The eleven modules from `j` equal a pattern exactly when they agree one by one. */
  lemma WindowAgrees(line: seq<bool>, j: nat, pattern: seq<bool>)
    requires j + 11 <= |line| && |pattern| == 11
    ensures line[j..j + 11] == pattern <==> Agree(line, j, pattern, 11)
  {
    AgreeAll(line, j, pattern, 11);
    if Agree(line, j, pattern, 11) {
      assert forall k | 0 <= k < 11 :: line[j..j + 11][k] == pattern[k];
    }
  }

  /** The eleven modules from `j` read one of the two patterns. */
  predicate Hit(line: seq<bool>, j: nat)
  {
    j + 11 <= |line| && (Agree(line, j, Finder1, 11) || Agree(line, j, Finder2, 11))
  }

  /** A hit is a window that equals one of the patterns as a whole. */
  lemma HitWindow(line: seq<bool>, j: nat)
    requires j + 11 <= |line|
    ensures Hit(line, j) <==> line[j..j + 11] == Finder1 || line[j..j + 11] == Finder2
  {
    WindowAgrees(line, j, Finder1);
    WindowAgrees(line, j, Finder2);
  }

  /** How many windows fit in a line of `n` modules: `j` runs up to `n - 11`. */
  function Windows(n: nat): nat
  {
    if n >= 11 then n - 10 else 0
  }

  /** Window `j` of row `i` and of column `i`: 40 for each that hits. */
  function WindowScore(m: seq<seq<bool>>, i: nat, j: nat): nat
    requires i < |m|
  {
    (if Hit(m[i], j) then 40 else 0) + (if Hit(Column(m, i), j) then 40 else 0)
  }

  function WindowsInLine(m: seq<seq<bool>>, i: nat, k: nat): nat
    requires i < |m|
  {
    if k == 0 then 0 else WindowsInLine(m, i, k - 1) + WindowScore(m, i, k - 1)
  }

  /** Rule 3 over rows and columns `0 .. k - 1`. */
  function Rule3(m: seq<seq<bool>>, k: nat): nat
    requires k <= |m|
  {
    if k == 0 then 0 else Rule3(m, k - 1) + WindowsInLine(m, k - 1, Windows(|m|))
  }

  // ---------------------------------------------------------------- rule 4: dark share

  /** The number of dark modules: `data.reduce((sum, bit) => sum + bit, 0)`. */
  function CountDark(bits: seq<bool>): (d: nat)
    ensures d <= |bits|
  {
    if |bits| == 0 then 0 else CountDark(bits[..|bits| - 1]) + (if bits[|bits| - 1] then 1 else 0)
  }

  function Abs(x: int): nat
  {
    if x < 0 then -x else x
  }

  function Min(a: nat, b: nat): nat
  {
    if a <= b then a else b
  }

  /** `Math.ceil`. */
  function Ceil(x: real): int
  {
    -((-x).Floor)
  }

  /**
   * Rule 4 for `dark` dark modules among `total`: the percentage of dark
   * modules, the multiples of 5 just below and just above it, and ten points
   * for every 5 % step the nearer of the two lies away from 50 %.
   */
  function Rule4(dark: nat, total: nat): nat
    requires total > 0
  {
    var darkPercentage := (dark * 100) as real / total as real;
    var previousMultiple := (darkPercentage / 5.0).Floor * 5;
    var nextMultiple := Ceil(darkPercentage / 5.0) * 5;
    10 * Min(Abs(previousMultiple - 50) / 5, Abs(nextMultiple - 50) / 5)
  }

  /** `q` is the quotient when it brackets `a` between two multiples of `t`. */
  lemma DivUnique(a: int, t: int, q: int)
    requires t > 0 && q * t <= a < q * t + t
    ensures a / t == q
  {
    Bits.DivModUnique(a, t, q, a - q * t);
  }

  /** Rounding the exact quotient down gives integer division. */
  lemma FloorQuotient(a: int, t: int)
    requires t > 0
    ensures (a as real / t as real).Floor == a / t
  {
    var q := a / t;
    var x := a as real / t as real;
    assert x * t as real == a as real;
    assert q * t <= a < q * t + t;
    assert (q * t) as real == q as real * t as real;
    assert q as real * t as real <= x * t as real;
    assert x * t as real < (q + 1) as real * t as real;
    assert q as real <= x < (q + 1) as real;
  }

  /** The multiple of 5 below a percentage, counted in 5 % steps from 50 %. */
  lemma StepsFromHalf(q: int)
    ensures Abs(q * 5 - 50) / 5 == Abs(q - 10)
  {
    assert q * 5 - 50 == 5 * (q - 10);
  }

  /** The percentage over 5 is `20 * dark / total`, so its floor and ceiling are integer quotients. */
  lemma Rule4Quotients(dark: nat, total: nat)
    requires total > 0
    ensures Rule4(dark, total)
         == 10 * Min(Abs((20 * dark) / total - 10), Abs(-((-20 * dark) / total) - 10))
  {
    var a := 20 * dark;
    var darkPercentage := (dark * 100) as real / total as real;
    var x := darkPercentage / 5.0;
    assert x == a as real / total as real;
    assert -x == (-a) as real / total as real;
    FloorQuotient(a, total);
    FloorQuotient(-a, total);
    StepsFromHalf(a / total);
    StepsFromHalf(-((-a) / total));
  }

  lemma MulMono(x: int, y: int, t: int)
    requires x <= y && t > 0
    ensures x * t <= y * t
  {
    assert y * t - x * t == (y - x) * t;
  }

  /** `a / t` rounded up, as `Math.ceil` in `getMaskPenalty` sees it. */
  lemma CeilBracket(a: int, t: int)
    requires t > 0
    ensures var c := -((-a) / t); c * t - t < a <= c * t
  {
    var p, s := (-a) / t, (-a) % t;
    assert -a == p * t + s && 0 <= s < t;
    assert (-p) * t == -(p * t);
  }

  lemma FloorBracket(a: int, t: int)
    requires t > 0
    ensures var q := a / t; q * t <= a < q * t + t
  {
    var q, r := a / t, a % t;
    assert a == q * t + r && 0 <= r < t;
  }

  /** At or above half: the floor is the nearer multiple. */
  lemma NearerAbove(a: int, t: int, q: int, c: int)
    requires t > 0 && q * t <= a < q * t + t && q <= c && a >= 10 * t
    ensures Min(Abs(q - 10), Abs(c - 10)) == Abs(a - 10 * t) / t
  {
    assert q >= 10 by {
      if q < 10 {
        assert (q + 1) * t == q * t + t;
        MulMono(q + 1, 10, t);
      }
    }
    DivUnique(a - 10 * t, t, q - 10);
  }

  /** Below half: the ceiling is the nearer multiple. */
  lemma NearerBelow(a: int, t: int, q: int, c: int)
    requires t > 0 && c * t - t < a <= c * t && q <= c && a < 10 * t
    ensures Min(Abs(q - 10), Abs(c - 10)) == Abs(a - 10 * t) / t
  {
    assert c <= 10 by {
      if c > 10 {
        assert c * t - t == (c - 1) * t;
        MulMono(10, c - 1, t);
      }
    }
    DivUnique(10 * t - a, t, 10 - c);
  }

  /** The nearer of floor and ceiling of `a / t` is `|a - 10 t| / t` steps away from 10. */
  lemma NearerStep(a: int, t: int)
    requires t > 0
    ensures Min(Abs(a / t - 10), Abs(-((-a) / t) - 10)) == Abs(a - 10 * t) / t
  {
    var q := a / t;
    var c := -((-a) / t);
    FloorBracket(a, t);
    CeilBracket(a, t);
    assert q <= c by {
      if q > c {
        assert (c + 1) * t == c * t + t;
        MulMono(c + 1, q, t);
      }
    }
    if a >= 10 * t {
      NearerAbove(a, t, q, c);
    } else {
      NearerBelow(a, t, q, c);
    }
  }

  /**
   * Rule 4 in integers: ten points for every whole `total / 20` by which
   * the dark count misses half the modules. The percentage, its floor and
   * its ceiling all drop out.
   */
  lemma Rule4Closed(dark: nat, total: nat)
    requires total > 0
    ensures Rule4(dark, total) == 10 * (Abs(20 * dark - 10 * total) / total)
  {
    Rule4Quotients(dark, total);
    NearerStep(20 * dark, total);
  }

  /** Rule 4 scores nothing exactly when the dark share is strictly between 45 % and 55 %. */
  lemma Rule4Zero(dark: nat, total: nat)
    requires total > 0
    ensures Rule4(dark, total) == 0 <==> 9 * total < 20 * dark < 11 * total
  {
    Rule4Closed(dark, total);
    var e := Abs(20 * dark - 10 * total);
    if e < total {
      DivUnique(e, total, 0);
    } else {
      DivUnique(total, total, 1);
      Bits.DivMono(total, e, total);
    }
  }

  /** Swapping dark and light leaves rule 4 unchanged. */
  lemma Rule4Complement(dark: nat, total: nat)
    requires total > 0 && dark <= total
    ensures Rule4(dark, total) == Rule4(total - dark, total)
  {
    Rule4Closed(dark, total);
    Rule4Closed(total - dark, total);
    assert Abs(20 * (total - dark) - 10 * total) == Abs(20 * dark - 10 * total);
  }

  /** Rule 4 never scores more than 100, the score of an all-light or all-dark grid. */
  lemma Rule4Bound(dark: nat, total: nat)
    requires total > 0 && dark <= total
    ensures Rule4(dark, total) <= 100
    ensures Rule4(0, total) == 100 && Rule4(total, total) == 100
  {
    Rule4Closed(dark, total);
    Rule4Closed(0, total);
    Rule4Closed(total, total);
    var e := Abs(20 * dark - 10 * total);
    assert e <= 10 * total;
    DivUnique(10 * total, total, 10);
    Bits.DivMono(e, 10 * total, total);
    DivUnique(10 * total, total, 10);
    DivUnique(0, total, 0);
  }

  // ---------------------------------------------------------------- the whole penalty

  /** `getMaskPenalty(data, size)` for a grid of at least one module. */
  function MaskPenalty(m: seq<seq<bool>>): nat
    requires Square(m) && |m| > 0
  {
    Rule1(m, |m|) + 3 * Blocks(m, |m| - 1) + Rule3(m, |m|) + Rule4(CountDark(Flat(m)), |m| * |m|)
  }

  // ---------------------------------------------------------------- the scan

  /** Rule 1: each row and each column scanned for runs. */
  method LinesPenalty(m: seq<seq<bool>>) returns (penalty: nat)
    ensures penalty == Rule1(m, |m|)
  {
    penalty := 0;
    var i := 0;
    while i < |m|
      invariant 0 <= i <= |m|
      invariant penalty == Rule1(m, i)
    {
      var rowPenalty := ScanLine(m[i]);
      var colPenalty := ScanLine(Column(m, i));
      penalty := penalty + rowPenalty + colPenalty;
      i := i + 1;
    }
  }

  /** Rule 2: three points for every monochrome 2 x 2 block. */
  method BlocksPenalty(m: seq<seq<bool>>) returns (penalty: nat)
    requires Square(m) && |m| > 0
    ensures penalty == 3 * Blocks(m, |m| - 1)
  {
    penalty := 0;
    var i := 0;
    while i < |m| - 1
      invariant 0 <= i <= |m| - 1
      invariant penalty == 3 * Blocks(m, i)
    {
      var j := 0;
      while j < |m| - 1
        invariant 0 <= j <= |m| - 1
        invariant penalty == 3 * Blocks(m, i) + 3 * BlocksInRow(m, i, j)
      {
        var color := m[i][j];
        if color == m[i + 1][j] && color == m[i][j + 1] && color == m[i + 1][j + 1] {
          penalty := penalty + 3;
        }
        j := j + 1;
      }
      i := i + 1;
    }
  }

  /**
   * Window `j` of row `i` and of column `i`, compared module by module
   * against both patterns, as the innermost loop of rule 3 does.
   */
  method MatchWindow(m: seq<seq<bool>>, i: nat, j: nat) returns (rowHit: bool, colHit: bool)
    requires Square(m) && i < |m| && j + 11 <= |m|
    ensures rowHit <==> Hit(m[i], j)
    ensures colHit <==> Hit(Column(m, i), j)
  {
    ghost var row, col := m[i], Column(m, i);
    var matchRow1, matchRow2, matchCol1, matchCol2 := true, true, true, true;
    var k := 0;
    while k < 11
      invariant 0 <= k <= 11
      invariant matchRow1 == Agree(row, j, Finder1, k) && matchRow2 == Agree(row, j, Finder2, k)
      invariant matchCol1 == Agree(col, j, Finder1, k) && matchCol2 == Agree(col, j, Finder2, k)
    {
      assert col[j + k] == m[j + k][i];
      if m[i][j + k] != Finder1[k] { matchRow1 := false; }
      if m[i][j + k] != Finder2[k] { matchRow2 := false; }
      if m[j + k][i] != Finder1[k] { matchCol1 := false; }
      if m[j + k][i] != Finder2[k] { matchCol2 := false; }
      k := k + 1;
    }
    rowHit := matchRow1 || matchRow2;
    colHit := matchCol1 || matchCol2;
  }

  /** Rule 3: forty points for every window in a row or column that hits. */
  method WindowsPenalty(m: seq<seq<bool>>) returns (penalty: nat)
    requires Square(m)
    ensures penalty == Rule3(m, |m|)
  {
    penalty := 0;
    var i := 0;
    while i < |m|
      invariant 0 <= i <= |m|
      invariant penalty == Rule3(m, i)
    {
      var j := 0;
      while j + 11 <= |m|
        invariant 0 <= j <= Windows(|m|)
        invariant penalty == Rule3(m, i) + WindowsInLine(m, i, j)
      {
        var rowHit, colHit := MatchWindow(m, i, j);
        if rowHit { penalty := penalty + 40; }
        if colHit { penalty := penalty + 40; }
        j := j + 1;
      }
      i := i + 1;
    }
  }

  /** Rule 4's count: the dark modules of the flat array. */
  method DarkModules(data: seq<bool>) returns (dark: nat)
    ensures dark == CountDark(data)
  {
    dark := 0;
    var n := 0;
    while n < |data|
      invariant 0 <= n <= |data|
      invariant dark == CountDark(data[..n])
    {
      assert data[..n + 1][..n] == data[..n];
      if data[n] { dark := dark + 1; }
      n := n + 1;
    }
    assert data[..|data|] == data;
  }

  /** Rule 4 as `getMaskPenalty` computes it, from the dark count of the flat array. */
  method BalancePenalty(m: seq<seq<bool>>) returns (penalty: nat)
    requires Square(m) && |m| > 0
    ensures penalty == Rule4(CountDark(Flat(m)), |m| * |m|)
  {
    var data := Flat(m);
    var darkModules := DarkModules(data);
    var totalModules := |data|;
    FlatLength(m, |m|);
    var darkPercentage := (darkModules * 100) as real / totalModules as real;
    var previousMultiple := (darkPercentage / 5.0).Floor * 5;
    var nextMultiple := Ceil(darkPercentage / 5.0) * 5;
    penalty := 10 * Min(Abs(previousMultiple - 50) / 5, Abs(nextMultiple - 50) / 5);
  }

  /** `getMaskPenalty`: the four rules added up. */
  method GetMaskPenalty(m: seq<seq<bool>>) returns (penalty: nat)
    requires Square(m) && |m| > 0
    ensures penalty == MaskPenalty(m)
  {
    var rule1 := LinesPenalty(m);
    var rule2 := BlocksPenalty(m);
    var rule3 := WindowsPenalty(m);
    var rule4 := BalancePenalty(m);
    penalty := rule1 + rule2 + rule3 + rule4;
  }
}
