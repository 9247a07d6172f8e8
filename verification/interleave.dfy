/**
 * The interleaving of `#generateCodeword` (packages/core/src/qr.ts): the
 * blocks are read row by row, row `i` taking the `i`-th codeword of every
 * block long enough to have one, in block order. For the block shapes a
 * symbol uses (`g1` blocks of `short` codewords followed by blocks of
 * `short + 1`), the position of every codeword is given in closed form and
 * the reading is undone by `Deinterleave`.
 */
module Interleaving {
  import opened Bits

  /** The blocks one after the other. */
  function Flatten<T>(blocks: seq<seq<T>>): seq<T>
  {
    if |blocks| == 0 then [] else Flatten(blocks[..|blocks| - 1]) + blocks[|blocks| - 1]
  }

  /** Joining one more block appends it. */
  lemma FlattenSnoc<T>(blocks: seq<seq<T>>, k: nat)
    requires k < |blocks|
    ensures Flatten(blocks[..k + 1]) == Flatten(blocks[..k]) + blocks[k]
  {
    assert blocks[..k + 1][..k] == blocks[..k];
  }

  /** Joining more blocks only appends. */
  lemma {:induction false} FlattenPrefix<T>(blocks: seq<seq<T>>, k: nat, m: nat)
    requires k <= m <= |blocks|
    ensures |Flatten(blocks[..k])| <= |Flatten(blocks[..m])|
    ensures Flatten(blocks[..m])[..|Flatten(blocks[..k])|] == Flatten(blocks[..k])
    decreases m
  {
    if k < m {
      FlattenPrefix(blocks, k, m - 1);
      FlattenSnoc(blocks, m - 1);
      var front := Flatten(blocks[..m - 1]);
      assert (front + blocks[m - 1])[..|front|] == front;
    }
  }

  /** `k` blocks of `n` codewords each join to `k * n` codewords. */
  lemma {:induction false} FlattenUniformLength<T>(blocks: seq<seq<T>>, n: nat, k: nat)
    requires Staircase(blocks, n, |blocks|) && k <= |blocks|
    ensures |Flatten(blocks[..k])| == k * n
  {
    if k > 0 {
      FlattenUniformLength(blocks, n, k - 1);
      FlattenSnoc(blocks, k - 1);
      assert (k - 1) * n + n == k * n;
    }
  }

  /** In blocks of `n` codewords each, codeword `i` of block `j` is joined at `j * n + i`. */
  lemma FlattenUniformAt<T>(blocks: seq<seq<T>>, n: nat, j: nat, i: nat)
    requires Staircase(blocks, n, |blocks|) && j < |blocks| && i < n
    ensures j * n + i < |Flatten(blocks)|
    ensures Flatten(blocks)[j * n + i] == blocks[j][i]
  {
    var front := Flatten(blocks[..j]);
    assert |front| == j * n by {
      FlattenUniformLength(blocks, n, j);
    }
    FlattenSnoc(blocks, j);
    FlattenPrefix(blocks, j + 1, |blocks|);
    assert blocks[..|blocks|] == blocks;
    assert (front + blocks[j])[j * n + i] == blocks[j][i];
  }

  /** Row `i` of the first `j` blocks: their `i`-th codewords, skipping blocks that are too short. */
  function Column<T>(blocks: seq<seq<T>>, i: nat, j: nat): seq<T>
    requires j <= |blocks|
  {
    if j == 0 then []
    else Column(blocks, i, j - 1) + (if i < |blocks[j - 1]| then [blocks[j - 1][i]] else [])
  }

  /** The first `rows` rows, one after the other. */
  function Interleave<T>(blocks: seq<seq<T>>, rows: nat): seq<T>
  {
    if rows == 0 then [] else Interleave(blocks, rows - 1) + Column(blocks, rows - 1, |blocks|)
  }

  /** Row `i` starts empty and, once complete, extends the interleaving by one row. */
  lemma RowEnds<T>(blocks: seq<seq<T>>, i: nat)
    ensures Interleave(blocks, i) + Column(blocks, i, 0) == Interleave(blocks, i)
    ensures Interleave(blocks, i) + Column(blocks, i, |blocks|) == Interleave(blocks, i + 1)
  {
    assert Interleave(blocks, i) + [] == Interleave(blocks, i);
  }

  /** Blocks `0 .. g1 - 1` hold `short` codewords and the others `short + 1`. */
  predicate Staircase<T>(blocks: seq<seq<T>>, short: nat, g1: nat)
  {
    && g1 <= |blocks|
    && forall j | 0 <= j < |blocks| :: |blocks[j]| == if j < g1 then short else short + 1
  }

  /** The length of the longest block: the number of rows the reader visits. */
  function MaxRows(short: nat, g1: nat, b: nat): nat
  {
    if g1 < b then short + 1 else short
  }

  /** The number of codewords in `b` blocks of the staircase shape. */
  function StairSize(short: nat, g1: nat, b: nat): nat
    requires g1 <= b
  {
    short * b + (b - g1)
  }

  /** Whether block `j` of the staircase shape has a codeword `i`. */
  predicate InStair(short: nat, g1: nat, b: nat, i: nat, j: nat)
  {
    j < b && (i < short || (i == short && g1 <= j))
  }

  /** Where codeword `i` of block `j` lands: full rows first, then the last, partial row. */
  function Position(short: nat, g1: nat, b: nat, i: nat, j: nat): (p: nat)
    requires InStair(short, g1, b, i, j)
    ensures g1 <= b ==> p < StairSize(short, g1, b)
  {
    if i < short then
      RowIndexBound(i, short, b, j);
      i * b + j
    else
      short * b + (j - g1)
  }

  lemma RowIndexBound(i: nat, r: nat, b: nat, j: nat)
    requires i < r && j < b
    ensures i * b + j < r * b
  {
    assert r * b - i * b == (r - i) * b;
    MulAtLeast(r - i, b);
  }

  /** A row taken where no block is long enough is empty. */
  lemma {:induction false} ColumnNone<T>(blocks: seq<seq<T>>, i: nat, j: nat)
    requires j <= |blocks|
    requires forall k | 0 <= k < j :: |blocks[k]| <= i
    ensures Column(blocks, i, j) == []
  {
    if j > 0 {
      ColumnNone(blocks, i, j - 1);
    }
  }

  /** A row taken where every block is long enough holds one codeword per block. */
  lemma {:induction false} ColumnFull<T>(blocks: seq<seq<T>>, i: nat, j: nat)
    requires j <= |blocks|
    requires forall k | 0 <= k < j :: i < |blocks[k]|
    ensures |Column(blocks, i, j)| == j
    ensures forall k | 0 <= k < j :: Column(blocks, i, j)[k] == blocks[k][i]
  {
    if j > 0 {
      ColumnFull(blocks, i, j - 1);
    }
  }

  /** The last row of a staircase holds the last codeword of each long block. */
  lemma {:induction false} ColumnLast<T>(blocks: seq<seq<T>>, short: nat, g1: nat, j: nat)
    requires Staircase(blocks, short, g1) && g1 <= j <= |blocks|
    ensures |Column(blocks, short, j)| == j - g1
    ensures forall k | g1 <= k < j :: Column(blocks, short, j)[k - g1] == blocks[k][short]
  {
    if j == g1 {
      ColumnNone(blocks, short, j);
    } else {
      ColumnLast(blocks, short, g1, j - 1);
    }
  }

  /** A row's length never exceeds the number of blocks it reads. */
  lemma {:induction false} ColumnLength<T>(blocks: seq<seq<T>>, i: nat, j: nat, m: nat)
    requires j <= m <= |blocks|
    ensures |Column(blocks, i, j)| <= |Column(blocks, i, m)|
    ensures |Column(blocks, i, m)| <= m
    decreases m
  {
    if m > 0 && j < m {
      ColumnLength(blocks, i, j, m - 1);
    } else if m > 0 {
      ColumnLength(blocks, i, m - 1, m - 1);
    }
  }

  /** Reading more rows only appends: a shorter reading is a prefix of a longer one. */
  lemma {:induction false} InterleavePrefix<T>(blocks: seq<seq<T>>, r: nat, rows: nat)
    requires r <= rows
    ensures |Interleave(blocks, r)| <= |Interleave(blocks, rows)|
    ensures Interleave(blocks, rows)[..|Interleave(blocks, r)|] == Interleave(blocks, r)
    decreases rows
  {
    if r < rows {
      InterleavePrefix(blocks, r, rows - 1);
      var front := Interleave(blocks, rows - 1);
      assert Interleave(blocks, rows) == front + Column(blocks, rows - 1, |blocks|);
      assert (front + Column(blocks, rows - 1, |blocks|))[..|front|] == front;
    }
  }

  /** A full row of a staircase holds one codeword per block. */
  lemma StairColumn<T>(blocks: seq<seq<T>>, short: nat, g1: nat, i: nat)
    requires Staircase(blocks, short, g1) && i < short
    ensures |Column(blocks, i, |blocks|)| == |blocks|
    ensures forall k | 0 <= k < |blocks| :: Column(blocks, i, |blocks|)[k] == blocks[k][i]
  {
    ColumnFull(blocks, i, |blocks|);
  }

  /** The full rows of a staircase hold one codeword per block each. */
  lemma {:induction false} RowsLength<T>(blocks: seq<seq<T>>, short: nat, g1: nat, r: nat)
    requires Staircase(blocks, short, g1) && r <= short
    ensures |Interleave(blocks, r)| == r * |blocks|
  {
    var b := |blocks|;
    if r > 0 {
      assert |Interleave(blocks, r - 1)| == (r - 1) * b by {
        RowsLength(blocks, short, g1, r - 1);
      }
      assert |Column(blocks, r - 1, b)| == b by {
        StairColumn(blocks, short, g1, r - 1);
      }
      assert (r - 1) * b + b == r * b;
    }
  }

  /** The reading of a staircase has as many codewords as the blocks. */
  lemma InterleaveStairLength<T>(blocks: seq<seq<T>>, short: nat, g1: nat)
    requires Staircase(blocks, short, g1)
    ensures |Interleave(blocks, MaxRows(short, g1, |blocks|))| == StairSize(short, g1, |blocks|)
  {
    var b := |blocks|;
    assert |Interleave(blocks, short)| == short * b by {
      RowsLength(blocks, short, g1, short);
    }
    if g1 < b {
      assert |Column(blocks, short, b)| == b - g1 by {
        ColumnLast(blocks, short, g1, b);
      }
    }
  }

  /** A sequence agrees with each of its prefixes. */
  lemma PrefixAt<T>(a: seq<T>, b: seq<T>, k: nat)
    requires |b| <= |a| && a[..|b|] == b && k < |b|
    ensures a[k] == b[k]
  {
    assert a[..|b|][k] == a[k];
  }

  /** Row `i` of the reading starts right after the rows before it. */
  lemma RowStart<T>(blocks: seq<seq<T>>, i: nat, rows: nat, j: nat)
    requires i < rows && j < |Column(blocks, i, |blocks|)|
    ensures |Interleave(blocks, i)| + j < |Interleave(blocks, rows)|
    ensures Interleave(blocks, rows)[|Interleave(blocks, i)| + j] == Column(blocks, i, |blocks|)[j]
  {
    RowNext(blocks, i, j);
    InterleavePrefix(blocks, i + 1, rows);
    PrefixAt(Interleave(blocks, rows), Interleave(blocks, i + 1), |Interleave(blocks, i)| + j);
  }

  /** Row `i` is appended after the rows before it. */
  lemma RowNext<T>(blocks: seq<seq<T>>, i: nat, j: nat)
    requires j < |Column(blocks, i, |blocks|)|
    ensures |Interleave(blocks, i)| + j < |Interleave(blocks, i + 1)|
    ensures Interleave(blocks, i + 1)[|Interleave(blocks, i)| + j] == Column(blocks, i, |blocks|)[j]
  {
  }

  /** Where one codeword of a staircase lands in the whole reading. */
  lemma InterleavePoint<T>(blocks: seq<seq<T>>, short: nat, g1: nat, i: nat, j: nat)
    requires Staircase(blocks, short, g1) && InStair(short, g1, |blocks|, i, j)
    ensures var b := |blocks|;
            && Position(short, g1, b, i, j) < |Interleave(blocks, MaxRows(short, g1, b))|
            && Interleave(blocks, MaxRows(short, g1, b))[Position(short, g1, b, i, j)] == blocks[j][i]
  {
    if i < short {
      FullRowPoint(blocks, short, g1, i, j);
    } else {
      LastRowPoint(blocks, short, g1, j);
    }
  }

  /** Codeword `i < short` of block `j` lands at `i * b + j`. */
  lemma FullRowPoint<T>(blocks: seq<seq<T>>, short: nat, g1: nat, i: nat, j: nat)
    requires Staircase(blocks, short, g1) && i < short && j < |blocks|
    ensures var rows := MaxRows(short, g1, |blocks|);
            && i * |blocks| + j < |Interleave(blocks, rows)|
            && Interleave(blocks, rows)[i * |blocks| + j] == blocks[j][i]
  {
    var col := Column(blocks, i, |blocks|);
    assert j < |col| && col[j] == blocks[j][i] by {
      StairColumn(blocks, short, g1, i);
    }
    assert |Interleave(blocks, i)| == i * |blocks| by {
      RowsLength(blocks, short, g1, i);
    }
    RowStart(blocks, i, MaxRows(short, g1, |blocks|), j);
  }

  /** The extra codeword of a long block `j` lands at `short * b + (j - g1)`. */
  lemma LastRowPoint<T>(blocks: seq<seq<T>>, short: nat, g1: nat, j: nat)
    requires Staircase(blocks, short, g1) && g1 <= j < |blocks|
    ensures var rows := MaxRows(short, g1, |blocks|);
            && short * |blocks| + (j - g1) < |Interleave(blocks, rows)|
            && Interleave(blocks, rows)[short * |blocks| + (j - g1)] == blocks[j][short]
  {
    var col := Column(blocks, short, |blocks|);
    assert j - g1 < |col| && col[j - g1] == blocks[j][short] by {
      ColumnLast(blocks, short, g1, |blocks|);
    }
    assert |Interleave(blocks, short)| == short * |blocks| by {
      RowsLength(blocks, short, g1, short);
    }
    RowStart(blocks, short, MaxRows(short, g1, |blocks|), j - g1);
  }

  /** The whole reading of a staircase: its length, and where each codeword lands. */
  lemma InterleaveAt<T>(blocks: seq<seq<T>>, short: nat, g1: nat)
    requires Staircase(blocks, short, g1)
    ensures var b := |blocks|;
            |Interleave(blocks, MaxRows(short, g1, b))| == StairSize(short, g1, b)
    ensures var b := |blocks|;
            forall i: nat, j: nat | InStair(short, g1, b, i, j) ::
              && Position(short, g1, b, i, j) < |Interleave(blocks, MaxRows(short, g1, b))|
              && Interleave(blocks, MaxRows(short, g1, b))[Position(short, g1, b, i, j)] == blocks[j][i]
  {
    var b := |blocks|;
    InterleaveStairLength(blocks, short, g1);
    forall i: nat, j: nat | InStair(short, g1, b, i, j)
      ensures && Position(short, g1, b, i, j) < |Interleave(blocks, MaxRows(short, g1, b))|
              && Interleave(blocks, MaxRows(short, g1, b))[Position(short, g1, b, i, j)] == blocks[j][i]
    {
      InterleavePoint(blocks, short, g1, i, j);
    }
  }

  /** The inverse reading: block `j`, codeword `i` is taken back from its position. */
  function Deinterleave<T>(code: seq<T>, short: nat, g1: nat, b: nat): (blocks: seq<seq<T>>)
    requires g1 <= b && |code| == StairSize(short, g1, b)
    ensures Staircase(blocks, short, g1) && |blocks| == b
  {
    seq(b, j requires 0 <= j < b =>
      seq(if j < g1 then short else short + 1, i requires 0 <= i < (if j < g1 then short else short + 1) =>
        code[Position(short, g1, b, i, j)]))
  }

  /** Deinterleaving recovers the blocks. */
  lemma DeinterleaveInterleave<T>(blocks: seq<seq<T>>, short: nat, g1: nat)
    requires Staircase(blocks, short, g1)
    ensures var b, code := |blocks|, Interleave(blocks, MaxRows(short, g1, |blocks|));
            |code| == StairSize(short, g1, b) && Deinterleave(code, short, g1, b) == blocks
  {
    var b := |blocks|;
    InterleaveAt(blocks, short, g1);
    var d := Deinterleave(Interleave(blocks, MaxRows(short, g1, b)), short, g1, b);
    forall j | 0 <= j < b
      ensures d[j] == blocks[j]
    {
      forall i | 0 <= i < |blocks[j]|
        ensures d[j][i] == blocks[j][i]
      {
        assert InStair(short, g1, b, i, j);
      }
    }
  }

  /** Every position is the position of some codeword of the staircase. */
  lemma PositionOnto(short: nat, g1: nat, b: nat, x: nat)
    requires g1 <= b && x < StairSize(short, g1, b)
    ensures exists i, j | InStair(short, g1, b, i, j) :: Position(short, g1, b, i, j) == x
  {
    if x < short * b {
      var i, j := x / b, x % b;
      DivBelow(x, b, short);
      assert Position(short, g1, b, i, j) == x;
    } else {
      var j := g1 + (x - short * b);
      assert InStair(short, g1, b, short, j);
      assert Position(short, g1, b, short, j) == x;
    }
  }

  /** Interleaving the deinterleaved blocks gives the codewords back: the reading is a bijection. */
  lemma InterleaveDeinterleave<T>(code: seq<T>, short: nat, g1: nat, b: nat)
    requires g1 <= b && |code| == StairSize(short, g1, b)
    ensures Interleave(Deinterleave(code, short, g1, b), MaxRows(short, g1, b)) == code
  {
    var d := Deinterleave(code, short, g1, b);
    var r := Interleave(d, MaxRows(short, g1, b));
    InterleaveAt(d, short, g1);
    forall x | 0 <= x < |code|
      ensures r[x] == code[x]
    {
      PositionOnto(short, g1, b, x);
      var i, j :| InStair(short, g1, b, i, j) && Position(short, g1, b, i, j) == x;
    }
  }
}
