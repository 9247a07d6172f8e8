/**
 * The second half of `#generateCodeword` (packages/core/src/qr.ts) as
 * written: the block loop that slices the data codewords, encodes each block
 * and stores its EC codewords at `b * ecCount`, and the two interleaving
 * loops that write `this.#codewords` one index at a time. Each loop is shown
 * to compute the codeword sequence of `Blocks`, and no write falls outside
 * the arrays.
 */
module BlockAssembly {
  import opened Bits
  import opened Field
  import opened Polynomial
  import opened ReedSolomon
  import opened Interleaving
  import opened Blocks

  /** `ecData.set(errorCodeword, b * ecCount)`: the block's EC codewords copied in place. */
  function SetAt(ecData: seq<bv8>, code: seq<bv8>, at: nat): (r: seq<bv8>)
    requires at + |code| <= |ecData|
    ensures |r| == |ecData|
  {
    ecData[..at] + code + ecData[at + |code|..]
  }

  /** The EC codewords of the first `b` blocks, joined, are a prefix of `ecData`. */
  predicate EcPrefix(ecData: seq<bv8>, ecBlocks: seq<seq<bv8>>, b: nat)
    requires b <= |ecBlocks|
  {
    var f := Flatten(ecBlocks[..b]);
    |f| <= |ecData| && ecData[..|f|] == f
  }

  /** Block `a` of `n` codewords ends no later than the last of `c` blocks. */
  lemma BlockEnd(a: nat, c: nat, n: nat)
    requires a < c
    ensures a * n + n <= c * n
  {
    assert (a + 1) * n == a * n + n;
    assert (a + 1) * n <= c * n;
  }

  /** `b * ecCount`, the offset of block `b`'s EC codewords in `ecData`. */
  function BlockOffset(a: nat, b: nat): nat
  {
    a * b
  }

  /** Block `b`'s slice of the data codewords, as the loop takes it, is data block `b`. */
  lemma BlockSlice(dc: seq<bv8>, l: Layout, b: nat)
    requires l.Valid() && |dc| == l.DataTotal() && b < l.blocks
    ensures l.BlockStart(b) + l.DataSize(b) <= |dc|
    ensures dc[l.BlockStart(b)..l.BlockStart(b) + l.DataSize(b)] == DataBlocks(dc, l)[b]
  {
    BlockStartStep(l, b);
    BlockStartBound(l, b + 1, l.blocks);
  }

  /** Storing block `b`'s EC codewords at `b * ecCount` extends the joined prefix by that block. */
  lemma EcPrefixStep(ecData: seq<bv8>, ecBlocks: seq<seq<bv8>>, n: nat, b: nat)
    requires Staircase(ecBlocks, n, |ecBlocks|) && b < |ecBlocks|
    requires |ecData| == n * |ecBlocks| && EcPrefix(ecData, ecBlocks, b)
    ensures BlockOffset(b, n) + n <= |ecData|
    ensures EcPrefix(SetAt(ecData, ecBlocks[b], BlockOffset(b, n)), ecBlocks, b + 1)
  {
    assert |Flatten(ecBlocks[..b])| == b * n by {
      FlattenUniformLength(ecBlocks, n, b);
    }
    BlockEnd(b, |ecBlocks|, n);
    var r := SetAt(ecData, ecBlocks[b], b * n);
    FlattenSnoc(ecBlocks, b);
    assert r[..b * n + n] == ecData[..b * n] + ecBlocks[b];
  }

  /** The EC codewords of data block `b`, stored at `b * ecCount`, extend the prefix of `ecData`. */
  lemma EcStored(dc: seq<bv8>, l: Layout, b: nat, ecData: seq<bv8>, bytes: seq<bv8>)
    requires l.Valid() && |dc| == l.DataTotal() && b < l.blocks
    requires bytes == EcBlock(DataBlocks(dc, l)[b], l.ecCount)
    requires |ecData| == l.EcTotal() && EcPrefix(ecData, EcBlocks(dc, l), b)
    ensures BlockOffset(b, l.ecCount) + |bytes| <= |ecData|
    ensures EcPrefix(SetAt(ecData, bytes, BlockOffset(b, l.ecCount)), EcBlocks(dc, l), b + 1)
  {
    var ecBlocks := EcBlocks(dc, l);
    assert bytes == ecBlocks[b];
    EcPrefixStep(ecData, ecBlocks, l.ecCount, b);
  }

  /**
   * One pass of the block loop: slice block `b` out of the data codewords,
   * `rsEncode` it and store the result at `b * ecCount`.
   */
  method EncodeBlock(dcData: seq<bv8>, l: Layout, b: nat, offset: nat, ecData: seq<bv8>)
    returns (r: seq<bv8>, dataSize: nat)
    requires l.Valid() && |dcData| == l.DataTotal() && b < l.blocks
    requires offset == l.BlockStart(b)
    requires |ecData| == l.EcTotal() && EcPrefix(ecData, EcBlocks(dcData, l), b)
    ensures dataSize == l.DataSize(b)
    ensures |r| == l.EcTotal() && EcPrefix(r, EcBlocks(dcData, l), b + 1)
  {
    var ecCount := l.ecCount;
    dataSize := if b < l.Group1() then l.short else l.short + 1;
    BlockSlice(dcData, l, b);
    var blockData := dcData[offset..offset + dataSize];
    var errorCodeword := RsEncodeMethod(ToPoly(blockData), ecCount);
    var bytes := FromPoly(errorCodeword);
    EcStored(dcData, l, b, ecData, bytes);
    r := SetAt(ecData, bytes, BlockOffset(b, ecCount));
  }

  /** Once every block is stored, `ecData` is exactly the EC blocks joined. */
  lemma EcPrefixFull(dc: seq<bv8>, l: Layout, ecData: seq<bv8>)
    requires l.Valid() && |dc| == l.DataTotal()
    requires |ecData| == l.EcTotal() && EcPrefix(ecData, EcBlocks(dc, l), l.blocks)
    ensures ecData == Flatten(EcBlocks(dc, l))
  {
    var ecBlocks := EcBlocks(dc, l);
    assert ecBlocks[..l.blocks] == ecBlocks;
    FlattenUniformLength(ecBlocks, l.ecCount, l.blocks);
  }

  /** `blockIndexes` after `b` passes of the block loop: the start of every block up to `b`. */
  predicate StartsUpTo(s: seq<nat>, l: Layout, b: nat)
    requires l.Valid()
  {
    |s| == b + 1 && forall k | 0 <= k <= b :: s[k] == l.BlockStart(k)
  }

  lemma StartsSnoc(s: seq<nat>, l: Layout, b: nat)
    requires l.Valid() && StartsUpTo(s, l, b)
    ensures StartsUpTo(s + [l.BlockStart(b + 1)], l, b + 1)
  {
  }

  /** `Math.max`. */
  function Max(a: nat, b: nat): (r: nat)
    ensures r >= a && r >= b && (r == a || r == b)
  {
    if a > b then a else b
  }

  /** `maxDataSize` after `b` passes of the block loop. */
  function MaxSoFar(l: Layout, b: nat): nat
    requires l.Valid()
  {
    if b == 0 then 0 else if b > l.Group1() then l.short + 1 else l.short
  }

  /** The state of the block loop after `b` passes. */
  predicate LoopState(dcData: seq<bv8>, l: Layout, b: nat, offset: nat, blockIndexes: seq<nat>, ecData: seq<bv8>, maxDataSize: nat)
    requires l.Valid() && |dcData| == l.DataTotal() && b <= l.blocks
  {
    && offset == l.BlockStart(b)
    && StartsUpTo(blockIndexes, l, b)
    && |ecData| == l.EcTotal()
    && EcPrefix(ecData, EcBlocks(dcData, l), b)
    && maxDataSize == MaxSoFar(l, b)
  }

  /** One pass of the block loop, with the bookkeeping of `offset`, `blockIndexes` and `maxDataSize`. */
  method BlockStep(dcData: seq<bv8>, l: Layout, b: nat, offset: nat, blockIndexes: seq<nat>, ecData: seq<bv8>, maxDataSize: nat)
    returns (offset': nat, blockIndexes': seq<nat>, ecData': seq<bv8>, maxDataSize': nat)
    requires l.Valid() && |dcData| == l.DataTotal() && b < l.blocks
    requires LoopState(dcData, l, b, offset, blockIndexes, ecData, maxDataSize)
    ensures LoopState(dcData, l, b + 1, offset', blockIndexes', ecData', maxDataSize')
  {
    var dataSize;
    ecData', dataSize := EncodeBlock(dcData, l, b, offset, ecData);
    BlockStartStep(l, b);
    StartsSnoc(blockIndexes, l, b);
    blockIndexes' := blockIndexes + [offset + dataSize];
    offset' := offset + dataSize;
    maxDataSize' := Max(maxDataSize, dataSize);
  }

  /**
   * The block loop: `blockIndexes` holds every block's start, `ecData` the
   * EC blocks one after the other, and `maxDataSize` the longest block.
   */
  method EncodeBlocks(dcData: seq<bv8>, l: Layout) returns (blockIndexes: seq<nat>, ecData: seq<bv8>, maxDataSize: nat)
    requires l.Valid() && |dcData| == l.DataTotal()
    ensures |blockIndexes| == l.blocks + 1
    ensures forall k | 0 <= k <= l.blocks :: blockIndexes[k] == l.BlockStart(k)
    ensures ecData == Flatten(EcBlocks(dcData, l))
    ensures maxDataSize == l.MaxDataSize()
  {
    var offset := 0;
    maxDataSize := 0;
    blockIndexes := [offset];
    ecData := seq(l.EcTotal(), k => 0);
    for b := 0 to l.blocks
      invariant LoopState(dcData, l, b, offset, blockIndexes, ecData, maxDataSize)
    {
      offset, blockIndexes, ecData, maxDataSize := BlockStep(dcData, l, b, offset, blockIndexes, ecData, maxDataSize);
    }
    EcPrefixFull(dcData, l, ecData);
  }

  /** The codewords written so far, `p`, start `cw`. */
  predicate Written(p: seq<bv8>, cw: seq<bv8>)
  {
    |p| <= |cw| && cw[..|p|] == p
  }

  /** Writing the next codeword at the write index extends the written prefix by it. */
  lemma WriteNext(cw: seq<bv8>, p: seq<bv8>, v: bv8)
    requires |p| < |cw| && Written(p, cw)
    ensures |cw[|p| := v]| == |cw| && Written(p + [v], cw[|p| := v])
  {
  }

  /** Rows before `i`, and part of row `i`, stay within the interleaving of `rows > i` rows. */
  lemma ColumnBound<T>(blocks: seq<seq<T>>, i: nat, j: nat, rows: nat)
    requires i < rows && j <= |blocks|
    ensures |Interleave(blocks, i)| + |Column(blocks, i, j)| <= |Interleave(blocks, rows)|
  {
    ColumnLength(blocks, i, j, |blocks|);
    InterleavePrefix(blocks, i + 1, rows);
  }

  /**
   * `index = blockIndexes[j] + i` lies before `blockIndexes[j + 1]` exactly
   * when block `j` has an `i`-th codeword, and then it addresses that codeword.
   */
  lemma DataSlot(dc: seq<bv8>, l: Layout, i: nat, j: nat)
    requires l.Valid() && |dc| == l.DataTotal() && j < l.blocks
    ensures l.BlockStart(j) + i < l.BlockStart(j + 1) <==> i < |DataBlocks(dc, l)[j]|
    ensures i < |DataBlocks(dc, l)[j]| ==>
              l.BlockStart(j) + i < |dc| && dc[l.BlockStart(j) + i] == DataBlocks(dc, l)[j][i]
  {
    BlockSlice(dc, l, j);
    BlockStartStep(l, j);
  }

  /** Row `i` of the data interleaving fits before the EC codewords. */
  lemma DataBound(dc: seq<bv8>, l: Layout, i: nat, j: nat)
    requires l.Valid() && |dc| == l.DataTotal() && i < l.MaxDataSize() && j <= l.blocks
    ensures |Interleave(DataBlocks(dc, l), i)| + |Column(DataBlocks(dc, l), i, j)| <= l.DataTotal()
  {
    var blocks := DataBlocks(dc, l);
    ColumnBound(blocks, i, j, l.MaxDataSize());
    InterleaveStairLength(blocks, l.short, l.Group1());
  }

  /**
   * One pass of the inner data loop: if block `j` still has an `i`-th
   * codeword, it is written at `codewordIndex++`.
   */
  method DataCell(dcData: seq<bv8>, l: Layout, blockIndexes: seq<nat>, i: nat, j: nat, cw: seq<bv8>, idx: nat)
    returns (cw': seq<bv8>, idx': nat)
    requires l.Valid() && |dcData| == l.DataTotal() && StartsUpTo(blockIndexes, l, l.blocks)
    requires i < l.MaxDataSize() && j < l.blocks && |cw| == l.Total()
    requires var p := Interleave(DataBlocks(dcData, l), i) + Column(DataBlocks(dcData, l), i, j);
             idx == |p| && Written(p, cw)
    ensures |cw'| == l.Total()
    ensures var p := Interleave(DataBlocks(dcData, l), i) + Column(DataBlocks(dcData, l), i, j + 1);
            idx' == |p| && Written(p, cw')
  {
    ghost var blocks := DataBlocks(dcData, l);
    ghost var p := Interleave(blocks, i) + Column(blocks, i, j);
    var index := blockIndexes[j] + i;
    DataSlot(dcData, l, i, j);
    if index < blockIndexes[j + 1] {
      assert Interleave(blocks, i) + Column(blocks, i, j + 1) == p + [dcData[index]];
      DataBound(dcData, l, i, j + 1);
      WriteNext(cw, p, dcData[index]);
      cw' := cw[idx := dcData[index]];
      idx' := idx + 1;
    } else {
      assert Column(blocks, i, j + 1) == Column(blocks, i, j);
      cw', idx' := cw, idx;
    }
  }

  /** One pass of the outer data loop: row `i` of the data blocks is written. */
  method DataRow(dcData: seq<bv8>, l: Layout, blockIndexes: seq<nat>, i: nat, cw: seq<bv8>, idx: nat)
    returns (cw': seq<bv8>, idx': nat)
    requires l.Valid() && |dcData| == l.DataTotal() && StartsUpTo(blockIndexes, l, l.blocks)
    requires i < l.MaxDataSize() && |cw| == l.Total()
    requires idx == |Interleave(DataBlocks(dcData, l), i)| && Written(Interleave(DataBlocks(dcData, l), i), cw)
    ensures |cw'| == l.Total()
    ensures idx' == |Interleave(DataBlocks(dcData, l), i + 1)| && Written(Interleave(DataBlocks(dcData, l), i + 1), cw')
  {
    ghost var blocks := DataBlocks(dcData, l);
    RowEnds(blocks, i);
    cw', idx' := cw, idx;
    for j := 0 to l.blocks
      invariant |cw'| == l.Total()
      invariant var p := Interleave(blocks, i) + Column(blocks, i, j);
                idx' == |p| && Written(p, cw')
    {
      cw', idx' := DataCell(dcData, l, blockIndexes, i, j, cw', idx');
    }
  }

  /** The data interleaving loop: the first `dataTotal` codewords are the data blocks, interleaved. */
  method InterleaveData(dcData: seq<bv8>, l: Layout, blockIndexes: seq<nat>, maxDataSize: nat, cw: seq<bv8>)
    returns (cw': seq<bv8>, idx: nat)
    requires l.Valid() && |dcData| == l.DataTotal() && StartsUpTo(blockIndexes, l, l.blocks)
    requires maxDataSize == l.MaxDataSize() && |cw| == l.Total()
    ensures |cw'| == l.Total() && idx == l.DataTotal()
    ensures Written(DataPart(dcData, l), cw')
  {
    cw', idx := cw, 0;
    for i := 0 to maxDataSize
      invariant |cw'| == l.Total()
      invariant idx == |Interleave(DataBlocks(dcData, l), i)| && Written(Interleave(DataBlocks(dcData, l), i), cw')
    {
      cw', idx := DataRow(dcData, l, blockIndexes, i, cw', idx);
    }
    InterleaveStairLength(DataBlocks(dcData, l), l.short, l.Group1());
  }

  /** The interleaved data codewords: what precedes the EC codewords. */
  function DataPart(dc: seq<bv8>, l: Layout): (r: seq<bv8>)
    requires l.Valid() && |dc| == l.DataTotal()
    ensures |r| == l.DataTotal()
  {
    InterleaveStairLength(DataBlocks(dc, l), l.short, l.Group1());
    Interleave(DataBlocks(dc, l), l.MaxDataSize())
  }

  /** What the EC loop has written, after the data `d`, once it reaches row `i`, block `j`. */
  function Rows(d: seq<bv8>, e: seq<seq<bv8>>, i: nat, j: nat): seq<bv8>
    requires j <= |e|
  {
    d + Interleave(e, i) + Column(e, i, j)
  }

  /** The end of one row is the start of the next. */
  lemma RowsEnd(d: seq<bv8>, e: seq<seq<bv8>>, i: nat, cw: seq<bv8>)
    requires Written(Rows(d, e, i, |e|), cw)
    ensures Rows(d, e, i, |e|) == Rows(d, e, i + 1, 0)
    ensures Written(Rows(d, e, i + 1, 0), cw)
  {
    var a, c := Interleave(e, i), Column(e, i, |e|);
    assert Interleave(e, i + 1) == a + c;
    assert Column(e, i + 1, 0) == [];
    assert d + (a + c) + [] == d + a + c;
  }

  /**
   * `index = j * ecCount + i` addresses codeword `i` of EC block `j` in
   * `ecData`, and writing it extends the interleaving by that codeword
   * without passing the end of the codeword array.
   */
  lemma EcSlot(d: seq<bv8>, e: seq<seq<bv8>>, n: nat, i: nat, j: nat)
    requires Staircase(e, n, |e|) && i < n && j < |e|
    ensures BlockOffset(j, n) + i < |Flatten(e)| && Flatten(e)[BlockOffset(j, n) + i] == e[j][i]
    ensures Rows(d, e, i, j + 1) == Rows(d, e, i, j) + [e[j][i]]
    ensures |Rows(d, e, i, j + 1)| <= |d| + |Flatten(e)|
  {
    FlattenUniformAt(e, n, j, i);
    ColumnBound(e, i, j + 1, n);
    RowsLength(e, n, |e|, n);
    FlattenUniformLength(e, n, |e|);
    assert e[..|e|] == e;
  }

  /** One pass of the inner EC loop: codeword `i` of EC block `j` is written at `codewordIndex++`. */
  method EcCell(ecData: seq<bv8>, ghost d: seq<bv8>, ghost e: seq<seq<bv8>>, ecCount: nat, i: nat, j: nat, cw: seq<bv8>, idx: nat)
    returns (cw': seq<bv8>, idx': nat)
    requires Staircase(e, ecCount, |e|) && ecData == Flatten(e) && |cw| == |d| + |ecData|
    requires i < ecCount && j < |e|
    requires idx == |Rows(d, e, i, j)| && Written(Rows(d, e, i, j), cw)
    ensures |cw'| == |cw| && idx' == |Rows(d, e, i, j + 1)| && Written(Rows(d, e, i, j + 1), cw')
  {
    EcSlot(d, e, ecCount, i, j);
    var index := BlockOffset(j, ecCount) + i;
    WriteNext(cw, Rows(d, e, i, j), ecData[index]);
    cw' := cw[idx := ecData[index]];
    idx' := idx + 1;
  }

  /** One pass of the outer EC loop: row `i` of the EC blocks is written. */
  method EcRow(ecData: seq<bv8>, ghost d: seq<bv8>, ghost e: seq<seq<bv8>>, ecCount: nat, blocks: nat, i: nat, cw: seq<bv8>, idx: nat)
    returns (cw': seq<bv8>, idx': nat)
    requires Staircase(e, ecCount, |e|) && |e| == blocks && ecData == Flatten(e) && |cw| == |d| + |ecData|
    requires i < ecCount
    requires idx == |Rows(d, e, i, 0)| && Written(Rows(d, e, i, 0), cw)
    ensures |cw'| == |cw| && idx' == |Rows(d, e, i + 1, 0)| && Written(Rows(d, e, i + 1, 0), cw')
  {
    cw', idx' := cw, idx;
    for j := 0 to blocks
      invariant |cw'| == |cw| && idx' == |Rows(d, e, i, j)| && Written(Rows(d, e, i, j), cw')
    {
      cw', idx' := EcCell(ecData, d, e, ecCount, i, j, cw', idx');
    }
    RowsEnd(d, e, i, cw');
  }

  /** The EC interleaving loop: after the data `d`, the EC blocks interleaved, up to the end of the array. */
  method InterleaveEc(ecData: seq<bv8>, ghost d: seq<bv8>, ghost e: seq<seq<bv8>>, ecCount: nat, blocks: nat, cw: seq<bv8>, idx: nat)
    returns (cw': seq<bv8>, idx': nat)
    requires Staircase(e, ecCount, |e|) && |e| == blocks && ecData == Flatten(e) && |cw| == |d| + |ecData|
    requires idx == |d| && Written(d, cw)
    ensures |cw'| == |cw| && idx' == |cw| && Written(d + Interleave(e, ecCount), cw')
  {
    assert Rows(d, e, 0, 0) == d;
    cw', idx' := cw, idx;
    for i := 0 to ecCount
      invariant |cw'| == |cw| && idx' == |Rows(d, e, i, 0)| && Written(Rows(d, e, i, 0), cw')
    {
      cw', idx' := EcRow(ecData, d, e, ecCount, blocks, i, cw', idx');
    }
    assert Rows(d, e, ecCount, 0) == d + Interleave(e, ecCount);
    RowsLength(e, ecCount, blocks, ecCount);
    FlattenUniformLength(e, ecCount, blocks);
    assert e[..blocks] == e;
  }

  /**
   * `#generateCodeword` from the data codewords on: the block loop and both
   * interleaving loops fill the codeword array with exactly the codeword
   * sequence of the block structure.
   */
  method GenerateCodewords(dcData: seq<bv8>, l: Layout) returns (codewords: seq<bv8>)
    requires l.Valid() && |dcData| == l.DataTotal()
    ensures codewords == CodewordSequence(dcData, l)
  {
    var blockIndexes, ecData, maxDataSize := EncodeBlocks(dcData, l);
    codewords := seq(l.Total(), k => 0);
    var codewordIndex;
    codewords, codewordIndex := InterleaveData(dcData, l, blockIndexes, maxDataSize, codewords);
    FlattenUniformLength(EcBlocks(dcData, l), l.ecCount, l.blocks);
    assert EcBlocks(dcData, l)[..l.blocks] == EcBlocks(dcData, l);
    codewords, codewordIndex := InterleaveEc(ecData, DataPart(dcData, l), EcBlocks(dcData, l), l.ecCount, l.blocks, codewords, codewordIndex);
  }
}
