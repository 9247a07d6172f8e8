/**
 * The block structure of `#generateCodeword` (packages/core/src/qr.ts):
 * the data codewords are cut into `ERROR_CORRECTION_BLOCK` blocks, the
 * first `group1Block` of them one codeword shorter than the rest; each
 * block gets `ecCount` Reed-Solomon codewords; and the symbol's codeword
 * sequence is the data blocks interleaved, followed by the EC blocks
 * interleaved.
 */
module Blocks {
  import opened Types
  import opened Constants
  import opened Bits
  import opened Field
  import opened Polynomial
  import opened ReedSolomon
  import opened Interleaving

  /**
   * A symbol's block structure: `blocks` blocks, the first `blocks - long`
   * holding `short` data codewords and the other `long` holding one more,
   * each followed by `ecCount` EC codewords.
   */
  datatype Layout = Layout(blocks: nat, short: nat, long: nat, ecCount: nat)
  {
    predicate Valid()
    {
      blocks >= 1 && long < blocks && short >= 1 && 1 <= ecCount <= 30
    }

    /** `group1Block`: the number of short blocks. */
    function Group1(): nat
      requires Valid()
    {
      blocks - long
    }

    function DataTotal(): nat
      requires Valid()
    {
      StairSize(short, Group1(), blocks)
    }

    function EcTotal(): nat
    {
      ecCount * blocks
    }

    function Total(): nat
      requires Valid()
    {
      DataTotal() + EcTotal()
    }

    /** `dataSize` of block `b`. */
    function DataSize(b: nat): nat
      requires Valid()
    {
      if b < Group1() then short else short + 1
    }

    /** `offset` before block `b`: the sizes of the blocks before it, summed. */
    function BlockStart(b: nat): nat
      requires Valid()
    {
      b * short + (if b > Group1() then b - Group1() else 0)
    }

    /** `maxDataSize` after the block loop. */
    function MaxDataSize(): nat
      requires Valid()
    {
      MaxRows(short, Group1(), blocks)
    }
  }

  /**
   * The block structure as `#generateCodeword` computes it from the table
   * entries: `group2Block = totalCodeword % ecTotalBlock`,
   * `group1DataTotalCodeword = floor(dataTotalCodeword / ecTotalBlock)` and
   * `ecCount = floor(totalCodeword / ecTotalBlock) - group1DataTotalCodeword`.
   */
  function SourceLayout(total: nat, ecTotal: nat, blocks: nat): Layout
    requires blocks > 0 && ecTotal <= total
  {
    var dataTotal := total - ecTotal;
    DivMono(dataTotal, total, blocks);
    Layout(blocks, dataTotal / blocks, total % blocks, total / blocks - dataTotal / blocks)
  }

  /**
   * For every table row the formulas of `#generateCodeword` give a consistent split: the
   * long blocks are counted from the total codewords, not the data
   * codewords, but because the EC codewords divide evenly among the blocks
   * the two agree; the blocks hold exactly the data codewords, and every
   * block gets the same share (between one and thirty) of the EC codewords.
   */
  lemma SourceLayoutSplits(total: nat, ecTotal: nat, blocks: nat)
    requires BlockShapeOk(total, ecTotal, blocks)
    ensures var l := SourceLayout(total, ecTotal, blocks);
            && l.Valid()
            && l.long == (total - ecTotal) % blocks
            && l.DataTotal() == total - ecTotal
            && l.EcTotal() == ecTotal
            && l.Total() == total
  {
    var b := blocks;
    var dataTotal := total - ecTotal;
    var e := ecTotal / b;
    var q, r := dataTotal / b, dataTotal % b;
    assert ecTotal == e * b;
    assert dataTotal == q * b + r;
    assert total == (q + e) * b + r;
    DivModUnique(total, b, q + e, r);
    assert q * b > 0;
    MulCancel(e, 30, b);
  }

  /** The layout of a version and level, from `CODEWORDS`, `ERROR_CORRECTION_CODEWORDS` and `ERROR_CORRECTION_BLOCK`. */
  function LayoutOf(version: nat, ec: EcLevel): (l: Layout)
    requires ValidVersion(version)
    ensures l.Valid()
    ensures l.Total() == TotalCodewords(version) && l.EcTotal() == EcCodewordCount(version, ec)
    ensures l.blocks == EcBlockCount(version, ec)
  {
    BlockShape(version, ec);
    SourceLayoutSplits(TotalCodewords(version), EcCodewordCount(version, ec), EcBlockCount(version, ec));
    SourceLayout(TotalCodewords(version), EcCodewordCount(version, ec), EcBlockCount(version, ec))
  }

  /** Each block starts where the previous one ends. */
  lemma BlockStartStep(l: Layout, b: nat)
    requires l.Valid()
    ensures l.BlockStart(b + 1) == l.BlockStart(b) + l.DataSize(b)
  {
    assert (b + 1) * l.short == b * l.short + l.short;
  }

  /** Block starts increase with the block index, and the last block ends at the end of the data. */
  lemma {:induction false} BlockStartBound(l: Layout, a: nat, b: nat)
    requires l.Valid() && a <= b <= l.blocks
    ensures l.BlockStart(a) <= l.BlockStart(b) <= l.DataTotal()
    decreases l.blocks - a
  {
    if a < l.blocks {
      BlockStartStep(l, a);
      if a < b {
        BlockStartBound(l, a + 1, b);
      } else {
        BlockStartBound(l, a + 1, l.blocks);
      }
    } else {
      assert l.BlockStart(l.blocks) == l.blocks * l.short + l.long;
    }
  }

  /** `dcData.slice(offset, offset + dataSize)` for block `b`. */
  function DataBlock(dc: seq<bv8>, l: Layout, b: nat): (r: seq<bv8>)
    requires l.Valid() && |dc| == l.DataTotal() && b < l.blocks
    ensures |r| == l.DataSize(b)
  {
    BlockStartBound(l, b, b + 1);
    BlockStartBound(l, b + 1, l.blocks);
    BlockStartStep(l, b);
    dc[l.BlockStart(b) .. l.BlockStart(b + 1)]
  }

  /** The data blocks: `group1Block` short blocks, then the long ones. */
  function DataBlocks(dc: seq<bv8>, l: Layout): (r: seq<seq<bv8>>)
    requires l.Valid() && |dc| == l.DataTotal()
    ensures Staircase(r, l.short, l.Group1()) && |r| == l.blocks
  {
    seq(l.blocks, b requires 0 <= b < l.blocks => DataBlock(dc, l, b))
  }

  /** The first `k` blocks, joined, are the data up to the start of block `k`. */
  lemma {:induction false} DataBlocksPrefix(dc: seq<bv8>, l: Layout, k: nat)
    requires l.Valid() && |dc| == l.DataTotal() && k <= l.blocks
    ensures l.BlockStart(k) <= |dc|
    ensures Flatten(DataBlocks(dc, l)[..k]) == dc[..l.BlockStart(k)]
  {
    BlockStartBound(l, k, l.blocks);
    var blocks := DataBlocks(dc, l);
    if k == 0 {
      assert l.BlockStart(0) == 0;
      assert blocks[..0] == [] && dc[..0] == [];
      assert Flatten(blocks[..0]) == dc[..0];
    } else {
      var a, b := l.BlockStart(k - 1), l.BlockStart(k);
      BlockStartBound(l, k - 1, k);
      DataBlocksPrefix(dc, l, k - 1);
      FlattenSnoc(blocks, k - 1);
      BlockIsSlice(dc, l, k - 1);
      SliceJoin(dc, a, b, Flatten(blocks[..k - 1]), blocks[k - 1]);
      assert Flatten(blocks[..k]) == dc[..b];
    }
  }

  lemma SliceJoin<T>(s: seq<T>, a: nat, b: nat, x: seq<T>, y: seq<T>)
    requires a <= b <= |s| && x == s[..a] && y == s[a..b]
    ensures x + y == s[..b]
  {
  }

  lemma BlockIsSlice(dc: seq<bv8>, l: Layout, b: nat)
    requires l.Valid() && |dc| == l.DataTotal() && b < l.blocks
    ensures l.BlockStart(b) <= l.BlockStart(b + 1) <= |dc|
    ensures DataBlocks(dc, l)[b] == dc[l.BlockStart(b)..l.BlockStart(b + 1)]
  {
    BlockStartBound(l, b, b + 1);
    BlockStartBound(l, b + 1, l.blocks);
  }

  /** Cutting the data into blocks loses and reorders nothing. */
  lemma DataBlocksJoin(dc: seq<bv8>, l: Layout)
    requires l.Valid() && |dc| == l.DataTotal()
    ensures Flatten(DataBlocks(dc, l)) == dc
  {
    DataBlocksPrefix(dc, l, l.blocks);
    assert l.BlockStart(l.blocks) == l.blocks * l.short + l.long;
    assert DataBlocks(dc, l)[..l.blocks] == DataBlocks(dc, l);
  }

  /** Bytes as field elements, and back. */
  function ToPoly(bytes: seq<bv8>): (p: Poly)
    ensures |p| == |bytes|
  {
    seq(|bytes|, i requires 0 <= i < |bytes| => Elem(bytes[i]))
  }

  function FromPoly(p: Poly): (bytes: seq<bv8>)
    ensures |bytes| == |p|
  {
    seq(|p|, i requires 0 <= i < |p| => p[i].v)
  }

  lemma ToFromPoly(p: Poly)
    ensures ToPoly(FromPoly(p)) == p
  {
  }

  lemma ToPolyAppend(a: seq<bv8>, b: seq<bv8>)
    ensures ToPoly(a + b) == ToPoly(a) + ToPoly(b)
  {
  }

  /** `rsEncode(blockData, ecCount)` on bytes. */
  function EcBlock(data: seq<bv8>, n: nat): (r: seq<bv8>)
    requires 0 < n <= 256
    ensures |r| == n
  {
    FromPoly(RsEncode(ToPoly(data), n))
  }

  /** The EC codewords of every data block. */
  function EcBlocks(dc: seq<bv8>, l: Layout): (r: seq<seq<bv8>>)
    requires l.Valid() && |dc| == l.DataTotal()
    ensures Staircase(r, l.ecCount, l.blocks) && |r| == l.blocks
  {
    var data := DataBlocks(dc, l);
    seq(l.blocks, b requires 0 <= b < l.blocks => EcBlock(data[b], l.ecCount))
  }

  /** Every block followed by its EC codewords is a Reed-Solomon codeword: all syndromes vanish. */
  lemma BlockIsCodeword(dc: seq<bv8>, l: Layout, b: nat, k: nat)
    requires l.Valid() && |dc| == l.DataTotal() && b < l.blocks && k < l.ecCount
    ensures Eval(ToPoly(DataBlocks(dc, l)[b] + EcBlocks(dc, l)[b]), Alpha(k)) == Zero
  {
    var data := DataBlocks(dc, l)[b];
    var n := l.ecCount;
    assert EcBlocks(dc, l)[b] == FromPoly(RsEncode(ToPoly(data), n));
    ToPolyAppend(data, EcBlocks(dc, l)[b]);
    ToFromPoly(RsEncode(ToPoly(data), n));
    RsSyndromes(ToPoly(data), n, k);
  }

  /** The final codeword sequence: interleaved data blocks, then interleaved EC blocks. */
  function CodewordSequence(dc: seq<bv8>, l: Layout): (r: seq<bv8>)
    requires l.Valid() && |dc| == l.DataTotal()
    ensures |r| == l.Total()
  {
    var data, ecBlocks := DataBlocks(dc, l), EcBlocks(dc, l);
    InterleaveStairLength(data, l.short, l.Group1());
    InterleaveStairLength(ecBlocks, l.ecCount, l.blocks);
    Interleave(data, l.MaxDataSize()) + Interleave(ecBlocks, l.ecCount)
  }

  /** Data codeword `i` of block `b` goes to its interleaved position among the first `dataTotal` codewords. */
  lemma CodewordDataAt(dc: seq<bv8>, l: Layout, b: nat, i: nat)
    requires l.Valid() && |dc| == l.DataTotal()
    requires InStair(l.short, l.Group1(), l.blocks, i, b)
    ensures Position(l.short, l.Group1(), l.blocks, i, b) < l.DataTotal()
    ensures i < |DataBlocks(dc, l)[b]|
    ensures CodewordSequence(dc, l)[Position(l.short, l.Group1(), l.blocks, i, b)] == DataBlocks(dc, l)[b][i]
  {
    var data, ecBlocks := DataBlocks(dc, l), EcBlocks(dc, l);
    var front, back := Interleave(data, l.MaxDataSize()), Interleave(ecBlocks, l.ecCount);
    var p := Position(l.short, l.Group1(), l.blocks, i, b);
    assert CodewordSequence(dc, l) == front + back;
    assert p < |front| && front[p] == data[b][i] by {
      InterleavePoint(data, l.short, l.Group1(), i, b);
    }
    assert (front + back)[p] == front[p];
  }

  /** EC codeword `i` of block `b` goes to `dataTotal + i * blocks + b`. */
  lemma CodewordEcAt(dc: seq<bv8>, l: Layout, b: nat, i: nat)
    requires l.Valid() && |dc| == l.DataTotal()
    requires b < l.blocks && i < l.ecCount
    ensures Position(l.ecCount, l.blocks, l.blocks, i, b) == i * l.blocks + b
    ensures l.DataTotal() + Position(l.ecCount, l.blocks, l.blocks, i, b) < l.Total()
    ensures i < |EcBlocks(dc, l)[b]|
    ensures CodewordSequence(dc, l)[l.DataTotal() + Position(l.ecCount, l.blocks, l.blocks, i, b)] == EcBlocks(dc, l)[b][i]
  {
    var data, ecBlocks := DataBlocks(dc, l), EcBlocks(dc, l);
    var front, back := Interleave(data, l.MaxDataSize()), Interleave(ecBlocks, l.ecCount);
    assert CodewordSequence(dc, l) == front + back;
    assert |front| == l.DataTotal() by {
      InterleaveStairLength(data, l.short, l.Group1());
    }
    var p := Position(l.ecCount, l.blocks, l.blocks, i, b);
    assert p < |back| && back[p] == ecBlocks[b][i] by {
      InterleavePoint(ecBlocks, l.ecCount, l.blocks, i, b);
    }
    assert (front + back)[|front| + p] == back[p];
  }

  /**
   * The codeword sequence determines the data: deinterleaving its data part
   * and joining the blocks gives the data codewords back, and deinterleaving
   * its EC part gives the EC blocks.
   */
  lemma CodewordSequenceRecover(dc: seq<bv8>, l: Layout)
    requires l.Valid() && |dc| == l.DataTotal()
    ensures var code := CodewordSequence(dc, l);
            Flatten(Deinterleave(code[..l.DataTotal()], l.short, l.Group1(), l.blocks)) == dc
    ensures var code := CodewordSequence(dc, l);
            Deinterleave(code[l.DataTotal()..], l.ecCount, l.blocks, l.blocks) == EcBlocks(dc, l)
  {
    var data, ecBlocks := DataBlocks(dc, l), EcBlocks(dc, l);
    var front, back := Interleave(data, l.MaxDataSize()), Interleave(ecBlocks, l.ecCount);
    var code := CodewordSequence(dc, l);
    assert |front| == l.DataTotal() by {
      InterleaveStairLength(data, l.short, l.Group1());
    }
    assert code[..l.DataTotal()] == front && code[l.DataTotal()..] == back;
    DeinterleaveInterleave(data, l.short, l.Group1());
    DeinterleaveInterleave(ecBlocks, l.ecCount, l.blocks);
    DataBlocksJoin(dc, l);
  }
}
