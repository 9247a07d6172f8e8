/**
 * Data masking (`#applyMask` and `#mask` in packages/core/src/qr.ts): every
 * module no function pattern reserved is flipped where the mask condition
 * holds; each of the eight masks is tried on a copy with its format
 * information written in, and the mask whose copy scores the lowest penalty
 * is applied to the symbol.
 */
module Masking {
  import opened Types
  import opened Constants
  import opened Matrix
  import opened FunctionPatterns
  import opened Penalty

  /** `#applyMask(mask)`: XOR the mask condition into every unreserved module. */
  function ApplyMask(s: Symbol, mask: nat): (t: Symbol)
    requires s.Valid() && mask < 8
    ensures t.Valid() && t.size == s.size && t.reserved == s.reserved
  {
    Symbol(s.size,
      seq(s.size, r requires 0 <= r < s.size => seq(s.size, c requires 0 <= c < s.size =>
        if s.reserved[r][c].None? then s.data[r][c] != MaskPattern(mask, r, c) else s.data[r][c])),
      s.reserved)
  }

  /** A reserved module keeps its value under every mask. */
  lemma MaskKeepsReserved(s: Symbol, mask: nat, r: int, c: int)
    requires s.Valid() && mask < 8 && s.In(r, c) && !s.Free(r, c)
    ensures ApplyMask(s, mask).data[r][c] == s.data[r][c]
  {
  }

  /** A free module is flipped exactly where the mask condition holds. */
  lemma MaskFlips(s: Symbol, mask: nat, r: int, c: int)
    requires s.Valid() && mask < 8 && s.In(r, c) && s.Free(r, c)
    ensures ApplyMask(s, mask).data[r][c] != s.data[r][c] <==> MaskPattern(mask, r, c)
  {
  }

  /** Masking twice with the same mask gives the symbol back. */
  lemma MaskInvolution(s: Symbol, mask: nat)
    requires s.Valid() && mask < 8
    ensures ApplyMask(ApplyMask(s, mask), mask) == s
  {
    var t := ApplyMask(ApplyMask(s, mask), mask);
    forall r | 0 <= r < s.size
      ensures t.data[r] == s.data[r]
    {
      assert forall c | 0 <= c < s.size :: t.data[r][c] == s.data[r][c];
    }
    assert t.data == s.data;
  }

  /** The copy `#mask` scores for mask `mask`: masked, then given that mask's format information. */
  function Candidate(s: Symbol, ec: EcLevel, mask: nat): (t: Symbol)
    requires s.Valid() && s.size >= 21 && mask < 8
    ensures t.Valid() && t.size == s.size
  {
    FillFormatInfo(ApplyMask(s, mask), ec, mask)
  }

  /** A valid symbol's module rows form a square grid. */
  lemma ValidSquare(s: Symbol)
    requires s.Valid()
    ensures Square(s.data) && |s.data| == s.size
  {
  }

  /** The penalty of mask `mask`'s candidate. */
  function Score(s: Symbol, ec: EcLevel, mask: nat): nat
    requires s.Valid() && s.size >= 21 && mask < 8
  {
    var t := Candidate(s, ec, mask);
    ValidSquare(t);
    MaskPenalty(t.data)
  }

  /** The penalties of the candidates for masks `0 .. n - 1`, by mask number. */
  function Scores(s: Symbol, ec: EcLevel, n: nat): (scores: seq<nat>)
    requires s.Valid() && s.size >= 21 && n <= 8
    ensures |scores| == n
  {
    if n == 0 then [] else Scores(s, ec, n - 1) + [Score(s, ec, n - 1)]
  }

  /** `best` scores no more than any entry and strictly less than every earlier one. */
  predicate EarliestMinimum(scores: seq<nat>, best: nat)
  {
    && best < |scores|
    && (forall k | 0 <= k < |scores| :: scores[best] <= scores[k])
    && (forall k | 0 <= k < best :: scores[k] > scores[best])
  }

  /** There is only one earliest minimum. */
  lemma EarliestMinimumUnique(scores: seq<nat>, a: nat, b: nat)
    requires EarliestMinimum(scores, a) && EarliestMinimum(scores, b)
    ensures a == b
  {
    assert scores[a] <= scores[b];
    assert scores[b] <= scores[a];
  }

  /** `penalty < lowestPenalty`, with `lowestPenalty` starting at `Infinity` (`None`). */
  predicate Lower(penalty: nat, lowest: Option<nat>)
  {
    lowest.None? || penalty < lowest.value
  }

  /**
   * One turn of the selection loop: `penalty < lowestPenalty` replaces the
   * best so far, a tie or a higher penalty keeps it.
   */
  method SelectStep(ghost seen: seq<nat>, i: nat, best: nat, lowest: Option<nat>, penalty: nat)
    returns (best': nat, lowest': Option<nat>)
    requires |seen| == i
    requires |seen| == 0 <==> lowest.None?
    requires |seen| > 0 ==> EarliestMinimum(seen, best) && lowest == Some(seen[best])
    ensures EarliestMinimum(seen + [penalty], best') && lowest' == Some((seen + [penalty])[best'])
    ensures best' == (if Lower(penalty, lowest) then i else best)
  {
    if Lower(penalty, lowest) {
      best', lowest' := i, Some(penalty);
    } else {
      best', lowest' := best, lowest;
    }
  }

  /** One candidate of `#mask`'s loop: the copy masked with `mask`, with its format information, scored. */
  method Evaluate(s: Symbol, ec: EcLevel, mask: nat) returns (penalty: nat)
    requires s.Valid() && s.size >= 21 && mask < 8
    ensures penalty == Score(s, ec, mask)
  {
    var maskedData := Candidate(s, ec, mask);
    ValidSquare(maskedData);
    penalty := GetMaskPenalty(maskedData.data);
  }

  /** The scoring half of `#mask()`'s loop: the eight candidates' penalties in mask order. */
  method ScoreMasks(s: Symbol, ec: EcLevel) returns (penalties: seq<nat>)
    requires s.Valid() && s.size >= 21
    ensures penalties == Scores(s, ec, 8)
  {
    penalties := [];
    var i := 0;
    while i < 8
      invariant 0 <= i <= 8 && penalties == Scores(s, ec, i)
    {
      var penalty := Evaluate(s, ec, i);
      penalties := penalties + [penalty];
      i := i + 1;
    }
  }

  /**
   * The selecting half of `#mask()`'s loop: `lowestPenalty` starts at
   * `Infinity` and a candidate replaces the best so far only when
   * `penalty < lowestPenalty`.
   */
  method SelectLowest(penalties: seq<nat>) returns (bestPattern: nat)
    requires |penalties| > 0
    ensures EarliestMinimum(penalties, bestPattern)
  {
    bestPattern := 0;
    var lowestPenalty: Option<nat> := None;
    var i := 0;
    while i < |penalties|
      invariant 0 <= i <= |penalties|
      invariant i == 0 <==> lowestPenalty.None?
      invariant i > 0 ==> EarliestMinimum(penalties[..i], bestPattern) && lowestPenalty == Some(penalties[bestPattern])
    {
      var penalty := penalties[i];
      assert penalties[..i + 1] == penalties[..i] + [penalty];
      bestPattern, lowestPenalty := SelectStep(penalties[..i], i, bestPattern, lowestPenalty, penalty);
      i := i + 1;
    }
    assert penalties[..i] == penalties;
  }

  /**
   * `#mask()`'s loop: score the eight candidates in order and keep a
   * candidate only when it scores strictly lower than the best so far. The
   * winner scores no more than any mask and strictly less than every
   * earlier one.
   */
  method BestMask(s: Symbol, ec: EcLevel) returns (bestPattern: nat)
    requires s.Valid() && s.size >= 21
    ensures EarliestMinimum(Scores(s, ec, 8), bestPattern)
  {
    var penalties := ScoreMasks(s, ec);
    bestPattern := SelectLowest(penalties);
  }

  /**
   * `#mask()` followed by `#generateQr`'s closing `#fillFormatInfo()`: the
   * winning mask is applied to the symbol and its format information written,
   * which gives exactly the winning candidate.
   */
  method Mask(s: Symbol, ec: EcLevel) returns (bestPattern: nat, t: Symbol)
    requires s.Valid() && s.size >= 21
    ensures EarliestMinimum(Scores(s, ec, 8), bestPattern)
    ensures t == Candidate(s, ec, bestPattern)
  {
    bestPattern := BestMask(s, ec);
    t := FillFormatInfo(ApplyMask(s, bestPattern), ec, bestPattern);
  }
}
