/**
 * Reed-Solomon error-correction codewords (`src/reed-solomon.ts`): the
 * schoolbook `polyMul`, the generator polynomial with roots `GF_EXP[0..n-1]`
 * and the long division of `rsEncode`, which XORs scaled copies of the
 * generator into a buffer holding the message followed by `n` zeros and
 * returns the last `n` entries of that buffer.
 */
module ReedSolomon {
  import opened Field
  import opened Polynomial

  /** `polyMul`: fill a zero buffer, then add every `p1[i] * p2[j]` at index `i + j`. */
  method PolyMul(p1: Poly, p2: Poly) returns (r: Poly)
    requires |p1| + |p2| >= 1
    ensures r == Product(p1, p2)
  {
    var len := |p1| + |p2| - 1;
    r := Zeros(len);
    for i := 0 to |p1|
      invariant r == Rows(p1[..i], p2, len)
    {
      r := AddRow(r, p1[i], p2, i);
      assert p1[..i + 1][..i] == p1[..i];
    }
    assert p1[..|p1|] == p1;
  }

  /** The inner loop of `polyMul`: add `c * q[j]` at index `i + j` for every `j`. */
  method AddRow(r: Poly, c: Elem, q: Poly, i: nat) returns (r': Poly)
    requires i + |q| <= |r|
    ensures r' == Add(r, Placed(c, q, i, |r|))
  {
    var len := |r|;
    r' := r;
    assert Add(r, Placed(c, q[..0], i, len)) == r by {
      AddZeros(r);
      assert Placed(c, q[..0], i, len) == Zeros(len);
    }
    for j := 0 to |q|
      invariant r' == Add(r, Placed(c, q[..j], i, len))
    {
      AddPlacedStep(r, c, q, i, j, len);
      r' := r'[i + j := Plus(r'[i + j], Times(c, q[j]))];
    }
    assert q[..|q|] == q;
  }

  /** `generateGenerator(n)`: the product of the factors `(x - GF_EXP[i])` for `i < n`. */
  function Generator(n: nat): (g: Poly)
    requires n <= 256
    ensures |g| == n + 1
  {
    if n == 0 then [One] else Product(Generator(n - 1), [One, Alpha(n - 1)])
  }

  method GenerateGenerator(n: nat) returns (g: Poly)
    requires n <= 256
    ensures g == Generator(n)
  {
    g := [One];
    for i := 0 to n
      invariant g == Generator(i)
    {
      g := PolyMul(g, [One, Alpha(i)]);
    }
  }

  /** The generator is monic: its leading coefficient is 1. */
  lemma {:induction false} GeneratorLeading(n: nat)
    requires n <= 256
    ensures Generator(n)[0] == One
  {
    if n > 0 {
      GeneratorLeading(n - 1);
      ProductLeading(Generator(n - 1), [One, Alpha(n - 1)]);
      TimesOne(One);
    }
  }

  /** A linear factor `x - a` vanishes at `a`. */
  lemma EvalFactor(a: Elem)
    ensures Eval([One, a], a) == Zero
  {
    var p := [One, a];
    assert p[..1][..0] == [];
    assert Eval(p[..1], a) == One by {
      TimesZero(Zero, a);
      PlusZero(One);
    }
    TimesOne(a);
    PlusSelf(a, a);
  }

  /** `GF_EXP[i]` is a root of the generator for every `i < n`. */
  lemma {:induction false} GeneratorRoots(n: nat, i: nat)
    requires i < n <= 256
    ensures Eval(Generator(n), Alpha(i)) == Zero
  {
    var x := Alpha(i);
    var f := [One, Alpha(n - 1)];
    EvalProduct(Generator(n - 1), f, x);
    if i == n - 1 {
      EvalFactor(x);
      TimesZero(Eval(Generator(n - 1), x), Zero);
    } else {
      GeneratorRoots(n - 1, i);
      TimesZero(Zero, Eval(f, x));
    }
  }

  /**
   * One round of `rsEncode`'s outer loop at index `i`: read the coefficient
   * there and, when it is non-zero, add the generator scaled by it with its
   * leading term at index `i`.
   */
  function Round(e: Poly, g: Poly, i: nat): (r: Poly)
    requires i < |e| && i + |g| <= |e|
    ensures |r| == |e|
  {
    if e[i] == Zero then e else Add(e, Placed(e[i], g, i, |e|))
  }

  /** The division buffer after `k` rounds: the message followed by `|g| - 1` zeros, reduced `k` times. */
  function Buffer(msg: Poly, g: Poly, k: nat): (e: Poly)
    requires |g| >= 1 && k <= |msg|
    ensures |e| == |msg| + |g| - 1
  {
    if k == 0 then msg + Zeros(|g| - 1) else Round(Buffer(msg, g, k - 1), g, k - 1)
  }

  /** The quotient digits: the coefficient read in each of the first `k` rounds. */
  function Quotient(msg: Poly, g: Poly, k: nat): (q: Poly)
    requires |g| >= 1 && k <= |msg|
    ensures |q| == k
  {
    if k == 0 then [] else Quotient(msg, g, k - 1) + [Buffer(msg, g, k - 1)[k - 1]]
  }

  /** Every round adds the placed generator, also when the coefficient is zero. */
  lemma RoundAdds(e: Poly, g: Poly, i: nat)
    requires i < |e| && i + |g| <= |e|
    ensures Round(e, g, i) == Add(e, Placed(e[i], g, i, |e|))
  {
    if e[i] == Zero {
      PlacedZero(g, i, |e|);
      AddZeros(e);
    }
  }

  lemma BufferStep(msg: Poly, g: Poly, k: nat)
    requires |g| >= 1 && 0 < k <= |msg|
    ensures Buffer(msg, g, k)
         == Add(Buffer(msg, g, k - 1), Placed(Buffer(msg, g, k - 1)[k - 1], g, k - 1, |msg| + |g| - 1))
  {
    RoundAdds(Buffer(msg, g, k - 1), g, k - 1);
  }

  /** A round is linear in the buffer. */
  lemma RoundLinear(e1: Poly, e2: Poly, g: Poly, i: nat)
    requires |e1| == |e2| && i < |e1| && i + |g| <= |e1|
    ensures Round(Add(e1, e2), g, i) == Add(Round(e1, g, i), Round(e2, g, i))
  {
    var len := |e1|;
    var p1, p2 := Placed(e1[i], g, i, len), Placed(e2[i], g, i, len);
    assert Round(Add(e1, e2), g, i) == Add(Add(e1, e2), Add(p1, p2)) by {
      RoundAdds(Add(e1, e2), g, i);
      PlacedLinear(e1[i], e2[i], g, i, len);
    }
    RoundAdds(e1, g, i);
    RoundAdds(e2, g, i);
    AddSwap(e1, e2, p1, p2);
  }

  /** A monic divisor clears one more leading coefficient per round. */
  lemma {:induction false} BufferClearsPrefix(msg: Poly, g: Poly, k: nat, j: nat)
    requires |g| >= 1 && g[0] == One && j < k <= |msg|
    ensures Buffer(msg, g, k)[j] == Zero
  {
    var len := |msg| + |g| - 1;
    var e := Buffer(msg, g, k - 1);
    BufferStep(msg, g, k);
    PlacedAt(e[k - 1], g, k - 1, len, j);
    if j < k - 1 {
      BufferClearsPrefix(msg, g, k - 1, j);
      PlusZero(Zero);
    } else {
      TimesOne(e[k - 1]);
      PlusSelf(e[k - 1], e[k - 1]);
    }
  }

  /**
   * The division identity: the message buffer plus the current buffer is
   * the quotient digits so far times the divisor.
   */
  lemma {:induction false} BufferDivision(msg: Poly, g: Poly, k: nat)
    requires |g| >= 1 && k <= |msg|
    ensures Add(Buffer(msg, g, 0), Buffer(msg, g, k)) == Rows(Quotient(msg, g, k), g, |msg| + |g| - 1)
  {
    if k == 0 {
      AddSelf(Buffer(msg, g, 0));
    } else {
      BufferDivision(msg, g, k - 1);
      DivisionStep(msg, g, k);
    }
  }

  lemma AddSelf(e: Poly)
    ensures Add(e, e) == Zeros(|e|)
  {
    forall i | 0 <= i < |e| ensures Add(e, e)[i] == Zero {
      PlusSelf(e[i], e[i]);
    }
  }

  /** One round extends the division identity by one quotient digit. */
  lemma DivisionStep(msg: Poly, g: Poly, k: nat)
    requires |g| >= 1 && 0 < k <= |msg|
    requires Add(Buffer(msg, g, 0), Buffer(msg, g, k - 1)) == Rows(Quotient(msg, g, k - 1), g, |msg| + |g| - 1)
    ensures Add(Buffer(msg, g, 0), Buffer(msg, g, k)) == Rows(Quotient(msg, g, k), g, |msg| + |g| - 1)
  {
    var len := |msg| + |g| - 1;
    var e0, e := Buffer(msg, g, 0), Buffer(msg, g, k - 1);
    var q := Quotient(msg, g, k);
    var p := Placed(e[k - 1], g, k - 1, len);
    BufferStep(msg, g, k);
    assert q[..k - 1] == Quotient(msg, g, k - 1) && q[k - 1] == e[k - 1];
    AddAssociative(e0, e, p);
  }

  /** `rsEncode(msg, n)`: `encoded.slice(-n)`, which is the whole buffer when `n` is 0. */
  function RsEncode(msg: Poly, n: nat): (r: Poly)
    requires n <= 256
    ensures |r| == if n == 0 then |msg| else n
  {
    var e := Buffer(msg, Generator(n), |msg|);
    if n == 0 then e else e[|msg|..]
  }

  /** The quotient of the message shifted by `n` places, divided by the generator. */
  function RsQuotient(msg: Poly, n: nat): Poly
    requires n <= 256
  {
    Quotient(msg, Generator(n), |msg|)
  }

  /**
   * The codeword, message followed by its EC bytes, is a multiple of the
   * generator: `msg * x^n + EC == quotient * generator`.
   */
  lemma RsDivisible(msg: Poly, n: nat)
    requires 0 < n <= 256
    ensures msg + RsEncode(msg, n) == Product(RsQuotient(msg, n), Generator(n))
  {
    GeneratorLeading(n);
    RemainderDivides(msg, Generator(n));
  }

  /** Long division by a monic divisor leaves a remainder that completes the shifted message to a multiple. */
  lemma RemainderDivides(msg: Poly, g: Poly)
    requires |g| >= 1 && g[0] == One
    ensures msg + Buffer(msg, g, |msg|)[|msg|..] == Product(Quotient(msg, g, |msg|), g)
  {
    DivisionComplete(msg, g);
    CodewordIsSum(msg, g);
  }

  /** The division identity after the last round, for the product of the full quotient. */
  lemma DivisionComplete(msg: Poly, g: Poly)
    requires |g| >= 1
    ensures Add(Buffer(msg, g, 0), Buffer(msg, g, |msg|)) == Product(Quotient(msg, g, |msg|), g)
  {
    var len := |msg| + |g| - 1;
    var q := Quotient(msg, g, |msg|);
    ProductIsRows(q, g, len);
    BufferDivision(msg, g, |msg|);
  }

  /** After the last round the buffer is zeros followed by the remainder. */
  lemma CodewordIsSum(msg: Poly, g: Poly)
    requires |g| >= 1 && g[0] == One
    ensures msg + Buffer(msg, g, |msg|)[|msg|..] == Add(Buffer(msg, g, 0), Buffer(msg, g, |msg|))
  {
    var m := |msg|;
    var e0, e := Buffer(msg, g, 0), Buffer(msg, g, m);
    forall i | 0 <= i < |e| ensures (msg + e[m..])[i] == Add(e0, e)[i] {
      if i < m {
        BufferClearsPrefix(msg, g, m, i);
        PlusZero(msg[i]);
      } else {
        PlusZero(e[i]);
      }
    }
  }

  /** Every syndrome of the codeword is zero: it vanishes at `GF_EXP[i]` for all `i < n`. */
  lemma RsSyndromes(msg: Poly, n: nat, i: nat)
    requires i < n <= 256
    ensures Eval(msg + RsEncode(msg, n), Alpha(i)) == Zero
  {
    RsDivisible(msg, n);
    EvalProduct(RsQuotient(msg, n), Generator(n), Alpha(i));
    GeneratorRoots(n, i);
    TimesZero(Eval(RsQuotient(msg, n), Alpha(i)), Zero);
  }

  /** With no EC bytes requested, `slice(-0)` returns the cleared buffer: all zeros. */
  lemma RsEncodeNone(msg: Poly)
    ensures RsEncode(msg, 0) == Zeros(|msg|)
  {
    forall i | 0 <= i < |msg| ensures RsEncode(msg, 0)[i] == Zero {
      BufferClearsPrefix(msg, Generator(0), |msg|, i);
    }
  }

  /** The division buffer is linear in the message. */
  lemma {:induction false} BufferLinear(m1: Poly, m2: Poly, g: Poly, k: nat)
    requires |g| >= 1 && |m1| == |m2| && k <= |m1|
    ensures Buffer(Add(m1, m2), g, k) == Add(Buffer(m1, g, k), Buffer(m2, g, k))
  {
    if k == 0 {
      AddPadded(m1, m2, |g| - 1);
    } else {
      BufferLinear(m1, m2, g, k - 1);
      RoundLinear(Buffer(m1, g, k - 1), Buffer(m2, g, k - 1), g, k - 1);
    }
  }

  /** Padding with zeros commutes with addition. */
  lemma AddPadded(m1: Poly, m2: Poly, n: nat)
    requires |m1| == |m2|
    ensures Add(m1, m2) + Zeros(n) == Add(m1 + Zeros(n), m2 + Zeros(n))
  {
    forall i | |m1| <= i < |m1| + n ensures (Add(m1, m2) + Zeros(n))[i] == Add(m1 + Zeros(n), m2 + Zeros(n))[i] {
      PlusZero(Zero);
    }
  }

  /** The EC bytes of a sum of messages are the sum of their EC bytes. */
  lemma RsLinear(m1: Poly, m2: Poly, n: nat)
    requires |m1| == |m2| && 0 < n <= 256
    ensures RsEncode(Add(m1, m2), n) == Add(RsEncode(m1, n), RsEncode(m2, n))
  {
    BufferLinear(m1, m2, Generator(n), |m1|);
  }

  /** A message of zeros has all-zero EC bytes. */
  lemma RsZero(m: nat, n: nat)
    requires n <= 256
    ensures RsEncode(Zeros(m), n) == Zeros(if n == 0 then m else n)
  {
    var z := Zeros(m);
    assert Add(z, z) == z by {
      forall i | 0 <= i < m ensures Add(z, z)[i] == z[i] {
        PlusZero(Zero);
      }
    }
    if n == 0 {
      RsEncodeNone(z);
    } else {
      RsLinear(z, z, n);
      var r := RsEncode(z, n);
      forall i | 0 <= i < n ensures r[i] == Zero {
        PlusSelf(r[i], r[i]);
      }
    }
  }

  /** `rsEncode` as written: the buffer, the outer loop over the message and the conditional inner loop. */
  method RsEncodeMethod(msg: Poly, ecBytes: nat) returns (r: Poly)
    requires ecBytes <= 256
    ensures r == RsEncode(msg, ecBytes)
  {
    var generator := GenerateGenerator(ecBytes);
    var encoded := msg + Zeros(ecBytes);
    for i := 0 to |msg|
      invariant encoded == Buffer(msg, generator, i)
    {
      var coeff := encoded[i];
      if coeff != Zero {
        encoded := ReduceRow(encoded, coeff, generator, i);
      }
    }
    if ecBytes == 0 {
      r := encoded;
    } else {
      r := encoded[|encoded| - ecBytes..];
    }
  }

  /** The inner loop of `rsEncode`: XOR `generator[j] * coeff` into index `i + j` for every `j`. */
  method ReduceRow(e: Poly, coeff: Elem, generator: Poly, i: nat) returns (r: Poly)
    requires i + |generator| <= |e|
    ensures r == Add(e, Placed(coeff, generator, i, |e|))
  {
    var len := |e|;
    r := e;
    assert Add(e, Placed(coeff, generator[..0], i, len)) == e by {
      AddZeros(e);
      assert Placed(coeff, generator[..0], i, len) == Zeros(len);
    }
    for j := 0 to |generator|
      invariant r == Add(e, Placed(coeff, generator[..j], i, len))
    {
      AddPlacedStep(e, coeff, generator, i, j, len);
      TimesCommutative(generator[j], coeff);
      r := r[i + j := Plus(r[i + j], Times(generator[j], coeff))];
    }
    assert generator[..|generator|] == generator;
  }
}
