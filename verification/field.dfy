/**
 * GF(256) as an algebraic structure: a field element wraps the byte that
 * `gfMul` and the XOR in `polyMul`/`rsEncode` operate on. The laws below are
 * lifted from the byte-level facts of `GaloisField`, so that polynomial
 * reasoning can be carried out with the field laws alone.
 */
module Field {
  import opened GaloisField

  datatype Elem = Elem(v: bv8)

  const Zero := Elem(0)
  const One := Elem(1)

  /** Field addition: the XOR of `result[i + j] ^= ...`. */
  function Plus(a: Elem, b: Elem): Elem { Elem(a.v ^ b.v) }

  /** Field multiplication: `gfMul`. */
  function Times(a: Elem, b: Elem): Elem { Elem(GfMul(a.v, b.v)) }

  /** The generator's `i`-th power, `GF_EXP[i]`. */
  function Alpha(i: nat): Elem
    requires i < 256
  {
    Elem(ExpTable(i))
  }

  lemma PlusCommutative(a: Elem, b: Elem)
    ensures Plus(a, b) == Plus(b, a)
  {
  }

  lemma PlusAssociative(a: Elem, b: Elem, c: Elem)
    ensures Plus(Plus(a, b), c) == Plus(a, Plus(b, c))
  {
  }

  lemma PlusZero(a: Elem)
    ensures Plus(a, Zero) == a && Plus(Zero, a) == a
  {
  }

  /** Every element is its own additive inverse. */
  lemma PlusSelf(a: Elem, b: Elem)
    ensures Plus(a, a) == Zero
    ensures Plus(Plus(a, b), b) == a
  {
  }

  /** Regrouping four summands. */
  lemma PlusSwap(a: Elem, b: Elem, c: Elem, d: Elem)
    ensures Plus(Plus(a, b), Plus(c, d)) == Plus(Plus(a, c), Plus(b, d))
  {
  }

  /** Two byte equations lifted to elements; keeps the lifting steps below small. */
  lemma Lift(x: bv8, y: bv8)
    requires x == y
    ensures Elem(x) == Elem(y)
  {
  }

  lemma TimesCommutative(a: Elem, b: Elem)
    ensures Times(a, b) == Times(b, a)
  {
    GfMulCommutative(a.v, b.v);
    Lift(GfMul(a.v, b.v), GfMul(b.v, a.v));
  }

  lemma TimesAssociative(a: Elem, b: Elem, c: Elem)
    ensures Times(Times(a, b), c) == Times(a, Times(b, c))
  {
    GfMulAssociative(a.v, b.v, c.v);
    Lift(GfMul(GfMul(a.v, b.v), c.v), GfMul(a.v, GfMul(b.v, c.v)));
  }

  lemma TimesOne(a: Elem)
    ensures Times(a, One) == a && Times(One, a) == a
  {
    GfMulOne(a.v);
  }

  /** Zero is absorbing, and there are no zero divisors. */
  lemma TimesZero(a: Elem, b: Elem)
    ensures Times(a, b) == Zero <==> a == Zero || b == Zero
  {
    GfMulZero(a.v, b.v);
  }

  lemma LiftDistributive(x: bv8, a: bv8, b: bv8)
    requires GfMul(x, a ^ b) == GfMul(x, a) ^ GfMul(x, b)
    ensures Elem(GfMul(x, a ^ b)) == Elem(GfMul(x, a) ^ GfMul(x, b))
  {
  }

  lemma TimesDistributiveBytes(x: bv8, a: bv8, b: bv8)
    ensures Times(Elem(x), Plus(Elem(a), Elem(b))) == Plus(Times(Elem(x), Elem(a)), Times(Elem(x), Elem(b)))
  {
    GfMulDistributive(x, a, b);
    LiftDistributive(x, a, b);
  }

  lemma TimesDistributive(x: Elem, a: Elem, b: Elem)
    ensures Times(x, Plus(a, b)) == Plus(Times(x, a), Times(x, b))
  {
    TimesDistributiveBytes(x.v, a.v, b.v);
  }

  lemma GfMulRightDistributive(a: bv8, b: bv8, x: bv8)
    ensures GfMul(a ^ b, x) == GfMul(a, x) ^ GfMul(b, x)
  {
    GfMulCommutative(a ^ b, x);
    GfMulCommutative(a, x);
    GfMulCommutative(b, x);
    GfMulDistributive(x, a, b);
  }

  lemma LiftRightDistributive(a: bv8, b: bv8, x: bv8)
    requires GfMul(a ^ b, x) == GfMul(a, x) ^ GfMul(b, x)
    ensures Elem(GfMul(a ^ b, x)) == Elem(GfMul(a, x) ^ GfMul(b, x))
  {
  }

  lemma TimesRightDistributiveBytes(a: bv8, b: bv8, x: bv8)
    ensures Times(Plus(Elem(a), Elem(b)), Elem(x)) == Plus(Times(Elem(a), Elem(x)), Times(Elem(b), Elem(x)))
  {
    GfMulRightDistributive(a, b, x);
    LiftRightDistributive(a, b, x);
  }

  lemma TimesRightDistributive(a: Elem, b: Elem, x: Elem)
    ensures Times(Plus(a, b), x) == Plus(Times(a, x), Times(b, x))
  {
    TimesRightDistributiveBytes(a.v, b.v, x.v);
  }

  /** Powers of the generator multiply by adding exponents. */
  lemma AlphaAdd(i: nat, j: nat)
    requires i < 255 && j < 255
    ensures Times(Alpha(i), Alpha(j)) == Alpha((i + j) % 255)
  {
    GfMulPowers(i, j);
    ExpMod(i + j);
    Lift(GfMul(Exp(i), Exp(j)), Exp((i + j) % 255));
  }

  lemma AlphaNonZero(i: nat)
    requires i < 256
    ensures Alpha(i) != Zero
  {
    ExpNonZero(if i < 255 then i else 0);
  }
}
