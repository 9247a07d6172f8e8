/**
 * Polynomials over GF(256), stored as coefficient sequences with the highest
 * power first (the layout of `polyMul`, `generateGenerator` and `rsEncode`).
 * Addition is coefficient-wise XOR; the product is the schoolbook sum of
 * shifted, scaled copies of one factor.
 */
module Polynomial {
  import opened Field

  type Poly = seq<Elem>

  function Zeros(n: nat): (r: Poly)
    ensures |r| == n && forall k | 0 <= k < n :: r[k] == Zero
  {
    seq(n, _ => Zero)
  }

  /** Coefficient-wise sum (XOR) of two polynomials of the same length. */
  function Add(p: Poly, q: Poly): (r: Poly)
    requires |p| == |q|
    ensures |r| == |p| && forall k | 0 <= k < |p| :: r[k] == Plus(p[k], q[k])
  {
    seq(|p|, k requires 0 <= k < |p| => Plus(p[k], q[k]))
  }

  /** Every coefficient multiplied by `c` on the left, as in `gfMul(p1[i], p2[j])`. */
  function Scale(c: Elem, p: Poly): (r: Poly)
    ensures |r| == |p| && forall k | 0 <= k < |p| :: r[k] == Times(c, p[k])
  {
    seq(|p|, k requires 0 <= k < |p| => Times(c, p[k]))
  }

  /** `c * q`, shifted so that its leading coefficient sits at index `i` of a length-`len` buffer. */
  function Placed(c: Elem, q: Poly, i: nat, len: nat): (r: Poly)
    requires i + |q| <= len
    ensures |r| == len
  {
    Zeros(i) + Scale(c, q) + Zeros(len - i - |q|)
  }

  lemma PlacedAt(c: Elem, q: Poly, i: nat, len: nat, k: nat)
    requires i + |q| <= len && k < len
    ensures Placed(c, q, i, len)[k] == if i <= k < i + |q| then Times(c, q[k - i]) else Zero
  {
  }

  lemma AddZeros(p: Poly)
    ensures Add(p, Zeros(|p|)) == p
  {
    forall k | 0 <= k < |p| ensures Add(p, Zeros(|p|))[k] == p[k] {
      PlusZero(p[k]);
    }
  }

  lemma AddAssociative(a: Poly, b: Poly, c: Poly)
    requires |a| == |b| == |c|
    ensures Add(Add(a, b), c) == Add(a, Add(b, c))
  {
    forall k | 0 <= k < |a| ensures Add(Add(a, b), c)[k] == Add(a, Add(b, c))[k] {
      PlusAssociative(a[k], b[k], c[k]);
    }
  }

  /** Sums of four polynomials regroup freely. */
  lemma AddSwap(a: Poly, b: Poly, c: Poly, d: Poly)
    requires |a| == |b| == |c| == |d|
    ensures Add(Add(a, b), Add(c, d)) == Add(Add(a, c), Add(b, d))
  {
    forall k | 0 <= k < |a| ensures Add(Add(a, b), Add(c, d))[k] == Add(Add(a, c), Add(b, d))[k] {
      PlusSwap(a[k], b[k], c[k], d[k]);
    }
  }

  /** A placed copy scaled by zero contributes nothing. */
  lemma PlacedZero(q: Poly, i: nat, len: nat)
    requires i + |q| <= len
    ensures Placed(Zero, q, i, len) == Zeros(len)
  {
    forall k | 0 <= k < len ensures Placed(Zero, q, i, len)[k] == Zero {
      PlacedAt(Zero, q, i, len, k);
      if i <= k < i + |q| {
        TimesZero(Zero, q[k - i]);
      }
    }
  }

  /** Placing is linear in the scale factor. */
  lemma PlacedLinear(a: Elem, b: Elem, q: Poly, i: nat, len: nat)
    requires i + |q| <= len
    ensures Placed(Plus(a, b), q, i, len) == Add(Placed(a, q, i, len), Placed(b, q, i, len))
  {
    forall k | 0 <= k < len
      ensures Placed(Plus(a, b), q, i, len)[k] == Add(Placed(a, q, i, len), Placed(b, q, i, len))[k]
    {
      PlacedAt(Plus(a, b), q, i, len, k);
      PlacedAt(a, q, i, len, k);
      PlacedAt(b, q, i, len, k);
      if i <= k < i + |q| {
        TimesRightDistributive(a, b, q[k - i]);
      } else {
        PlusZero(Zero);
      }
    }
  }

  /**
   * Placing one more coefficient of `q` is a single update at index `i + j`:
   * the step of the inner loops of `polyMul` and `rsEncode`.
   */
  lemma AddPlacedStep(r: Poly, c: Elem, q: Poly, i: nat, j: nat, len: nat)
    requires j < |q| && i + |q| <= len && |r| == len
    ensures Add(r, Placed(c, q[..j + 1], i, len))
         == Add(r, Placed(c, q[..j], i, len))[i + j := Plus(Add(r, Placed(c, q[..j], i, len))[i + j], Times(c, q[j]))]
  {
    var a, b := Add(r, Placed(c, q[..j + 1], i, len)), Add(r, Placed(c, q[..j], i, len));
    forall k | 0 <= k < len ensures a[k] == b[i + j := Plus(b[i + j], Times(c, q[j]))][k] {
      PlacedAt(c, q[..j + 1], i, len, k);
      PlacedAt(c, q[..j], i, len, k);
      if k == i + j {
        PlusZero(r[k]);
      }
    }
  }

  /**
   * The rows of the schoolbook product: the sum, for every coefficient `p[j]`,
   * of `p[j] * q` placed at index `j`, in a buffer of length `len`.
   */
  function Rows(p: Poly, q: Poly, len: nat): (r: Poly)
    requires |p| + |q| <= len + 1
    ensures |r| == len
  {
    if |p| == 0 then Zeros(len)
    else Add(Rows(p[..|p| - 1], q, len), Placed(p[|p| - 1], q, |p| - 1, len))
  }

  /**
   * `polyMul(p1, p2)`: a buffer of `|p1| + |p2| - 1` zeros into which every
   * product `p1[i] * p2[j]` is added at index `i + j`.
   */
  function Product(p: Poly, q: Poly): (r: Poly)
    requires |p| + |q| >= 1
    ensures |r| == |p| + |q| - 1
  {
    Rows(p, q, |p| + |q| - 1)
  }

  lemma ProductIsRows(p: Poly, q: Poly, len: nat)
    requires |p| + |q| == len + 1
    ensures Product(p, q) == Rows(p, q, len)
  {
  }

  /** The coefficient of `x^k` contributed by the first `n` rows: an independent convolution formula. */
  function Conv(p: Poly, q: Poly, k: int, n: nat): Elem
    requires n <= |p|
  {
    if n == 0 then Zero else Plus(Conv(p, q, k, n - 1), Term(p[n - 1], q, k - (n - 1)))
  }

  /** `c * q[d]`, or zero when `d` is outside `q`. */
  function Term(c: Elem, q: Poly, d: int): Elem
  {
    if 0 <= d < |q| then Times(c, q[d]) else Zero
  }

  lemma {:induction false} RowsCoefficient(p: Poly, q: Poly, len: nat, k: nat)
    requires |p| + |q| <= len + 1 && k < len
    ensures Rows(p, q, len)[k] == Conv(p, q, k, |p|)
  {
    if |p| > 0 {
      var n, p' := |p|, p[..|p| - 1];
      var c, t := Conv(p, q, k, n - 1), Placed(p[n - 1], q, n - 1, len)[k];
      assert Rows(p', q, len)[k] == c by {
        RowsCoefficient(p', q, len, k);
        ConvPrefix(p, p', q, k, n - 1);
      }
      assert Rows(p, q, len)[k] == Plus(c, t) by {
        RowsAt(p, q, len, k, p', n);
      }
      assert t == Term(p[n - 1], q, k - (n - 1)) by {
        PlacedTerm(p[n - 1], q, n - 1, len, k);
      }
      ConvAt(p, q, k, n);
    }
  }

  lemma RowsAt(p: Poly, q: Poly, len: nat, k: nat, p': Poly, n: nat)
    requires |p| > 0 && |p| + |q| <= len + 1 && k < len
    requires n == |p| && p' == p[..n - 1]
    ensures Rows(p, q, len)[k] == Plus(Rows(p', q, len)[k], Placed(p[n - 1], q, n - 1, len)[k])
  {
  }

  lemma ConvAt(p: Poly, q: Poly, k: int, n: nat)
    requires 0 < n <= |p|
    ensures Conv(p, q, k, n) == Plus(Conv(p, q, k, n - 1), Term(p[n - 1], q, k - (n - 1)))
  {
  }

  /** `PlacedAt` in the shape of a convolution term. */
  lemma PlacedTerm(c: Elem, q: Poly, i: nat, len: nat, k: nat)
    requires i + |q| <= len && k < len
    ensures Placed(c, q, i, len)[k] == Term(c, q, k - i)
  {
    PlacedAt(c, q, i, len, k);
  }

  /** `Conv` only reads the first `n` coefficients. */
  lemma {:induction false} ConvPrefix(p: Poly, p': Poly, q: Poly, k: int, n: nat)
    requires n <= |p| && n <= |p'| && p[..n] == p'[..n]
    ensures Conv(p, q, k, n) == Conv(p', q, k, n)
  {
    if n > 0 {
      assert p[n - 1] == p[..n][n - 1];
      assert p'[n - 1] == p'[..n][n - 1];
      assert p[..n - 1] == p[..n][..n - 1];
      assert p'[..n - 1] == p'[..n][..n - 1];
      ConvPrefix(p, p', q, k, n - 1);
    }
  }

  /** The product's coefficients are the convolution of the factors' coefficients. */
  lemma ProductCoefficient(p: Poly, q: Poly, k: nat)
    requires |p| + |q| >= 1 && k < |p| + |q| - 1
    ensures Product(p, q)[k] == Conv(p, q, k, |p|)
  {
    RowsCoefficient(p, q, |p| + |q| - 1, k);
  }

  /** Only the product of the two leading coefficients reaches index 0. */
  lemma {:induction false} ConvFirst(p: Poly, q: Poly, n: nat)
    requires 1 <= n <= |p| && |q| >= 1
    ensures Conv(p, q, 0, n) == Times(p[0], q[0])
  {
    if n == 1 {
      PlusZero(Times(p[0], q[0]));
    } else {
      ConvFirst(p, q, n - 1);
      PlusZero(Times(p[0], q[0]));
    }
  }

  lemma ProductLeading(p: Poly, q: Poly)
    requires |p| >= 1 && |q| >= 1
    ensures Product(p, q)[0] == Times(p[0], q[0])
  {
    ProductCoefficient(p, q, 0);
    ConvFirst(p, q, |p|);
  }

  /** `x^e` in the field. */
  function Pow(x: Elem, e: nat): Elem
  {
    if e == 0 then One else Times(Pow(x, e - 1), x)
  }

  /** The value of `p` at `x`, by Horner's rule from the leading coefficient. */
  function Eval(p: Poly, x: Elem): Elem
  {
    if |p| == 0 then Zero else Plus(Times(Eval(p[..|p| - 1], x), x), p[|p| - 1])
  }

  /** Evaluation is additive. */
  lemma {:induction false} EvalAdd(p: Poly, q: Poly, x: Elem)
    requires |p| == |q|
    ensures Eval(Add(p, q), x) == Plus(Eval(p, x), Eval(q, x))
  {
    if |p| > 0 {
      var n := |p|;
      var p', q', s := p[..n - 1], q[..n - 1], Add(p, q);
      assert s[..n - 1] == Add(p', q');
      EvalAdd(p', q', x);
      var a, b := Eval(p', x), Eval(q', x);
      TimesRightDistributive(a, b, x);
      PlusSwap(Times(a, x), Times(b, x), p[n - 1], q[n - 1]);
    }
  }

  lemma {:induction false} EvalZeros(n: nat, x: Elem)
    ensures Eval(Zeros(n), x) == Zero
  {
    if n > 0 {
      assert Zeros(n)[..n - 1] == Zeros(n - 1);
      EvalZeros(n - 1, x);
      TimesZero(Zero, x);
      PlusZero(Zero);
    }
  }

  /** Leading zero coefficients do not change the value. */
  lemma {:induction false} EvalZerosPrefix(n: nat, p: Poly, x: Elem)
    ensures Eval(Zeros(n) + p, x) == Eval(p, x)
    decreases |p|
  {
    if |p| == 0 {
      assert Zeros(n) + p == Zeros(n);
      EvalZeros(n, x);
    } else {
      var m := |p|;
      assert (Zeros(n) + p)[..n + m - 1] == Zeros(n) + p[..m - 1];
      EvalZerosPrefix(n, p[..m - 1], x);
    }
  }

  /** Trailing zero coefficients multiply the value by a power of `x`. */
  lemma {:induction false} EvalZerosSuffix(p: Poly, m: nat, x: Elem)
    ensures Eval(p + Zeros(m), x) == Times(Eval(p, x), Pow(x, m))
  {
    if m == 0 {
      assert p + Zeros(m) == p;
      TimesOne(Eval(p, x));
    } else {
      var n := |p|;
      assert (p + Zeros(m))[..n + m - 1] == p + Zeros(m - 1);
      EvalZerosSuffix(p, m - 1, x);
      TimesAssociative(Eval(p, x), Pow(x, m - 1), x);
      PlusZero(Times(Times(Eval(p, x), Pow(x, m - 1)), x));
    }
  }

  lemma {:induction false} EvalScale(c: Elem, p: Poly, x: Elem)
    ensures Eval(Scale(c, p), x) == Times(c, Eval(p, x))
  {
    if |p| == 0 {
      TimesZero(c, Zero);
    } else {
      var n := |p|;
      assert Scale(c, p)[..n - 1] == Scale(c, p[..n - 1]);
      EvalScale(c, p[..n - 1], x);
      TimesAssociative(c, Eval(p[..n - 1], x), x);
      TimesDistributive(c, Times(Eval(p[..n - 1], x), x), p[n - 1]);
    }
  }

  lemma EvalPlaced(c: Elem, q: Poly, i: nat, len: nat, x: Elem)
    requires i + |q| <= len
    ensures Eval(Placed(c, q, i, len), x) == Times(Times(c, Eval(q, x)), Pow(x, len - i - |q|))
  {
    var m := len - i - |q|;
    var tail := Scale(c, q) + Zeros(m);
    assert Placed(c, q, i, len) == Zeros(i) + tail;
    assert Eval(Zeros(i) + tail, x) == Eval(tail, x) by {
      EvalZerosPrefix(i, tail, x);
    }
    assert Eval(tail, x) == Times(Eval(Scale(c, q), x), Pow(x, m)) by {
      EvalZerosSuffix(Scale(c, q), m, x);
    }
    EvalScale(c, q, x);
  }

  /** The field rearrangement behind one Horner step of `EvalRows`. */
  lemma HornerStep(a: Elem, c: Elem, g: Elem, x: Elem, t: Elem)
    ensures Plus(Times(Times(a, g), Times(t, x)), Times(Times(c, g), t))
         == Times(Times(Plus(Times(a, x), c), g), t)
  {
    TimesRightDistributive(Times(a, x), c, g);
    TimesRightDistributive(Times(Times(a, x), g), Times(c, g), t);
    TimesAssociative(a, x, g);
    TimesCommutative(x, g);
    TimesAssociative(a, g, x);
    TimesAssociative(Times(a, g), x, t);
    TimesCommutative(x, t);
    TimesAssociative(Times(a, g), t, x);
  }

  lemma {:induction false} EvalRows(p: Poly, q: Poly, len: nat, x: Elem)
    requires |p| + |q| <= len + 1
    ensures Eval(Rows(p, q, len), x) == Times(Times(Eval(p, x), Eval(q, x)), Pow(x, len + 1 - |p| - |q|))
  {
    if |p| == 0 {
      EvalZeros(len, x);
      TimesZero(Zero, Eval(q, x));
      TimesZero(Zero, Pow(x, len + 1 - |q|));
    } else {
      var n := |p|;
      var p', c := p[..n - 1], p[n - 1];
      EvalRows(p', q, len, x);
      EvalPlaced(c, q, n - 1, len, x);
      EvalAdd(Rows(p', q, len), Placed(c, q, n - 1, len), x);
      HornerStep(Eval(p', x), c, Eval(q, x), x, Pow(x, len + 1 - n - |q|));
    }
  }

  /** Evaluation turns the product of polynomials into the product of values. */
  lemma EvalProduct(p: Poly, q: Poly, x: Elem)
    requires |p| + |q| >= 1
    ensures Eval(Product(p, q), x) == Times(Eval(p, x), Eval(q, x))
  {
    var v := Times(Eval(p, x), Eval(q, x));
    assert Eval(Product(p, q), x) == Times(v, Pow(x, 0)) by {
      EvalRows(p, q, |p| + |q| - 1, x);
    }
    TimesOne(v);
  }
}
