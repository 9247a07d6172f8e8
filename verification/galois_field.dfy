/**
 * Arithmetic in GF(256) with the field polynomial x^8 + x^4 + x^3 + x^2 + 1
 * (0x11D), the field of the Reed-Solomon code. The exponent table holds the
 * successive powers of the generator 2; the logarithm table is its inverse.
 * Multiplication adds logarithms modulo 255.
 */
module GaloisField {
  import Bits

  /**
   * One step of the table loop: multiply by the generator 2, reducing by
   * 0x11D when the product leaves the byte. Written without a branch: the
   * top bit, spread to a mask, selects the reduction 0x1D.
   */
  function Double(x: bv8): bv8
  {
    (x << 1) ^ ((0 - (x >> 7)) & 0x1D)
  }

  /** `Double` is the step of `initTables`' loop, on a 16-bit intermediate. */
  lemma DoubleIsTableStep(x: bv8)
    ensures var y := (x as bv16) * 2;
            Double(x) as bv16 == if y > 255 then y ^ 0x11D else y
  {
  }

  lemma DoubleLinear(a: bv8, b: bv8)
    ensures Double(a ^ b) == Double(a) ^ Double(b)
  {
  }

  lemma DoubleInjective(a: bv8, b: bv8)
    ensures Double(a) == Double(b) ==> a == b
  {
  }

  lemma DoubleNonZero(a: bv8)
    ensures a != 0 ==> Double(a) != 0
    ensures Double(0) == 0
  {
  }

  /** `x` multiplied `k` times by the generator. */
  function Shift(x: bv8, k: nat): bv8
  {
    if k == 0 then x else Double(Shift(x, k - 1))
  }

  /** The `i`-th power of the generator: the value of `x` in round `i` of the table loop. */
  function Exp(i: nat): bv8
  {
    Shift(1, i)
  }

  lemma {:induction false} ShiftAdd(x: bv8, a: nat, b: nat)
    ensures Shift(x, a + b) == Shift(Shift(x, a), b)
    decreases b
  {
    if b > 0 {
      ShiftAdd(x, a, b - 1);
    }
  }

  lemma {:induction false} ShiftLinear(x: bv8, y: bv8, k: nat)
    ensures Shift(x ^ y, k) == Shift(x, k) ^ Shift(y, k)
  {
    if k > 0 {
      ShiftLinear(x, y, k - 1);
      DoubleLinear(Shift(x, k - 1), Shift(y, k - 1));
    }
  }

  lemma {:induction false} ShiftInjective(x: bv8, y: bv8, k: nat)
    requires Shift(x, k) == Shift(y, k)
    ensures x == y
  {
    if k > 0 {
      DoubleInjective(Shift(x, k - 1), Shift(y, k - 1));
      ShiftInjective(x, y, k - 1);
    }
  }

  lemma {:induction false} ShiftNonZero(x: bv8, k: nat)
    ensures x != 0 ==> Shift(x, k) != 0
    ensures Shift(0, k) == 0
  {
    if k > 0 {
      ShiftNonZero(x, k - 1);
      DoubleNonZero(Shift(x, k - 1));
      DoubleNonZero(0);
    }
  }

  lemma ExpAdd(a: nat, b: nat)
    ensures Exp(a + b) == Shift(Exp(a), b)
  {
    ShiftAdd(1, a, b);
  }

  lemma ExpNonZero(i: nat)
    ensures Exp(i) != 0
  {
    ShiftNonZero(1, i);
  }

  /** One computed stretch of the power sequence. */
  lemma Stretch(i: nat, c: bv8, k: nat, d: bv8)
    requires Exp(i) == c && Shift(c, k) == d
    ensures Exp(i + k) == d
  {
    ExpAdd(i, k);
  }

  /** The powers the order argument needs, computed twelve steps at a time. */
  lemma ExpValues()
    ensures Exp(15) == 38 && Exp(51) == 10 && Exp(85) == 214 && Exp(255) == 1
  {
    Stretch(0, 1, 12, 205);
    Stretch(12, 205, 3, 38);
    Stretch(12, 205, 12, 143);
    Stretch(24, 143, 12, 37);
    Stretch(36, 37, 12, 70);
    Stretch(48, 70, 3, 10);
    Stretch(48, 70, 12, 185);
    Stretch(60, 185, 12, 101);
    Stretch(72, 101, 12, 107);
    Stretch(84, 107, 1, 214);
    Stretch(84, 107, 12, 217);
    Stretch(96, 217, 12, 208);
    Stretch(108, 208, 12, 59);
    Stretch(120, 59, 12, 184);
    Stretch(132, 184, 12, 168);
    Stretch(144, 168, 12, 228);
    Stretch(156, 228, 12, 252);
    Stretch(168, 252, 12, 150);
    Stretch(180, 150, 12, 130);
    Stretch(192, 130, 12, 221);
    Stretch(204, 221, 12, 195);
    Stretch(216, 195, 12, 61);
    Stretch(228, 61, 12, 44);
    Stretch(240, 44, 12, 173);
    Stretch(252, 173, 3, 1);
  }

  /** The powers repeat with period 255. */
  lemma ExpPeriodic(i: nat)
    ensures Exp(i + 255) == Exp(i)
  {
    ExpValues();
    ShiftAdd(1, 255, i);
    ShiftAdd(1, i, 255);
    ExpAdd(i, 255);
    ExpAdd(255, i);
    assert i + 255 == 255 + i;
  }

  lemma {:induction false} ExpMod(i: nat)
    ensures Exp(i) == Exp(i % 255)
    decreases i
  {
    if i >= 255 {
      ExpPeriodic(i - 255);
      ExpMod(i - 255);
    }
  }

  /** If two powers agree, so do powers at the difference of their exponents. */
  lemma ExpCancel(a: nat, b: nat)
    requires b <= a && Exp(a) == Exp(b)
    ensures Exp(a - b) == 1
  {
    ExpAdd(b, a - b);
    assert Exp(a) == Shift(Exp(b), a - b);
    ShiftAdd(1, a - b, b);
    ShiftAdd(1, b, a - b);
    assert Shift(Exp(a - b), b) == Exp(a);
    assert Shift(Exp(0), b) == Exp(b);
    ShiftInjective(Exp(a - b), 1, b);
  }

  lemma {:induction false} ExpMultiple(k: nat, m: nat)
    requires Exp(k) == 1
    ensures Exp(k * m) == 1
  {
    if m > 0 {
      ExpMultiple(k, m - 1);
      assert k * m == k * (m - 1) + k;
      ExpAdd(k * (m - 1), k);
    }
  }

  /** A power that is 1 at `a` and `b >= 1` is 1 at `a % b`. */
  lemma {:induction false} ExpModOne(a: nat, b: nat)
    requires b >= 1 && Exp(a) == 1 && Exp(b) == 1
    ensures Exp(a % b) == 1
    decreases a
  {
    if a >= b {
      ExpCancel(a, b);
      ExpModOne(a - b, b);
      Bits.DivModUnique(a, b, (a - b) / b + 1, (a - b) % b);
    }
  }

  function Gcd(a: nat, b: nat): nat
    decreases b
  {
    if b == 0 then a else Gcd(b, a % b)
  }

  lemma {:induction false} ExpGcd(a: nat, b: nat)
    requires Exp(a) == 1 && Exp(b) == 1
    ensures Exp(Gcd(a, b)) == 1
    decreases b
  {
    if b > 0 {
      ExpModOne(a, b);
      ExpGcd(b, a % b);
    }
  }

  /** A power that is 1 at `k` is 1 at every multiple of `k`, taken modulo 255. */
  lemma ExpMultipleMod(k: nat, c: nat)
    requires Exp(k) == 1
    ensures Exp(k * c % 255) == 1
  {
    ExpValues();
    ExpMultiple(k, c);
    ExpModOne(k * c, 255);
  }

  /** `k * (255 / p)` modulo 255 is `(k % p) * (255 / p)`. */
  lemma MulCofactor(k: nat, p: nat)
    requires p == 3 || p == 5 || p == 17
    ensures k * (255 / p) % 255 == k % p * (255 / p)
  {
    if p == 3 {
      Bits.DivModUnique(k * 85, 255, k / 3, 85 * (k % 3));
    } else if p == 5 {
      Bits.DivModUnique(k * 51, 255, k / 5, 51 * (k % 5));
    } else {
      Bits.DivModUnique(k * 15, 255, k / 17, 15 * (k % 17));
    }
  }

  lemma GcdCofactor17(b: nat)
    requires 1 <= b < 17
    ensures Gcd(15 * b, 255) == 15
  {
    if b == 1 {
      assert Gcd(15, 255) == 15;
    } else if b == 2 {
      assert Gcd(30, 255) == 15;
    } else if b == 3 {
      assert Gcd(45, 255) == 15;
    } else if b == 4 {
      assert Gcd(60, 255) == 15;
    } else if b == 5 {
      assert Gcd(75, 255) == 15;
    } else if b == 6 {
      assert Gcd(90, 255) == 15;
    } else if b == 7 {
      assert Gcd(105, 255) == 15;
    } else if b == 8 {
      assert Gcd(120, 255) == 15;
    } else if b == 9 {
      assert Gcd(135, 255) == 15;
    } else if b == 10 {
      assert Gcd(150, 255) == 15;
    } else if b == 11 {
      assert Gcd(165, 255) == 15;
    } else if b == 12 {
      assert Gcd(180, 255) == 15;
    } else if b == 13 {
      assert Gcd(195, 255) == 15;
    } else if b == 14 {
      assert Gcd(210, 255) == 15;
    } else if b == 15 {
      assert Gcd(225, 255) == 15;
    } else if b == 16 {
      assert Gcd(240, 255) == 15;
    }
  }

  lemma GcdCofactor5(b: nat)
    requires 1 <= b < 5
    ensures Gcd(51 * b, 255) == 51
  {
    if b == 1 {
      assert Gcd(51, 255) == 51;
    } else if b == 2 {
      assert Gcd(102, 255) == 51;
    } else if b == 3 {
      assert Gcd(153, 255) == 51;
    } else if b == 4 {
      assert Gcd(204, 255) == 51;
    }
  }

  lemma GcdCofactor3(b: nat)
    requires 1 <= b < 3
    ensures Gcd(85 * b, 255) == 85
  {
    if b == 1 {
      assert Gcd(85, 255) == 85;
    } else if b == 2 {
      assert Gcd(170, 255) == 85;
    }
  }

  /**
   * For each prime factor `p` of 255 = 3 * 5 * 17: if the power at `k` is 1
   * then `p` divides `k`, because otherwise the power at `255 / p` would be 1.
   */
  lemma PrimeFactor17(k: nat)
    requires Exp(k) == 1
    ensures k % 17 == 0
  {
    ExpValues();
    ExpMultipleMod(k, 15);
    MulCofactor(k, 17);
    var b := k % 17;
    if b != 0 {
      assert Exp(15 * b) == 1;
      GcdCofactor17(b);
      ExpGcd(15 * b, 255);
    }
  }

  lemma PrimeFactor5(k: nat)
    requires Exp(k) == 1
    ensures k % 5 == 0
  {
    ExpValues();
    ExpMultipleMod(k, 51);
    MulCofactor(k, 5);
    var b := k % 5;
    if b != 0 {
      assert Exp(51 * b) == 1;
      GcdCofactor5(b);
      ExpGcd(51 * b, 255);
    }
  }

  lemma PrimeFactor3(k: nat)
    requires Exp(k) == 1
    ensures k % 3 == 0
  {
    ExpValues();
    ExpMultipleMod(k, 85);
    MulCofactor(k, 3);
    var b := k % 3;
    if b != 0 {
      assert Exp(85 * b) == 1;
      GcdCofactor3(b);
      ExpGcd(85 * b, 255);
    }
  }

  /** 2 generates the multiplicative group: its order is exactly 255. */
  lemma ExpOrder(k: nat)
    requires 0 < k < 255
    ensures Exp(k) != 1
  {
    if Exp(k) == 1 {
      PrimeFactor17(k);
      PrimeFactor5(k);
      PrimeFactor3(k);
    }
  }

  /** The first 255 powers are pairwise distinct. */
  lemma ExpInjective(i: nat, j: nat)
    requires i < 255 && j < 255 && Exp(i) == Exp(j)
    ensures i == j
  {
    if i < j {
      ExpCancel(j, i);
      ExpOrder(j - i);
    } else if j < i {
      ExpCancel(i, j);
      ExpOrder(i - j);
    }
  }

  /** The values of the first `n` powers, as integers. */
  function PowerSet(n: nat): set<int>
  {
    set i | 0 <= i < n :: Exp(i) as int
  }

  lemma {:induction false} PowerSetSize(n: nat)
    requires n <= 255
    ensures |PowerSet(n)| == n
  {
    if n > 0 {
      PowerSetSize(n - 1);
      assert PowerSet(n) == PowerSet(n - 1) + {Exp(n - 1) as int};
      if Exp(n - 1) as int in PowerSet(n - 1) {
        var i :| 0 <= i < n - 1 && Exp(i) as int == Exp(n - 1) as int;
        ExpInjective(i, n - 1);
      }
    }
  }

  function Range(lo: int, hi: int): set<int>
    decreases hi - lo
  {
    if lo >= hi then {} else Range(lo, hi - 1) + {hi - 1}
  }

  lemma {:induction false} RangeMembers(lo: int, hi: int, x: int)
    ensures x in Range(lo, hi) <==> lo <= x < hi
    decreases hi - lo
  {
    if lo < hi {
      RangeMembers(lo, hi - 1, x);
    }
  }

  lemma {:induction false} RangeSize(lo: int, hi: int)
    requires lo <= hi
    ensures |Range(lo, hi)| == hi - lo
    decreases hi - lo
  {
    if lo < hi {
      RangeSize(lo, hi - 1);
      RangeMembers(lo, hi - 1, hi - 1);
    }
  }

  lemma SubsetSameSize<T>(a: set<T>, b: set<T>)
    requires a <= b && |a| == |b|
    ensures a == b
  {
    assert |b - a| == |b| - |a|;
  }

  lemma PowersNonZero()
    ensures PowerSet(255) <= Range(1, 256)
  {
    forall v | v in PowerSet(255)
      ensures v in Range(1, 256)
    {
      var i :| 0 <= i < 255 && Exp(i) as int == v;
      ExpNonZero(i);
      RangeMembers(1, 256, v);
    }
  }

  /** Every non-zero byte is one of the first 255 powers. */
  lemma ExpSurjective(v: int)
    requires 1 <= v < 256
    ensures exists i :: 0 <= i < 255 && Exp(i) as int == v
  {
    PowerSetSize(255);
    RangeSize(1, 256);
    PowersNonZero();
    SubsetSameSize(PowerSet(255), Range(1, 256));
    RangeMembers(1, 256, v);
  }

  /** `GF_EXP[i]`: the powers for `i < 255`, then `GF_EXP[255] = GF_EXP[0]`. */
  function ExpTable(i: nat): bv8
    requires i < 256
  {
    if i < 255 then Exp(i) else Exp(0)
  }

  /**
   * `GF_LOG[y]` after the loop: the last round `i < n` whose power is `y`
   * (the table is overwritten in round order), 0 if there is none.
   */
  function LastRound(y: int, n: nat): (r: nat)
    ensures n > 0 ==> r < n
  {
    if n == 0 then 0 else if Exp(n - 1) as int == y then n - 1 else LastRound(y, n - 1)
  }

  function LogTable(y: bv8): nat
  {
    LastRound(y as int, 255)
  }

  lemma {:induction false} LastRoundFinds(y: int, n: nat, i: nat)
    requires i < n && Exp(i) as int == y
    ensures Exp(LastRound(y, n)) as int == y
    ensures i <= LastRound(y, n)
  {
    if Exp(n - 1) as int != y {
      LastRoundFinds(y, n - 1, i);
    }
  }

  /** The logarithm table inverts the exponent table on non-zero bytes. */
  lemma ExpLog(y: bv8)
    requires y != 0
    ensures LogTable(y) < 255 && Exp(LogTable(y)) == y
  {
    ExpSurjective(y as int);
    var i :| 0 <= i < 255 && Exp(i) as int == y as int;
    LastRoundFinds(y as int, 255, i);
  }

  lemma LogExp(i: nat)
    requires i < 255
    ensures LogTable(Exp(i)) == i
  {
    LastRoundFinds(Exp(i) as int, 255, i);
    ExpInjective(LogTable(Exp(i)), i);
  }

  /**
   * `initTables`: fills both tables in one pass over the powers of 2,
   * then copies `GF_EXP[0]` to `GF_EXP[255]`.
   */
  method InitTables() returns (exp: seq<bv8>, log: seq<nat>)
    ensures |exp| == 256 && |log| == 256
    ensures forall i | 0 <= i < 256 :: exp[i] == ExpTable(i)
    ensures forall y: bv8 :: log[y as int] == LogTable(y)
    ensures forall v | 1 <= v < 256 :: log[v] < 255 && exp[log[v]] as int == v
    ensures forall i | 0 <= i < 255 :: log[exp[i] as int] == i
  {
    exp := seq(256, _ => 0);
    log := seq(256, _ => 0);
    var x: bv8 := 1;
    for i := 0 to 255
      invariant |exp| == 256 && |log| == 256
      invariant x == Exp(i)
      invariant forall k | 0 <= k < i :: exp[k] == Exp(k)
      invariant forall v | 0 <= v < 256 :: log[v] == LastRound(v, i)
    {
      exp := exp[i := x];
      log := log[x as int := i];
      x := Double(x);
    }
    exp := exp[255 := exp[0]];
    TablesInverse(exp, log);
  }

  /** The logarithm of a byte value, found among the first 255 powers, is its exponent. */
  lemma ExpLastRound(v: int)
    requires 1 <= v < 256
    ensures LastRound(v, 255) < 255 && Exp(LastRound(v, 255)) as int == v
  {
    ExpSurjective(v);
    var i :| 0 <= i < 255 && Exp(i) as int == v;
    LastRoundFinds(v, 255, i);
  }

  /** Tables holding the powers and the logarithms invert each other. */
  lemma TablesInverse(exp: seq<bv8>, log: seq<nat>)
    requires |exp| == 256 && |log| == 256
    requires forall i | 0 <= i < 256 :: exp[i] == ExpTable(i)
    requires forall v | 0 <= v < 256 :: log[v] == LastRound(v, 255)
    ensures forall v | 1 <= v < 256 :: log[v] < 255 && exp[log[v]] as int == v
    ensures forall i | 0 <= i < 255 :: log[exp[i] as int] == i
  {
    forall v | 1 <= v < 256
      ensures log[v] < 255 && exp[log[v]] as int == v
    {
      ExpLastRound(v);
    }
    forall i | 0 <= i < 255
      ensures log[exp[i] as int] == i
    {
      LogExp(i);
    }
  }

  /** `gfMul`: zero if either factor is, else the power at the sum of the logarithms. */
  function GfMul(x: bv8, y: bv8): bv8
  {
    if x == 0 || y == 0 then 0 else ExpTable((LogTable(x) + LogTable(y)) % 255)
  }

  /** Multiplying by `y` is shifting by the logarithm of `y`. */
  lemma GfMulIsShift(x: bv8, y: bv8)
    requires y != 0
    ensures GfMul(x, y) == Shift(x, LogTable(y))
  {
    ShiftNonZero(x, LogTable(y));
    if x != 0 {
      ExpLog(x);
      ExpLog(y);
      var a, b := LogTable(x), LogTable(y);
      ExpMod(a + b);
      ExpAdd(a, b);
    }
  }

  lemma GfMulPowers(i: nat, j: nat)
    ensures GfMul(Exp(i), Exp(j)) == Exp(i + j)
  {
    ExpNonZero(i);
    ExpNonZero(j);
    GfMulIsShift(Exp(i), Exp(j));
    ExpMod(j);
    LogExp(j % 255);
    ExpAdd(i, j % 255);
    ExpMod(i + j % 255);
    ExpMod(i + j);
    assert (i + j % 255) % 255 == (i + j) % 255;
  }

  lemma GfMulCommutative(x: bv8, y: bv8)
    ensures GfMul(x, y) == GfMul(y, x)
  {
  }

  lemma GfMulOne(x: bv8)
    ensures GfMul(x, 1) == x && GfMul(1, x) == x
  {
    if x != 0 {
      LogExp(0);
      ExpLog(x);
    }
  }

  /** The field has no zero divisors. */
  lemma GfMulZero(x: bv8, y: bv8)
    ensures GfMul(x, y) == 0 <==> x == 0 || y == 0
  {
    if x != 0 && y != 0 {
      ExpNonZero((LogTable(x) + LogTable(y)) % 255);
    }
  }

  lemma GfMulDistributive(x: bv8, a: bv8, b: bv8)
    ensures GfMul(x, a ^ b) == GfMul(x, a) ^ GfMul(x, b)
  {
    GfMulCommutative(x, a ^ b);
    GfMulCommutative(x, a);
    GfMulCommutative(x, b);
    if x != 0 {
      GfMulIsShift(a ^ b, x);
      GfMulIsShift(a, x);
      GfMulIsShift(b, x);
      ShiftLinear(a, b, LogTable(x));
    }
  }

  lemma GfMulAssociative(x: bv8, y: bv8, z: bv8)
    ensures GfMul(GfMul(x, y), z) == GfMul(x, GfMul(y, z))
  {
    GfMulZero(x, y);
    GfMulZero(y, z);
    if x != 0 && y != 0 && z != 0 {
      ExpLog(x);
      ExpLog(y);
      ExpLog(z);
      var a, b, c := LogTable(x), LogTable(y), LogTable(z);
      GfMulPowers(a, b);
      GfMulPowers(b, c);
      GfMulPowers(a + b, c);
      GfMulPowers(a, b + c);
      assert a + b + c == a + (b + c);
    }
  }
}
