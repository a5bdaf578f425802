// Exact decimal scaling and powers of ten, standing in for the floating-point
// `math.Pow(10, p)`, the products and quotients by it, and `math.Log10` of the
// rounding heuristic.
//
// Scale(x, e) is x * 10^e. It is defined by repeated multiplication or
// division by ten so that every unfolding stays linear in x; the product form
// is recovered in ScaleIsProduct.

module Powers {

  /** 10^n over the naturals. */
  function Pow10Nat(n: nat): (r: nat)
    ensures r >= 1
  {
    if n == 0 then 1 else 10 * Pow10Nat(n - 1)
  }

  /** x * 10^e, for any integer exponent; it keeps the sign of x. */
  function Scale(x: real, e: int): (r: real)
    ensures x > 0.0 ==> r > 0.0
    ensures x == 0.0 ==> r == 0.0
    ensures x < 0.0 ==> r < 0.0
    decreases if e >= 0 then e else -e
  {
    if e == 0 then x
    else if e > 0 then Scale(10.0 * x, e - 1)
    else Scale(x / 10.0, e + 1)
  }

  /** 10^e over the reals (a negative exponent gives 1 / 10^-e). */
  function Pow10(e: int): (r: real)
    ensures r > 0.0
  {
    Scale(1.0, e)
  }

  predicate IsInteger(x: real) {
    x.Floor as real == x
  }

  /** Scaling commutes with multiplying by ten. */
  lemma {:induction false} ScaleTen(x: real, e: int)
    ensures Scale(10.0 * x, e) == 10.0 * Scale(x, e)
    decreases if e >= 0 then e else -e
  {
    if e > 0 {
      ScaleTen(10.0 * x, e - 1);
    } else if e < 0 {
      ScaleTen(x / 10.0, e + 1);
    }
  }

  /** One more power of ten is ten times as much. */
  lemma ScaleSucc(x: real, e: int)
    ensures Scale(x, e + 1) == 10.0 * Scale(x, e)
    ensures Scale(x, e + 1) == Scale(10.0 * x, e)
  {
    ScaleTen(x, e);
    if e < 0 {
      assert Scale(10.0 * x, e) == Scale(x, e + 1);
    }
  }

  /** Scaling is additive. */
  lemma {:induction false} ScaleAdd(x: real, y: real, e: int)
    ensures Scale(x + y, e) == Scale(x, e) + Scale(y, e)
    decreases if e >= 0 then e else -e
  {
    if e > 0 {
      ScaleAdd(10.0 * x, 10.0 * y, e - 1);
    } else if e < 0 {
      ScaleAdd(x / 10.0, y / 10.0, e + 1);
    }
  }

  /** Scaling preserves order, both ways. */
  lemma ScaleOrder(x: real, y: real, e: int)
    ensures x <= y <==> Scale(x, e) <= Scale(y, e)
    ensures x < y <==> Scale(x, e) < Scale(y, e)
  {
    ScaleAdd(x, y - x, e);
  }

  /** Scaling by 10^a and then by 10^b is scaling by 10^(a+b). */
  lemma {:induction false} ScaleCompose(x: real, a: int, b: int)
    ensures Scale(Scale(x, a), b) == Scale(x, a + b)
    decreases if a >= 0 then a else -a
  {
    if a > 0 {
      ScaleCompose(10.0 * x, a - 1, b);
      ScaleSucc(x, a + b - 1);
    } else if a < 0 {
      ScaleCompose(x / 10.0, a + 1, b);
      ScaleSucc(x / 10.0, a + b);
    }
  }

  /** Scaling up and back down returns the input. */
  lemma ScaleInverse(x: real, e: int)
    ensures Scale(Scale(x, e), -e) == x
  {
    ScaleCompose(x, e, -e);
  }

  /** A whole number scaled up stays whole. */
  lemma {:induction false} ScaleWhole(x: real, e: nat)
    requires IsInteger(x)
    ensures IsInteger(Scale(x, e))
    decreases e
  {
    if e > 0 {
      var n := x.Floor;
      assert 10.0 * x == (10 * n) as real;
      ScaleWhole((10 * n) as real, e - 1);
    }
  }

  lemma {:induction false} ScaleGrows(x: real, e: nat)
    requires x > 0.0 && e > 0
    ensures Scale(x, e) > x
    decreases e
  {
    if e > 1 {
      ScaleGrows(10.0 * x, e - 1);
    }
  }

  /** The real power of ten agrees with the natural one. */
  lemma {:induction false} Pow10Natural(n: nat)
    ensures Pow10(n) == Pow10Nat(n) as real
  {
    if n > 0 {
      Pow10Natural(n - 1);
      ScaleSucc(1.0, n - 1);
    }
  }

  lemma Pow10Succ(e: int)
    ensures Pow10(e + 1) == 10.0 * Pow10(e)
  {
    ScaleSucc(1.0, e);
  }

  /** Scaling a power of ten adds the exponents. */
  lemma ScalePow10(a: int, b: int)
    ensures Scale(Pow10(a), b) == Pow10(a + b)
  {
    ScaleCompose(1.0, a, b);
  }

  /** Scale is multiplication by the power of ten. */
  lemma {:induction false} ScaleIsProduct(x: real, e: int)
    ensures Scale(x, e) == x * Pow10(e)
    decreases if e >= 0 then e else -e
  {
    if e > 0 {
      ScaleIsProduct(10.0 * x, e - 1);
      ScaleSucc(1.0, e - 1);
      Regroup(x, Pow10(e - 1));
    } else if e < 0 {
      ScaleIsProduct(x / 10.0, e + 1);
      ScaleSucc(1.0, e);
      Regroup(x / 10.0, Pow10(e));
    }
  }

  lemma Regroup(x: real, y: real)
    ensures (10.0 * x) * y == x * (10.0 * y)
  {
  }

  /** Comparing two powers of ten is comparing their exponents. */
  lemma Pow10Order(a: int, b: int)
    ensures Pow10(a) <= Pow10(b) <==> a <= b
    ensures Pow10(a) < Pow10(b) <==> a < b
  {
    if a < b {
      ScalePow10(a, b - a);
      ScaleGrows(Pow10(a), b - a);
    } else if b < a {
      ScalePow10(b, a - b);
      ScaleGrows(Pow10(b), a - b);
    }
  }

  /** A non-negative power of ten is a whole number, at least one. */
  lemma Pow10Whole(e: int)
    requires e >= 0
    ensures IsInteger(Pow10(e)) && Pow10(e) >= 1.0
  {
    Pow10Natural(e);
  }

  /** The exact floor of log10 for positive integers: the digit count minus one. */
  function IntLog10(n: int): (k: nat)
    requires n >= 1
    ensures Pow10Nat(k) <= n < Pow10Nat(k + 1)
  {
    if n < 10 then 0 else 1 + IntLog10(n / 10)
  }

  /** The exact floor of log10 f for f >= 1: the k with 10^k <= f < 10^(k+1). */
  function Log10Floor(f: real): (k: nat)
    requires f >= 1.0
    ensures Pow10(k) <= f < Pow10(k + 1)
  {
    var k := IntLog10(f.Floor);
    Pow10Natural(k);
    Pow10Natural(k + 1);
    k
  }

  /** Log10Floor is the only exponent that brackets f. */
  lemma Log10FloorUnique(f: real, k: int)
    requires Pow10(k) <= f < Pow10(k + 1)
    requires f >= 1.0
    ensures Log10Floor(f) == k
  {
    var j := Log10Floor(f);
    Pow10Order(k, j + 1);
    Pow10Order(j, k + 1);
  }
}
