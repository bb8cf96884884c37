/** Binomial coefficients, hypergeometric counts, and expectation over Bernoulli trials, all exact. */
module Binomial {

  /** C(n, k), zero for an impossible choice. */
  function Choose(n: nat, k: int): nat {
    if k < 0 then 0
    else if n == 0 then (if k == 0 then 1 else 0)
    else Choose(n - 1, k - 1) + Choose(n - 1, k)
  }

  /** Pascal's rule, for every k. */
  lemma Pascal(n: nat, k: int)
    requires n > 0
    ensures Choose(n, k) == Choose(n - 1, k - 1) + Choose(n - 1, k)
    ensures k < 0 ==> Choose(n, k) == 0
  {
  }

  lemma ChooseNegative(n: nat, k: int)
    requires k < 0
    ensures Choose(n, k) == 0
  {
  }

  lemma {:induction false} ChooseRange(n: nat, k: int)
    ensures Choose(n, k) > 0 <==> 0 <= k <= n
  {
    if n > 0 && k >= 0 {
      ChooseRange(n - 1, k - 1);
      ChooseRange(n - 1, k);
    }
  }

  lemma {:induction false} ChooseEnds(n: nat)
    ensures Choose(n, 0) == 1 && Choose(n, n) == 1
  {
    if n > 0 {
      ChooseEnds(n - 1);
      ChooseRange(n - 1, -1);
      ChooseRange(n - 1, n);
    }
  }

  lemma {:induction false} Absorb(n: nat, k: int)
    requires n > 0
    ensures k * Choose(n, k) == n * Choose(n - 1, k - 1)
    decreases n
  {
    if k <= 0 {
      ChooseNegative(n - 1, k - 1);
      AbsorbZero(n, k);
    } else if n == 1 {
      AbsorbOne(k);
    } else {
      hide Choose;
      Absorb(n - 1, k);
      Absorb(n - 1, k - 1);
      var a, b := Choose(n - 2, k - 2), Choose(n - 2, k - 1);
      Pascal(n - 1, k - 1);
      Pascal(n, k);
      Distribute(k, Choose(n - 1, k - 1), Choose(n - 1, k));
      Distribute(k, Choose(n - 1, k - 1), 0);
      Distribute(n - 1, a, b);
      Distribute(n, a + b, 0);
    }
  }

  lemma AbsorbZero(n: nat, k: int)
    requires k <= 0
    ensures k * Choose(n, k) == 0
  {
  }

  lemma AbsorbOne(k: int)
    requires k > 0
    ensures k * Choose(1, k) == Choose(0, k - 1)
  {
    assert Choose(0, k) == 0;
    assert Choose(1, k) == Choose(0, k - 1) + Choose(0, k);
    if k > 1 {
      assert Choose(0, k - 1) == 0;
    }
  }

  lemma Distribute(x: int, y: int, z: int)
    ensures x * (y + z) == x * y + x * z
    ensures (x + 1) * y == x * y + y && (x - 1) * y == x * y - y
  {
  }

  lemma AbsorbBelow(n: nat, k: int)
    requires n > 0
    ensures (n - k) * Choose(n, k) == n * Choose(n - 1, k)
  {
    Absorb(n, k);
    if k >= 0 {
      Distribute(n, Choose(n - 1, k - 1), Choose(n - 1, k));
    }
    Distribute2(n, k, Choose(n, k));
  }

  lemma Distribute2(n: int, k: int, x: int)
    ensures (n - k) * x == n * x - k * x
  {
  }

  /** The ratio of neighbours along a row. */
  lemma NextInRow(n: nat, k: nat)
    ensures (k + 1) * Choose(n, k + 1) == (n - k) * Choose(n, k)
  {
    if n == 0 {
      assert Choose(0, k + 1) == 0;
    } else {
      Absorb(n, k + 1);
      AbsorbBelow(n, k);
    }
  }

  // ---------------------------------------------------------------- hypergeometric counts

  /** How many k-subsets of a successes and b failures hold at least t successes. */
  function Tail(a: nat, b: nat, k: int, t: int): nat
    decreases k + 1 - t
  {
    if t > k then 0 else Choose(a, t) * Choose(b, k - t) + Tail(a, b, k, t + 1)
  }

  /** One success more: either it is drawn or it is not. */
  lemma {:induction false} TailSuccess(a: nat, b: nat, k: int, t: int)
    ensures Tail(a + 1, b, k, t) == Tail(a, b, k, t) + Tail(a, b, k - 1, t - 1)
    decreases k + 1 - t
  {
    hide Choose;
    if t <= k {
      TailSuccess(a, b, k, t + 1);
      Pascal(a + 1, t);
      Distribute(Choose(b, k - t), Choose(a, t), Choose(a, t - 1));
      assert (k - 1) - (t - 1) == k - t;
    }
  }

  /** One failure more, likewise. */
  lemma {:induction false} TailFailure(a: nat, b: nat, k: int, t: int)
    ensures Tail(a, b + 1, k, t) == Tail(a, b, k, t) + Tail(a, b, k - 1, t)
    decreases k + 1 - t
  {
    hide Choose;
    if t <= k {
      TailFailure(a, b, k, t + 1);
      Pascal(b + 1, k - t);
      Distribute(Choose(a, t), Choose(b, k - t), Choose(b, k - 1 - t));
      ChooseNegative(b, -1);
    }
  }

  lemma {:induction false} TailEmpty(k: int, t: int)
    ensures Tail(0, 0, k, t) == if k == 0 && t <= 0 then 1 else 0
    decreases k + 1 - t
  {
    if t <= k {
      TailEmpty(k, t + 1);
      assert Choose(0, t) * Choose(0, k - t) == if t == 0 && k == 0 then 1 else 0 by {
        if t != 0 {
          assert Choose(0, t) == 0;
        }
      }
    }
  }

  lemma {:induction false} TailNone(a: nat, b: nat, k: int, t: int)
    requires k < 0
    ensures Tail(a, b, k, t) == 0
    decreases k + 1 - t
  {
    if t <= k {
      TailNone(a, b, k, t + 1);
      assert Choose(a, t) == 0;
    }
  }

  /** Counting from zero successes on counts every subset: Vandermonde's identity. */
  lemma {:induction false} Vandermonde(a: nat, b: nat, k: int)
    ensures Tail(a, b, k, 0) == Choose(a + b, k)
    decreases a + b
  {
    if k < 0 {
      TailNone(a, b, k, 0);
    } else if a > 0 {
      TailSuccess(a - 1, b, k, 0);
      TailBelowZero(a - 1, b, k - 1);
      Vandermonde(a - 1, b, k);
      Vandermonde(a - 1, b, k - 1);
    } else if b > 0 {
      TailFailure(a, b - 1, k, 0);
      Vandermonde(a, b - 1, k);
      Vandermonde(a, b - 1, k - 1);
    } else {
      TailEmpty(k, 0);
    }
  }

  lemma TailBelowZero(a: nat, b: nat, k: int)
    ensures Tail(a, b, k, -1) == Tail(a, b, k, 0)
  {
    if k >= -1 {
      assert Choose(a, -1) == 0;
    }
  }

  lemma {:induction false} TailMonotone(a: nat, b: nat, k: int, t: int, u: int)
    requires t <= u
    ensures Tail(a, b, k, u) <= Tail(a, b, k, t)
    decreases u - t
  {
    if t < u {
      TailMonotone(a, b, k, t, u - 1);
    }
  }

  // ---------------------------------------------------------------- expectation

  /** The mean of f(number of successes) over n independent trials of chance p. */
  ghost function Expect(n: nat, p: real, f: int -> real): real {
    if n == 0 then f(0)
    else p * Expect(n - 1, p, Shift(f)) + (1.0 - p) * Expect(n - 1, p, f)
  }

  /** The same function with one success already counted. */
  ghost function Shift(f: int -> real): int -> real {
    c => f(c + 1)
  }

  lemma ExpectStep(n: nat, p: real, f: int -> real)
    requires n > 0
    ensures Expect(n, p, f) == p * Expect(n - 1, p, Shift(f)) + (1.0 - p) * Expect(n - 1, p, f)
  {
  }

  lemma ExpectZero(p: real, f: int -> real)
    ensures Expect(0, p, f) == f(0)
  {
  }

  /** A mean is linear in the function; and only the values at 0..n matter. */
  lemma {:induction false} ExpectLinear(n: nat, p: real, f: int -> real, x: real, g: int -> real, y: real, h: int -> real)
    requires forall c :: 0 <= c <= n ==> f(c) == x * g(c) + y * h(c)
    ensures Expect(n, p, f) == x * Expect(n, p, g) + y * Expect(n, p, h)
  {
    hide Expect;
    if n == 0 {
      ExpectZero(p, f);
      ExpectZero(p, g);
      ExpectZero(p, h);
    } else {
      ExpectStep(n, p, f);
      ExpectStep(n, p, g);
      ExpectStep(n, p, h);
      var f', g', h' := Shift(f), Shift(g), Shift(h);
      assert forall c :: 0 <= c <= n - 1 ==> f'(c) == x * g'(c) + y * h'(c);
      ExpectLinear(n - 1, p, f', x, g', y, h');
      ExpectLinear(n - 1, p, f, x, g, y, h);
      Mix(p, x, Expect(n - 1, p, g'), Expect(n - 1, p, g), y, Expect(n - 1, p, h'), Expect(n - 1, p, h));
    }
  }

  lemma Mix(p: real, x: real, a: real, b: real, y: real, c: real, d: real)
    ensures p * (x * a + y * c) + (1.0 - p) * (x * b + y * d)
            == x * (p * a + (1.0 - p) * b) + y * (p * c + (1.0 - p) * d)
  {
    var q := 1.0 - p;
    assert p * (x * a + y * c) == x * (p * a) + y * (p * c);
    assert q * (x * b + y * d) == x * (q * b) + y * (q * d);
    assert x * (p * a + q * b) == x * (p * a) + x * (q * b);
    assert y * (p * c + q * d) == y * (p * c) + y * (q * d);
  }

  lemma ExpectSame(n: nat, p: real, f: int -> real, g: int -> real)
    requires forall c :: 0 <= c <= n ==> f(c) == g(c)
    ensures Expect(n, p, f) == Expect(n, p, g)
  {
    hide Expect;
    ExpectLinear(n, p, f, 1.0, g, 0.0, g);
  }

  lemma {:induction false} ExpectConstant(n: nat, p: real, f: int -> real, x: real)
    requires forall c :: 0 <= c <= n ==> f(c) == x
    ensures Expect(n, p, f) == x
  {
    hide Expect;
    if n == 0 {
      ExpectZero(p, f);
    } else {
      ExpectStep(n, p, f);
      ExpectConstant(n - 1, p, f, x);
      ExpectSame(n - 1, p, Shift(f), f);
    }
  }

  lemma {:induction false} ExpectNonNegative(n: nat, p: real, f: int -> real)
    requires 0.0 <= p <= 1.0 && forall c :: 0 <= c <= n ==> f(c) >= 0.0
    ensures Expect(n, p, f) >= 0.0
  {
    hide Expect;
    if n == 0 {
      ExpectZero(p, f);
    } else {
      ExpectStep(n, p, f);
      ExpectNonNegative(n - 1, p, Shift(f));
      ExpectNonNegative(n - 1, p, f);
      Product(p, Expect(n - 1, p, Shift(f)));
      Product(1.0 - p, Expect(n - 1, p, f));
    }
  }

  lemma Product(a: real, b: real)
    requires a >= 0.0 && b >= 0.0
    ensures a * b >= 0.0
  {
  }

  // ---------------------------------------------------------------- the same mean as a weighted sum

  function Power(x: real, e: nat): real {
    if e == 0 then 1.0 else x * Power(x, e - 1)
  }

  /** The chance of exactly c successes in n trials. */
  function Weight(n: nat, p: real, c: int): real {
    if 0 <= c <= n then Choose(n, c) as real * Power(p, c) * Power(1.0 - p, n - c) else 0.0
  }

  lemma WeightStep(n: nat, p: real, c: int)
    requires n > 0
    ensures Weight(n, p, c) == p * Weight(n - 1, p, c - 1) + (1.0 - p) * Weight(n - 1, p, c)
  {
    hide Choose;
    Pascal(n, c);
    ChooseRange(n - 1, c - 1);
    ChooseRange(n - 1, c);
    if 0 <= c <= n {
      WeightSuccess(n, p, c);
      WeightFailure(n, p, c);
      Split(Choose(n - 1, c - 1) as real, Choose(n - 1, c) as real, Power(p, c), Power(1.0 - p, n - c));
    }
  }

  lemma Split(x: real, y: real, u: real, v: real)
    ensures (x + y) * u * v == x * u * v + y * u * v
  {
  }

  lemma WeightSuccess(n: nat, p: real, c: nat)
    requires 0 < n && c <= n
    ensures p * Weight(n - 1, p, c - 1) == Choose(n - 1, c - 1) as real * Power(p, c) * Power(1.0 - p, n - c)
  {
    hide Choose;
    if c > 0 {
      Reorder(p, Choose(n - 1, c - 1) as real, Power(p, c - 1), Power(1.0 - p, n - c));
    } else {
      ChooseNegative(n - 1, -1);
    }
  }

  lemma WeightFailure(n: nat, p: real, c: nat)
    requires 0 < n && c <= n
    ensures (1.0 - p) * Weight(n - 1, p, c) == Choose(n - 1, c) as real * Power(p, c) * Power(1.0 - p, n - c)
  {
    hide Choose;
    if c < n {
      Reorder2(1.0 - p, Choose(n - 1, c) as real, Power(p, c), Power(1.0 - p, n - 1 - c));
    } else {
      ChooseRange(n - 1, n);
      assert Choose(n - 1, c) == 0;
      ZeroProduct(Power(p, c), Power(1.0 - p, n - c));
    }
  }

  lemma ZeroProduct(u: real, v: real)
    ensures 0.0 * u * v == 0.0
  {
  }

  lemma Reorder(p: real, x: real, u: real, v: real)
    ensures p * (x * u * v) == x * (p * u) * v
  {
  }

  lemma Reorder2(q: real, y: real, u: real, v: real)
    ensures q * (y * u * v) == y * u * (q * v)
  {
  }

  /** The sum of weight times value over c < m. */
  ghost function WeightedSum(n: nat, p: real, f: int -> real, m: int): real
    decreases m
  {
    if m <= 0 then 0.0 else WeightedSum(n, p, f, m - 1) + Weight(n, p, m - 1) * f(m - 1)
  }

  lemma {:induction false} SumStep(n: nat, p: real, f: int -> real, m: int)
    requires n > 0
    ensures WeightedSum(n, p, f, m) == p * WeightedSum(n - 1, p, Shift(f), m - 1) + (1.0 - p) * WeightedSum(n - 1, p, f, m)
    decreases m
  {
    hide Weight, WeightedSum, Shift;
    SumUnfold(n, p, f, m);
    SumUnfold(n - 1, p, f, m);
    SumUnfold(n - 1, p, Shift(f), m - 1);
    if m > 0 {
      SumStep(n, p, f, m - 1);
      WeightStep(n, p, m - 1);
      var x, y := Weight(n - 1, p, m - 2), Weight(n - 1, p, m - 1);
      if m == 1 {
        WeightBelow(n - 1, p);
      } else {
        ShiftAt(f, m - 2);
      }
      SumUnfold(n - 1, p, Shift(f), m - 2);
      Spread(p, WeightedSum(n - 1, p, Shift(f), m - 2), WeightedSum(n - 1, p, f, m - 1), x, y, f(m - 1));
    }
  }

  lemma ShiftAt(f: int -> real, c: int)
    ensures Shift(f)(c) == f(c + 1)
  {
  }

  lemma SumUnfold(n: nat, p: real, f: int -> real, m: int)
    ensures WeightedSum(n, p, f, m) == if m <= 0 then 0.0 else WeightedSum(n, p, f, m - 1) + Weight(n, p, m - 1) * f(m - 1)
  {
    hide Weight;
  }

  lemma Spread(p: real, s: real, t: real, x: real, y: real, v: real)
    ensures (p * s + (1.0 - p) * t) + (p * x + (1.0 - p) * y) * v == p * (s + x * v) + (1.0 - p) * (t + y * v)
  {
    var q := 1.0 - p;
    assert (p * x + q * y) * v == p * (x * v) + q * (y * v);
    assert p * (s + x * v) == p * s + p * (x * v);
    assert q * (t + y * v) == q * t + q * (y * v);
  }

  lemma WeightBelow(n: nat, p: real)
    ensures Weight(n, p, -1) == 0.0
    ensures Weight(n, p, n + 1) == 0.0
    ensures n == 0 ==> Weight(n, p, 0) == 1.0
  {
  }

  lemma {:induction false} SumIsExpect(n: nat, p: real, f: int -> real)
    ensures WeightedSum(n, p, f, n + 1) == Expect(n, p, f)
  {
    hide Weight;
    WeightBelow(n, p);
    if n == 0 {
      assert WeightedSum(0, p, f, 1) == WeightedSum(0, p, f, 0) + Weight(0, p, 0) * f(0);
    } else {
      SumStep(n, p, f, n + 1);
      SumIsExpect(n - 1, p, Shift(f));
      SumIsExpect(n - 1, p, f);
      WeightBelow(n - 1, p);
      assert WeightedSum(n - 1, p, f, n + 1) == WeightedSum(n - 1, p, f, n) + Weight(n - 1, p, n) * f(n);
    }
  }
}
