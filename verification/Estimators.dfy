/** pass@k, pass^k, G-pass@k and the variance of pass@k, in exact arithmetic (packages/server/src/scoring/estimators.ts). */
module Estimators {
  import opened Wrappers
  import opened Binomial

  datatype SampleError = NotPositiveN | CountOutOfRange | NotPositiveK | MoreAttemptsThanSamples | TauOutOfRange | RateOutOfRange

  /** The first complaint about (n, c, k), in the order they are made. */
  function SampleProblem(n: int, c: int, k: int): (r: Option<SampleError>)
    ensures r.None? <==> 0 <= c <= n && 0 < k <= n
    ensures r == Some(NotPositiveN) <==> n <= 0
    ensures r == Some(CountOutOfRange) <==> n > 0 && !(0 <= c <= n)
    ensures r == Some(NotPositiveK) <==> 0 <= c <= n && n > 0 && k <= 0
    ensures r == Some(MoreAttemptsThanSamples) <==> 0 <= c <= n && 0 < n < k
  {
    if n <= 0 then Some(NotPositiveN)
    else if c < 0 || c > n then Some(CountOutOfRange)
    else if k <= 0 then Some(NotPositiveK)
    else if k > n then Some(MoreAttemptsThanSamples)
    else None
  }

  function Ratio(a: int, b: int): real
    requires b != 0
  {
    a as real / b as real
  }

  // ---------------------------------------------------------------- the closed forms

  /** The chance that a k-subset of n samples, c of them successes, holds at least t successes. */
  function GPass(n: nat, c: nat, k: nat, t: int): real
    requires c <= n && k <= n
  {
    ChooseRange(n, k);
    Ratio(Tail(c, n - c, k, t), Choose(n, k))
  }

  /** 1 - C(n-c, k) / C(n, k) */
  function PassAtKExact(n: nat, c: nat, k: nat): real
    requires c <= n && k <= n
  {
    ChooseRange(n, k);
    1.0 - Ratio(Choose(n - c, k), Choose(n, k))
  }

  /** C(c, k) / C(n, k) */
  function PassPowKExact(n: nat, c: nat, k: nat): real
    requires c <= n && k <= n
  {
    ChooseRange(n, k);
    Ratio(Choose(c, k), Choose(n, k))
  }

  // ---------------------------------------------------------------- the loops

  lemma ShrinkStep(i: nat, k: nat, x: int)
    requires 0 < k <= i - 1
    ensures Choose(i, k) > 0 && Choose(i - 1, k) > 0
    ensures Ratio(x, Choose(i - 1, k)) * (1.0 - Ratio(k, i)) == Ratio(x, Choose(i, k))
  {
    hide Choose;
    ChooseRange(i, k);
    ChooseRange(i - 1, k);
    AbsorbBelow(i, k);
    var a, b := Choose(i, k) as real, Choose(i - 1, k) as real;
    assert (i - k) as real * a == i as real * b;
    RatioStep(x as real, a, b, i as real, k as real);
  }

  lemma RatioStep(x: real, a: real, b: real, i: real, k: real)
    requires a > 0.0 && b > 0.0 && i > 0.0 && (i - k) * a == i * b
    ensures (x / b) * (1.0 - k / i) == x / a
  {
    assert 1.0 - k / i == (i - k) / i by {
      assert (1.0 - k / i) * i == i - k;
      CancelRight(1.0 - k / i, (i - k) / i, i);
    }
    assert (i - k) / i == b / a by {
      assert ((i - k) / i) * (i * a) == (i - k) * a;
      assert (b / a) * (i * a) == i * b;
      CancelRight((i - k) / i, b / a, i * a);
    }
    assert (x / b) * (b / a) == x / a by {
      assert ((x / b) * (b / a)) * a == x;
      assert (x / a) * a == x;
      CancelRight((x / b) * (b / a), x / a, a);
    }
  }

  lemma CancelRight(x: real, y: real, s: real)
    requires x * s == y * s && s > 0.0
    ensures x == y
  {
  }

  method PassAtK(n: int, c: int, k: int) returns (r: Result<real, SampleError>)
    ensures r == match SampleProblem(n, c, k) case Some(e) => Err(e) case None => Ok(PassAtKExact(n, c, k))
  {
    var problem := SampleProblem(n, c, k);
    if problem.Some? {
      return Err(problem.value);
    }
    hide Choose, Ratio;
    ChooseRange(n, k);
    ChooseRange(n - c, k);
    if n - c < k {
      RatioEnds(Choose(n, k));
      return Ok(1.0);
    }
    var product := 1.0;
    ghost var x := Choose(n - c, k);
    var i := n - c + 1;
    RatioEnds(x);
    while i <= n
      invariant n - c + 1 <= i <= n + 1
      invariant Choose(i - 1, k) > 0
      invariant product == Ratio(x, Choose(i - 1, k))
    {
      ShrinkStep(i, k, x);
      product := product * (1.0 - Ratio(k, i));
      i := i + 1;
    }
    r := Ok(1.0 - product);
  }

  lemma GrowStep(n: nat, c: nat, i: nat)
    requires i < c <= n
    ensures Choose(n, i) > 0 && Choose(n, i + 1) > 0
    ensures Ratio(Choose(c, i), Choose(n, i)) * Ratio(c - i, n - i) == Ratio(Choose(c, i + 1), Choose(n, i + 1))
  {
    hide Choose;
    ChooseRange(n, i);
    ChooseRange(n, i + 1);
    NextInRow(n, i);
    NextInRow(c, i);
    var a, b, a', b' := Choose(c, i) as real, Choose(n, i) as real, Choose(c, i + 1) as real, Choose(n, i + 1) as real;
    var u, v, s := (c - i) as real, (n - i) as real, (i + 1) as real;
    assert s * a' == u * a && s * b' == v * b;
    FourRatios(a, b, a', b', u, v, s);
  }

  lemma FourRatios(a: real, b: real, a': real, b': real, u: real, v: real, s: real)
    requires b > 0.0 && b' > 0.0 && v > 0.0 && s > 0.0 && s * a' == u * a && s * b' == v * b
    ensures (a / b) * (u / v) == a' / b'
  {
    assert ((a / b) * (u / v)) * (b * v) == a * u by {
      assert (a / b) * b == a && (u / v) * v == u;
      assert ((a / b) * (u / v)) * (b * v) == ((a / b) * b) * ((u / v) * v);
    }
    assert (a' / b') * (b * v) == a * u by {
      assert (a' / b') * b' == a';
      assert (a' / b') * (s * b') == s * ((a' / b') * b');
    }
    CancelRight((a / b) * (u / v), a' / b', b * v);
  }

  method PassPowK(n: int, c: int, k: int) returns (r: Result<real, SampleError>)
    ensures r == match SampleProblem(n, c, k) case Some(e) => Err(e) case None => Ok(PassPowKExact(n, c, k))
  {
    var problem := SampleProblem(n, c, k);
    if problem.Some? {
      return Err(problem.value);
    }
    hide Choose;
    ChooseRange(n, k);
    ChooseRange(c, k);
    if c < k {
      RatioEnds(Choose(n, k));
      return Ok(0.0);
    }
    ChooseEnds(n);
    ChooseEnds(c);
    var product := 1.0;
    var i := 0;
    while i < k
      invariant 0 <= i <= k
      invariant Choose(n, i) > 0
      invariant product == Ratio(Choose(c, i), Choose(n, i))
    {
      GrowStep(n, c, i);
      product := product * Ratio(c - i, n - i);
      i := i + 1;
    }
    r := Ok(product);
  }

  /** The least integer not below x. */
  function Ceil(x: real): int {
    -((-x).Floor)
  }

  function Threshold(k: int, tau: real): int {
    Ceil(tau * k as real)
  }

  /** The threshold is the least number of successes whose share of k is at least tau. */
  lemma ThresholdMeaning(k: nat, tau: real, j: int)
    ensures j >= Threshold(k, tau) <==> j as real >= tau * k as real
  {
    var x := tau * k as real;
    assert (-x).Floor as real <= -x < (-x).Floor as real + 1.0;
  }

  /** min(1, max(0, x)) */
  function Clamp(x: real): real {
    if x < 0.0 then 0.0 else if x > 1.0 then 1.0 else x
  }

  /** Successes beyond c are impossible, so a tail from there on is empty. */
  lemma {:induction false} TailPastSuccesses(a: nat, b: nat, k: int, t: int)
    requires t > a
    ensures Tail(a, b, k, t) == 0
    decreases k + 1 - t
  {
    if t <= k {
      ChooseRange(a, t);
      TailPastSuccesses(a, b, k, t + 1);
    }
  }

  method GPassAtK(n: int, c: int, k: int, tau: real) returns (r: Result<real, SampleError>)
    ensures r == match SampleProblem(n, c, k)
                 case Some(e) => Err(e)
                 case None => if tau < 0.0 || tau > 1.0 then Err(TauOutOfRange) else Ok(GPass(n, c, k, Threshold(k, tau)))
  {
    var problem := SampleProblem(n, c, k);
    if problem.Some? {
      return Err(problem.value);
    }
    if tau < 0.0 || tau > 1.0 {
      return Err(TauOutOfRange);
    }
    hide Choose;
    ChooseRange(n, k);
    var threshold := Threshold(k, tau);
    GPassRange(n, c, k, threshold);
    if threshold <= 0 {
      GPassCertain(n, c, k, threshold);
      return Ok(1.0);
    }
    if threshold > k {
      GPassImpossible(n, c, k, threshold);
      return Ok(0.0);
    }
    var total := 0.0;
    var last := if k < c then k else c;
    var j := threshold;
    if last < threshold {
      TailPastSuccesses(c, n - c, k, threshold);
    }
    while j <= last
      invariant threshold <= j && (j <= last + 1 || j == threshold)
      invariant total + Ratio(Tail(c, n - c, k, j), Choose(n, k)) == GPass(n, c, k, threshold)
    {
      var term := Choose(c, j) * Choose(n - c, k - j);
      SplitRatio(term, Tail(c, n - c, k, j + 1), Choose(n, k));
      total := total + Ratio(term, Choose(n, k));
      j := j + 1;
    }
    if j <= k {
      TailPastSuccesses(c, n - c, k, j);
    }
    r := Ok(Clamp(total));
  }

  lemma SplitRatio(a: int, b: int, d: int)
    requires d > 0
    ensures Ratio(a + b, d) == Ratio(a, d) + Ratio(b, d)
  {
  }

  // ---------------------------------------------------------------- the G-pass family

  lemma TailSplitsZero(n: nat, c: nat, k: nat)
    requires c <= n
    ensures Tail(c, n - c, k, 0) == Choose(n, k)
    ensures Tail(c, n - c, k, 1) == Choose(n, k) - Choose(n - c, k)
    ensures Tail(c, n - c, k, k) == Choose(c, k)
  {
    hide Choose;
    Vandermonde(c, n - c, k);
    ChooseEnds(c);
    ChooseEnds(n - c);
    assert Tail(c, n - c, k, 0) == Choose(c, 0) * Choose(n - c, k) + Tail(c, n - c, k, 1);
    assert Tail(c, n - c, k, k) == Choose(c, k) * Choose(n - c, 0) + Tail(c, n - c, k, k + 1);
  }

  lemma RatioEnds(d: int)
    requires d > 0
    ensures Ratio(d, d) == 1.0 && Ratio(0, d) == 0.0
  {
  }

  lemma RatioComplement(x: int, d: int)
    requires d > 0
    ensures Ratio(d - x, d) == 1.0 - Ratio(x, d)
  {
    var y, z := x as real, d as real;
    assert ((z - y) / z) * z == z - y && (1.0 - y / z) * z == z - y;
    CancelRight((z - y) / z, 1.0 - y / z, z);
  }

  lemma GPassCertain(n: nat, c: nat, k: nat, t: int)
    requires c <= n && k <= n && t <= 0
    ensures GPass(n, c, k, t) == 1.0
  {
    hide Choose, Tail;
    ChooseRange(n, k);
    TailSplitsZero(n, c, k);
    TailFromBelow(c, n - c, k, t);
    RatioEnds(Choose(n, k));
  }

  lemma {:induction false} TailFromBelow(a: nat, b: nat, k: nat, t: int)
    requires t <= 0
    ensures Tail(a, b, k, t) == Tail(a, b, k, 0)
    decreases -t
  {
    if t < 0 {
      ChooseNegative(a, t);
      TailFromBelow(a, b, k, t + 1);
    }
  }

  lemma GPassImpossible(n: nat, c: nat, k: nat, t: int)
    requires c <= n && k < t && k <= n
    ensures GPass(n, c, k, t) == 0.0
  {
    hide Choose;
    ChooseRange(n, k);
    RatioEnds(Choose(n, k));
  }

  /** A chance, so the clamp never changes it. */
  lemma GPassRange(n: nat, c: nat, k: nat, t: int)
    requires c <= n && k <= n
    ensures 0.0 <= GPass(n, c, k, t) <= 1.0
    ensures Clamp(GPass(n, c, k, t)) == GPass(n, c, k, t)
  {
    hide Choose;
    ChooseRange(n, k);
    TailSplitsZero(n, c, k);
    if t <= 0 {
      TailFromBelow(c, n - c, k, t);
    } else {
      TailMonotone(c, n - c, k, 0, t);
    }
    RatioBetween(Tail(c, n - c, k, t), Choose(n, k));
  }

  lemma RatioBetween(a: int, d: int)
    requires 0 <= a <= d && d > 0
    ensures 0.0 <= Ratio(a, d) <= 1.0
  {
  }

  lemma RatioOrder(a: int, b: int, d: int)
    requires a <= b && d > 0
    ensures Ratio(a, d) <= Ratio(b, d)
  {
  }

  /** The curve never rises with the threshold; its ends are pass@k and pass^k. */
  lemma GPassCurve(n: nat, c: nat, k: nat, t: int, u: int)
    requires c <= n && 0 < k <= n && t <= u
    ensures GPass(n, c, k, u) <= GPass(n, c, k, t)
    ensures GPass(n, c, k, 1) == PassAtKExact(n, c, k)
    ensures GPass(n, c, k, k) == PassPowKExact(n, c, k)
  {
    hide Choose, Tail;
    ChooseRange(n, k);
    TailMonotone(c, n - c, k, t, u);
    RatioOrder(Tail(c, n - c, k, u), Tail(c, n - c, k, t), Choose(n, k));
    TailSplitsZero(n, c, k);
    RatioComplement(Choose(n - c, k), Choose(n, k));
  }

  /** In terms of tau: monotone, pass@k just above 0 (up to 1/k), pass^k at 1. */
  lemma GPassByTau(n: nat, c: nat, k: nat, tau: real, sigma: real)
    requires c <= n && 0 < k <= n && 0.0 <= tau <= sigma <= 1.0
    ensures GPass(n, c, k, Threshold(k, sigma)) <= GPass(n, c, k, Threshold(k, tau))
    ensures 0.0 < tau * k as real <= 1.0 ==> GPass(n, c, k, Threshold(k, tau)) == PassAtKExact(n, c, k)
    ensures GPass(n, c, k, Threshold(k, 1.0)) == PassPowKExact(n, c, k)
  {
    hide Choose, GPass, PassAtKExact, PassPowKExact;
    assert tau * k as real <= sigma * k as real;
    assert Threshold(k, tau) <= Threshold(k, sigma);
    GPassCurve(n, c, k, Threshold(k, tau), Threshold(k, sigma));
    assert Threshold(k, 1.0) == k;
  }

  // ---------------------------------------------------------------- unbiasedness

  ghost function TailOf(n: int, k: int, t: int): int -> real {
    c => if 0 <= c <= n then Tail(c, n - c, k, t) as real else 0.0
  }

  /** 1 when at least t of the successes happened. */
  ghost function Reaches(t: int): int -> real {
    c => if c >= t then 1.0 else 0.0
  }

  /** The chance that k independent trials of chance p bring at least t successes. */
  ghost function BinomialTail(k: nat, t: int, p: real): real {
    Expect(k, p, Reaches(t))
  }

  lemma BinomialTailStep(k: nat, t: int, p: real)
    requires k > 0
    ensures BinomialTail(k, t, p) == p * BinomialTail(k - 1, t - 1, p) + (1.0 - p) * BinomialTail(k - 1, t, p)
  {
    hide Expect;
    ExpectStep(k, p, Reaches(t));
    ExpectSame(k - 1, p, Shift(Reaches(t)), Reaches(t - 1));
  }

  /** The mean of the hypergeometric count is the number of subsets times the binomial chance. */
  lemma {:induction false} MeanTail(n: nat, k: int, t: int, p: real)
    ensures Expect(n, p, TailOf(n, k, t)) == if k < 0 then 0.0 else Choose(n, k) as real * BinomialTail(k, t, p)
    decreases n
  {
    hide Choose, Tail, Expect, BinomialTail;
    if k < 0 {
      forall c | 0 <= c <= n ensures TailOf(n, k, t)(c) == 0.0 {
        TailNone(c, n - c, k, t);
      }
      ExpectConstant(n, p, TailOf(n, k, t), 0.0);
    } else if n == 0 {
      MeanTailBase(k, t, p);
    } else {
      MeanTailSplit(n, k, t, p);
      MeanTail(n - 1, k, t, p);
      MeanTail(n - 1, k - 1, t - 1, p);
      MeanTail(n - 1, k - 1, t, p);
      MeanTailStep(n, k, t, p);
    }
  }

  /** One trial more: with chance p a success is added to the samples, otherwise a failure. */
  lemma MeanTailSplit(n: nat, k: int, t: int, p: real)
    requires n > 0
    ensures var same, drawn, missed := TailOf(n - 1, k, t), TailOf(n - 1, k - 1, t - 1), TailOf(n - 1, k - 1, t);
            Expect(n, p, TailOf(n, k, t))
            == p * (1.0 * Expect(n - 1, p, same) + 1.0 * Expect(n - 1, p, drawn))
               + (1.0 - p) * (1.0 * Expect(n - 1, p, same) + 1.0 * Expect(n - 1, p, missed))
  {
    hide *;
    MeanWithSuccess(n, k, t, p);
    MeanWithFailure(n, k, t, p);
    ExpectStep(n, p, TailOf(n, k, t));
  }

  lemma MeanWithSuccess(n: nat, k: int, t: int, p: real)
    requires n > 0
    ensures Expect(n - 1, p, Shift(TailOf(n, k, t)))
            == 1.0 * Expect(n - 1, p, TailOf(n - 1, k, t)) + 1.0 * Expect(n - 1, p, TailOf(n - 1, k - 1, t - 1))
  {
    hide Choose, Tail, Expect, BinomialTail;
    var up, same, drawn := Shift(TailOf(n, k, t)), TailOf(n - 1, k, t), TailOf(n - 1, k - 1, t - 1);
    forall c | 0 <= c <= n - 1 ensures up(c) == 1.0 * same(c) + 1.0 * drawn(c) {
      TailSuccess(c, n - 1 - c, k, t);
      assert n - (c + 1) == n - 1 - c;
    }
    ExpectLinear(n - 1, p, up, 1.0, same, 1.0, drawn);
  }

  lemma MeanWithFailure(n: nat, k: int, t: int, p: real)
    requires n > 0
    ensures Expect(n - 1, p, TailOf(n, k, t))
            == 1.0 * Expect(n - 1, p, TailOf(n - 1, k, t)) + 1.0 * Expect(n - 1, p, TailOf(n - 1, k - 1, t))
  {
    hide Choose, Tail, Expect, BinomialTail;
    var same, missed := TailOf(n - 1, k, t), TailOf(n - 1, k - 1, t);
    forall c | 0 <= c <= n - 1 ensures TailOf(n, k, t)(c) == 1.0 * same(c) + 1.0 * missed(c) {
      TailFailure(c, n - 1 - c, k, t);
      assert n - 1 - c + 1 == n - c;
    }
    ExpectLinear(n - 1, p, TailOf(n, k, t), 1.0, same, 1.0, missed);
  }

  lemma MeanTailStep(n: nat, k: nat, t: int, p: real)
    requires n > 0
    requires var m := Choose(n - 1, k) as real * BinomialTail(k, t, p);
             var x := if k == 0 then 0.0 else Choose(n - 1, k - 1) as real * BinomialTail(k - 1, t - 1, p);
             var y := if k == 0 then 0.0 else Choose(n - 1, k - 1) as real * BinomialTail(k - 1, t, p);
             Expect(n, p, TailOf(n, k, t)) == p * (1.0 * m + 1.0 * x) + (1.0 - p) * (1.0 * m + 1.0 * y)
    ensures Expect(n, p, TailOf(n, k, t)) == Choose(n, k) as real * BinomialTail(k, t, p)
  {
    hide Choose, Tail, Expect, BinomialTail;
    Pascal(n, k);
    if k == 0 {
      ChooseNegative(n - 1, -1);
      Combine(p, Choose(n - 1, k) as real * BinomialTail(k, t, p), 0.0, 0.0);
    } else {
      BinomialTailStep(k, t, p);
      var a, b := Choose(n - 1, k) as real, Choose(n - 1, k - 1) as real;
      var x, y := BinomialTail(k - 1, t - 1, p), BinomialTail(k - 1, t, p);
      Combine(p, a * BinomialTail(k, t, p), b * x, b * y);
      Collect(a, b, p, x, y);
    }
  }

  lemma Combine(p: real, m: real, x: real, y: real)
    ensures p * (1.0 * m + 1.0 * x) + (1.0 - p) * (1.0 * m + 1.0 * y) == m + p * x + (1.0 - p) * y
  {
  }

  lemma Collect(a: real, b: real, p: real, x: real, y: real)
    ensures var z := p * x + (1.0 - p) * y; (a + b) * z == a * z + p * (b * x) + (1.0 - p) * (b * y)
  {
    var q := 1.0 - p;
    assert b * (p * x + q * y) == p * (b * x) + q * (b * y);
  }

  lemma MeanTailBase(k: nat, t: int, p: real)
    ensures Expect(0, p, TailOf(0, k, t)) == Choose(0, k) as real * BinomialTail(k, t, p)
  {
    TailEmpty(k, t);
    if k == 0 {
      assert BinomialTail(0, t, p) == Reaches(t)(0);
    }
  }

  /** Averaged over the number of successes in n trials, G-pass is exactly the chance it estimates. */
  lemma GPassUnbiased(n: nat, k: nat, t: int, p: real, g: int -> real)
    requires k <= n && forall c :: 0 <= c <= n ==> g(c) == GPass(n, c, k, t)
    ensures Expect(n, p, g) == BinomialTail(k, t, p)
  {
    hide Choose, Expect, BinomialTail, Tail;
    ChooseRange(n, k);
    MeanTail(n, k, t, p);
    var s := Choose(n, k) as real;
    forall c | 0 <= c <= n ensures g(c) == (1.0 / s) * TailOf(n, k, t)(c) + 0.0 * g(c) {
      Invert(Tail(c, n - c, k, t) as real, s);
    }
    ExpectLinear(n, p, g, 1.0 / s, TailOf(n, k, t), 0.0, g);
    Undo(s, BinomialTail(k, t, p));
  }

  /** 1 when the successes are at least the share tau of k. */
  ghost function Meets(k: nat, tau: real): int -> real {
    c => if c as real >= tau * k as real then 1.0 else 0.0
  }

  /** In terms of tau: the answers average to the chance that at least the share tau of k trials succeeds. */
  lemma GPassUnbiasedByTau(n: nat, k: nat, tau: real, p: real, g: int -> real)
    requires 0 < k <= n && 0.0 <= tau <= 1.0 && forall c :: 0 <= c <= n ==> g(c) == GPass(n, c, k, Threshold(k, tau))
    ensures Expect(n, p, g) == Expect(k, p, Meets(k, tau))
  {
    hide Expect, GPass, Threshold;
    GPassUnbiased(n, k, Threshold(k, tau), p, g);
    forall c | 0 <= c <= k ensures Reaches(Threshold(k, tau))(c) == Meets(k, tau)(c) {
      ThresholdMeaning(k, tau, c);
    }
    ExpectSame(k, p, Reaches(Threshold(k, tau)), Meets(k, tau));
  }

  lemma Invert(x: real, s: real)
    requires s > 0.0
    ensures x / s == (1.0 / s) * x
  {
  }

  lemma Undo(s: real, x: real)
    requires s > 0.0
    ensures (1.0 / s) * (s * x) == x
  {
    assert (1.0 / s) * s == 1.0;
    assert (1.0 / s) * (s * x) == ((1.0 / s) * s) * x;
  }

  /** The chance of no success, and of k successes, in k trials. */
  lemma {:induction false} TailEnds(k: nat, p: real)
    ensures BinomialTail(k, 0, p) == 1.0
    ensures k > 0 ==> BinomialTail(k, 1, p) == 1.0 - Power(1.0 - p, k)
    ensures BinomialTail(k, k, p) == Power(p, k)
    ensures BinomialTail(k, k + 1, p) == 0.0
  {
    hide Expect;
    ExpectConstant(k, p, Reaches(0), 1.0);
    ExpectConstant(k, p, Reaches(k + 1), 0.0);
    if k == 0 {
      ExpectZero(p, Reaches(0));
    } else {
      TailEnds(k - 1, p);
      BinomialTailStep(k, 1, p);
      BinomialTailStep(k, k, p);
      if k == 1 {
        ExpectConstant(0, p, Reaches(1), 0.0);
      }
    }
  }

  /** pass@k averages to 1 - (1-p)^k and pass^k to p^k. */
  lemma PassUnbiased(n: nat, k: nat, p: real, atK: int -> real, powK: int -> real)
    requires 0 < k <= n
    requires forall c :: 0 <= c <= n ==> atK(c) == PassAtKExact(n, c, k) && powK(c) == PassPowKExact(n, c, k)
    ensures Expect(n, p, atK) == 1.0 - Power(1.0 - p, k)
    ensures Expect(n, p, powK) == Power(p, k)
  {
    hide Expect, GPass, PassAtKExact, PassPowKExact, BinomialTail;
    forall c | 0 <= c <= n ensures atK(c) == GPass(n, c, k, 1) && powK(c) == GPass(n, c, k, k) {
      GPassCurve(n, c, k, 0, 0);
    }
    GPassUnbiased(n, k, 1, p, atK);
    GPassUnbiased(n, k, k, p, powK);
    TailEnds(k, p);
  }

  // ---------------------------------------------------------------- variance

  ghost function PassCurve(n: int, k: int): int -> real {
    c => if 0 <= c <= n && 0 <= k <= n then PassAtKExact(n, c, k) else 0.0
  }

  ghost function Squared(f: int -> real): int -> real {
    c => f(c) * f(c)
  }

  ghost function Deviation(f: int -> real, mu: real): int -> real {
    c => (f(c) - mu) * (f(c) - mu)
  }

  ghost function One(): int -> real {
    c => 1.0
  }

  ghost function Linear(f: int -> real, mu: real): int -> real {
    c => -2.0 * mu * f(c) + mu * mu * One()(c)
  }

  lemma DeviationAt(f: int -> real, mu: real, c: int)
    ensures Deviation(f, mu)(c) >= 0.0
    ensures Deviation(f, mu)(c) == 1.0 * Squared(f)(c) + 1.0 * Linear(f, mu)(c)
    ensures Linear(f, mu)(c) == -2.0 * mu * f(c) + mu * mu * One()(c)
  {
    var x := f(c);
    Square(x, mu);
    SquareSign(x - mu);
  }

  lemma Square(x: real, m: real)
    ensures (x - m) * (x - m) == x * x + (-2.0 * m * x + m * m * 1.0)
  {
  }

  lemma SquareSign(x: real)
    ensures x * x >= 0.0
  {
  }

  ghost function VarianceOf(n: nat, p: real, f: int -> real): real {
    Expect(n, p, Squared(f)) - Expect(n, p, f) * Expect(n, p, f)
  }

  /** The mean of the square is never below the square of the mean: the variance is the mean squared deviation. */
  lemma VarianceNonNegative(n: nat, p: real, f: int -> real)
    requires 0.0 <= p <= 1.0
    ensures VarianceOf(n, p, f) == Expect(n, p, Deviation(f, Expect(n, p, f))) >= 0.0
  {
    hide Expect, Deviation, Linear, One, Squared;
    var mu := Expect(n, p, f);
    forall c | 0 <= c <= n
      ensures Deviation(f, mu)(c) >= 0.0
      ensures Deviation(f, mu)(c) == 1.0 * Squared(f)(c) + 1.0 * Linear(f, mu)(c)
      ensures Linear(f, mu)(c) == -2.0 * mu * f(c) + mu * mu * One()(c)
    {
      DeviationAt(f, mu, c);
    }
    ExpectOne(n, p);
    ExpectLinear(n, p, Linear(f, mu), -2.0 * mu, f, mu * mu, One());
    ExpectLinear(n, p, Deviation(f, mu), 1.0, Squared(f), 1.0, Linear(f, mu));
    ExpectNonNegative(n, p, Deviation(f, mu));
  }

  lemma ExpectOne(n: nat, p: real)
    ensures Expect(n, p, One()) == 1.0
  {
    hide Expect;
    ExpectConstant(n, p, One(), 1.0);
  }

  lemma Associate(x: real, y: real)
    ensures x * y * y == x * (y * y)
  {
  }

  lemma SquaredAt(f: int -> real, c: int)
    ensures Squared(f)(c) == f(c) * f(c)
  {
  }

  /** The loop of `passAtKVariance`: the mean and the mean square over every attainable count. */
  method Moments(n: nat, k: int, p: real) returns (r: Result<(real, real), SampleError>)
    ensures !(0 < k <= n) ==> r == Err(if n == 0 then NotPositiveN else if k <= 0 then NotPositiveK else MoreAttemptsThanSamples)
    ensures 0 < k <= n ==> r == Ok((Expect(n, p, PassCurve(n, k)), Expect(n, p, Squared(PassCurve(n, k)))))
  {
    hide Choose, Weight, PassAtKExact, Expect, WeightedSum, Squared;
    ghost var f := PassCurve(n, k);
    SumUnfold(n, p, f, 0);
    SumUnfold(n, p, Squared(f), 0);
    var expectation := 0.0;
    var expectationOfSquare := 0.0;
    var c := 0;
    while c <= n
      invariant 0 <= c <= n + 1
      invariant 0 < k <= n || forall b :: 0 <= b < c ==> Weight(n, p, b) == 0.0
      invariant 0 < k <= n ==> expectation == WeightedSum(n, p, f, c)
      invariant 0 < k <= n ==> expectationOfSquare == WeightedSum(n, p, Squared(f), c)
    {
      var probability := Weight(n, p, c);
      SumUnfold(n, p, f, c + 1);
      SumUnfold(n, p, Squared(f), c + 1);
      if probability != 0.0 {
        var value := PassAtK(n, c, k);
        if value.Err? {
          return Err(value.error);
        }
        expectation := expectation + probability * value.value;
        expectationOfSquare := expectationOfSquare + probability * value.value * value.value;
        Associate(probability, value.value);
        SquaredAt(f, c);
      }
      c := c + 1;
    }
    SomeWeight(n, p);
    SumIsExpect(n, p, f);
    SumIsExpect(n, p, Squared(f));
    r := Ok((expectation, expectationOfSquare));
  }

  lemma VarianceFrom(n: nat, p: real, f: int -> real, mean: real, meanSquare: real)
    requires mean == Expect(n, p, f) && meanSquare == Expect(n, p, Squared(f))
    ensures meanSquare - mean * mean == VarianceOf(n, p, f)
  {
    hide Expect, Squared;
  }

  /** The exact variance of pass@k over n trials of chance p; non-negative before the clamp, so the clamp is idle. */
  method PassAtKVariance(n: int, k: int, p: real) returns (r: Result<real, SampleError>)
    ensures p < 0.0 || p > 1.0 ==> r == Err(RateOutOfRange)
    ensures 0.0 <= p <= 1.0 && n < 0 ==> r == Ok(0.0)
    ensures 0.0 <= p <= 1.0 && 0 <= n && !(0 < k <= n)
            ==> r == Err(if n == 0 then NotPositiveN else if k <= 0 then NotPositiveK else MoreAttemptsThanSamples)
    ensures 0.0 <= p <= 1.0 && 0 < k <= n ==> r == Ok(VarianceOf(n, p, PassCurve(n, k))) && r.value >= 0.0
  {
    if p < 0.0 || p > 1.0 {
      return Err(RateOutOfRange);
    }
    if n < 0 {
      return Ok(0.0);    // the loop over 0..n has no round
    }
    hide Expect, PassCurve, Squared, Deviation, VarianceOf;
    var moments := Moments(n, k, p);
    if moments.Err? {
      return Err(moments.error);
    }
    var (expectation, expectationOfSquare) := moments.value;
    VarianceNonNegative(n, p, PassCurve(n, k));
    var variance := expectationOfSquare - expectation * expectation;
    VarianceFrom(n, p, PassCurve(n, k), expectation, expectationOfSquare);
    r := Ok(if variance < 0.0 then 0.0 else variance);
  }

  /** The mean that variance is about. */
  lemma MeanOfCurve(n: nat, k: nat, p: real)
    requires 0 < k <= n
    ensures Expect(n, p, PassCurve(n, k)) == 1.0 - Power(1.0 - p, k)
  {
    hide Expect, PassAtKExact, PassPowKExact;
    var powK: int -> real := c => if 0 <= c <= n then PassPowKExact(n, c, k) else 0.0;
    PassUnbiased(n, k, p, PassCurve(n, k), powK);
  }

  /** The weights add up to one, so not all of them are zero. */
  lemma SomeWeight(n: nat, p: real)
    ensures exists b :: 0 <= b < n + 1 && Weight(n, p, b) != 0.0
  {
    hide Weight, Expect;
    ExpectOne(n, p);
    SumIsExpect(n, p, One());
    if forall b :: 0 <= b < n + 1 ==> Weight(n, p, b) == 0.0 {
      ZeroSum(n, p, One(), n + 1);
    }
  }

  lemma {:induction false} ZeroSum(n: nat, p: real, f: int -> real, m: nat)
    requires forall b :: 0 <= b < m ==> Weight(n, p, b) == 0.0
    ensures WeightedSum(n, p, f, m) == 0.0
  {
    hide Weight;
    if m > 0 {
      ZeroSum(n, p, f, m - 1);
    }
  }
}
