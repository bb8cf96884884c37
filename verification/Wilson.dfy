/** Wilson's score interval (packages/server/src/robustness/statistics.ts), with the square root given by its defining property. */
module Wilson {

  datatype Proportion = Proportion(count: int, total: int, rate: real, lower: real, upper: real)

  /** What is under the square root. */
  function Radicand(p: real, n: real, z: real): real
    requires n > 0.0
  {
    p * (1.0 - p) / n + z * z / (4.0 * n * n)
  }

  function Centre(p: real, n: real, z: real): real
    requires n > 0.0
  {
    Positive(z, n);
    (p + z * z / (2.0 * n)) / (1.0 + z * z / n)
  }

  function Spread(n: real, z: real, root: real): real
    requires n > 0.0
  {
    Positive(z, n);
    (z / (1.0 + z * z / n)) * root
  }

  lemma Positive(z: real, n: real)
    requires n > 0.0
    ensures z * z / n >= 0.0 && 1.0 + z * z / n >= 1.0
  {
    assert z * z >= 0.0;
  }

  function MaxZero(x: real): real {
    if x < 0.0 then 0.0 else x
  }

  function MinOne(x: real): real {
    if x > 1.0 then 1.0 else x
  }

  function ProportionOf(count: int, total: int, z: real, root: real): (r: Proportion)
    ensures total <= 0 ==> r == Proportion(0, 0, 0.0, 0.0, 0.0)
    ensures total > 0 ==> r.count == count && r.total == total && 0.0 <= r.lower && r.upper <= 1.0
  {
    if total <= 0 then Proportion(0, 0, 0.0, 0.0, 0.0)
    else
      var n := total as real;
      var p := count as real / n;
      Proportion(count, total, p,
                 MaxZero(Centre(p, n, z) - Spread(n, z, root)),
                 MinOne(Centre(p, n, z) + Spread(n, z, root)))
  }

  /** The score test at level z does not reject the rate x after observing p in n trials. */
  ghost predicate NotRejected(p: real, n: real, z: real, x: real)
    requires n > 0.0
  {
    (p - x) * (p - x) <= (z * z / n) * (x * (1.0 - x))
  }

  /** With w = z^2/n: the score is a parabola in x with vertex `Centre` and half width `Spread`. */
  lemma Parabola(p: real, w: real, d: real, c: real, s: real, x: real)
    requires w >= 0.0 && d == 1.0 + w
    requires d * c == p + w / 2.0
    requires (d * s) * (d * s) == w * (p * (1.0 - p)) + w * w / 4.0
    ensures d * ((p - x) * (p - x) - w * (x * (1.0 - x))) == (d * x - d * c) * (d * x - d * c) - (d * s) * (d * s)
  {
    var m := p + w / 2.0;
    assert (d * x - m) * (d * x - m) == d * d * (x * x) - 2.0 * (d * x * m) + m * m;
    assert m * m == p * p + w * p + w * w / 4.0;
    assert m * m - (d * s) * (d * s) == p * p + w * p - w * (p * (1.0 - p)) == d * (p * p) by {
      assert w * (p * (1.0 - p)) == w * p - w * (p * p);
    }
    assert (p - x) * (p - x) - w * (x * (1.0 - x)) == p * p - 2.0 * (p * x) + x * x - w * x + w * (x * x) by {
      assert w * (x * (1.0 - x)) == w * x - w * (x * x);
      assert (p - x) * (p - x) == p * p - 2.0 * (p * x) + x * x;
    }
    assert d * (x * x) == x * x + w * (x * x);
    assert d * x * m == d * (x * m) && x * m == p * x + w * x / 2.0;
  }

  lemma ProductPositive(a: real, b: real, c: real)
    requires a > 0.0 && b > 0.0 && c == a * b
    ensures c > 0.0
  {
  }

  lemma ProductNonNegative(a: real, b: real)
    requires a >= 0.0 && b >= 0.0
    ensures a * b >= 0.0
  {
  }

  lemma QuotientPositive(a: real, b: real)
    requires a > 0.0 && b > 0.0
    ensures a / b > 0.0
  {
  }

  lemma SquareSides(u: real, v: real, d: real, k: real)
    requires d > 0.0 && v >= 0.0 && d * k == u * u - v * v
    ensures k <= 0.0 <==> -v <= u <= v
  {
    if -v <= u <= v {
      assert u * u <= v * v by {
        ProductNonNegative(v - u, v + u);
        assert (v - u) * (v + u) == v * v - u * u;
      }
      if k > 0.0 {
        ProductPositive(d, k, d * k);
      }
    } else {
      assert u * u > v * v by {
        if u > v {
          ProductPositive(u - v, u + v, u * u - v * v);
          assert (u - v) * (u + v) == u * u - v * v;
        } else {
          ProductPositive(-u - v, -u + v, u * u - v * v);
          assert (-u - v) * (-u + v) == u * u - v * v;
        }
      }
      if k <= 0.0 {
        ProductNonNegative(d, -k);
      }
    }
  }

  lemma DivideTimes(x: real, d: real)
    requires d > 0.0
    ensures d * (x / d) == x
  {
  }

  /** The defining equation of the centre, multiplied out. */
  lemma CentreTimes(p: real, n: real, z: real)
    requires n > 0.0
    ensures (1.0 + z * z / n) * Centre(p, n, z) == p + (z * z / n) / 2.0
  {
    Positive(z, n);
    HalfOf(z * z, n);
    DivideTimes(p + z * z / (2.0 * n), 1.0 + z * z / n);
  }

  lemma SpreadTimes(n: real, z: real, root: real)
    requires n > 0.0
    ensures (1.0 + z * z / n) * Spread(n, z, root) == z * root
  {
    Positive(z, n);
    var d := 1.0 + z * z / n;
    DivideTimes(z, d);
    Regroup(d, z / d, root);
  }

  lemma Regroup(d: real, q: real, r: real)
    ensures d * (q * r) == (d * q) * r
  {
  }

  lemma HalfOf(x: real, n: real)
    requires n > 0.0
    ensures x / (2.0 * n) == (x / n) / 2.0
  {
    assert (x / (2.0 * n)) * (2.0 * n) == x;
    assert ((x / n) / 2.0) * (2.0 * n) == (x / n) * n == x;
    Same(x / (2.0 * n), (x / n) / 2.0, 2.0 * n);
  }

  lemma Same(a: real, b: real, s: real)
    requires a * s == b * s && s > 0.0
    ensures a == b
  {
  }

  lemma SpreadSquared(p: real, n: real, z: real, root: real, w: real)
    requires n > 0.0 && root * root == Radicand(p, n, z) && w == z * z / n
    ensures (z * root) * (z * root) == w * (p * (1.0 - p)) + w * w / 4.0
  {
    var q := p * (1.0 - p);
    var zz := z * z;
    assert w * n == zz;
    assert (z * root) * (z * root) == zz * (root * root) == zz * (q / n) + zz * (zz / (4.0 * n * n)) by {
      assert (z * root) * (z * root) == (z * z) * (root * root);
    }
    assert zz * (q / n) == w * q by {
      assert (zz * (q / n)) * n == zz * ((q / n) * n) == zz * q;
      assert (w * q) * n == (w * n) * q;
      Same(zz * (q / n), w * q, n);
    }
    assert zz * (zz / (4.0 * n * n)) == w * w / 4.0 by {
      QuarterSquare(zz, n, w);
    }
  }

  lemma QuarterSquare(zz: real, n: real, w: real)
    requires n > 0.0 && w * n == zz
    ensures zz * (zz / (4.0 * n * n)) == w * w / 4.0
  {
    var m := 4.0 * n * n;
    ProductPositive(4.0 * n, n, m);
    assert (zz / m) * m == zz;
    assert (zz * (zz / m)) * m == zz * zz;
    assert (w * w / 4.0) * m == (w * w) * (n * n) == (w * n) * (w * n);
    Same(zz * (zz / m), w * w / 4.0, m);
  }

  /** The weight z^2/n of the prior pull towards one half. */
  function Weight(z: real, n: real): real
    requires n > 0.0
  {
    z * z / n
  }

  /** The equations that define centre c and spread s, multiplied out. */
  predicate Defines(p: real, w: real, c: real, s: real) {
    var v := (1.0 + w) * s;
    && w >= 0.0 && v >= 0.0
    && (1.0 + w) * c == p + w / 2.0
    && v * v == w * (p * (1.0 - p)) + w * w / 4.0
  }

  /** The score of the rate x is within the weight w. */
  predicate Scores(p: real, w: real, x: real) {
    (p - x) * (p - x) <= w * (x * (1.0 - x))
  }

  lemma DefiningEquations(p: real, n: real, z: real, root: real)
    requires n > 0.0 && z > 0.0 && root >= 0.0 && root * root == Radicand(p, n, z)
    ensures Defines(p, Weight(z, n), Centre(p, n, z), Spread(n, z, root))
  {
    hide Centre, Spread, Radicand;
    Positive(z, n);
    CentreTimes(p, n, z);
    SpreadTimes(n, z, root);
    SpreadSquared(p, n, z, root, z * z / n);
    ProductNonNegative(z, root);
  }

  /** The interval is the set of rates the score test does not reject. */
  lemma IntervalIsScoreTest(p: real, n: real, z: real, root: real, x: real)
    requires n > 0.0 && z > 0.0 && root >= 0.0 && root * root == Radicand(p, n, z)
    ensures Centre(p, n, z) - Spread(n, z, root) <= x <= Centre(p, n, z) + Spread(n, z, root) <==> NotRejected(p, n, z, x)
  {
    hide *;
    DefiningEquations(p, n, z, root);
    ScoreInterval(p, Weight(z, n), Centre(p, n, z), Spread(n, z, root), x);
    NotRejectedMeaning(p, n, z, x);
  }

  lemma NotRejectedMeaning(p: real, n: real, z: real, x: real)
    requires n > 0.0
    ensures NotRejected(p, n, z, x) <==> Scores(p, Weight(z, n), x)
  {
  }

  /** By how much the score of x exceeds the weight. */
  function Excess(p: real, w: real, x: real): real {
    (p - x) * (p - x) - w * (x * (1.0 - x))
  }

  function Stretched(w: real, y: real): real {
    (1.0 + w) * y
  }

  lemma ExcessMeaning(p: real, w: real, x: real)
    ensures Scores(p, w, x) <==> Excess(p, w, x) <= 0.0
  {
  }

  lemma CompletedSquare(p: real, w: real, c: real, s: real, x: real)
    requires Defines(p, w, c, s)
    ensures var u, v := Stretched(w, x) - Stretched(w, c), Stretched(w, s);
            w >= 0.0 && v >= 0.0 && (1.0 + w) * Excess(p, w, x) == u * u - v * v
  {
    Parabola(p, w, 1.0 + w, c, s, x);
  }

  /** The same with the two defining equations in place of the definitions. */
  lemma ScoreInterval(p: real, w: real, c: real, s: real, x: real)
    requires Defines(p, w, c, s)
    ensures c - s <= x <= c + s <==> Scores(p, w, x)
  {
    hide *;
    CompletedSquare(p, w, c, s, x);
    SquareSides(Stretched(w, x) - Stretched(w, c), Stretched(w, s), 1.0 + w, Excess(p, w, x));
    StretchedBounds(w, c, s, x);
    ExcessMeaning(p, w, x);
  }

  lemma StretchedBounds(w: real, c: real, s: real, x: real)
    requires w >= 0.0
    ensures -Stretched(w, s) <= Stretched(w, x) - Stretched(w, c) <= Stretched(w, s) <==> c - s <= x <= c + s
  {
    ScaledBounds(1.0 + w, c, s, x);
  }

  lemma ScaledBounds(d: real, c: real, s: real, x: real)
    requires d > 0.0
    ensures -(d * s) <= d * x - d * c <= d * s <==> c - s <= x <= c + s
  {
    assert d * x - d * c == d * (x - c);
    assert d * (x - c) <= d * s <==> x - c <= s by {
      assert d * (s - (x - c)) == d * s - d * (x - c);
      SignOfProduct(d, s - (x - c));
    }
    assert -(d * s) <= d * (x - c) <==> -s <= x - c by {
      assert d * ((x - c) + s) == d * (x - c) + d * s;
      SignOfProduct(d, (x - c) + s);
    }
  }

  lemma SignOfProduct(d: real, y: real)
    requires d > 0.0
    ensures d * y >= 0.0 <==> y >= 0.0
  {
  }

  /** A rate the test does not reject is a rate. */
  lemma NotRejectedIsRate(p: real, n: real, z: real, x: real)
    requires n > 0.0 && z > 0.0 && NotRejected(p, n, z, x)
    ensures 0.0 <= x <= 1.0
  {
    var w := z * z / n;
    var zz := z * z;
    ProductPositive(z, z, zz);
    QuotientPositive(zz, n);
    assert (p - x) * (p - x) >= 0.0;
    SignOfProduct(w, x * (1.0 - x));
    if x < 0.0 {
      ProductPositive(-x, 1.0 - x, -(x * (1.0 - x)));
    } else if x > 1.0 {
      ProductPositive(x, x - 1.0, -(x * (1.0 - x)));
    }
  }

  lemma RootPositive(p: real, n: real, z: real, root: real)
    requires n > 0.0 && z > 0.0 && 0.0 <= p <= 1.0 && root >= 0.0 && root * root == Radicand(p, n, z)
    ensures root > 0.0
  {
    ProductNonNegative(p, 1.0 - p);
    assert p * (1.0 - p) / n >= 0.0;
    var zz, m := z * z, 4.0 * n * n;
    ProductPositive(z, z, zz);
    ProductPositive(4.0 * n, n, m);
    QuotientPositive(zz, m);
  }

  /** For every possible count the clamps are idle, the observed rate lies inside, and the interval has positive width. */
  lemma WilsonInterval(count: int, total: int, z: real, root: real)
    requires 0 <= count <= total && total > 0 && z > 0.0
    requires root >= 0.0 && root * root == Radicand(count as real / total as real, total as real, z)
    ensures var r := ProportionOf(count, total, z, root);
            var n := total as real;
            && r.lower == Centre(r.rate, n, z) - Spread(n, z, root) >= 0.0
            && r.upper == Centre(r.rate, n, z) + Spread(n, z, root) <= 1.0
            && r.lower <= r.rate <= r.upper
            && r.lower < r.upper
  {
    hide Centre, Spread, Radicand;
    var n := total as real;
    var p := count as real / n;
    RateRange(count as real, n);
    RootPositive(p, n, z, root);
    var lower, upper := Centre(p, n, z) - Spread(n, z, root), Centre(p, n, z) + Spread(n, z, root);
    PositiveSpread(n, z, root);
    IntervalIsScoreTest(p, n, z, root, lower);
    IntervalIsScoreTest(p, n, z, root, upper);
    NotRejectedIsRate(p, n, z, lower);
    NotRejectedIsRate(p, n, z, upper);
    assert NotRejected(p, n, z, p) by {
      RateNotRejected(p, n, z);
    }
    IntervalIsScoreTest(p, n, z, root, p);
  }

  /** The reported rate is the observed one, and the reported bounds enclose exactly the rates that the score test keeps. */
  lemma IntervalMeaning(count: int, total: int, z: real, root: real, x: real)
    requires 0 <= count <= total && total > 0 && z > 0.0
    requires root >= 0.0 && root * root == Radicand(count as real / total as real, total as real, z)
    ensures var r := ProportionOf(count, total, z, root);
            && r.rate * total as real == count as real
            && (r.lower <= x <= r.upper <==> NotRejected(r.rate, total as real, z, x))
  {
    hide *;
    var n := total as real;
    WilsonInterval(count, total, z, root);
    ReportedRate(count, total, z, root);
    IntervalIsScoreTest(count as real / n, n, z, root, x);
  }

  lemma ReportedRate(count: int, total: int, z: real, root: real)
    requires total > 0
    ensures var r := ProportionOf(count, total, z, root);
            r.rate == count as real / total as real && r.rate * total as real == count as real
  {
    hide Centre, Spread;
  }

  lemma RateRange(c: real, n: real)
    requires 0.0 <= c <= n && n > 0.0
    ensures 0.0 <= c / n <= 1.0
  {
  }

  lemma PositiveSpread(n: real, z: real, root: real)
    requires n > 0.0 && z > 0.0 && root > 0.0
    ensures Spread(n, z, root) > 0.0
  {
    Positive(z, n);
    var d := 1.0 + z * z / n;
    assert z / d > 0.0;
  }

  lemma RateNotRejected(p: real, n: real, z: real)
    requires 0.0 <= p <= 1.0 && n > 0.0
    ensures NotRejected(p, n, z, p)
  {
    Positive(z, n);
    assert p * (1.0 - p) >= 0.0;
    assert (p - p) * (p - p) == 0.0;
    assert (z * z / n) * (p * (1.0 - p)) >= 0.0;
  }
}
