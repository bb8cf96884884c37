/** Decimal digit strings, powers of ten, and the exact value of a decimal. */
module Decimals {

  type Digit = d: int | 0 <= d < 10

  /** 10^e for every integer e. */
  function Pow10(e: int): (p: real)
    ensures p > 0.0
    decreases if e < 0 then -e else e
  {
    if e == 0 then 1.0 else if e > 0 then 10.0 * Pow10(e - 1) else Pow10(e + 1) / 10.0
  }

  lemma Pow10Next(e: int)
    ensures Pow10(e + 1) == 10.0 * Pow10(e)
  {
  }

  lemma {:induction false} Pow10Add(a: int, b: int)
    ensures Pow10(a + b) == Pow10(a) * Pow10(b)
    decreases if b < 0 then -b else b
  {
    hide Pow10;
    if b == 0 {
      Pow10Zero();
    } else if b > 0 {
      Pow10Add(a, b - 1);
      Pow10Next(b - 1);
      Pow10Next(a + b - 1);
      assert Pow10(a + b) == 10.0 * (Pow10(a) * Pow10(b - 1)) == Pow10(a) * (10.0 * Pow10(b - 1));
    } else {
      Pow10Add(a, b + 1);
      Pow10Next(b);
      Pow10Next(a + b);
      assert 10.0 * Pow10(a + b) == Pow10(a) * (10.0 * Pow10(b)) == 10.0 * (Pow10(a) * Pow10(b));
    }
  }

  lemma Pow10Zero()
    ensures Pow10(0) == 1.0
  {
  }

  lemma {:induction false} Pow10Monotonic(a: int, b: int)
    requires a < b
    ensures Pow10(a) < Pow10(b)
    decreases b - a
  {
    hide Pow10;
    Pow10Next(a);
    if a + 1 < b {
      Pow10Monotonic(a + 1, b);
    }
  }

  /** The number a digit string writes, most significant digit first. */
  function Dval(ds: seq<Digit>): nat {
    if ds == [] then 0 else 10 * Dval(ds[..|ds| - 1]) + ds[|ds| - 1]
  }

  function Zeros(n: nat): (z: seq<Digit>)
    ensures |z| == n && forall i :: 0 <= i < n ==> z[i] == 0
  {
    seq(n, (_: nat) => 0 as Digit)
  }

  lemma DvalPush(ds: seq<Digit>, d: Digit)
    ensures Dval(ds + [d]) == 10 * Dval(ds) + d
  {
    assert (ds + [d])[..|ds|] == ds;
  }

  lemma {:induction false} DvalZeros(ds: seq<Digit>, n: nat)
    ensures Dval(ds + Zeros(n)) as real == Dval(ds) as real * Pow10(n)
  {
    hide Pow10, Dval;
    if n == 0 {
      Pow10Zero();
      assert ds + Zeros(0) == ds;
    } else {
      DvalZeros(ds, n - 1);
      assert ds + Zeros(n) == (ds + Zeros(n - 1)) + [0];
      DvalPush(ds + Zeros(n - 1), 0);
      Pow10Next(n - 1);
      Regroup(Dval(ds) as real, Pow10(n - 1), 10.0);
    }
  }

  lemma {:induction false} DvalLeadingZeros(n: nat, ds: seq<Digit>)
    ensures Dval(Zeros(n) + ds) == Dval(ds)
    decreases |ds| + n
  {
    if ds != [] {
      var k := |ds| - 1;
      assert Zeros(n) + ds == (Zeros(n) + ds[..k]) + [ds[k]];
      DvalPush(Zeros(n) + ds[..k], ds[k]);
      DvalLeadingZeros(n, ds[..k]);
    } else if n > 0 {
      assert Zeros(n) + ds == (Zeros(n - 1) + ds) + [0];
      DvalPush(Zeros(n - 1) + ds, 0);
      DvalLeadingZeros(n - 1, ds);
    }
  }

  /** k digits write a number below 10^k; if the first one is not 0, at least 10^(k-1). */
  lemma {:induction false} DvalBounds(ds: seq<Digit>)
    ensures Dval(ds) as real < Pow10(|ds|)
    ensures ds != [] && ds[0] != 0 ==> Pow10(|ds| - 1) <= Dval(ds) as real
  {
    if ds == [] {
      Pow10Zero();
    } else {
      var k := |ds| - 1;
      DvalBounds(ds[..k]);
      DvalBelow(ds[..k]);
      Pow10Next(k);
      Pow10Next(k - 1);
      if k == 0 {
        Pow10Zero();
      }
    }
  }

  function NatPow10(k: nat): nat {
    if k == 0 then 1 else 10 * NatPow10(k - 1)
  }

  lemma {:induction false} NatPow10Real(k: nat)
    ensures NatPow10(k) as real == Pow10(k)
  {
    if k > 0 {
      NatPow10Real(k - 1);
    }
  }

  lemma {:induction false} DvalBelow(ds: seq<Digit>)
    ensures Dval(ds) + 1 <= NatPow10(|ds|)
    ensures Dval(ds) as real + 1.0 <= Pow10(|ds|)
  {
    if ds != [] {
      DvalBelow(ds[..|ds| - 1]);
    }
    NatPow10Real(|ds|);
  }

  /** Digit strings of one length are determined by the number they write. */
  lemma {:induction false} DvalInjective(a: seq<Digit>, b: seq<Digit>)
    requires |a| == |b| && Dval(a) == Dval(b)
    ensures a == b
  {
    if a != [] {
      var k := |a| - 1;
      assert a[k] == b[k] && Dval(a[..k]) == Dval(b[..k]);
      DvalInjective(a[..k], b[..k]);
      assert a == a[..k] + [a[k]] && b == b[..k] + [b[k]];
    }
  }

  /** The digits of a natural number, without leading zeros. */
  function NatDigits(n: nat): (ds: seq<Digit>)
    ensures ds != []
    ensures Dval(ds) == n
  {
    if n < 10 then
      assert Dval([n]) == 10 * Dval([]) + n;
      [n]
    else
      DvalPush(NatDigits(n / 10), n % 10);
      NatDigits(n / 10) + [n % 10]
  }

  /**
   A decimal in normal form: 0.d1 d2 ... dk times 10^point, with d1 and dk not 0.
   Zero has no digits and no sign.
   */
  datatype RawDecimal = RawDecimal(neg: bool, digits: seq<Digit>, point: int) {
    predicate Normal() {
      if digits == [] then !neg && point == 0 else digits[0] != 0 && digits[|digits| - 1] != 0
    }

    function Value(): real {
      var v := Dval(digits) as real * Pow10(point - |digits|);
      if neg then -v else v
    }
  }

  type Decimal = d: RawDecimal | d.Normal() witness RawDecimal(false, [], 0)

  /** The size of a normal decimal is told by its point. */
  lemma PointBounds(d: Decimal)
    requires d.digits != []
    ensures var v := if d.neg then -d.Value() else d.Value(); Pow10(d.point - 1) <= v < Pow10(d.point)
  {
    var k := |d.digits|;
    hide Pow10, Dval;
    DvalBounds(d.digits);
    var e := d.point - k;
    Pow10Add(k - 1, e);
    assert k - 1 + e == d.point - 1;
    Pow10Add(k, e);
    assert k + e == d.point;
    var m := Dval(d.digits) as real * Pow10(e);
    Scale(Pow10(k - 1), Dval(d.digits) as real, Pow10(k), Pow10(e), Pow10(d.point - 1), m, Pow10(d.point));
    ValueMeaning(d);
  }

  lemma Scale(a: real, b: real, c: real, s: real, lo: real, m: real, hi: real)
    requires a <= b < c && s > 0.0
    requires lo == a * s && m == b * s && hi == c * s
    ensures lo <= m < hi
  {
    assert (b - a) * s >= 0.0 && (c - b) * s > 0.0;
  }

  lemma ValueMeaning(d: RawDecimal)
    ensures Dval(d.digits) as real * Pow10(d.point - |d.digits|) == if d.neg then -d.Value() else d.Value()
  {
  }

  lemma Cancel(a: real, b: real, s: real)
    requires a * s == b * s && s > 0.0
    ensures a == b
  {
  }

  /** Normal decimals of one value are the same decimal. */
  lemma NormalUnique(a: Decimal, b: Decimal)
    requires a.Value() == b.Value()
    ensures a == b
  {
    hide Pow10, Dval;
    SignOfValue(a);
    SignOfValue(b);
    if a.digits != [] {
      PointBounds(a);
      PointBounds(b);
      if a.point < b.point {
        PowOrder(a.point, b.point - 1);
      } else if b.point < a.point {
        PowOrder(b.point, a.point - 1);
      }
      if |a.digits| <= |b.digits| {
        SameDigits(a, b);
      } else {
        SameDigits(b, a);
      }
    }
  }

  lemma PowOrder(a: int, b: int)
    requires a <= b
    ensures Pow10(a) <= Pow10(b)
  {
    if a < b {
      Pow10Monotonic(a, b);
    }
  }

  lemma SignOfValue(d: Decimal)
    ensures d.digits == [] ==> d.Value() == 0.0
    ensures d.digits != [] && d.neg ==> d.Value() < 0.0
    ensures d.digits != [] && !d.neg ==> d.Value() > 0.0
  {
    if d.digits != [] {
      PointBounds(d);
    }
  }

  lemma SameDigits(a: Decimal, b: Decimal)
    requires a.digits != [] && b.digits != [] && a.neg == b.neg && a.point == b.point
    requires a.Value() == b.Value() && |a.digits| <= |b.digits|
    ensures a.digits == b.digits
  {
    hide *;
    var z := |b.digits| - |a.digits|;
    ValueMeaning(a);
    ValueMeaning(b);
    PaddedEqual(a.digits, b.digits, a.point);
    DvalInjective(a.digits + Zeros(z), b.digits);
    NoPadding(a, b, z);
  }

  lemma PaddedEqual(ds: seq<Digit>, es: seq<Digit>, p: int)
    requires |ds| <= |es| && Dval(ds) as real * Pow10(p - |ds|) == Dval(es) as real * Pow10(p - |es|)
    ensures Dval(ds + Zeros(|es| - |ds|)) == Dval(es)
  {
    hide *;
    var z, e := |es| - |ds|, p - |es|;
    assert z + e == p - |ds|;
    PaddedValue(ds, z, e);
    Cancel(Dval(ds + Zeros(z)) as real, Dval(es) as real, Pow10(e));
  }

  lemma NoPadding(a: Decimal, b: Decimal, z: nat)
    requires b.digits != [] && b.digits == a.digits + Zeros(z)
    ensures a.digits == b.digits
  {
    hide Pow10, Dval;
    LastOfPadded(a.digits, z);
  }

  lemma LastOfPadded(ds: seq<Digit>, z: nat)
    ensures z > 0 ==> (ds + Zeros(z))[|ds| + z - 1] == 0
    ensures z == 0 ==> ds + Zeros(z) == ds
  {
  }

  lemma PaddedValue(ds: seq<Digit>, z: nat, e: int)
    ensures Dval(ds + Zeros(z)) as real * Pow10(e) == Dval(ds) as real * Pow10(z + e)
  {
    hide Pow10, Dval;
    DvalZeros(ds, z);
    Pow10Add(z, e);
    Regroup(Dval(ds) as real, Pow10(z), Pow10(e));
  }

  lemma Regroup(x: real, y: real, z: real)
    ensures (x * y) * z == x * (y * z)
  {
  }

  // ---------------------------------------------------------------- normalisation

  function StripLeading(ds: seq<Digit>): (r: seq<Digit>)
    ensures |r| <= |ds| && (r != [] ==> r[0] != 0)
    ensures ds == Zeros(|ds| - |r|) + r
  {
    if ds != [] && ds[0] == 0 then StripLeading(ds[1..]) else ds
  }

  function StripTrailing(ds: seq<Digit>): (r: seq<Digit>)
    ensures |r| <= |ds| && (r != [] ==> r[|r| - 1] != 0)
    ensures ds == r + Zeros(|ds| - |r|)
  {
    if ds != [] && ds[|ds| - 1] == 0 then
      assert ds == ds[..|ds| - 1] + [0];
      StripTrailing(ds[..|ds| - 1])
    else ds
  }

  /** The exact value written `int.frac e exponent`. */
  function DecimalValue(neg: bool, int_: seq<Digit>, frac: seq<Digit>, exponent: int): real {
    var v := Dval(int_ + frac) as real * Pow10(exponent - |frac|);
    if neg then -v else v
  }

  /** The normal form of `int.frac e exponent`; the sign of zero is dropped. */
  function Normalise(neg: bool, int_: seq<Digit>, frac: seq<Digit>, exponent: int): Decimal {
    var digits := int_ + frac;
    var stripped := StripLeading(digits);
    var kept := StripTrailing(stripped);
    if kept == [] then RawDecimal(false, [], 0)
    else
      assert kept[0] == stripped[0];
      RawDecimal(neg, kept, |int_| + exponent - (|digits| - |stripped|))
  }

  lemma NormaliseKeepsValue(neg: bool, int_: seq<Digit>, frac: seq<Digit>, exponent: int)
    ensures Normalise(neg, int_, frac, exponent).Value() == DecimalValue(neg, int_, frac, exponent)
  {
    hide Pow10, Dval, StripLeading, StripTrailing;
    var digits := int_ + frac;
    var stripped := StripLeading(digits);
    var kept := StripTrailing(stripped);
    NormaliseValue(digits, stripped, kept, exponent - |frac|);
    if kept == [] {
      DvalEmpty();
    }
  }

  lemma DvalEmpty()
    ensures Dval([]) == 0
  {
  }

  lemma NormaliseValue(digits: seq<Digit>, stripped: seq<Digit>, kept: seq<Digit>, e: int)
    requires |kept| <= |stripped| <= |digits|
    requires digits == Zeros(|digits| - |stripped|) + stripped
    requires stripped == kept + Zeros(|stripped| - |kept|)
    ensures Dval(digits) as real * Pow10(e) == Dval(kept) as real * Pow10(e + |stripped| - |kept|)
  {
    hide Pow10, Dval;
    var t := |stripped| - |kept|;
    DvalLeadingZeros(|digits| - |stripped|, stripped);
    PaddedValue(kept, t, e);
  }

  /** An integer as a decimal. */
  function OfInt(n: int): Decimal {
    Normalise(n < 0, NatDigits(if n < 0 then -n else n), [], 0)
  }

  lemma OfIntValue(n: int)
    ensures OfInt(n).Value() == n as real
  {
    hide Pow10, Dval, Normalise;
    var ds := NatDigits(if n < 0 then -n else n);
    assert ds + [] == ds;
    Pow10Zero();
    NormaliseKeepsValue(n < 0, ds, [], 0);
  }

  lemma OfIntInjective(a: int, b: int)
    requires OfInt(a) == OfInt(b)
    ensures a == b
  {
    OfIntValue(a);
    OfIntValue(b);
  }
}
