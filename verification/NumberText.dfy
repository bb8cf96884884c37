/**
 The number layout of ECMAScript Number::toString, which RFC 8785 (section 3.2.2.3) adopts, as
 conformance/verify.py re-derives it from the digits of a shortest decimal; and a reader of number
 texts, defined on its own, that says which number a text denotes.
 */
module NumberText {
  import opened Wrappers
  import opened Bytes
  import opened Text
  import opened Decimals

  const MINUS: CodeUnit := 0x2D
  const PLUS: CodeUnit := 0x2B
  const DOT: CodeUnit := 0x2E
  const ZERO: CodeUnit := 0x30
  const EXP: CodeUnit := 0x65

  function DigitText(ds: seq<Digit>): (s: JsString)
    ensures |s| == |ds|
  {
    seq(|ds|, i requires 0 <= i < |ds| => (ds[i] as int + 0x30) as CodeUnit)
  }

  function Sign(neg: bool): JsString {
    if neg then [MINUS] else []
  }

  function ExponentText(e: int): JsString {
    [EXP, if e >= 0 then PLUS else MINUS] + DigitText(NatDigits(if e < 0 then -e else e))
  }

  /** The five layouts of 0.d1...dk times 10^n. */
  function Layout(neg: bool, digits: seq<Digit>, n: int): JsString
    requires digits != []
  {
    var k := |digits|;
    if k <= n <= 21 then Sign(neg) + DigitText(digits) + DigitText(Zeros(n - k))
    else if 0 < n <= 21 then Sign(neg) + DigitText(digits[..n]) + [DOT] + DigitText(digits[n..])
    else if -6 < n <= 0 then Sign(neg) + [ZERO, DOT] + DigitText(Zeros(-n)) + DigitText(digits)
    else if k == 1 then Sign(neg) + DigitText(digits) + ExponentText(n - 1)
    else Sign(neg) + DigitText(digits[..1]) + [DOT] + DigitText(digits[1..]) + ExponentText(n - 1)
  }

  function RawZero(): Decimal {
    RawDecimal(false, [], 0)
  }

  /** The text of a decimal in normal form. */
  function Print(d: Decimal): JsString {
    if d.digits == [] then [ZERO] else Layout(d.neg, d.digits, d.point)
  }

  /** A float as its shortest decimal `int.frac e exponent`, the way Python's repr writes it. */
  datatype Float = NonFinite | Finite(neg: bool, intPart: seq<Digit>, fracPart: seq<Digit>, exponent: int) {
    predicate IsZero() {
      Finite? && forall i :: 0 <= i < |intPart + fracPart| ==> (intPart + fracPart)[i] == 0
    }

    function Value(): real
      requires Finite?
    {
      DecimalValue(neg, intPart, fracPart, exponent)
    }
  }

  datatype NumberError = NotFinite | NegativeZero

  function EsNumberToString(x: Float): Result<JsString, NumberError> {
    if x.NonFinite? then Err(NotFinite)
    else if x.IsZero() then
      if x.neg then Err(NegativeZero) else Ok([ZERO])
    else
      var digits := x.intPart + x.fracPart;
      var n := |x.intPart| + x.exponent;
      var stripped := StripLeading(digits);
      var n := n - (|digits| - |stripped|);
      var kept := StripTrailing(stripped);
      var digits := if kept == [] then [0] else kept;
      Ok(Layout(x.neg, digits, n))
  }

  // ---------------------------------------------------------------- reading numbers

  predicate IsDigitUnit(c: CodeUnit) {
    0x30 <= c <= 0x39
  }

  function ReadDigits(s: JsString): (r: (seq<Digit>, JsString))
    ensures |r.1| <= |s|
  {
    if s == [] || !IsDigitUnit(s[0]) then ([], s)
    else
      var (ds, rest) := ReadDigits(s[1..]);
      ([s[0] - 0x30] + ds, rest)
  }

  function ReadSign(s: JsString): (bool, JsString) {
    if s != [] && s[0] == MINUS then (true, s[1..]) else (false, s)
  }

  function ReadFraction(s: JsString): (seq<Digit>, JsString) {
    if s != [] && s[0] == DOT then ReadDigits(s[1..]) else ([], s)
  }

  function ReadExponent(s: JsString): Option<int> {
    if s == [] then Some(0)
    else if |s| < 2 || s[0] != EXP || (s[1] != PLUS && s[1] != MINUS) then None
    else
      var (ds, rest) := ReadDigits(s[2..]);
      if ds == [] || rest != [] then None else Some(if s[1] == MINUS then -(Dval(ds) as int) else Dval(ds) as int)
  }

  /** The number a text of the form [-] digits [. digits] [e sign digits] denotes. */
  function Denote(s: JsString): Option<real> {
    var (neg, s1) := ReadSign(s);
    var (int_, s2) := ReadDigits(s1);
    var (frac, s3) := ReadFraction(s2);
    var e := ReadExponent(s3);
    if int_ == [] || e.None? then None else Some(DecimalValue(neg, int_, frac, e.value))
  }

  lemma {:induction false} ReadDigitText(ds: seq<Digit>, rest: JsString)
    requires rest == [] || !IsDigitUnit(rest[0])
    ensures ReadDigits(DigitText(ds) + rest) == (ds, rest)
  {
    var s := DigitText(ds) + rest;
    if ds == [] {
      assert s == rest;
    } else {
      assert s[1..] == DigitText(ds[1..]) + rest;
      ReadDigitText(ds[1..], rest);
      assert [ds[0]] + ds[1..] == ds;
    }
  }

  lemma SignedDigits(neg: bool, int_: seq<Digit>, tail: JsString)
    requires int_ != []
    requires tail == [] || !IsDigitUnit(tail[0])
    ensures var s := Sign(neg) + DigitText(int_) + tail;
            ReadSign(s) == (neg, DigitText(int_) + tail) && ReadDigits(ReadSign(s).1) == (int_, tail)
  {
    var s := Sign(neg) + DigitText(int_) + tail;
    assert s[|Sign(neg)|..] == DigitText(int_) + tail;
    assert IsDigitUnit(DigitText(int_)[0]);
    ReadDigitText(int_, tail);
  }

  /** Reading a text assembled from its parts. */
  lemma DenoteInteger(neg: bool, int_: seq<Digit>, tail: JsString, e: int)
    requires int_ != []
    requires (tail == [] && e == 0) || tail == ExponentText(e)
    ensures Denote(Sign(neg) + DigitText(int_) + tail) == Some(DecimalValue(neg, int_, [], e))
  {
    hide DecimalValue, ReadDigits, ReadSign, ReadExponent, Sign, DigitText, ExponentText;
    ReadExponentText(tail, e);
    SignedDigits(neg, int_, tail);
  }

  lemma DenoteFraction(neg: bool, int_: seq<Digit>, frac: seq<Digit>, tail: JsString, e: int)
    requires int_ != []
    requires (tail == [] && e == 0) || tail == ExponentText(e)
    ensures Denote(Sign(neg) + DigitText(int_) + [DOT] + DigitText(frac) + tail)
            == Some(DecimalValue(neg, int_, frac, e))
  {
    hide DecimalValue, ReadDigits, ReadSign, ReadExponent, Sign, DigitText, ExponentText;
    ReadExponentText(tail, e);
    var middle := [DOT] + DigitText(frac) + tail;
    assert Sign(neg) + DigitText(int_) + [DOT] + DigitText(frac) + tail == Sign(neg) + DigitText(int_) + middle;
    SignedDigits(neg, int_, middle);
    assert middle[1..] == DigitText(frac) + tail;
    ReadDigitText(frac, tail);
  }

  lemma ReadExponentText(tail: JsString, e: int)
    requires (tail == [] && e == 0) || tail == ExponentText(e)
    ensures ReadExponent(tail) == Some(e)
    ensures tail != [] ==> tail[0] == EXP
  {
    if tail != [] {
      var ds := NatDigits(if e < 0 then -e else e);
      assert tail[2..] == DigitText(ds) + [];
      ReadDigitText(ds, []);
    }
  }

  lemma DigitTextConcat(a: seq<Digit>, b: seq<Digit>)
    ensures DigitText(a + b) == DigitText(a) + DigitText(b)
  {
  }

  /** A fraction part is as good as a smaller exponent. */
  lemma ShiftFraction(neg: bool, int_: seq<Digit>, frac: seq<Digit>, e: int)
    ensures DecimalValue(neg, int_, frac, e) == DecimalValue(neg, int_ + frac, [], e - |frac|)
  {
    hide Dval, Pow10;
    assert (int_ + frac) + [] == int_ + frac;
  }

  lemma ValueIsDecimal(d: Decimal)
    ensures d.Value() == DecimalValue(d.neg, d.digits, [], d.point - |d.digits|)
  {
    hide Dval, Pow10;
    assert d.digits + [] == d.digits;
  }

  lemma LongInteger(neg: bool, digits: seq<Digit>, n: int)
    requires digits != [] && |digits| <= n <= 21
    ensures Denote(Layout(neg, digits, n)) == Some(DecimalValue(neg, digits, [], n - |digits|))
  {
    hide Denote, Sign, DigitText, DecimalValue;
    var zeros := Zeros(n - |digits|);
    DigitTextConcat(digits, zeros);
    assert Layout(neg, digits, n) == Sign(neg) + DigitText(digits + zeros) + [];
    DenoteInteger(neg, digits + zeros, [], 0);
    LongIntegerValue(neg, digits, n - |digits|);
  }

  lemma LongIntegerValue(neg: bool, digits: seq<Digit>, z: nat)
    ensures DecimalValue(neg, digits + Zeros(z), [], 0) == DecimalValue(neg, digits, [], z)
  {
    hide Dval, Pow10;
    DvalZeros(digits, z);
    assert (digits + Zeros(z)) + [] == digits + Zeros(z) && digits + [] == digits;
    Pow10Zero();
  }

  lemma ShortFraction(neg: bool, digits: seq<Digit>, n: int)
    requires digits != [] && -6 < n <= 0
    ensures Denote(Layout(neg, digits, n)) == Some(DecimalValue(neg, digits, [], n - |digits|))
  {
    hide Denote, Sign, DigitText, DecimalValue;
    var frac := Zeros(-n) + digits;
    DigitTextConcat(Zeros(-n), digits);
    ZeroText();
    assert Layout(neg, digits, n) == Sign(neg) + DigitText([0]) + [DOT] + DigitText(frac) + [];
    DenoteFraction(neg, [0], frac, [], 0);
    ShortFractionValue(neg, digits, n);
  }

  lemma ShortFractionValue(neg: bool, digits: seq<Digit>, n: int)
    requires n <= 0
    ensures DecimalValue(neg, [0], Zeros(-n) + digits, 0) == DecimalValue(neg, digits, [], n - |digits|)
  {
    hide Dval, Pow10;
    assert [0] + (Zeros(-n) + digits) == Zeros(1 - n) + digits && digits + [] == digits;
    DvalLeadingZeros(1 - n, digits);
  }

  lemma ZeroText()
    ensures DigitText([0]) == [ZERO]
  {
  }

  /** The three layouts that put the point, if any, inside the digits. */
  lemma PointInside(neg: bool, digits: seq<Digit>, n: int)
    requires digits != [] && !(|digits| <= n <= 21) && !(-6 < n <= 0)
    ensures Denote(Layout(neg, digits, n)) == Some(DecimalValue(neg, digits, [], n - |digits|))
  {
    hide Dval, Pow10, Denote, Sign, DigitText, ExponentText, DecimalValue;
    var p := if 0 < n <= 21 then n else 1;
    var e := if 0 < n <= 21 then 0 else n - 1;
    var tail := if 0 < n <= 21 then [] else ExponentText(n - 1);
    if p < |digits| {
      assert Layout(neg, digits, n) == Sign(neg) + DigitText(digits[..p]) + [DOT] + DigitText(digits[p..]) + tail;
      DenoteFraction(neg, digits[..p], digits[p..], tail, e);
      ShiftFraction(neg, digits[..p], digits[p..], e);
      assert digits[..p] + digits[p..] == digits && e - (|digits| - p) == n - |digits|;
    } else {
      DenoteInteger(neg, digits, tail, e);
    }
  }

  /** Every layout denotes exactly the decimal it was made from. */
  lemma PrintDenotes(d: Decimal)
    ensures Denote(Print(d)) == Some(d.Value())
  {
    hide Dval, Pow10, Denote, Layout, DecimalValue;
    ValueIsDecimal(d);
    if d.digits == [] {
      ZeroDenotes();
    } else if |d.digits| <= d.point <= 21 {
      LongInteger(d.neg, d.digits, d.point);
    } else if -6 < d.point <= 0 {
      ShortFraction(d.neg, d.digits, d.point);
    } else {
      PointInside(d.neg, d.digits, d.point);
    }
  }

  lemma ZeroDenotes()
    ensures Denote([ZERO]) == Some(DecimalValue(false, [], [], 0))
  {
    hide Dval, Pow10, Denote;
    ZeroText();
    assert [ZERO] == Sign(false) + DigitText([0]) + [];
    DenoteInteger(false, [0], [], 0);
    var none: seq<Digit> := [];
    assert [0] + none == Zeros(1) + none && none + none == none;
    DvalLeadingZeros(1, []);
  }

  lemma PrintInjective(a: Decimal, b: Decimal)
    requires Print(a) == Print(b)
    ensures a == b
  {
    hide Denote, Print;
    PrintDenotes(a);
    PrintDenotes(b);
    NormalUnique(a, b);
  }

  // ---------------------------------------------------------------- the float printer

  lemma {:induction false} StripAllZero(ds: seq<Digit>)
    ensures StripLeading(ds) == [] <==> forall i :: 0 <= i < |ds| ==> ds[i] == 0
  {
    if ds != [] && ds[0] == 0 {
      StripAllZero(ds[1..]);
      assert forall i :: 0 <= i < |ds| - 1 ==> ds[1..][i] == ds[i + 1];
      if StripLeading(ds) == [] {
        forall i | 0 <= i < |ds| ensures ds[i] == 0 {
          if i > 0 {
            assert ds[1..][i - 1] == ds[i];
          }
        }
      }
    }
  }

  lemma ZeroIsNormal(x: Float)
    requires x.Finite? && x.IsZero()
    ensures EsNumberToString(x) == if x.neg then Err(NegativeZero) else Ok([ZERO])
    ensures Normalise(x.neg, x.intPart, x.fracPart, x.exponent) == RawZero() && Print(RawZero()) == [ZERO]
  {
    hide Layout, StripTrailing;
    StripAllZero(x.intPart + x.fracPart);
  }

  lemma NonZeroIsNormal(x: Float)
    requires x.Finite? && !x.IsZero()
    ensures EsNumberToString(x) == Ok(Print(Normalise(x.neg, x.intPart, x.fracPart, x.exponent)))
  {
    hide Layout, StripLeading, StripTrailing;
    var digits := x.intPart + x.fracPart;
    StripAllZero(digits);
    KeptDigits(StripLeading(digits));
  }

  lemma KeptDigits(stripped: seq<Digit>)
    requires stripped != [] && stripped[0] != 0
    ensures StripTrailing(stripped) != []
  {
    var kept := StripTrailing(stripped);
    assert stripped[0] == (kept + Zeros(|stripped| - |kept|))[0];
  }

  /** The printer re-lays-out the normal form of its argument; it refuses non-finite numbers and -0, nothing else. */
  lemma EsNumberIsNormal(x: Float)
    ensures x.NonFinite? ==> EsNumberToString(x) == Err(NotFinite)
    ensures x.Finite? && x.IsZero() && x.neg ==> EsNumberToString(x) == Err(NegativeZero)
    ensures x.Finite? && !(x.IsZero() && x.neg) ==>
              EsNumberToString(x) == Ok(Print(Normalise(x.neg, x.intPart, x.fracPart, x.exponent)))
  {
    hide EsNumberToString, Print, Normalise;
    match x
    case NonFinite => NonFiniteRefused();
    case Finite(_, _, _, _) =>
      if x.IsZero() {
        ZeroIsNormal(x);
      } else {
        NonZeroIsNormal(x);
      }
  }

  lemma NonFiniteRefused()
    ensures EsNumberToString(NonFinite) == Err(NotFinite)
  {
  }

  /** The printed text denotes the value of the float, and equal texts are equal values and conversely. */
  lemma EsNumberDenotes(x: Float)
    requires EsNumberToString(x).Ok?
    ensures x.Finite? && Denote(EsNumberToString(x).value) == Some(x.Value())
  {
    hide Denote, Print, Normalise, EsNumberToString, DecimalValue;
    EsNumberIsNormal(x);
    PrintDenotes(Normalise(x.neg, x.intPart, x.fracPart, x.exponent));
    NormaliseKeepsValue(x.neg, x.intPart, x.fracPart, x.exponent);
  }

  lemma EsNumberCanonical(x: Float, y: Float)
    requires EsNumberToString(x).Ok? && EsNumberToString(y).Ok?
    ensures x.Finite? && y.Finite?
    ensures EsNumberToString(x) == EsNumberToString(y) <==> x.Value() == y.Value()
  {
    hide Denote, Print, Normalise, EsNumberToString, DecimalValue;
    EsNumberIsNormal(x);
    EsNumberIsNormal(y);
    EsNumberDenotes(x);
    EsNumberDenotes(y);
    if x.Value() == y.Value() {
      NormaliseKeepsValue(x.neg, x.intPart, x.fracPart, x.exponent);
      NormaliseKeepsValue(y.neg, y.intPart, y.fracPart, y.exponent);
      NormalUnique(Normalise(x.neg, x.intPart, x.fracPart, x.exponent), Normalise(y.neg, y.intPart, y.fracPart, y.exponent));
    }
  }

  // ---------------------------------------------------------------- number texts inside a larger text

  predicate IsNumberUnit(c: CodeUnit) {
    IsDigitUnit(c) || c == MINUS || c == PLUS || c == DOT || c == EXP
  }

  predicate AllNumberUnits(s: JsString) {
    forall i :: 0 <= i < |s| ==> IsNumberUnit(s[i])
  }

  lemma UnitsConcat(a: JsString, b: JsString)
    requires AllNumberUnits(a) && AllNumberUnits(b)
    ensures AllNumberUnits(a + b)
  {
  }

  lemma PartUnits(neg: bool, ds: seq<Digit>, e: int)
    ensures AllNumberUnits(Sign(neg)) && AllNumberUnits(DigitText(ds)) && AllNumberUnits(ExponentText(e))
    ensures AllNumberUnits([DOT]) && AllNumberUnits([ZERO, DOT])
    ensures ds != [] ==> IsDigitUnit((Sign(false) + DigitText(ds))[0])
    ensures (Sign(true) + DigitText(ds))[0] == MINUS
  {
  }

  lemma LayoutUnits(neg: bool, digits: seq<Digit>, n: int)
    requires digits != []
    ensures Layout(neg, digits, n) != [] && AllNumberUnits(Layout(neg, digits, n))
    ensures IsDigitUnit(Layout(neg, digits, n)[0]) || Layout(neg, digits, n)[0] == MINUS
  {
    hide ExponentText, AllNumberUnits;
    var k := |digits|;
    var p := if 0 < n <= 21 then n else 1;
    PartUnits(neg, digits, n - 1);
    if k <= n <= 21 {
      PartUnits(neg, Zeros(n - k), 0);
      UnitsConcat(Sign(neg), DigitText(digits));
      UnitsConcat(Sign(neg) + DigitText(digits), DigitText(Zeros(n - k)));
    } else if -6 < n <= 0 {
      PartUnits(neg, Zeros(-n), 0);
      UnitsConcat(Sign(neg), [ZERO, DOT]);
      UnitsConcat(Sign(neg) + [ZERO, DOT], DigitText(Zeros(-n)));
      UnitsConcat(Sign(neg) + [ZERO, DOT] + DigitText(Zeros(-n)), DigitText(digits));
    } else if p < k {
      PartUnits(neg, digits[..p], 0);
      PartUnits(neg, digits[p..], 0);
      var s := Sign(neg) + DigitText(digits[..p]);
      UnitsConcat(Sign(neg), DigitText(digits[..p]));
      UnitsConcat(s, [DOT]);
      UnitsConcat(s + [DOT], DigitText(digits[p..]));
      UnitsConcat(s + [DOT] + DigitText(digits[p..]), ExponentText(n - 1));
    } else {
      UnitsConcat(Sign(neg), DigitText(digits));
      UnitsConcat(Sign(neg) + DigitText(digits), ExponentText(n - 1));
    }
  }

  /** A number text is made of number characters only, and starts with a digit or the minus sign. */
  lemma PrintUnits(d: Decimal)
    ensures Print(d) != [] && AllNumberUnits(Print(d))
    ensures IsDigitUnit(Print(d)[0]) || Print(d)[0] == MINUS
  {
    hide Layout;
    if d.digits != [] {
      LayoutUnits(d.neg, d.digits, d.point);
    }
  }
}
