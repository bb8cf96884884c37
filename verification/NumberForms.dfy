/**
 Which text a number has: the form ECMA-262 gives Number::toString, stated on the text and the value alone, without
 saying how the text is laid out; and that the printer's text is the only one of that form.
 */
module NumberForms {
  import opened Wrappers
  import opened Bytes
  import opened Text
  import opened Decimals
  import opened NumberText

  datatype Exponent = Exponent(minus: bool, digits: seq<Digit>)

  /** A JSON number (RFC 8259, section 6), taken apart; an empty fraction is one that is not written. */
  datatype Parts = Parts(minus: bool, int_: seq<Digit>, frac: seq<Digit>, exp: Option<Exponent>) {
    /** The grammar: an integer part without leading zeros, and digits after the exponent sign. */
    predicate Grammatical() {
      && int_ != [] && (|int_| > 1 ==> int_[0] != 0)
      && (exp.Some? ==> exp.value.digits != [])
    }

    function Power(): int {
      match exp
      case None => 0
      case Some(e) => if e.minus then -(Dval(e.digits) as int) else Dval(e.digits) as int
    }

    function Value(): real {
      DecimalValue(minus, int_, frac, Power())
    }

    function Text(): JsString {
      (if minus then Ascii("-") else []) + DigitText(int_)
      + (if frac == [] then [] else Ascii(".") + DigitText(frac))
      + match exp
        case None => []
        case Some(e) => Ascii("e") + Ascii(if e.minus then "-" else "+") + DigitText(e.digits)
    }

    /**
     What ECMAScript asks of the text of a number: no zero is written that could be left out, zero has no sign, and an
     exponent stands exactly when the value is not 0 and below 10^-6 or at least 10^21 in size, after one digit before
     the point.
     */
    ghost predicate Chosen() {
      && Grammatical()
      && (frac != [] ==> frac[|frac| - 1] != 0)
      && (Value() == 0.0 ==> !minus)
      && (exp.Some? <==> IsExtreme(Value()))
      && (exp.Some? ==> |int_| == 1 && int_[0] != 0 && exp.value.digits[0] != 0)
    }
  }

  function Size(x: real): real {
    if x < 0.0 then -x else x
  }

  predicate IsExtreme(x: real) {
    x != 0.0 && (Size(x) < Pow10(-6) || Size(x) >= Pow10(21))
  }

  ghost predicate IsEsText(s: JsString, x: real) {
    exists p: Parts :: p.Chosen() && p.Text() == s && p.Value() == x
  }

  // ---------------------------------------------------------------- digits

  lemma {:induction false} NatDigitsLead(n: nat)
    ensures |NatDigits(n)| > 1 || n > 0 ==> NatDigits(n)[0] != 0
  {
    if n >= 10 {
      NatDigitsLead(n / 10);
      assert NatDigits(n)[0] == NatDigits(n / 10)[0];
    }
  }

  /** Only one digit string without a leading zero writes a given positive number. */
  lemma {:induction false} NatDigitsUnique(ds: seq<Digit>)
    requires ds != [] && ds[0] != 0
    ensures Dval(ds) > 0 && NatDigits(Dval(ds)) == ds
  {
    hide Pow10;
    var k := |ds| - 1;
    if k == 0 {
      DvalOne(ds[0]);
      assert ds == [ds[0]];
    } else {
      NatDigitsUnique(ds[..k]);
      NatDigitsStep(Dval(ds[..k]), ds[k]);
      assert ds == ds[..k] + [ds[k]];
    }
  }

  lemma DvalOne(d: Digit)
    ensures Dval([d]) == d && NatDigits(d) == [d]
  {
    assert [d][..0] == [];
  }

  lemma NatDigitsStep(n: nat, d: Digit)
    requires n > 0
    ensures NatDigits(10 * n + d) == NatDigits(n) + [d]
  {
    assert (10 * n + d) / 10 == n && (10 * n + d) % 10 == d;
  }

  lemma SignText(neg: bool)
    ensures Sign(neg) == if neg then Ascii("-") else []
    ensures [DOT] == Ascii(".") && [ZERO] == DigitText([0])
  {
  }

  lemma ExponentWritten(e: int)
    ensures ExponentText(e) == Ascii("e") + Ascii(if e < 0 then "-" else "+") + DigitText(NatDigits(if e < 0 then -e else e))
  {
    hide NatDigits, DigitText;
  }

  lemma DigitTextEmpty()
    ensures DigitText([]) == []
  {
  }

  /** The text of a number taken apart, in the words of the printer. */
  lemma TextParts(p: Parts)
    ensures p.frac == [] && p.exp.None? ==> p.Text() == Sign(p.minus) + DigitText(p.int_)
    ensures p.frac != [] && p.exp.None? ==> p.Text() == Sign(p.minus) + DigitText(p.int_) + [DOT] + DigitText(p.frac)
    ensures p.exp.Some? && (p.exp.value.digits == NatDigits(Dval(p.exp.value.digits))) && Dval(p.exp.value.digits) > 0 ==>
              && (p.frac == [] ==> p.Text() == Sign(p.minus) + DigitText(p.int_) + ExponentText(p.Power()))
              && (p.frac != [] ==>
                    p.Text() == Sign(p.minus) + DigitText(p.int_) + [DOT] + DigitText(p.frac) + ExponentText(p.Power()))
  {
    hide DigitText, NatDigits, Dval, ExponentText, Ascii, Sign;
    SignText(p.minus);
    var s := Sign(p.minus) + DigitText(p.int_);
    if p.exp.None? {
      if p.frac == [] {
        assert p.Text() == s + [] + [];
      } else {
        assert s + [DOT] + DigitText(p.frac) == s + ([DOT] + DigitText(p.frac)) + [];
      }
    } else {
      ExponentWritten(p.Power());
      if p.frac == [] {
        assert s + ExponentText(p.Power()) == s + [] + ExponentText(p.Power());
      } else {
        assert s + [DOT] + DigitText(p.frac) + ExponentText(p.Power())
               == s + ([DOT] + DigitText(p.frac)) + ExponentText(p.Power());
      }
    }
  }

  // ---------------------------------------------------------------- the size of a decimal and its point

  lemma SizeBounds(d: Decimal)
    requires d.digits != []
    ensures Pow10(d.point - 1) <= Size(d.Value()) < Pow10(d.point) && d.Value() != 0.0
  {
    hide Pow10, Dval;
    PointBounds(d);
    SignOfValue(d);
  }

  /** A decimal is extreme exactly when its point lies outside (-6, 21]. */
  lemma ExtremePoint(d: Decimal)
    requires d.digits != []
    ensures IsExtreme(d.Value()) <==> !(-6 < d.point <= 21)
  {
    hide Pow10, Dval;
    SizeBounds(d);
    if d.point > 21 {
      PowOrder(21, d.point - 1);
    } else if d.point > -6 {
      PowOrder(d.point, 21);
      PowOrder(-6, d.point - 1);
    } else {
      PowOrder(d.point, -6);
    }
  }

  // ---------------------------------------------------------------- the only text

  lemma StripNothing(ds: seq<Digit>)
    requires ds != []
    ensures ds[0] != 0 ==> StripLeading(ds) == ds
    ensures ds[|ds| - 1] != 0 ==> StripTrailing(ds) == ds
  {
  }

  lemma NormaliseIs(neg: bool, int_: seq<Digit>, frac: seq<Digit>, exponent: int)
    requires StripTrailing(StripLeading(int_ + frac)) != []
    ensures var d := Normalise(neg, int_, frac, exponent);
            && d.digits == StripTrailing(StripLeading(int_ + frac)) && d.neg == neg
            && d.point == |int_| + exponent - (|int_| + |frac| - |StripLeading(int_ + frac)|)
  {
    hide StripLeading, StripTrailing;
  }

  /** A chosen number with a leading digit that is not 0. */
  lemma LeadNormal(p: Parts)
    requires p.Grammatical() && p.int_[0] != 0 && (p.frac != [] ==> p.frac[|p.frac| - 1] != 0)
    ensures var d := Normalise(p.minus, p.int_, p.frac, p.Power());
            && d.digits != [] && d.neg == p.minus && d.point == |p.int_| + p.Power()
            && (p.frac != [] ==> d.digits == p.int_ + p.frac)
            && (p.frac == [] ==> |d.digits| <= |p.int_| && p.int_ == d.digits + Zeros(|p.int_| - |d.digits|))
            && (p.frac == [] && |p.int_| == 1 ==> d.digits == p.int_)
  {
    hide StripLeading, StripTrailing, Dval, Normalise, Parts.Power, Zeros;
    var ds := p.int_ + p.frac;
    LeadStripped(p.int_, p.frac);
    NormaliseIs(p.minus, p.int_, p.frac, p.Power());
  }

  lemma LeadStripped(int_: seq<Digit>, frac: seq<Digit>)
    requires int_ != [] && int_[0] != 0 && (frac != [] ==> frac[|frac| - 1] != 0)
    ensures var kept := StripTrailing(StripLeading(int_ + frac));
            && StripLeading(int_ + frac) == int_ + frac && kept != []
            && (frac != [] ==> kept == int_ + frac)
            && (frac == [] ==> |kept| <= |int_| && int_ == kept + Zeros(|int_| - |kept|))
            && (frac == [] && |int_| == 1 ==> kept == int_)
  {
    hide StripLeading, StripTrailing, Zeros;
    if frac == [] {
      assert int_ + frac == int_;
      StripNothing(int_);
      KeptDigits(int_);
      KeptOne(int_);
    } else {
      var ds := int_ + frac;
      assert ds[0] == int_[0] && ds[|ds| - 1] == frac[|frac| - 1];
      StripNothing(ds);
    }
  }

  lemma KeptOne(ds: seq<Digit>)
    requires StripTrailing(ds) != []
    ensures |StripTrailing(ds)| <= |ds| && ds == StripTrailing(ds) + Zeros(|ds| - |StripTrailing(ds)|)
    ensures |ds| == 1 ==> StripTrailing(ds) == ds
  {
    hide StripTrailing, Zeros;
    var kept := StripTrailing(ds);
    if |ds| == 1 {
      assert |kept| == 1 && ds[0] == (kept + Zeros(0))[0];
    }
  }

  /** A chosen number whose integer part is 0. */
  lemma ZeroNormal(p: Parts)
    requires p.int_ == [0] && p.frac != [] && p.frac[|p.frac| - 1] != 0 && p.exp.None?
    ensures var d := Normalise(p.minus, p.int_, p.frac, p.Power());
            d.digits != [] && d.neg == p.minus && d.point <= 0 && p.frac == Zeros(-d.point) + d.digits
  {
    hide StripTrailing, StripLeading, Dval, Normalise, Zeros, Parts.Power;
    ZeroStripped(p.frac);
    NormaliseIs(p.minus, [0], p.frac, p.Power());
    NoPower(p);
  }

  lemma NoPower(p: Parts)
    requires p.exp.None?
    ensures p.Power() == 0
  {
  }

  lemma ZeroStripped(frac: seq<Digit>)
    requires frac != [] && frac[|frac| - 1] != 0
    ensures var r := StripLeading([0] + frac);
            && r != [] && |r| <= |frac| && StripTrailing(r) == r && frac == Zeros(|frac| - |r|) + r
  {
    hide StripTrailing, StripLeading, Zeros;
    var ds := [0] + frac;
    var r := StripLeading(ds);
    LeadingZero(frac);
    StripAllZero(ds);
    assert ds[|ds| - 1] == frac[|frac| - 1];
    AfterZeros(frac, r, |ds| - |r|);
    StripNothing(r);
  }

  lemma AfterZeros(frac: seq<Digit>, r: seq<Digit>, z: nat)
    requires z > 0 && r != [] && [0] + frac == Zeros(z) + r
    ensures frac == Zeros(z - 1) + r && frac != [] && r[|r| - 1] == frac[|frac| - 1]
  {
    assert frac == ([0] + frac)[1..];
    assert (Zeros(z) + r)[1..] == Zeros(z - 1) + r;
  }

  lemma LeadingZero(frac: seq<Digit>)
    ensures |StripLeading([0] + frac)| <= |frac|
  {
    assert ([0] + frac)[1..] == frac;
  }

  /** Every chosen text is what the printer prints for its value. */
  lemma ChosenIsPrinted(p: Parts)
    requires p.Chosen()
    ensures p.Text() == Print(Normalise(p.minus, p.int_, p.frac, p.Power()))
    ensures Normalise(p.minus, p.int_, p.frac, p.Power()).Value() == p.Value()
  {
    hide Dval, Pow10, Normalise, Print, DigitText, NatDigits, Sign, ExponentText, IsExtreme, DecimalValue, Parts.Text;
    NormaliseKeepsValue(p.minus, p.int_, p.frac, p.Power());
    if p.exp.Some? {
      NatDigitsUnique(p.exp.value.digits);
    }
    TextParts(p);
    if p.int_[0] != 0 {
      LeadCase(p);
    } else if p.frac != [] {
      ZeroCase(p);
    } else {
      NothingPrinted(p);
    }
  }

  lemma LeadCase(p: Parts)
    requires p.Chosen() && p.int_[0] != 0
    ensures Print(Normalise(p.minus, p.int_, p.frac, p.Power()))
            == Sign(p.minus) + DigitText(p.int_) + (if p.frac == [] then [] else [DOT] + DigitText(p.frac))
               + if p.exp.None? then [] else ExponentText(p.Power())
  {
    hide Print, Normalise, DigitText, Sign, ExponentText, IsExtreme, Dval, Pow10, DecimalValue;
    var d := Normalise(p.minus, p.int_, p.frac, p.Power());
    NormaliseKeepsValue(p.minus, p.int_, p.frac, p.Power());
    LeadNormal(p);
    ExtremePoint(d);
    LeadPrinted(p, d);
  }

  lemma ZeroCase(p: Parts)
    requires p.Chosen() && p.int_[0] == 0 && p.frac != []
    ensures p.exp.None?
    ensures Print(Normalise(p.minus, p.int_, p.frac, p.Power())) == Sign(p.minus) + DigitText(p.int_) + [DOT] + DigitText(p.frac)
  {
    hide Print, Normalise, DigitText, Sign, ExponentText, IsExtreme, Dval, Pow10, DecimalValue;
    var d := Normalise(p.minus, p.int_, p.frac, p.Power());
    NormaliseKeepsValue(p.minus, p.int_, p.frac, p.Power());
    assert p.int_ == [0];
    ZeroNormal(p);
    ExtremePoint(d);
    ZeroPrinted(p, d);
  }

  lemma LeadPrinted(p: Parts, d: Decimal)
    requires p.Grammatical() && d.digits != [] && d.neg == p.minus && d.point == |p.int_| + p.Power()
    requires p.frac != [] ==> d.digits == p.int_ + p.frac
    requires p.frac == [] ==> |d.digits| <= |p.int_| && p.int_ == d.digits + Zeros(|p.int_| - |d.digits|)
    requires p.exp.Some? ==> |p.int_| == 1 && (p.frac == [] ==> d.digits == p.int_)
    requires p.exp.Some? <==> !(-6 < d.point <= 21)
    ensures Print(d) == Sign(p.minus) + DigitText(p.int_) + (if p.frac == [] then [] else [DOT] + DigitText(p.frac))
                        + if p.exp.None? then [] else ExponentText(p.Power())
  {
    hide Dval, DigitText, Sign, ExponentText, Zeros;
    var n, ds := d.point, d.digits;
    var s := Sign(p.minus) + DigitText(p.int_);
    if p.frac != [] {
      var f := DigitText(p.frac);
      assert ds[..|p.int_|] == p.int_ && ds[|p.int_|..] == p.frac;
      assert s + ([DOT] + f) == s + [DOT] + f;
    } else {
      var z := Zeros(|p.int_| - |ds|);
      DigitTextConcat(ds, z);
      assert Sign(p.minus) + (DigitText(ds) + DigitText(z)) == Sign(p.minus) + DigitText(ds) + DigitText(z);
    }
  }

  lemma ZeroPrinted(p: Parts, d: Decimal)
    requires p.int_ == [0] && p.exp.None? && p.frac != [] && d.digits != [] && d.neg == p.minus && -6 < d.point <= 0
    requires p.frac == Zeros(-d.point) + d.digits
    ensures Print(d) == Sign(p.minus) + DigitText(p.int_) + [DOT] + DigitText(p.frac)
  {
    hide DigitText, Sign, Zeros;
    SignText(p.minus);
    DigitTextConcat(Zeros(-d.point), d.digits);
    var s, z, ds := Sign(p.minus), DigitText(Zeros(-d.point)), DigitText(d.digits);
    assert [ZERO, DOT] == [ZERO] + [DOT];
    assert s + [ZERO, DOT] + z + ds == s + [ZERO] + [DOT] + (z + ds);
  }

  lemma NothingPrinted(p: Parts)
    requires p.Chosen() && p.int_[0] == 0 && p.frac == []
    ensures Print(Normalise(p.minus, p.int_, p.frac, p.Power())) == Sign(p.minus) + DigitText(p.int_)
    ensures p.exp.None?
  {
    hide Pow10;
    assert p.int_ == [0] && p.int_ + p.frac == [0];
    assert Dval([0]) == 0 by {
      DvalOne(0);
    }
    SignText(p.minus);
  }

  // ---------------------------------------------------------------- the printer's text

  /** The parts of the text the printer lays out. */
  function PartsOf(d: Decimal): Parts {
    var k, n := |d.digits|, d.point;
    if k == 0 then Parts(false, [0], [], None)
    else if k <= n <= 21 then Parts(d.neg, d.digits + Zeros(n - k), [], None)
    else if 0 < n <= 21 then Parts(d.neg, d.digits[..n], d.digits[n..], None)
    else if -6 < n <= 0 then Parts(d.neg, [0], Zeros(-n) + d.digits, None)
    else
      var e := n - 1;
      Parts(d.neg, d.digits[..1], d.digits[1..], Some(Exponent(e < 0, NatDigits(if e < 0 then -e else e))))
  }

  lemma PartsPower(d: Decimal)
    ensures PartsOf(d).exp.Some? ==>
              && PartsOf(d).Power() == d.point - 1 && PartsOf(d).exp.value.digits[0] != 0
              && NatDigits(Dval(PartsOf(d).exp.value.digits)) == PartsOf(d).exp.value.digits
              && Dval(PartsOf(d).exp.value.digits) > 0
  {
    hide Dval, NatDigits, DigitText;
    var e := d.point - 1;
    NatDigitsLead(if e < 0 then -e else e);
  }

  lemma PartsValue(d: Decimal)
    ensures PartsOf(d).Value() == d.Value()
  {
    hide Dval, Pow10, NatDigits, DecimalValue;
    ValueIsDecimal(d);
    PartsPower(d);
    var k, n, p := |d.digits|, d.point, PartsOf(d);
    if k == 0 {
      PartsZero(d);
    } else if k <= n <= 21 {
      LongIntegerValue(d.neg, d.digits, n - k);
    } else if -6 < n <= 0 {
      ShortFractionValue(d.neg, d.digits, n);
    } else {
      ShiftFraction(d.neg, p.int_, p.frac, p.Power());
      assert p.int_ + p.frac == d.digits;
    }
  }

  lemma PartsZero(d: Decimal)
    requires d.digits == []
    ensures PartsOf(d).Value() == 0.0 == d.Value()
  {
    hide Pow10;
    var none: seq<Digit> := [];
    assert [0] + none == [0];
    DvalOne(0);
    DvalEmpty();
  }

  /** The layout leaves no zero out of place. */
  lemma PartsShape(d: Decimal)
    ensures var p := PartsOf(d);
            && p.Grammatical() && (p.frac != [] ==> p.frac[|p.frac| - 1] != 0)
            && (p.exp.Some? ==> |p.int_| == 1 && p.int_[0] != 0)
            && (p.exp.Some? <==> d.digits != [] && !(-6 < d.point <= 21))
            && (d.digits == [] ==> !p.minus)
  {
    hide Dval, NatDigits, Pow10;
  }

  lemma PrintedIsChosen(d: Decimal)
    ensures PartsOf(d).Chosen() && PartsOf(d).Value() == d.Value()
  {
    hide Dval, Pow10, NatDigits, DecimalValue, PartsOf, IsExtreme;
    PartsValue(d);
    PartsShape(d);
    PartsPower(d);
    if d.digits == [] {
      PartsZero(d);
      assert !IsExtreme(0.0) by {
        ZeroNotExtreme();
      }
    } else {
      ExtremePoint(d);
      SizeBounds(d);
    }
  }

  lemma ZeroNotExtreme()
    ensures !IsExtreme(0.0)
  {
    hide Pow10;
  }

  /** The printer's text is the one and only text ECMAScript gives the value. */
  lemma PrintExactly(s: JsString, d: Decimal)
    ensures IsEsText(s, d.Value()) <==> s == Print(d)
  {
    hide *;
    PrintedIsChosen(d);
    var q := PartsOf(d);
    ChosenIsPrinted(q);
    NormalUnique(Normalise(q.minus, q.int_, q.frac, q.Power()), d);
    EsTextMeaning(s, d.Value());
    if p: Parts :| p.Chosen() && p.Text() == s && p.Value() == d.Value() {
      ChosenIsPrinted(p);
      NormalUnique(Normalise(p.minus, p.int_, p.frac, p.Power()), d);
    }
  }

  lemma EsTextMeaning(s: JsString, x: real)
    ensures IsEsText(s, x) <==> exists p: Parts :: p.Chosen() && p.Text() == s && p.Value() == x
  {
    hide Parts.Chosen, Parts.Text, Parts.Value;
  }

  // ---------------------------------------------------------------- where a point and an exponent stand

  predicate IsInteger(x: real) {
    x.Floor as real == x
  }

  /** Digits after the point, the last of them not 0, make a number that is not an integer. */
  lemma FractionIsNone(ds: seq<Digit>, k: int, x: real)
    requires k > 0 && ds != [] && ds[|ds| - 1] != 0 && x == Dval(ds) as real * Pow10(0 - k)
    ensures !IsInteger(x)
  {
    hide Pow10, Dval;
    if IsInteger(x) {
      var m, q := x.Floor, NatPow10(k - 1);
      Pow10Add(0 - k, k);
      Pow10Zero();
      NatPow10Real(k);
      Regroup(Dval(ds) as real, Pow10(0 - k), Pow10(k));
      assert Dval(ds) as real == m as real * NatPow10(k) as real;
      LastDigit(ds);
      TimesTen(Dval(ds), m, q);
    }
  }

  lemma LastDigit(ds: seq<Digit>)
    requires ds != []
    ensures Dval(ds) % 10 == ds[|ds| - 1]
  {
  }

  lemma TimesTen(n: nat, m: int, q: nat)
    requires n as real == m as real * (10 * q) as real
    ensures n % 10 == 0
  {
    assert n as real == (m * (10 * q)) as real;
    assert n == 10 * (m * q);
  }

  lemma NegatedInteger(x: real)
    ensures IsInteger(x) <==> IsInteger(-x)
  {
    if IsInteger(x) {
      assert -x == (-x.Floor) as real;
    }
    if IsInteger(-x) {
      assert x == (-((-x).Floor)) as real;
    }
  }

  /** Without an exponent, a chosen number has digits after the point exactly when it is no integer. */
  lemma FractionExactly(p: Parts)
    requires p.Chosen() && p.exp.None?
    ensures p.frac == [] <==> IsInteger(p.Value())
  {
    hide Pow10, Dval, IsExtreme, IsInteger;
    var ds := p.int_ + p.frac;
    var x := Dval(ds) as real * Pow10(-|p.frac|);
    NegatedInteger(x);
    assert p.Power() - |p.frac| == -|p.frac|;
    assert p.Value() == if p.minus then -x else x;
    if p.frac == [] {
      Pow10Zero();
      assert x == Dval(ds) as real;
      NaturalIsInteger(Dval(ds));
    } else {
      FractionIsNone(ds, |p.frac|, x);
    }
  }

  lemma NaturalIsInteger(n: nat)
    ensures IsInteger(n as real)
  {
  }

  lemma {:induction false} DigitsOnly(ds: seq<Digit>, c: CodeUnit)
    requires c == DOT || c == EXP
    ensures c !in DigitText(ds)
  {
  }

  lemma ExponentMarks(e: Exponent)
    ensures var s := Ascii("e") + Ascii(if e.minus then "-" else "+") + DigitText(e.digits);
            EXP in s && DOT !in s
  {
    hide DigitText;
    DigitsOnly(e.digits, DOT);
    var s := Ascii("e") + Ascii(if e.minus then "-" else "+") + DigitText(e.digits);
    assert s[0] == EXP;
  }

  lemma FractionMarks(ds: seq<Digit>)
    ensures var s := Ascii(".") + DigitText(ds);
            DOT in s && EXP !in s
  {
    hide DigitText;
    DigitsOnly(ds, EXP);
    assert (Ascii(".") + DigitText(ds))[0] == DOT;
  }

  lemma NoMarks(minus: bool, ds: seq<Digit>)
    ensures var s := (if minus then Ascii("-") else []) + DigitText(ds);
            DOT !in s && EXP !in s
  {
    hide DigitText;
    DigitsOnly(ds, DOT);
    DigitsOnly(ds, EXP);
  }

  lemma MarksInText(p: Parts)
    ensures EXP in p.Text() <==> p.exp.Some?
    ensures DOT in p.Text() <==> p.frac != []
  {
    hide DigitText, Ascii;
    NoMarks(p.minus, p.int_);
    FractionMarks(p.frac);
    if p.exp.Some? {
      ExponentMarks(p.exp.value);
    }
  }

  /**
   An exponent stands exactly when the value is not 0 and is below 10^-6 or at least 10^21 in size. With one, a point
   stands exactly when there is more than one digit; without one, exactly when the value is no integer.
   */
  lemma PrintForm(d: Decimal)
    ensures EXP in Print(d) <==> IsExtreme(d.Value())
    ensures DOT in Print(d) <==> if IsExtreme(d.Value()) then |d.digits| > 1 else !IsInteger(d.Value())
  {
    hide Print, IsExtreme, IsInteger, Dval, Pow10, DecimalValue, PartsOf, Parts.Text;
    var p := PartsOf(d);
    PrintedIsChosen(d);
    MarksInText(p);
    assert p.Text() == Print(d) by {
      PrintExactly(p.Text(), d);
      EsTextMeaning(p.Text(), d.Value());
    }
    if p.exp.None? {
      FractionExactly(p);
    } else {
      ExponentDigits(d);
    }
  }

  lemma ExponentDigits(d: Decimal)
    requires PartsOf(d).exp.Some?
    ensures |PartsOf(d).frac| == |d.digits| - 1
  {
    hide NatDigits;
  }

  /** So the float printer prints, for every float it accepts, the one text ECMAScript gives its value. */
  lemma EsNumberExactly(x: Float, s: JsString)
    requires x.Finite? && !(x.IsZero() && x.neg)
    ensures EsNumberToString(x) == Ok(s) <==> IsEsText(s, x.Value())
  {
    hide EsNumberToString, Print, Normalise, IsEsText, DecimalValue;
    var d := Normalise(x.neg, x.intPart, x.fracPart, x.exponent);
    EsNumberIsNormal(x);
    NormaliseKeepsValue(x.neg, x.intPart, x.fracPart, x.exponent);
    PrintExactly(s, d);
  }
}
