/**
 * Conversion between share amounts and their decimal text at a record's
 * precision: `asset_from_string` and `amount_to_string`.
 */
module AssetConversions {
  import opened Int64
  import opened Wrappers
  import opened Decimal
  import opened AssetRecords

  // ---------------------------------------------------------------------------
  // Text to amount
  // ---------------------------------------------------------------------------

  /** `std::string::find` of one character: the first position holding it. */
  function FindChar(s: string, c: char): (r: Option<nat>)
    ensures r.Some? ==> r.value < |s| && s[r.value] == c && c !in s[..r.value]
    ensures r.None? ==> c !in s
  {
    if s == [] then None
    else if s[0] == c then Some(0)
    else
      match FindChar(s[1..], c)
      case None => None
      case Some(i) =>
        assert s[..i + 1] == [s[0]] + s[1..][..i];
        Some(i + 1)
  }

  /** What the first normalising loop leaves: the fraction times ten until it reaches the precision. */
  function ScaleUp(fraction: int, precision: int): (g: int)
    requires fraction > 0 && precision > 0
    ensures g >= precision && g >= fraction
    decreases precision - fraction
  {
    if fraction < precision then ScaleUp(fraction * 10, precision) else fraction
  }

  /** What the second normalising loop leaves: the value divided by ten until it is below the precision. */
  function ScaleDown(fraction: int, precision: int): (g: int)
    requires fraction >= 0 && precision > 0
    ensures 0 <= g < precision && g <= fraction
    decreases fraction
  {
    if fraction >= precision then ScaleDown(fraction / 10, precision) else fraction
  }

  /** What the leading-zero loop leaves: one division by ten per '0' the fraction text starts with. */
  function DropLeadingZeros(fraction: int, text: string): (g: int)
    requires fraction >= 0
    ensures 0 <= g <= fraction
  {
    if text != [] && text[0] == '0' then DropLeadingZeros(fraction / 10, text[1..]) else fraction
  }

  /**
   * The amount the text after the decimal point contributes: nothing when that
   * text is empty or does not parse to a positive number, otherwise the parsed
   * digits brought to the scale of the precision and shifted right once per
   * leading zero.
   */
  function FractionPart(text: string, precision: int): (g: int)
    requires precision > 0
    ensures 0 <= g < precision
  {
    var fraction := Atoll(text);
    if text == [] || fraction <= 0 then 0
    else DropLeadingZeros(ScaleDown(ScaleUp(fraction, precision), precision), text)
  }

  /**
   * The integer part's contribution: its value times the precision, in 64 bits.
   * An integer part atoll reads as 0, "-0" among them, contributes 0.
   */
  function IntegerAmount(integerText: string, precision: int): (amount: I64)
    ensures Atoll(integerText) == 0 ==> amount == 0
    ensures Min <= Atoll(integerText) * precision <= Max ==> amount == Atoll(integerText) * precision
  {
    Wrap(Atoll(integerText) * precision)
  }

  /**
   * The fraction added to the integer part's amount, or subtracted from it when
   * that amount is negative: barring wrap-around, the amount keeps its sign
   * and moves away from zero by the fraction.
   */
  function ApplyFraction(base: I64, fraction: int): (amount: I64)
    ensures 0 <= fraction && Min + fraction <= base <= Max - fraction ==>
              (amount < 0 <==> base < 0) && Magnitude(amount) == Magnitude(base) + fraction
  {
    if base >= 0 then Wrap(base + fraction) else Wrap(base - fraction)
  }

  /**
   * The amount `asset_from_string` produces: the integer part times the
   * precision, in 64 bits, then the fraction added to it, or subtracted from
   * it when that product is negative.
   */
  function AmountFromString(text: string, precision: int): (amount: I64)
    requires precision > 0
    ensures '.' !in text ==> amount == IntegerAmount(text, precision)
  {
    match FindChar(text, '.')
    case None => IntegerAmount(text, precision)
    case Some(i) => ApplyFraction(IntegerAmount(text[..i], precision), FractionPart(text[i + 1..], precision))
  }

  /** With the first point at position i, the amount is the integer part's amount adjusted by the fraction after i. */
  lemma AmountFromStringWithPoint(text: string, precision: int, i: nat)
    requires precision > 0 && FindChar(text, '.') == Some(i)
    ensures AmountFromString(text, precision)
            == ApplyFraction(IntegerAmount(text[..i], precision), FractionPart(text[i + 1..], precision))
  {
  }

  /**
   * The fraction after the point is below the precision; it is skipped when
   * its text is empty or does not parse to a positive number, and otherwise,
   * barring wrap-around, moves the amount away from zero in the direction of
   * the integer part's sign.
   */
  lemma FractionAdjustment(text: string, precision: int, i: nat)
    requires precision > 0 && FindChar(text, '.') == Some(i)
    requires var base := IntegerAmount(text[..i], precision);
             Min + precision <= base <= Max - precision
    ensures var base, fraction := IntegerAmount(text[..i], precision), FractionPart(text[i + 1..], precision);
            && 0 <= fraction < precision
            && (text[i + 1..] == [] || Atoll(text[i + 1..]) <= 0 ==> AmountFromString(text, precision) == base)
            && (base >= 0 ==> AmountFromString(text, precision) == base + fraction >= base)
            && (base < 0 ==> AmountFromString(text, precision) == base - fraction <= base)
  {
    AmountFromStringWithPoint(text, precision, i);
  }

  /**
   * The three normalising loops on a positive parsed fraction: multiply by ten
   * until it reaches the precision, divide by ten until it is below it, then
   * divide by ten once per leading '0' of the fraction text, erasing it.
   */
  method NormalizeFraction(fractionText: string, parsed: int, precision: int) returns (fraction: int)
    requires parsed > 0 && precision > 0
    ensures fraction == DropLeadingZeros(ScaleDown(ScaleUp(parsed, precision), precision), fractionText)
    ensures 0 <= fraction < precision
  {
    fraction := parsed;
    while fraction < precision
      invariant fraction > 0
      invariant ScaleUp(fraction, precision) == ScaleUp(parsed, precision)
      decreases precision - fraction
    {
      fraction := fraction * 10;
    }
    ghost var scaledUp := fraction;
    while fraction >= precision
      invariant fraction >= 0
      invariant ScaleDown(fraction, precision) == ScaleDown(scaledUp, precision)
      decreases fraction
    {
      fraction := fraction / 10;
    }
    ghost var scaled := fraction;
    var rest := fractionText;
    while rest != [] && rest[0] == '0'
      invariant fraction >= 0
      invariant DropLeadingZeros(fraction, rest) == DropLeadingZeros(scaled, fractionText)
      decreases |rest|
    {
      fraction := fraction / 10;
      rest := rest[1..];
    }
  }

  /**
   * The fraction step: parse the text after the point and, when it is
   * non-empty and positive, normalise it and add it to the amount, or
   * subtract it when the amount is negative.
   */
  method AddFraction(amount: I64, fractionText: string, precision: int) returns (result: I64)
    requires precision > 0
    ensures result == ApplyFraction(amount, FractionPart(fractionText, precision))
  {
    result := amount;
    var fraction := Atoll(fractionText);
    if fractionText != [] && fraction > 0 {
      fraction := NormalizeFraction(fractionText, fraction, precision);
      assert fraction == FractionPart(fractionText, precision);
      if result >= 0 {
        result := Wrap(result + fraction);
      } else {
        result := Wrap(result - fraction);
      }
    } else {
      assert FractionPart(fractionText, precision) == 0;
      assert Wrap(amount + 0) == amount;
    }
  }

  /** Parses decimal text into an amount of the record's asset, truncating digits beyond the precision. */
  method AssetFromString(r: AssetRecord, text: string) returns (a: Asset)
    requires r.precision > 0
    ensures a.assetId == r.id
    ensures a.amount == AmountFromString(text, r.precision)
  {
    a := Asset(0, r.id);
    var decimal := FindChar(text, '.');
    var integerText := if decimal.Some? then text[..decimal.value] else text;
    a := a.(amount := Wrap(a.amount + Wrap(Atoll(integerText) * r.precision)));
    assert a.amount == IntegerAmount(integerText, r.precision);
    match decimal {
      case None =>
      case Some(i) =>
        assert integerText == text[..i];
        var amount := AddFraction(a.amount, text[i + 1..], r.precision);
        a := a.(amount := amount);
        AmountFromStringWithPoint(text, r.precision, i);
    }
  }

  // ---------------------------------------------------------------------------
  // What the normalising loops compute
  // ---------------------------------------------------------------------------

  lemma {:induction false} ScaleUpIs(fraction: int, precision: int, m: nat)
    requires fraction > 0 && precision > 0
    requires fraction * Pow10(m) >= precision
    requires m == 0 || fraction * Pow10(m - 1) < precision
    ensures ScaleUp(fraction, precision) == fraction * Pow10(m)
    decreases m
  {
    if m > 0 {
      MulMonotone(1, Pow10(m - 1), fraction);
      assert (fraction * 10) * Pow10(m - 1) == fraction * Pow10(m);
      if m > 1 {
        assert (fraction * 10) * Pow10(m - 2) == fraction * Pow10(m - 1);
      }
      ScaleUpIs(fraction * 10, precision, m - 1);
    }
  }

  lemma DivAtMost(x: int, b: int)
    requires x >= 0 && b >= 1
    ensures x / b <= x
  {
    assert x == (x / b) * b + x % b;
    MulMonotone(1, b, x / b);
  }

  lemma {:induction false} ScaleDownIs(x: int, precision: int, n: nat)
    requires x >= 0 && precision > 0
    requires x / Pow10(n) < precision
    requires n == 0 || x / Pow10(n - 1) >= precision
    ensures ScaleDown(x, precision) == x / Pow10(n)
  {
    if n > 0 {
      DivAtMost(x, Pow10(n - 1));
      DivDiv(x, 10, Pow10(n - 1));
      if n > 1 {
        DivDiv(x, 10, Pow10(n - 2));
      }
      ScaleDownIs(x / 10, precision, n - 1);
    }
  }

  lemma {:induction false} DropLeadingZerosDivides(fraction: int, text: string)
    requires fraction >= 0
    ensures DropLeadingZeros(fraction, text) == fraction / Pow10(LeadingZeros(text))
  {
    if text != [] && text[0] == '0' {
      DropLeadingZerosDivides(fraction / 10, text[1..]);
      DivDiv(fraction, 10, Pow10(LeadingZeros(text[1..])));
    }
  }

  /** A number of d digits brought to k digits: shifted left, or its first k digits kept. */
  function ScaledToPrecision(f: int, d: nat, k: nat): (g: int)
  {
    if d <= k then f * Pow10(k - d) else f / Pow10(d - k)
  }

  /** The value of the first k digits of an n-digit number v, padded with zeros when n < k. */
  function FirstDigits(v: int, n: nat, k: nat): (g: int)
  {
    if n >= k then v / Pow10(n - k) else v * Pow10(k - n)
  }

  /**
   * A number with exactly d significant digits, brought by the first two loops
   * to a precision of 10^k: shifted left when it has at most k digits, and
   * truncated to its first k digits otherwise.
   */
  lemma NormalizedValue(f: int, d: nat, k: nat)
    requires d >= 1 && Pow10(d - 1) <= f < Pow10(d)
    ensures ScaleDown(ScaleUp(f, Pow10(k)), Pow10(k)) == ScaledToPrecision(f, d, k)
  {
    if d <= k {
      NormalizedShort(f, d, k);
    } else {
      NormalizedLong(f, d, k);
    }
  }

  lemma NormalizedShort(f: int, d: nat, k: nat)
    requires 1 <= d <= k && Pow10(d - 1) <= f < Pow10(d)
    ensures ScaleDown(ScaleUp(f, Pow10(k)), Pow10(k)) == f * Pow10(k - d)
  {
    var a, b, p := Pow10(d - 1), Pow10(k - d), Pow10(k);
    assert Pow10(d) == 10 * a;
    assert Pow10(k - d + 1) == 10 * b;
    Pow10Add(d, k - d);
    assert p == (10 * a) * b;
    var g := f * b;
    // scaling up stops one step past g ...
    OneStepPast(f, a, b);
    ScaleUpIs(f, p, k - d + 1);
    assert ScaleUp(f, p) == g * 10;
    // ... and scaling down takes that one step back
    DivModUnique(g * 10, 10, g, 0);
    assert ScaleDown(g, p) == g;
    assert ScaleDown(g * 10, p) == ScaleDown(g, p);
  }

  /** For a <= f < 10a, multiplying f by 10b reaches (10a)b while multiplying it by b stays below. */
  lemma OneStepPast(f: int, a: int, b: int)
    requires 1 <= a <= f < 10 * a && b >= 1
    ensures f * (10 * b) >= (10 * a) * b
    ensures f * b < (10 * a) * b
    ensures f * (10 * b) == (f * b) * 10
  {
    MulMonotone(a, f, 10 * b);
    MulMonotone(f + 1, 10 * a, b);
  }

  lemma NormalizedLong(f: int, d: nat, k: nat)
    requires d > k && Pow10(d - 1) <= f < Pow10(d)
    ensures ScaleDown(ScaleUp(f, Pow10(k)), Pow10(k)) == f / Pow10(d - k)
  {
    var p, n := Pow10(k), d - k;
    Pow10Monotone(k, d - 1);
    assert ScaleUp(f, p) == f;
    Pow10Add(k, n);
    DivBelow(f, p, Pow10(n));
    Pow10Add(k, n - 1);
    DivAtLeast(f, p, Pow10(n - 1));
    ScaleDownIs(f, p, n);
  }

  /** The leading-zero loop on the normalised value: the result is the value of the first k digits of the whole text. */
  lemma ShiftedByLeadingZeros(f: int, d: nat, z: nat, k: nat)
    requires f >= 0
    ensures ScaledToPrecision(f, d, k) / Pow10(z) == FirstDigits(f, z + d, k)
  {
    if d <= k {
      if z + d >= k {
        ShiftShortPastPrecision(f, k - d, z + d - k);
      } else {
        ShiftShortWithinPrecision(f, k - z - d, z);
      }
    } else {
      DivDiv(f, Pow10(d - k), Pow10(z));
      Pow10Add(d - k, z);
    }
  }

  lemma ShiftShortPastPrecision(f: int, a: nat, b: nat)
    requires f >= 0
    ensures (f * Pow10(a)) / Pow10(a + b) == f / Pow10(b)
  {
    Pow10Add(a, b);
    MulDivCancel(f, Pow10(a), Pow10(b));
  }

  lemma ShiftShortWithinPrecision(f: int, a: nat, b: nat)
    requires f >= 0
    ensures (f * Pow10(a + b)) / Pow10(b) == f * Pow10(a)
  {
    Pow10Add(a, b);
    MulAssociative(f, Pow10(a), Pow10(b));
    DivModUnique(f * Pow10(a + b), Pow10(b), f * Pow10(a), 0);
  }

  /** The value of the first k digits of a digit string, padded with zeros. */
  lemma PadTruncateValue(s: string, k: nat, n: nat, v: nat)
    requires IsDigits(s) && |s| == n && DigitsValue(s) == v
    ensures DigitsValue(PadTruncate(s, k)) == FirstDigits(v, n, k)
  {
    if n >= k {
      DigitsValuePrefix(s, k);
    } else {
      DigitsValueAppend(s, Zeros(k - |s|));
      ZerosValue(k - |s|);
    }
  }

  /**
   * For a precision of 10^k and a fraction text of digits, the contribution is
   * the first k digits after the point, padded with zeros: digits beyond the
   * precision are truncated and leading zeros keep their place. The fraction
   * is taken where neither its atoll nor the scaling loop overflows: its value
   * and ten times the precision fit in 64 bits.
   */
  lemma FractionTruncates(text: string, k: nat)
    requires IsDigits(text) && DigitsValue(text) <= Max && Pow10(k + 1) <= Max
    ensures FractionPart(text, Pow10(k)) == DigitsValue(PadTruncate(text, k))
  {
    if LeadingZeros(text) == |text| {
      ZeroFractionTruncates(text, k);
    } else {
      SignificantFractionTruncates(text, k);
    }
  }

  /** A fraction text of zeros only contributes nothing, like its padded digits. */
  lemma ZeroFractionTruncates(text: string, k: nat)
    requires IsDigits(text) && LeadingZeros(text) == |text|
    ensures FractionPart(text, Pow10(k)) == DigitsValue(PadTruncate(text, k)) == 0
  {
    assert text == Zeros(|text|);
    ZerosValue(|text|);
    PadTruncateValue(text, k, |text|, 0);
  }

  /** After z leading zeros, the d remaining digits of a digit text start with a non-zero one and carry its whole value. */
  lemma SignificantDigits(text: string, z: nat, d: nat)
    requires IsDigits(text) && z == LeadingZeros(text) < |text| && d == |text| - z
    ensures d >= 1 && Pow10(d - 1) <= DigitsValue(text) < Pow10(d)
  {
    var e := text[z..];
    assert |e| == d;
    LeadingZerosCarryNothing(text, z);
    DigitsValueAtLeast(e);
    DigitsValueBelow(e);
  }

  /** Leading zeros add nothing to the value of a digit text. */
  lemma LeadingZerosCarryNothing(text: string, z: nat)
    requires IsDigits(text) && z == LeadingZeros(text)
    ensures DigitsValue(text) == DigitsValue(text[z..])
  {
    assert text == Zeros(z) + text[z..];
    DigitsValueAppend(Zeros(z), text[z..]);
    ZerosValue(z);
  }

  /** The case of FractionTruncates with a non-zero digit. */
  lemma SignificantFractionTruncates(text: string, k: nat)
    requires IsDigits(text) && LeadingZeros(text) < |text|
    ensures FractionPart(text, Pow10(k)) == DigitsValue(PadTruncate(text, k))
  {
    var z := LeadingZeros(text);
    var d: nat, f := |text| - z, DigitsValue(text);
    SignificantDigits(text, z, d);
    FractionPartOfDigits(text, Pow10(k), f);
    TruncatedFraction(text, k, z, d, f);
  }

  /** For digits with a positive value f, the contribution is what the three loops make of f. */
  lemma FractionPartOfDigits(text: string, precision: int, f: int)
    requires IsDigits(text) && DigitsValue(text) == f && f > 0 && precision > 0
    ensures FractionPart(text, precision) == DropLeadingZeros(ScaleDown(ScaleUp(f, precision), precision), text)
  {
  }

  /** z leading zeros, then d digits whose value is f: the three loops keep the first k digits. */
  lemma TruncatedFraction(text: string, k: nat, z: nat, d: nat, f: int)
    requires IsDigits(text) && |text| == z + d && LeadingZeros(text) == z
    requires DigitsValue(text) == f && d >= 1 && Pow10(d - 1) <= f < Pow10(d)
    ensures DropLeadingZeros(ScaleDown(ScaleUp(f, Pow10(k)), Pow10(k)), text) == DigitsValue(PadTruncate(text, k))
  {
    var scaled := ScaledToPrecision(f, d, k);
    NormalizedValue(f, d, k);
    DropLeadingZerosDivides(scaled, text);
    ShiftedByLeadingZeros(f, d, z, k);
    PadTruncateValue(text, k, z + d, f);
  }

  /**
   * Digits, a point and digits parse to the integer part times 10^k plus the
   * first k fractional digits, as long as that sum fits in 64 bits and the
   * fraction is read and scaled without overflow.
   */
  lemma AmountFromDecimalText(integerText: string, fractionText: string, k: nat)
    requires IsDigits(integerText) && IsDigits(fractionText)
    requires DigitsValue(fractionText) <= Max && Pow10(k + 1) <= Max
    requires DigitsValue(integerText) * Pow10(k) + DigitsValue(PadTruncate(fractionText, k)) <= Max
    ensures AmountFromString(integerText + "." + fractionText, Pow10(k))
            == DigitsValue(integerText) * Pow10(k) + DigitsValue(PadTruncate(fractionText, k))
  {
    var text := integerText + "." + fractionText;
    NoPointInDigits(integerText);
    PointAfterDigits(integerText, fractionText);
    assert text[..|integerText|] == integerText;
    assert text[|integerText| + 1..] == fractionText;
    var p := Pow10(k);
    AmountFromStringWithPoint(text, p, |integerText|);
    var whole, fraction := DigitsValue(integerText) * p, FractionPart(fractionText, p);
    MulMonotone(0, DigitsValue(integerText), p);
    IntegerAmountExact(integerText, p, DigitsValue(integerText), DigitsValue(integerText) * p);
    FractionTruncates(fractionText, k);
    ApplyFractionInRange(whole, fraction);
  }

  /** An integer part whose product with the precision fits in 64 bits contributes exactly that product. */
  lemma IntegerAmountExact(integerText: string, precision: int, v: int, product: int)
    requires Atoll(integerText) == v && v * precision == product && Min <= product <= Max
    ensures IntegerAmount(integerText, precision) == product
  {
  }

  /** In digits, a point and more text, the first point is the one after the digits. */
  lemma PointAfterDigits(integerText: string, rest: string)
    requires '.' !in integerText
    ensures FindChar(integerText + "." + rest, '.') == Some(|integerText|)
  {
    var text := integerText + "." + rest;
    var decimal := FindChar(text, '.');
    assert text[|integerText|] == '.';
  }

  lemma NoPointInDigits(s: string)
    requires IsDigits(s)
    ensures '.' !in s && '-' !in s
  {
  }

  /** A non-negative amount and a fraction whose sum fits in 64 bits simply add up. */
  lemma ApplyFractionInRange(base: I64, fraction: int)
    requires 0 <= base && 0 <= fraction && base + fraction <= Max
    ensures ApplyFraction(base, fraction) == base + fraction
  {
  }

  /** The case written out beside the source: 100.500019 at precision 100000 is 10050001. */
  lemma DocumentedExample()
    ensures AmountFromString("100.500019", 100000) == 10050001
  {
    assert "100.500019" == "100" + "." + "500019";
    HundredValue();
    assert Pow10(5) == 100000;
    TruncatedExampleValue();
    assert Pow10(6) == 1000000;
    DigitsValueBelow("500019");
    AmountFromDecimalText("100", "500019", 5);
  }

  /** A leading zero after the point shifts the scale down: 100.05 at precision 1000000 is 100050000. */
  lemma LeadingZeroExample()
    ensures AmountFromString("100.05", 1000000) == 100050000
  {
    assert "100.05" == "100" + "." + "05";
    HundredValue();
    assert Pow10(6) == 1000000;
    PaddedExampleValue();
    assert Pow10(7) == 10000000;
    DigitsValueBelow("05");
    AmountFromDecimalText("100", "05", 6);
  }

  lemma HundredValue()
    ensures IsDigits("100") && DigitsValue("100") == 100
  {
    assert "100"[..2] == "10" && "10"[..1] == "1" && "1"[..0] == "";
  }

  lemma TruncatedExampleValue()
    ensures IsDigits("500019") && DigitsValue(PadTruncate("500019", 5)) == 50001
  {
    assert PadTruncate("500019", 5) == "50001";
    assert "50001"[..4] == "5000" && "5000"[..3] == "500" && "500"[..2] == "50";
    assert "50"[..1] == "5" && "5"[..0] == "";
  }

  lemma PaddedExampleValue()
    ensures IsDigits("05") && DigitsValue(PadTruncate("05", 6)) == 50000
  {
    assert PadTruncate("05", 6) == "05" + Zeros(4);
    DigitsValueAppend("05", Zeros(4));
    ZerosValue(4);
    assert "05"[..1] == "0" && "0"[..0] == "";
  }

  // ---------------------------------------------------------------------------
  // The sign of an amount below one unit
  // ---------------------------------------------------------------------------

  /**
   * As written, the sign comes from the integer part's product, which is zero
   * for "-0": the fraction is added to it and "-0.5" parses as +0.5.
   */
  lemma NegativeBelowOneLosesSign()
    ensures AmountFromString("-0.5", 10) == 5
  {
    assert FindChar("-0.5", '.') == Some(2) by {
      assert "-0.5"[1..] == "0.5" && "0.5"[1..] == ".5";
    }
    assert "-0.5"[..2] == "-0" && "-0.5"[3..] == "5";
    MinusZeroAmount();
    HalfFraction();
    AmountFromStringWithPoint("-0.5", 10, 2);
  }

  lemma MinusZeroAmount()
    ensures IntegerAmount("-0", 10) == 0
  {
    assert "-0"[1..] == "0" && "0"[..0] == "";
  }

  lemma HalfFraction()
    ensures FractionPart("5", 10) == 5
  {
    assert "5"[..0] == "";
    assert Atoll("5") == 5;
    assert ScaleUp(5, 10) == 50;
  }

  /** Whether atoll reads a minus sign: the first character after leading white space is '-'. */
  function ReadsMinus(s: string): (minus: bool)
    ensures minus ==> '-' in s
  {
    if s != [] && IsSpace(s[0]) then ReadsMinus(s[1..]) else s != [] && s[0] == '-'
  }

  /** ReadsMinus is atoll's sign: atoll is negative only when it reads a minus, and never positive after one. */
  lemma {:induction false} AtollSign(s: string)
    ensures Atoll(s) < 0 ==> ReadsMinus(s)
    ensures ReadsMinus(s) ==> Atoll(s) <= 0
  {
    if s != [] && IsSpace(s[0]) {
      AtollSign(s[1..]);
    }
  }

  /**
   * The parse with the sign taken from the text of the integer part rather
   * than from its product, so that "-0" keeps its minus sign.
   */
  function SignedAmountFromString(text: string, precision: int): (amount: I64)
    requires precision > 0
    ensures match FindChar(text, '.')
            case None => amount == AmountFromString(text, precision)
            case Some(i) =>
              (ReadsMinus(text[..i]) <==> IntegerAmount(text[..i], precision) < 0) ==> amount == AmountFromString(text, precision)
  {
    match FindChar(text, '.')
    case None => IntegerAmount(text, precision)
    case Some(i) =>
      ApplyFractionBySign(ReadsMinus(text[..i]), IntegerAmount(text[..i], precision), FractionPart(text[i + 1..], precision))
  }

  /** The fraction subtracted when the text was negative and added otherwise; as written whenever the signs agree. */
  function ApplyFractionBySign(negative: bool, base: I64, fraction: int): (amount: I64)
    ensures (negative <==> base < 0) ==> amount == ApplyFraction(base, fraction)
  {
    if negative then Wrap(base - fraction) else Wrap(base + fraction)
  }

  /**
   * The corrected parse is symmetric in the sign: digits, a point and digits
   * give the integer part times 10^k plus the first k fractional digits, and
   * the same text behind a '-' gives exactly the negation.
   */
  lemma SignedAmountNegates(integerText: string, fractionText: string, k: nat)
    requires IsDigits(integerText) && IsDigits(fractionText)
    requires DigitsValue(fractionText) <= Max && Pow10(k + 1) <= Max
    requires DigitsValue(integerText) * Pow10(k) + DigitsValue(PadTruncate(fractionText, k)) <= Max
    ensures var value := DigitsValue(integerText) * Pow10(k) + DigitsValue(PadTruncate(fractionText, k));
            && SignedAmountFromString(integerText + "." + fractionText, Pow10(k)) == value
            && SignedAmountFromString("-" + integerText + "." + fractionText, Pow10(k)) == -value
  {
    SignedUnsignedDecimal(integerText, fractionText, k);
    SignedNegativeDecimal(integerText, fractionText, k);
  }

  lemma SignedAmountWithPoint(text: string, precision: int, i: nat)
    requires precision > 0 && FindChar(text, '.') == Some(i)
    ensures SignedAmountFromString(text, precision)
            == ApplyFractionBySign(ReadsMinus(text[..i]), IntegerAmount(text[..i], precision), FractionPart(text[i + 1..], precision))
  {
  }

  lemma SignedUnsignedDecimal(integerText: string, fractionText: string, k: nat)
    requires IsDigits(integerText) && IsDigits(fractionText)
    requires DigitsValue(fractionText) <= Max && Pow10(k + 1) <= Max
    requires DigitsValue(integerText) * Pow10(k) + DigitsValue(PadTruncate(fractionText, k)) <= Max
    ensures SignedAmountFromString(integerText + "." + fractionText, Pow10(k))
            == DigitsValue(integerText) * Pow10(k) + DigitsValue(PadTruncate(fractionText, k))
  {
    var p, v := Pow10(k), DigitsValue(integerText);
    var text := integerText + "." + fractionText;
    NoPointInDigits(integerText);
    PointAfterDigits(integerText, fractionText);
    assert text[..|integerText|] == integerText;
    assert text[|integerText| + 1..] == fractionText;
    SignedAmountWithPoint(text, p, |integerText|);
    MulMonotone(0, v, p);
    IntegerAmountExact(integerText, p, v, v * p);
    FractionTruncates(fractionText, k);
    NoMinusInDigits(integerText);
  }

  lemma SignedNegativeDecimal(integerText: string, fractionText: string, k: nat)
    requires IsDigits(integerText) && IsDigits(fractionText)
    requires DigitsValue(fractionText) <= Max && Pow10(k + 1) <= Max
    requires DigitsValue(integerText) * Pow10(k) + DigitsValue(PadTruncate(fractionText, k)) <= -Min
    ensures SignedAmountFromString("-" + integerText + "." + fractionText, Pow10(k))
            == -(DigitsValue(integerText) * Pow10(k) + DigitsValue(PadTruncate(fractionText, k)))
  {
    var p, v := Pow10(k), DigitsValue(integerText);
    var negated := "-" + integerText;
    var text := "-" + integerText + "." + fractionText;
    NegatedDecimalText(integerText, fractionText);
    SignedAmountWithPoint(text, p, |negated|);
    MulMonotone(0, v, p);
    NegatedIntegerAmount(integerText, p);
    FractionTruncates(fractionText, k);
    var whole: int := v * p;
    SubtractFractionInRange(-whole, whole, FractionPart(fractionText, p));
  }

  /** How "-", digits, "." and digits split: where the point is, what precedes and follows it, and its sign. */
  lemma NegatedDecimalText(integerText: string, fractionText: string)
    requires IsDigits(integerText) && IsDigits(fractionText)
    ensures var negated := "-" + integerText;
            var text := "-" + integerText + "." + fractionText;
            && FindChar(text, '.') == Some(|negated|)
            && text[..|negated|] == negated && text[|negated| + 1..] == fractionText
            && ReadsMinus(negated)
  {
    var negated := "-" + integerText;
    var text := negated + "." + fractionText;
    assert "-" + integerText + "." + fractionText == text;
    NoPointInDigits(integerText);
    assert '.' !in negated;
    PointAfterDigits(negated, fractionText);
    assert text[..|negated|] == negated;
    assert text[|negated| + 1..] == fractionText;
  }

  /** Behind a '-', digits whose negated product with the precision fits in 64 bits contribute that negation. */
  lemma NegatedIntegerAmount(integerText: string, precision: int)
    requires IsDigits(integerText) && precision >= 1
    requires 0 <= DigitsValue(integerText) * precision <= -Min
    ensures IntegerAmount("-" + integerText, precision) == -(DigitsValue(integerText) * precision)
  {
    var v: int := DigitsValue(integerText);
    var product := v * precision;
    AtollNegated(integerText);
    NegateProduct(v, precision);
    IntegerAmountExact("-" + integerText, precision, -v, -product);
  }

  /** atoll of '-' and digits is the negated value of the digits. */
  lemma AtollNegated(integerText: string)
    requires IsDigits(integerText)
    ensures Atoll("-" + integerText) == -(DigitsValue(integerText) as int)
  {
    assert ("-" + integerText)[1..] == integerText;
  }

  lemma NegateProduct(a: int, b: int)
    requires 0 <= a * b <= -Min
    ensures (-a) * b == -(a * b) && Min <= (-a) * b <= Max
  {
  }

  /** A non-positive amount minus a fraction that keeps it within 64 bits subtracts exactly. */
  lemma SubtractFractionInRange(base: I64, whole: int, fraction: int)
    requires base == -whole && 0 <= whole && 0 <= fraction && whole + fraction <= -Min
    ensures ApplyFractionBySign(true, base, fraction) == -(whole + fraction)
  {
  }

  lemma NoMinusInDigits(s: string)
    requires IsDigits(s)
    ensures !ReadsMinus(s)
  {
  }

  /** With the correction, "-0.5" parses as -0.5. */
  lemma NegativeBelowOneKeepsSign()
    ensures SignedAmountFromString("-0.5", 10) == -5
  {
    assert "-0.5" == "-" + "0" + "." + "5";
    assert "0"[..0] == "" && "5"[..0] == "";
    assert PadTruncate("5", 1) == "5";
    assert Pow10(1) == 10 && Pow10(2) == 100;
    SignedAmountNegates("0", "5", 1);
  }

  // ---------------------------------------------------------------------------
  // Amount to text
  // ---------------------------------------------------------------------------

  /** |amount|, read as an unsigned 64-bit value: the most negative amount has magnitude 2^63. */
  function Magnitude(amount: I64): (m: nat)
    ensures m == amount || m == -(amount as int)
  {
    if amount >= 0 then amount as int else -(amount as int)
  }

  /** The whole display units in `shares` smallest units. */
  function WholeUnits(shares: nat, precision: nat): (w: nat)
    requires precision > 0
  {
    shares / precision
  }

  /** The smallest units left over after the whole display units. */
  function FractionalUnits(shares: nat, precision: nat): (m: nat)
    requires precision > 0
    ensures m < precision
  {
    shares % precision
  }

  /**
   * Renders an amount as its integer part (grouped in thousands), a point and
   * the fractional digits, optionally followed by a space and the symbol, with
   * a leading '-' for a negative amount. The fractional digits are those of
   * precision + (|amount| mod precision) with the leading digit overwritten by
   * the point. The magnitude is taken as an unsigned 64-bit value, so the most
   * negative amount renders its true magnitude 2^63.
   */
  function AmountToString(r: AssetRecord, amount: I64, appendSymbol: bool): (s: string)
    requires r.precision > 0
    ensures |s| > 0 && (s[0] == '-' <==> amount < 0)
  {
    var shares := Magnitude(amount);
    var digits := Dec(r.precision + FractionalUnits(shares, r.precision));
    var decimal := digits[0 := '.'];
    var integerPart := Pretty(WholeUnits(shares, r.precision));
    var number := integerPart + decimal;
    assert number[0] == integerPart[0];
    var withSymbol := if appendSymbol then number + (" " + r.symbol) else number;
    assert withSymbol[0] == integerPart[0];
    if amount < 0 then "-" + withSymbol else withSymbol
  }

  /**
   * At a precision of 10^k the text is: a '-' for a negative amount, the
   * integer part |amount| / 10^k, a point, exactly k digits spelling
   * |amount| mod 10^k, and a space and the symbol when asked for.
   */
  lemma AmountToStringShape(r: AssetRecord, amount: I64, appendSymbol: bool, k: nat)
    requires r.precision == Pow10(k)
    ensures var shares := Magnitude(amount);
            var number := Pretty(WholeUnits(shares, r.precision)) + ("." + LastDigits(FractionalUnits(shares, r.precision), k));
            var unsigned := if appendSymbol then number + (" " + r.symbol) else number;
            AmountToString(r, amount, appendSymbol) == if amount < 0 then "-" + unsigned else unsigned
  {
    var shares := Magnitude(amount);
    var m := FractionalUnits(shares, r.precision);
    PointedDigits(k, m);
  }

  /**
   * At a precision of 10^k the fractional digits are exactly k, one fewer
   * than the digits of the precision, and their value is |amount| mod 10^k.
   */
  lemma FractionalDigits(shares: nat, k: nat)
    ensures var digits := LastDigits(FractionalUnits(shares, Pow10(k)), k);
            && |digits| == k == |Dec(Pow10(k))| - 1
            && DigitsValue(digits) == shares % Pow10(k)
  {
    var p := Pow10(k);
    var m := FractionalUnits(shares, p);
    DecOfPow10Plus(k, 0);
    LastDigitsValue(m, k);
    DivModUnique(m, p, 0, m);
  }

  // ---------------------------------------------------------------------------
  // Text and back
  // ---------------------------------------------------------------------------

  /**
   * Below a thousand whole units no separator is inserted: the text is the
   * sign, the plain integer part, a point and the k fractional digits.
   */
  lemma ShortAmountText(r: AssetRecord, amount: I64, k: nat, w: nat, m: nat)
    requires r.precision == Pow10(k)
    requires w == Magnitude(amount) / r.precision && m == Magnitude(amount) % r.precision && w < 1000
    ensures AmountToString(r, amount, false)
            == if amount < 0 then "-" + Dec(w) + "." + LastDigits(m, k) else Dec(w) + "." + LastDigits(m, k)
  {
    AmountToStringShape(r, amount, false, k);
    assert Pretty(w) == Dec(w);
    assert Dec(w) + ("." + LastDigits(m, k)) == Dec(w) + "." + LastDigits(m, k);
    assert "-" + (Dec(w) + "." + LastDigits(m, k)) == "-" + Dec(w) + "." + LastDigits(m, k);
  }

  /** Shares below a thousand units of p make fewer than a thousand whole units, whose value does not exceed the shares. */
  lemma WholeUnitsBound(shares: nat, p: nat, w: nat)
    requires p >= 1 && shares < 1000 * p && w == shares / p
    ensures w < 1000 && w * p <= shares
  {
    DivBelow(shares, 1000, p);
    assert shares == w * p + shares % p;
  }

  /** The digits of the whole and fractional units read back as the magnitude they came from. */
  lemma UnitsReadBack(shares: nat, k: nat, w: nat, m: nat)
    requires w == shares / Pow10(k) && m == shares % Pow10(k)
    ensures DigitsValue(Dec(w)) * Pow10(k) + DigitsValue(PadTruncate(LastDigits(m, k), k)) == shares
  {
    var p := Pow10(k);
    assert PadTruncate(LastDigits(m, k), k) == LastDigits(m, k);
    LastDigitsValue(m, k);
    DivModUnique(m, p, 0, m);
    assert shares == w * p + m;
  }

  /**
   * A non-negative amount below a thousand whole units, formatted without the
   * symbol, parses back to itself.
   */
  lemma RoundTrip(r: AssetRecord, amount: I64, k: nat)
    requires r.precision == Pow10(k) && Pow10(k + 1) <= Max
    requires 0 <= amount < 1000 * Pow10(k)
    ensures AmountFromString(AmountToString(r, amount, false), r.precision) == amount
  {
    var p := Pow10(k);
    var w, m := WholeUnits(amount, p), FractionalUnits(amount, p);
    WholeUnitsBound(amount, p, w);
    assert AmountFromString(Dec(w) + "." + LastDigits(m, k), p) == amount by {
      UnitsReadBack(amount, k, w, m);
      LastDigitsValue(m, k);
      AmountFromDecimalText(Dec(w), LastDigits(m, k), k);
    }
    ShortAmountText(r, amount, k, w, m);
  }

  /**
   * A negative amount of at least one and fewer than a thousand whole units,
   * formatted without the symbol, also parses back to itself: its integer
   * part is negative, so the fraction is subtracted.
   */
  lemma NegativeRoundTrip(r: AssetRecord, amount: I64, k: nat)
    requires r.precision == Pow10(k) && Pow10(k + 1) <= Max
    requires -1000 * Pow10(k) < amount <= -(Pow10(k) as int)
    ensures AmountFromString(AmountToString(r, amount, false), r.precision) == amount
  {
    var p, shares := Pow10(k), Magnitude(amount);
    var w, m := WholeUnits(shares, p), FractionalUnits(shares, p);
    var integerText, digits := "-" + Dec(w), LastDigits(m, k);
    WholeUnitsBound(shares, p, w);
    ShortAmountText(r, amount, k, w, m);
    assert IntegerAmount(integerText, p) < 0 by {
      DivAtLeast(shares, 1, p);
      MulMonotone(1, w, p);
      NegatedIntegerAmount(Dec(w), p);
    }
    assert SignedAmountFromString("-" + Dec(w) + "." + digits, p) == AmountFromString("-" + Dec(w) + "." + digits, p) by {
      NegatedDecimalText(Dec(w), digits);
    }
    SignedRoundTrip(r, amount, k);
  }

  /**
   * Formatting -0.5 at precision 10 gives "-0.5", which parses back as +0.5:
   * negative amounts of less than one unit do not survive the round trip.
   */
  lemma RoundTripLosesSign(r: AssetRecord)
    requires r.precision == 10
    ensures AmountToString(r, -5, false) == "-0.5"
    ensures AmountFromString(AmountToString(r, -5, false), r.precision) == 5
  {
    NegativeHalfText(r);
    NegativeBelowOneLosesSign();
  }

  lemma NegativeHalfText(r: AssetRecord)
    requires r.precision == 10
    ensures AmountToString(r, -5, false) == "-0.5"
  {
    assert Pow10(1) == 10;
    ShortAmountText(r, -5, 1, 0, 5);
    assert Dec(0) == "0" && LastDigits(5, 1) == "5";
  }

  /**
   * With the sign read from the text, every amount of either sign below a
   * thousand whole units, formatted without the symbol, parses back to itself.
   */
  lemma SignedRoundTrip(r: AssetRecord, amount: I64, k: nat)
    requires r.precision == Pow10(k) && Pow10(k + 1) <= Max
    requires -1000 * Pow10(k) < amount < 1000 * Pow10(k)
    ensures SignedAmountFromString(AmountToString(r, amount, false), r.precision) == amount
  {
    var p, shares := Pow10(k), Magnitude(amount);
    var w, m := WholeUnits(shares, p), FractionalUnits(shares, p);
    WholeUnitsBound(shares, p, w);
    UnitsReadBack(shares, k, w, m);
    LastDigitsValue(m, k);
    if amount >= 0 {
      SignedUnsignedDecimal(Dec(w), LastDigits(m, k), k);
    } else {
      SignedNegativeDecimal(Dec(w), LastDigits(m, k), k);
    }
    ShortAmountText(r, amount, k, w, m);
  }

  /**
   * From a thousand whole units on, the integer part carries a ',' separator,
   * at which atoll stops: 1000.0 at precision 10 is written "1,000.0" and
   * read back as 1.0.
   */
  lemma SeparatorStopsParse(r: AssetRecord)
    requires r.precision == 10
    ensures AmountToString(r, 10000, false) == "1,000.0"
    ensures AmountFromString(AmountToString(r, 10000, false), r.precision) == 10
  {
    ThousandText(r);
    ThousandParse();
  }

  lemma ThousandText(r: AssetRecord)
    requires r.precision == 10
    ensures AmountToString(r, 10000, false) == "1,000.0"
  {
    assert Pow10(1) == 10;
    AmountToStringShape(r, 10000, false, 1);
    assert WholeUnits(10000, 10) == 1000 && FractionalUnits(10000, 10) == 0;
    assert Pretty(1000) == "1,000" by {
      assert Pretty(1) == "1" && LastDigits(0, 3) == "000";
    }
    assert LastDigits(0, 1) == "0";
  }

  lemma ThousandParse()
    ensures AmountFromString("1,000.0", 10) == 10
  {
    ThousandPoint();
    assert "1,000.0"[..5] == "1,000" && "1,000.0"[6..] == "0";
    ThousandIntegerAmount();
    assert FractionPart("0", 10) == 0 by {
      assert Pow10(1) == 10;
      ZeroFractionTruncates("0", 1);
    }
    AmountFromStringWithPoint("1,000.0", 10, 5);
  }

  lemma ThousandPoint()
    ensures FindChar("1,000.0", '.') == Some(5)
  {
    assert "1,000.0"[1..] == ",000.0" && ",000.0"[1..] == "000.0";
    assert "000.0"[1..] == "00.0" && "00.0"[1..] == "0.0" && "0.0"[1..] == ".0";
  }

  lemma ThousandIntegerAmount()
    ensures IntegerAmount("1,000", 10) == 10
  {
    assert DigitPrefix("1,000") == "1" by {
      assert "1,000"[1..] == ",000";
    }
    assert "1"[..0] == "";
  }
}
