/**
 * The fixed-point price formatter of the price hooks: an on-chain integer
 * price with `decimals` implied decimal places becomes a decimal string
 * with trailing fraction zeros removed, computed with exact `bigint`
 * arithmetic.
 */
module PriceFormat {
  import opened Wrappers
  import opened JsValues

  /** `10 ** decimals` is an exact double, and so an exact `BigInt`, only up to here. */
  const MaxExactDecimals: nat := 22

  function Zeros(n: nat): (z: string)
    ensures |z| == n && forall i :: 0 <= i < n ==> z[i] == '0'
  {
    seq(n, _ => '0')
  }

  /** `s.padStart(width, '0')`. */
  function PadStart(s: string, width: nat): (r: string)
    ensures |r| == if |s| >= width then |s| else width
    ensures r == Zeros(|r| - |s|) + s
  {
    if |s| >= width then s else Zeros(width - |s|) + s
  }

  /** `s.replace(/0+$/, '')`: the string without its run of trailing '0's. */
  function TrimTrailingZeros(s: string): (r: string)
    ensures |r| <= |s| && s == r + Zeros(|s| - |r|)
    ensures r == [] || r[|r| - 1] != '0'
  {
    if |s| > 0 && s[|s| - 1] == '0' then
      var r := TrimTrailingZeros(s[..|s| - 1]);
      assert s == s[..|s| - 1] + ['0'];
      assert Zeros(|s| - 1 - |r|) + ['0'] == Zeros(|s| - |r|);
      r
    else
      assert s == s + Zeros(0);
      s
  }

  /**
   * The fraction text built from a non-zero remainder: its decimal digits
   * (with the sign, when negative) left-padded to `decimals` places, with
   * trailing zeros removed.
   */
  function FractionText(remainder: int, decimals: nat): string {
    TrimTrailingZeros(PadStart(BigIntToString(remainder), decimals))
  }

  /**
   * `formatPrice(price, decimals)`: whole part `price / 10^decimals` and
   * remainder `price % 10^decimals` (both truncating toward zero); the
   * whole part alone when the remainder is zero, otherwise the whole part,
   * '.', and the remainder left-padded to `decimals` digits with its
   * trailing zeros removed.
   */
  function FormatPrice(price: int, decimals: nat): string
    requires decimals <= MaxExactDecimals
  {
    var divisor := Pow10(decimals);
    var wholePart := BigIntDiv(price, divisor);
    var fractionalPart := BigIntRem(price, divisor);
    if fractionalPart == 0 then
      BigIntToString(wholePart)
    else
      BigIntToString(wholePart) + "." + FractionText(fractionalPart, decimals)
  }

  /** A non-empty run of at most `decimals` digits that does not end in '0'. */
  predicate IsTrimmedFraction(f: string, decimals: nat) {
    1 <= |f| <= decimals && AllDigits(f) && f[|f| - 1] != '0'
  }

  /** The index of the first '.' in `s`, or `|s|` when it has none. */
  function DotIndex(s: string): (k: nat)
    ensures k <= |s|
    ensures k < |s| ==> s[k] == '.'
    ensures forall i :: 0 <= i < k ==> s[i] != '.'
  {
    if s == [] || s[0] == '.' then 0 else 1 + DotIndex(s[1..])
  }

  /** The whole-part digits of a decimal string, in units of 10^-decimals. */
  function ReadWhole(whole: string, decimals: nat): Option<nat> {
    if whole == [] || !AllDigits(whole) then None else Some(DigitsValue(whole) * Pow10(decimals))
  }

  /** One to `decimals` fraction digits, right-padded with zeros to `decimals` places. */
  function ReadFraction(fraction: string, decimals: nat): Option<nat> {
    if fraction == [] || |fraction| > decimals || !AllDigits(fraction) then None
    else Some(DigitsValue(fraction + Zeros(decimals - |fraction|)))
  }

  /**
   * Reads a decimal string back as an integer with `decimals` implied
   * places: whole digits, optionally followed by '.' and one to `decimals`
   * fraction digits.
   */
  function ParseFixed(s: string, decimals: nat): Option<nat> {
    var k := DotIndex(s);
    match ReadWhole(s[..k], decimals)
    case None => None
    case Some(units) =>
      if k == |s| then Some(units)
      else
        match ReadFraction(s[k + 1..], decimals)
        case None => None
        case Some(fraction) => Some(units + fraction)
  }

  lemma {:induction false} ZerosValue(k: nat)
    ensures AllDigits(Zeros(k)) && DigitsValue(Zeros(k)) == 0
  {
    if k > 0 {
      assert Zeros(k)[..k - 1] == Zeros(k - 1);
      ZerosValue(k - 1);
    }
  }

  /** Leading zeros do not change the value of a digit string. */
  lemma {:induction false} LeadingZerosValue(k: nat, s: string)
    requires AllDigits(s)
    ensures AllDigits(Zeros(k) + s) && DigitsValue(Zeros(k) + s) == DigitsValue(s)
  {
    ZerosValue(k);
    if s != [] {
      var t := Zeros(k) + s;
      assert t[..|t| - 1] == Zeros(k) + s[..|s| - 1];
      LeadingZerosValue(k, s[..|s| - 1]);
    } else {
      assert Zeros(k) + s == Zeros(k);
    }
  }

  /** Division of a non-negative price, with the quotient and remainder named. */
  lemma DivideNonNegative(price: nat, divisor: nat) returns (whole: nat, remainder: nat)
    requires divisor >= 1
    ensures whole == price / divisor && remainder == price % divisor
    ensures price == whole * divisor + remainder && remainder < divisor
  {
    whole, remainder := price / divisor, price % divisor;
  }

  lemma MulAtLeast(a: nat, b: nat)
    requires a >= 1
    ensures a * b >= b
  {
  }

  /** Euclidean division undoes `whole * divisor + remainder`. */
  lemma DivisionOfParts(whole: nat, remainder: nat, divisor: nat)
    requires remainder < divisor
    ensures (whole * divisor + remainder) / divisor == whole
    ensures (whole * divisor + remainder) % divisor == remainder
  {
    var price := whole * divisor + remainder;
    var q, r := price / divisor, price % divisor;
    assert price == q * divisor + r && 0 <= r < divisor;
    if q > whole {
      MulAtLeast(q - whole, divisor);
    } else if q < whole {
      MulAtLeast(whole - q, divisor);
    }
  }

  /** The two cases of `formatPrice` for a non-negative price, once divided. */
  lemma FormatPriceSplit(price: nat, decimals: nat, whole: nat, remainder: nat)
    requires decimals <= MaxExactDecimals
    requires whole == price / Pow10(decimals) && remainder == price % Pow10(decimals)
    ensures FormatPrice(price, decimals) ==
      if remainder == 0 then NatToString(whole)
      else NatToString(whole) + "." + FractionText(remainder, decimals)
  {
  }

  /** A price of `whole * 10^decimals + remainder` formats from those two parts. */
  lemma FormatPriceParts(price: nat, whole: nat, remainder: nat, decimals: nat)
    requires decimals <= MaxExactDecimals
    requires price == whole * Pow10(decimals) + remainder && remainder < Pow10(decimals)
    ensures FormatPrice(price, decimals) ==
      if remainder == 0 then NatToString(whole)
      else NatToString(whole) + "." + FractionText(remainder, decimals)
  {
    DivisionOfParts(whole, remainder, Pow10(decimals));
    FormatPriceSplit(price, decimals, whole, remainder);
  }

  /**
   * A price that is a whole multiple of 10^decimals prints as the decimal
   * digits of the multiple, with no '.'.
   */
  lemma FormatPriceWhole(price: nat, whole: nat, decimals: nat)
    requires decimals <= MaxExactDecimals && price == whole * Pow10(decimals)
    ensures FormatPrice(price, decimals) == NatToString(whole)
    ensures '.' !in FormatPrice(price, decimals)
  {
    FormatPriceParts(price, whole, 0, decimals);
    var s := NatToString(whole);
    assert forall i :: 0 <= i < |s| ==> s[i] != '.';
  }

  /** Zero prints as "0" at every precision, and at precision 0 a price prints as its digits. */
  lemma FormatPriceZeroAndUnscaled(price: nat, decimals: nat)
    requires decimals <= MaxExactDecimals
    ensures FormatPrice(0, decimals) == "0"
    ensures FormatPrice(price, 0) == NatToString(price)
  {
    assert FormatPrice(0, decimals) == "0" by {
      FormatPriceWhole(0, 0, decimals);
    }
    assert FormatPrice(price, 0) == NatToString(price) by {
      FormatPriceWhole(price, price, 0);
    }
  }

  /** A remainder below 10^decimals, padded to `decimals` digits, still reads as itself. */
  lemma PaddedRemainder(remainder: nat, decimals: nat)
    requires 0 < remainder < Pow10(decimals)
    ensures var padded := PadStart(NatToString(remainder), decimals);
      |padded| == decimals && AllDigits(padded) && DigitsValue(padded) == remainder &&
      padded != Zeros(decimals)
  {
    assert decimals >= 1;
    NatToStringFits(remainder, decimals);
    var digits := NatToString(remainder);
    var k := decimals - |digits|;
    var padded := PadStart(digits, decimals);
    assert padded == Zeros(k) + digits;
    LeadingZerosValue(k, digits);
    NatToStringRoundTrip(remainder);
    assert padded[k] != '0';
  }

  /** Trimming a digit string that is not all zeros leaves a trimmed fraction. */
  lemma TrimmedDigits(padded: string)
    requires AllDigits(padded) && padded != Zeros(|padded|)
    ensures var f := TrimTrailingZeros(padded);
      IsTrimmedFraction(f, |padded|) && f + Zeros(|padded| - |f|) == padded
  {
    var f := TrimTrailingZeros(padded);
    assert f != [];
    assert forall i :: 0 <= i < |f| ==> f[i] == padded[i];
  }

  lemma ReadTrimmedFraction(f: string, decimals: nat)
    requires IsTrimmedFraction(f, decimals)
    ensures AllDigits(f + Zeros(decimals - |f|))
    ensures ReadFraction(f, decimals) == Some(DigitsValue(f + Zeros(decimals - |f|)))
  {
    ZerosValue(decimals - |f|);
  }

  lemma TrimmedPadded(padded: string, decimals: nat, remainder: nat)
    requires |padded| == decimals && AllDigits(padded) && DigitsValue(padded) == remainder
    requires padded != Zeros(decimals)
    ensures IsTrimmedFraction(TrimTrailingZeros(padded), decimals)
    ensures ReadFraction(TrimTrailingZeros(padded), decimals) == Some(remainder)
  {
    TrimmedDigits(padded);
    ReadTrimmedFraction(TrimTrailingZeros(padded), decimals);
  }

  /**
   * A remainder below 10^decimals gives a trimmed fraction which reads
   * back, padded to `decimals` places, as the remainder.
   */
  lemma FractionTextSpec(remainder: nat, decimals: nat)
    requires 0 < remainder < Pow10(decimals)
    ensures IsTrimmedFraction(FractionText(remainder, decimals), decimals)
    ensures ReadFraction(FractionText(remainder, decimals), decimals) == Some(remainder)
  {
    var padded := PadStart(NatToString(remainder), decimals);
    PaddedRemainder(remainder, decimals);
    TrimmedPadded(padded, decimals, remainder);
  }

  /**
   * Otherwise the output is the whole part's digits, '.', and a fraction
   * of one to `decimals` digits that does not end in '0'.
   */
  lemma FormatPriceFraction(price: nat, whole: nat, remainder: nat, decimals: nat)
    requires decimals <= MaxExactDecimals
    requires price == whole * Pow10(decimals) + remainder && 0 < remainder < Pow10(decimals)
    ensures var s, w := FormatPrice(price, decimals), NatToString(whole);
      |w| < |s| && s[..|w|] == w && s[|w|] == '.' && IsTrimmedFraction(s[|w| + 1..], decimals)
  {
    var w, f := NatToString(whole), FractionText(remainder, decimals);
    assert FormatPrice(price, decimals) == w + "." + f by {
      FormatPriceParts(price, whole, remainder, decimals);
    }
    FractionTextSpec(remainder, decimals);
    DottedLayout(w, f);
  }

  /** The pieces of `w + "." + f` can be found again in the joined string. */
  lemma DottedLayout(w: string, f: string)
    ensures var s := w + "." + f;
      |w| < |s| && s[..|w|] == w && s[|w|] == '.' && s[|w| + 1..] == f
  {
    var s := w + "." + f;
    assert s[..|w|] == w && s[|w| + 1..] == f;
  }

  lemma ReadWholeDigits(whole: nat, decimals: nat)
    ensures ReadWhole(NatToString(whole), decimals) == Some(whole * Pow10(decimals))
  {
    NatToStringRoundTrip(whole);
  }

  /** A plain digit string reads back as that many whole units. */
  lemma ParseWhole(whole: nat, decimals: nat)
    ensures ParseFixed(NatToString(whole), decimals) == Some(whole * Pow10(decimals))
  {
    var w := NatToString(whole);
    assert forall i :: 0 <= i < |w| ==> w[i] != '.';
    assert DotIndex(w) == |w|;
    assert w[..|w|] == w;
    ReadWholeDigits(whole, decimals);
  }

  /** Digits, '.', and fraction digits read back as the sum of what the two parts read as. */
  lemma ParseWithFraction(whole: nat, f: string, decimals: nat, units: nat, fraction: nat)
    requires ReadWhole(NatToString(whole), decimals) == Some(units)
    requires ReadFraction(f, decimals) == Some(fraction)
    ensures ParseFixed(NatToString(whole) + "." + f, decimals) == Some(units + fraction)
  {
    var w := NatToString(whole);
    var s := w + "." + f;
    assert forall i :: 0 <= i < |w| ==> s[i] != '.';
    assert s[|w|] == '.';
    assert DotIndex(s) == |w|;
    assert s[..|w|] == w && s[|w| + 1..] == f;
  }

  /** Digits, '.', and a fraction that reads back as `remainder` give `whole` units plus `remainder`. */
  lemma ParseFormattedParts(whole: nat, remainder: nat, decimals: nat, f: string)
    requires 0 < remainder < Pow10(decimals)
    requires ReadFraction(f, decimals) == Some(remainder)
    ensures ParseFixed(NatToString(whole) + "." + f, decimals) == Some(whole * Pow10(decimals) + remainder)
  {
    ReadWholeDigits(whole, decimals);
    ParseWithFraction(whole, f, decimals, whole * Pow10(decimals), remainder);
  }

  /** The fraction branch of the round trip, stated on the two parts of the price. */
  lemma ParseFractionCase(price: nat, whole: nat, remainder: nat, decimals: nat)
    requires price == whole * Pow10(decimals) + remainder && 0 < remainder < Pow10(decimals)
    ensures ParseFixed(NatToString(whole) + "." + FractionText(remainder, decimals), decimals) == Some(price)
  {
    FractionTextSpec(remainder, decimals);
    ParseFormattedParts(whole, remainder, decimals, FractionText(remainder, decimals));
  }

  /**
   * Round trip: reading the formatted string back, with its fraction
   * right-padded to `decimals` digits, gives the price.
   */
  lemma FormatPriceRoundTrip(price: nat, decimals: nat)
    requires decimals <= MaxExactDecimals
    ensures ParseFixed(FormatPrice(price, decimals), decimals) == Some(price)
  {
    var whole, remainder := DivideNonNegative(price, Pow10(decimals));
    FormatPriceParts(price, whole, remainder, decimals);
    if remainder == 0 {
      ParseWhole(whole, decimals);
    } else {
      ParseFractionCase(price, whole, remainder, decimals);
    }
  }

  /** Two non-negative prices with the same formatted string are equal. */
  lemma FormatPriceInjective(price1: nat, price2: nat, decimals: nat)
    requires decimals <= MaxExactDecimals
    requires FormatPrice(price1, decimals) == FormatPrice(price2, decimals)
    ensures price1 == price2
  {
    FormatPriceRoundTrip(price1, decimals);
    FormatPriceRoundTrip(price2, decimals);
  }

  /** `formatPrice` for any price whose truncating remainder is not zero. */
  lemma FormatPriceSigned(price: int, decimals: nat, whole: int, remainder: int)
    requires decimals <= MaxExactDecimals
    requires whole == BigIntDiv(price, Pow10(decimals)) && remainder == BigIntRem(price, Pow10(decimals))
    requires remainder != 0
    ensures FormatPrice(price, decimals) == BigIntToString(whole) + "." + FractionText(remainder, decimals)
  {
  }

  lemma Pow10Two()
    ensures Pow10(2) == 100
  {
  }

  /**
   * Negative prices are formatted as the `bigint` operators make them: the
   * remainder keeps its minus sign inside the fraction, so -150 at two
   * decimals (whole part -1, remainder -50) prints as "-1.-5". The price
   * and precision are parameters fixed by `requires` so that the proof
   * does not evaluate the formatter on literal arguments.
   */
  lemma NegativeWholePart(price: int, decimals: nat)
    requires price == -150 && decimals == 2
    ensures FormatPrice(price, decimals) == "-1.-5"
  {
    Pow10Two();
    var whole, remainder := BigIntDiv(price, Pow10(decimals)), BigIntRem(price, Pow10(decimals));
    assert whole == -1 && remainder == -50 by {
      assert BigIntDiv(-150, 100) == -1 && BigIntRem(-150, 100) == -50;
    }
    FormatPriceSigned(price, decimals, whole, remainder);
    assert BigIntToString(whole) == "-1" by {
      assert NatToString(1) == "1";
    }
    NegativeFractionText();
  }

  /**
   * A whole part of zero loses the sign: -50 at two decimals prints as
   * "0.-5". Parameters fixed by `requires`, as in `NegativeWholePart`.
   */
  lemma NegativeBelowOne(price: int, decimals: nat)
    requires price == -50 && decimals == 2
    ensures FormatPrice(price, decimals) == "0.-5"
  {
    Pow10Two();
    var whole, remainder := BigIntDiv(price, Pow10(decimals)), BigIntRem(price, Pow10(decimals));
    assert whole == 0 && remainder == -50 by {
      assert BigIntDiv(-50, 100) == 0 && BigIntRem(-50, 100) == -50;
    }
    FormatPriceSigned(price, decimals, whole, remainder);
    assert BigIntToString(whole) == "0" by {
      assert NatToString(0) == "0";
    }
    NegativeFractionText();
  }

  /** A remainder of -50 at two decimals keeps its sign: "-50" is already two characters long. */
  lemma NegativeFractionText()
    ensures FractionText(-50, 2) == "-5"
  {
    assert BigIntToString(-50) == "-50" by {
      assert NatToString(50) == "50";
    }
    assert PadStart("-50", 2) == "-50";
    assert TrimTrailingZeros("-50") == "-5" by {
      assert "-50"[..2] == "-5";
    }
  }

  /** The price argument of `useFormattedPrice`: a decimal digit string or a `bigint`. */
  datatype PriceInput = DecimalText(text: string) | BigIntValue(value: int)

  /**
   * `useFormattedPrice(price, decimals = 8)`: converts a string argument
   * with `BigInt` and formats the result.
   */
  function UseFormattedPrice(price: PriceInput, decimals: nat := 8): string
    requires decimals <= MaxExactDecimals
    requires price.DecimalText? ==> AllDigits(price.text)
  {
    var amount := match price
      case DecimalText(text) => DigitsValue(text)
      case BigIntValue(value) => value;
    FormatPrice(amount, decimals)
  }

  /**
   * The two argument forms agree: the printed digits of a price format as
   * the price itself does, and the default precision is 8 places.
   */
  lemma UseFormattedPriceAgrees(price: nat, decimals: nat)
    requires decimals <= MaxExactDecimals
    ensures UseFormattedPrice(DecimalText(NatToString(price)), decimals) == FormatPrice(price, decimals)
    ensures UseFormattedPrice(BigIntValue(price)) == FormatPrice(price, 8)
  {
    NatToStringRoundTrip(price);
  }
}
