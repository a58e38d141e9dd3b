/**
 * The pieces of JavaScript value semantics that the price hooks depend on:
 * decimal printing of a `bigint`, `bigint` division and remainder (which
 * truncate toward zero, unlike Dafny's Euclidean `/` and `%`), the
 * truthiness test of `if (a && b && c)`, and the basis-point conversion
 * `Number(x) / 100`.
 */
module JsValues {
  import opened Wrappers

  predicate IsDigit(c: char) {
    '0' <= c <= '9'
  }

  predicate AllDigits(s: string) {
    forall i :: 0 <= i < |s| ==> IsDigit(s[i])
  }

  function DigitChar(d: nat): (c: char)
    requires d < 10
    ensures IsDigit(c)
  {
    ('0' as int + d) as char
  }

  function DigitValue(c: char): (d: nat)
    requires IsDigit(c)
    ensures d < 10 && DigitChar(d) == c
  {
    c as int - '0' as int
  }

  /** The value of a string of decimal digits, most significant first; "" reads as 0. */
  function DigitsValue(s: string): nat
    requires AllDigits(s)
  {
    if s == [] then 0 else DigitsValue(s[..|s| - 1]) * 10 + DigitValue(s[|s| - 1])
  }

  function Pow10(n: nat): (r: nat)
    ensures r >= 1
  {
    if n == 0 then 1 else 10 * Pow10(n - 1)
  }

  /**
   * `n.toString()` for a non-negative `bigint`: at least one digit, and a
   * leading '0' only for zero itself.
   */
  function NatToString(n: nat): (s: string)
    ensures 1 <= |s| && AllDigits(s)
    ensures s[0] == '0' <==> n == 0
  {
    if n < 10 then [DigitChar(n)] else NatToString(n / 10) + [DigitChar(n % 10)]
  }

  /** `x.toString()` for any `bigint`; `BigIntToStringReadsBack` states what it prints. */
  function BigIntToString(x: int): (s: string)
    ensures x >= 0 ==> s == NatToString(x)
    ensures x < 0 ==> s == "-" + NatToString(-x)
  {
    if x < 0 then "-" + NatToString(-x) else NatToString(x)
  }

  /** Reading the printed digits back gives the number. */
  lemma {:induction false} NatToStringRoundTrip(n: nat)
    ensures DigitsValue(NatToString(n)) == n
  {
    if n >= 10 {
      var s := NatToString(n);
      assert s[..|s| - 1] == NatToString(n / 10);
      NatToStringRoundTrip(n / 10);
    }
  }

  /** A number below 10^k prints in at most k digits. */
  lemma {:induction false} NatToStringFits(n: nat, k: nat)
    requires 1 <= k && n < Pow10(k)
    ensures |NatToString(n)| <= k
  {
    if n >= 10 {
      assert k >= 2;
      assert n / 10 < Pow10(k - 1);
      NatToStringFits(n / 10, k - 1);
    }
  }

  /**
   * `toString` prints the decimal digits of the number, preceded by '-'
   * when it is negative: the digits read back as its magnitude.
   */
  lemma BigIntToStringReadsBack(x: int)
    ensures var s := BigIntToString(x);
      && (x >= 0 ==> AllDigits(s) && DigitsValue(s) == x)
      && (x < 0 ==> |s| >= 2 && s[0] == '-' && AllDigits(s[1..]) && DigitsValue(s[1..]) == -x)
  {
    if x < 0 {
      var digits := NatToString(-x);
      NatToStringRoundTrip(-x);
      assert ("-" + digits)[1..] == digits;
    } else {
      NatToStringRoundTrip(x);
    }
  }

  /** Printing is injective on non-negative numbers. */
  lemma NatToStringInjective(m: nat, n: nat)
    requires NatToString(m) == NatToString(n)
    ensures m == n
  {
    NatToStringRoundTrip(m);
    NatToStringRoundTrip(n);
  }

  /** `a / b` on `bigint`: the quotient truncated toward zero. */
  function BigIntDiv(a: int, b: int): (q: int)
    requires b > 0
    ensures a >= 0 ==> q == a / b
  {
    if a >= 0 then a / b else -((-a) / b)
  }

  /** `a % b` on `bigint`: the remainder that takes the sign of `a`. */
  function BigIntRem(a: int, b: int): (r: int)
    requires b > 0
    ensures a >= 0 ==> r == a % b
  {
    if a >= 0 then a % b else -((-a) % b)
  }

  /**
   * Truncating division: the quotient and remainder recompose `a`, the
   * remainder is smaller than `b` in magnitude and takes the sign of `a`,
   * and so does the quotient. These determine both results.
   */
  lemma TruncatedDivision(a: int, b: int)
    requires b > 0
    ensures var q, r := BigIntDiv(a, b), BigIntRem(a, b);
      && a == q * b + r
      && (a >= 0 ==> 0 <= r < b && q >= 0)
      && (a < 0 ==> -b < r <= 0 && q <= 0)
  {
    if a >= 0 {
      DivMod(a, b);
    } else {
      DivMod(-a, b);
      NegatedProduct((-a) / b, b);
    }
  }

  lemma DivMod(n: int, b: int)
    requires n >= 0 && b > 0
    ensures n == (n / b) * b + n % b && 0 <= n % b < b && n / b >= 0
  {
  }

  /** Truncating division is the only one with these properties: a quotient and remainder that meet them are the `bigint` results. */
  lemma TruncatedDivisionUnique(a: int, b: int, q: int, r: int)
    requires b > 0 && a == q * b + r
    requires a >= 0 ==> 0 <= r < b
    requires a < 0 ==> -b < r <= 0
    ensures q == BigIntDiv(a, b) && r == BigIntRem(a, b)
  {
    TruncatedDivision(a, b);
    var q0, r0 := BigIntDiv(a, b), BigIntRem(a, b);
    assert (q - q0) * b == r0 - r by {
      assert q * b + r == q0 * b + r0;
      SubtractProducts(q, q0, b);
    }
    if q > q0 {
      MulAtLeastOne(q - q0, b);
    } else if q < q0 {
      MulAtLeastOne(q0 - q, b);
      NegatedProduct(q0 - q, b);
    }
  }

  lemma NegatedProduct(q: int, b: int)
    ensures (-q) * b == -(q * b)
  {
  }

  lemma SubtractProducts(x: int, y: int, b: int)
    ensures (x - y) * b == x * b - y * b
  {
  }

  lemma MulAtLeastOne(k: int, b: int)
    requires k >= 1 && b > 0
    ensures k * b >= b
  {
  }

  /** JavaScript truthiness of an optional string: defined and non-empty. */
  predicate TruthyString(s: Option<string>) {
    s.Some? && s.value != ""
  }

  /** JavaScript truthiness of an optional `bigint`: defined and not `0n`. */
  predicate TruthyBigInt(x: Option<int>) {
    x.Some? && x.value != 0
  }

  /**
   * A percentage converted from basis points by `Number(x) / 100`; an
   * undefined argument gives `NaN`.
   */
  datatype Percentage = Percent(basisPoints: int) | NotANumber {

    function Value(): (v: real)
      requires Percent?
      ensures v * 100.0 == basisPoints as real
    {
      basisPoints as real / 100.0
    }
  }

  function PercentageOf(basisPoints: Option<int>): (p: Percentage)
    ensures p.NotANumber? <==> basisPoints.None?
    ensures p.Percent? ==> p.basisPoints == basisPoints.value
  {
    match basisPoints
    case Some(b) => Percent(b)
    case None => NotANumber
  }
}
