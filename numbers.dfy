/**
 * Decimal rendering and parsing of non-negative integers, as done by
 * `ToString()` and `Parse` on .NET integer types, over unbounded integers.
 */
module Numbers {

  function Digit(d: nat): (c: char)
    requires d < 10
    ensures '0' <= c <= '9' && c as int - '0' as int == d
  {
    "0123456789"[d]
  }

  predicate IsDigit(c: char) { '0' <= c <= '9' }

  predicate AllDigits(s: string) { forall i | 0 <= i < |s| :: IsDigit(s[i]) }

  /** The decimal representation of `n` without leading zeros. */
  function DecimalString(n: nat): (s: string)
    ensures |s| >= 1 && AllDigits(s)
    ensures n >= 10 ==> s[0] != '0'
    decreases n
  {
    if n < 10 then [Digit(n)] else DecimalString(n / 10) + [Digit(n % 10)]
  }

  /** The value of a string of decimal digits (the empty string is 0). */
  function ValueOf(s: string): nat
    requires AllDigits(s)
  {
    if |s| == 0 then 0 else ValueOf(s[..|s| - 1]) * 10 + (s[|s| - 1] as int - '0' as int)
  }

  lemma {:induction false} DecimalRoundTrip(n: nat)
    ensures ValueOf(DecimalString(n)) == n
    decreases n
  {
    if n >= 10 {
      DecimalRoundTrip(n / 10);
      var s := DecimalString(n);
      assert s[..|s| - 1] == DecimalString(n / 10);
    }
  }

  function Pow10(k: nat): (p: nat)
    ensures p >= 1
  {
    if k == 0 then 1 else 10 * Pow10(k - 1)
  }

  /** The number of decimal digits of `n` (1 for 0). */
  function DigitCount(n: nat): (k: nat)
    ensures k >= 1
  {
    |DecimalString(n)|
  }

  lemma {:induction false} DigitCountBounds(n: nat)
    ensures n < Pow10(DigitCount(n))
    ensures n >= 1 ==> Pow10(DigitCount(n) - 1) <= n
    decreases n
  {
    if n >= 10 {
      DigitCountBounds(n / 10);
      assert DigitCount(n) == DigitCount(n / 10) + 1;
    }
  }
}
