/**
 * Rounding of exact rationals `p / q` and decimal rendering of integers, as
 * the dashboard's number formatting does them.
 */
module Rounding {
  import opened Seqs

  /**
   * `Math.round(p / q)`: the nearest integer, a half rounded up (towards
   * positive infinity). The two ensures say `p/q - 1/2 < r <= p/q + 1/2`,
   * which determines `r`.
   */
  function RoundHalfUp(p: int, q: int): (r: int)
    requires q > 0
    ensures 2 * (r * q - p) <= q
    ensures -q < 2 * (r * q - p)
  {
    var r := (2 * p + q) / (2 * q);
    assert (2 * q) * r <= 2 * p + q < (2 * q) * r + 2 * q;
    assert (2 * q) * r == 2 * (r * q);
    r
  }

  /** The sign of a product with a positive factor. */
  lemma MulSign(r: int, q: int)
    requires q > 0
    ensures r < 0 ==> r * q <= -q
    ensures r >= 0 ==> r * q >= 0
  {
  }

  /** Multiplying by a positive factor preserves order. */
  lemma MulMonotone(a: int, b: int, c: int)
    requires a <= b && c > 0
    ensures a * c <= b * c
  {
  }

  /** For a non-negative numerator, rounding half up is also rounding half away from zero. */
  lemma HalfUpOfNonNegative(p: int, q: int)
    requires q > 0 && p >= 0
    ensures RoundHalfUp(p, q) >= 0
    ensures p == 0 ==> RoundHalfUp(p, q) == 0
    ensures 2 * Abs(RoundHalfUp(p, q) * q - p) <= q
    ensures 2 * Abs(RoundHalfUp(p, q) * q - p) == q ==> Abs(RoundHalfUp(p, q) * q) > Abs(p)
  {
    var r := RoundHalfUp(p, q);
    MulSign(r, q);
    if r >= 1 {
      MulMonotone(1, r, q);
    }
  }

  /** Negating both the rounded value and the exact one keeps their distance. */
  lemma NegatedRounding(m: int, q: int, p: int)
    ensures Abs((-m) * q - (-p)) == Abs(m * q - p)
    ensures Abs((-m) * q) == Abs(m * q)
  {
    assert (-m) * q == -(m * q);
  }

  /** For a negative numerator, the negated half-up rounding of `-p / q` rounds `p / q` half away from zero. */
  lemma HalfAwayOfNegative(p: int, q: int)
    requires q > 0 && p < 0
    ensures -RoundHalfUp(-p, q) <= 0
    ensures 2 * Abs((-RoundHalfUp(-p, q)) * q - p) <= q
    ensures 2 * Abs((-RoundHalfUp(-p, q)) * q - p) == q ==> Abs((-RoundHalfUp(-p, q)) * q) > Abs(p)
  {
    HalfUpOfNonNegative(-p, q);
    NegatedRounding(RoundHalfUp(-p, q), q, -p);
  }

  /**
   * `Number.prototype.toFixed` applied to the exact rational `p / q`, scaled
   * to an integer: the nearest integer, a half rounded away from zero
   * (toFixed rounds the magnitude and then prefixes the sign).
   */
  function RoundHalfAway(p: int, q: int): (r: int)
    requires q > 0
    ensures 2 * Abs(r * q - p) <= q
    ensures 2 * Abs(r * q - p) == q ==> Abs(r * q) > Abs(p)
    ensures (p >= 0 ==> r >= 0) && (p <= 0 ==> r <= 0)
  {
    if p >= 0 then
      HalfUpOfNonNegative(p, q);
      RoundHalfUp(p, q)
    else
      HalfAwayOfNegative(p, q);
      -RoundHalfUp(-p, q)
  }

  /** Rounding half away from zero is symmetric about zero. */
  lemma RoundHalfAwaySymmetric(p: int, q: int)
    requires q > 0
    ensures RoundHalfAway(-p, q) == -RoundHalfAway(p, q)
  {
    if p == 0 {
      assert RoundHalfUp(0, q) == 0;
    }
  }

  function DigitChar(d: int): (c: char)
    requires 0 <= d < 10
    ensures '0' <= c <= '9' && (c as int) - ('0' as int) == d
  {
    (d + '0' as int) as char
  }

  predicate IsDigit(c: char) { '0' <= c <= '9' }

  predicate AllDigits(s: string) { forall i :: 0 <= i < |s| ==> IsDigit(s[i]) }

  /** Decimal digits of `n` without leading zeros, as JavaScript prints an integer. */
  function NatToString(n: nat): (s: string)
    ensures |s| > 0 && AllDigits(s)
    ensures s[0] == '0' ==> n == 0
  {
    if n < 10 then [DigitChar(n)] else NatToString(n / 10) + [DigitChar(n % 10)]
  }

  /** `String(i)` for an integer `i`. */
  function IntToString(i: int): (s: string)
    ensures |s| > 0
    ensures i < 0 ==> s[0] == '-' && AllDigits(s[1..])
    ensures i >= 0 ==> AllDigits(s)
  {
    if i < 0 then "-" + NatToString(-i) else NatToString(i)
  }

  /** The value of a string of decimal digits. */
  function DigitsValue(s: string): nat
    requires AllDigits(s)
  {
    if s == [] then 0
    else DigitsValue(s[..|s| - 1]) * 10 + ((s[|s| - 1] as int) - ('0' as int))
  }

  /** Reading the printed digits back gives the number. */
  lemma {:induction false} NatToStringRoundTrip(n: nat)
    ensures DigitsValue(NatToString(n)) == n
  {
    if n >= 10 {
      NatToStringRoundTrip(n / 10);
      var s := NatToString(n);
      assert s[..|s| - 1] == NatToString(n / 10);
    }
  }
}
