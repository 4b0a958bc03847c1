/**
 * Python's string formatting of a natural number: its shortest decimal numeral.
 */
module Decimal {

  predicate IsDigit(c: char) {
    '0' <= c <= '9'
  }

  function DigitChar(d: nat): (c: char)
    requires d < 10
    ensures IsDigit(c)
  {
    (48 + d) as char
  }

  function DigitValue(c: char): (d: nat)
    requires IsDigit(c)
    ensures d < 10
  {
    c as int - 48
  }

  /** The decimal numeral of `n`, without sign and without leading zeros. */
  function DecimalString(n: nat): (r: string)
    ensures |r| >= 1
    ensures forall k :: 0 <= k < |r| ==> IsDigit(r[k])
    ensures r[0] == '0' ==> n == 0
    ensures n < 10 <==> |r| == 1
  {
    if n < 10 then [DigitChar(n)] else DecimalString(n / 10) + [DigitChar(n % 10)]
  }

  /** Reads a string of digits as a natural number (the partner of `DecimalString`). */
  function ParseDecimal(s: string): nat
    requires forall k :: 0 <= k < |s| ==> IsDigit(s[k])
  {
    if s == [] then 0 else 10 * ParseDecimal(s[..|s| - 1]) + DigitValue(s[|s| - 1])
  }

  /** Reading back the numeral gives the number. */
  lemma {:induction false} ParseDecimalString(n: nat)
    ensures ParseDecimal(DecimalString(n)) == n
  {
    var r := DecimalString(n);
    if n >= 10 {
      ParseDecimalString(n / 10);
      assert r[..|r| - 1] == DecimalString(n / 10);
    }
  }

  /** Different numbers have different numerals. */
  lemma DecimalStringDistinct(m: nat, n: nat)
    requires m != n
    ensures DecimalString(m) != DecimalString(n)
  {
    ParseDecimalString(m);
    ParseDecimalString(n);
  }

  /** Appending a digit to the numeral of a positive number gives the numeral of `10 * n + d`. */
  lemma DecimalStringAppend(n: nat, d: nat)
    requires n >= 1 && d < 10
    ensures DecimalString(10 * n + d) == DecimalString(n) + [DigitChar(d)]
  {
    assert (10 * n + d) / 10 == n;
    assert (10 * n + d) % 10 == d;
  }

  /**
   * The numeral of a positive `n` is a proper prefix of the numeral of every
   * `10 * n + d`, so a prefix test for "1" also accepts "10" to "19".
   */
  lemma DecimalPrefixOfLonger(n: nat, d: nat)
    requires n >= 1 && d < 10
    ensures DecimalString(n) < DecimalString(10 * n + d)
  {
    DecimalStringAppend(n, d);
  }

  /**
   * Conversely, the numeral of `i` is a prefix of the numeral of a different
   * `j` only when `j` has more digits, so no prefix collision happens
   * between one-digit numbers.
   */
  lemma {:induction false} DecimalPrefixNeedsTen(i: nat, j: nat)
    requires i != j && DecimalString(i) <= DecimalString(j)
    ensures j >= 10
  {
    if j < 10 {
      DecimalStringDistinct(i, j);
    }
  }

  /** A larger number never has a shorter numeral. */
  lemma {:induction false} DecimalLengthMonotone(m: nat, n: nat)
    requires m <= n
    ensures |DecimalString(m)| <= |DecimalString(n)|
  {
    if m >= 10 {
      DecimalLengthMonotone(m / 10, n / 10);
    }
  }
}
