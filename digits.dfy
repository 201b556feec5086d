/**
 * Decimal text of natural numbers, as used by the year, quarter and month
 * fields of the frame labels: `str(n)` / `%Y` (no padding) and `%m`
 * (zero-padded to two digits). Each printer is paired with a parser and
 * proved to round-trip.
 */
module Digits {

  predicate IsDigit(c: char)
  {
    '0' <= c <= '9'
  }

  predicate AllDigits(s: string)
  {
    forall k :: 0 <= k < |s| ==> IsDigit(s[k])
  }

  /** The character of a single digit. */
  function DigitChar(n: nat): (c: char)
    requires n < 10
    ensures IsDigit(c)
  {
    ('0' as int + n) as char
  }

  /** The value of a digit character. */
  function DigitValue(c: char): (n: nat)
    requires IsDigit(c)
    ensures n < 10 && DigitChar(n) == c
  {
    (c as int - '0' as int) as nat
  }

  /** The shortest decimal text of `n`: no sign, no leading zero. */
  function DecimalString(n: nat): (s: string)
    ensures |s| >= 1 && AllDigits(s)
    ensures |s| > 1 ==> s[0] != '0'
  {
    if n < 10 then [DigitChar(n)]
    else DecimalString(n / 10) + [DigitChar(n % 10)]
  }

  /** The value of a string of digits (0 for the empty string). */
  function ParseDecimal(s: string): nat
    requires AllDigits(s)
  {
    if s == [] then 0
    else ParseDecimal(s[..|s| - 1]) * 10 + DigitValue(s[|s| - 1])
  }

  /** Parsing the decimal text of `n` gives `n` back. */
  lemma {:induction false} DecimalRoundTrip(n: nat)
    ensures ParseDecimal(DecimalString(n)) == n
  {
    var s := DecimalString(n);
    if n >= 10 {
      DecimalRoundTrip(n / 10);
      assert s[..|s| - 1] == DecimalString(n / 10);
    }
  }

  /** Years of the four-digit era print as exactly four digits. */
  lemma {:induction false} DecimalLength4(n: nat)
    requires 1000 <= n <= 9999
    ensures |DecimalString(n)| == 4
  {
    var a, b, c := n / 10, n / 100, n / 1000;
    assert 100 <= a < 1000 && 10 <= b < 100 && 1 <= c < 10;
    assert a / 10 == b && b / 10 == c;
    assert |DecimalString(c)| == 1;
    assert |DecimalString(b)| == |DecimalString(c)| + 1;
    assert |DecimalString(a)| == |DecimalString(b)| + 1;
    assert |DecimalString(n)| == |DecimalString(a)| + 1;
  }

  /** Two-digit zero-padded decimal text of `n`, as `%m` prints a month. */
  function Pad2(n: nat): (s: string)
    requires n < 100
    ensures |s| == 2 && AllDigits(s)
  {
    [DigitChar(n / 10), DigitChar(n % 10)]
  }

  /** Parsing a padded number gives it back. */
  lemma Pad2RoundTrip(n: nat)
    requires n < 100
    ensures ParseDecimal(Pad2(n)) == n
  {
    var s := Pad2(n);
    assert s[..1] == [DigitChar(n / 10)] && s[..1][..0] == [];
    assert ParseDecimal(s[..1]) == n / 10;
    assert ParseDecimal(s) == (n / 10) * 10 + n % 10;
  }
}
