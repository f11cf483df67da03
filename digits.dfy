/**
 * ASCII decimal digits: the character class `[0-9]` shared by the bid-count
 * rule of the scraper (JavaScript `replace(/[^0-9]/g, "")` then `parseInt`)
 * and the price conversion of the dashboard (Python `re.sub("[^0-9]", "", x)`
 * then `int`).  Both parse a string that holds only digits, so both reduce to
 * `DecimalValue`; `ToDecimal` is Python's `str` on a non-negative integer and
 * serves as its inverse.
 */
module Digits {

  predicate IsDigit(c: char) {
    '0' <= c <= '9'
  }

  predicate AllDigits(s: string) {
    forall i :: 0 <= i < |s| ==> IsDigit(s[i])
  }

  /** A decimal numeral as `str` writes it: non-empty, digits only, no leading zero. */
  predicate Canonical(s: string) {
    |s| > 0 && AllDigits(s) && (s[0] == '0' ==> |s| == 1)
  }

  function DigitValue(c: char): (d: nat)
    requires IsDigit(c)
    ensures d < 10
  {
    c as int - '0' as int
  }

  function DigitChar(d: nat): (c: char)
    requires d < 10
    ensures IsDigit(c) && DigitValue(c) == d
    ensures c == '0' <==> d == 0
  {
    ('0' as int + d) as char
  }

  /**
   * The digits of `s` in their original order, every other character
   * dropped: the result of substituting the empty string for `[^0-9]`.
   */
  function DigitsOnly(s: string): (r: string)
    ensures AllDigits(r)
    ensures |r| <= |s|
    ensures r == [] <==> forall i :: 0 <= i < |s| ==> !IsDigit(s[i])
    ensures AllDigits(s) ==> r == s
  {
    if s == [] then []
    else if IsDigit(s[0]) then [s[0]] + DigitsOnly(s[1..])
    else DigitsOnly(s[1..])
  }

  /**
   * Filtering distributes over concatenation, so together with its effect on
   * a single character it fixes DigitsOnly completely: digits are kept, in
   * order, and nothing else survives.
   */
  lemma {:induction false} DigitsOnlyAppend(a: string, b: string)
    ensures DigitsOnly(a + b) == DigitsOnly(a) + DigitsOnly(b)
  {
    if a != [] {
      assert (a + b)[1..] == a[1..] + b;
      DigitsOnlyAppend(a[1..], b);
    } else {
      assert a + b == b;
    }
  }

  /** The base-10 value of a string of digits (most significant first). */
  function DecimalValue(ds: string): (r: nat)
    requires AllDigits(ds)
    ensures r == 0 <==> forall i :: 0 <= i < |ds| ==> ds[i] == '0'
  {
    if ds == [] then 0
    else 10 * DecimalValue(ds[..|ds| - 1]) + DigitValue(ds[|ds| - 1])
  }

  /** Leading zeros do not change the value of a numeral. */
  lemma {:induction false} DecimalValueLeadingZero(s: string)
    requires AllDigits(s)
    ensures AllDigits(['0'] + s)
    ensures DecimalValue(['0'] + s) == DecimalValue(s)
  {
    var t := ['0'] + s;
    if s == [] {
      assert t[..|t| - 1] == [];
    } else {
      assert t[..|t| - 1] == ['0'] + s[..|s| - 1];
      assert t[|t| - 1] == s[|s| - 1];
      DecimalValueLeadingZero(s[..|s| - 1]);
    }
  }

  /** A numeral that starts with a non-zero digit denotes a positive number. */
  lemma {:induction false} DecimalValuePositive(s: string)
    requires |s| > 0 && AllDigits(s) && s[0] != '0'
    ensures DecimalValue(s) > 0
  {
    if |s| > 1 {
      DecimalValuePositive(s[..|s| - 1]);
    }
  }

  /** Python's `str` on a non-negative integer. */
  function ToDecimal(n: nat): (r: string)
    ensures Canonical(r)
    ensures n == 0 <==> r == "0"
    decreases n
  {
    if n < 10 then [DigitChar(n)] else ToDecimal(n / 10) + [DigitChar(n % 10)]
  }

  /** Rendering then parsing gives the number back. */
  lemma {:induction false} DecimalValueOfToDecimal(n: nat)
    ensures DecimalValue(ToDecimal(n)) == n
    decreases n
  {
    if n >= 10 {
      var r := ToDecimal(n);
      assert r[..|r| - 1] == ToDecimal(n / 10);
      DecimalValueOfToDecimal(n / 10);
    }
  }

  /** Parsing then rendering gives a canonical numeral back. */
  lemma {:induction false} ToDecimalOfDecimalValue(s: string)
    requires Canonical(s)
    ensures ToDecimal(DecimalValue(s)) == s
  {
    if |s| > 1 {
      var init := s[..|s| - 1];
      var d := DigitValue(s[|s| - 1]);
      DecimalValuePositive(init);
      var v := DecimalValue(init);
      assert DecimalValue(s) == 10 * v + d;
      assert (10 * v + d) / 10 == v && (10 * v + d) % 10 == d;
      ToDecimalOfDecimalValue(init);
      assert s == init + [s[|s| - 1]];
      assert DigitChar(d) == s[|s| - 1];
    } else {
      assert DigitChar(DigitValue(s[0])) == s[0];
    }
  }
}
