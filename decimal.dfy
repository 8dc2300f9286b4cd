/**
 * Decimal text of a natural number, as Swift's string interpolation
 * `"\(n)"` writes it (used for the Content-Length value), and the reading
 * of such text back, as a client of the server reads Content-Length.
 */
module Decimal {
  import opened Wrappers

  /** An ASCII decimal digit. */
  predicate IsDigit(c: char) {
    '0' <= c <= '9'
  }

  /** The character of one decimal digit. */
  function DigitChar(d: nat): (c: char)
    requires d < 10
    ensures IsDigit(c) && c as int - '0' as int == d
  {
    ('0' as int + d) as char
  }

  /** `"\(n)"`: the shortest decimal numeral of `n`. */
  function Digits(n: nat): (r: string)
    ensures |r| >= 1
    ensures forall i :: 0 <= i < |r| ==> IsDigit(r[i])
    ensures |r| > 1 ==> r[0] != '0'
  {
    if n < 10 then [DigitChar(n)] else Digits(n / 10) + [DigitChar(n % 10)]
  }

  /** The number a decimal numeral denotes; None for an empty string or one
      holding anything but digits. */
  function Value(s: string): Option<nat> {
    if |s| == 0 then None
    else if !IsDigit(s[|s| - 1]) then None
    else
      var d := s[|s| - 1] as int - '0' as int;
      if |s| == 1 then Some(d)
      else
        match Value(s[..|s| - 1])
        case None => None
        case Some(v) => Some(v * 10 + d)
  }

  /** Reading back the numeral of `n` gives `n`. */
  lemma {:induction false} ValueDigits(n: nat)
    ensures Value(Digits(n)) == Some(n)
  {
    if n >= 10 {
      var s := Digits(n);
      ValueDigits(n / 10);
      assert s[..|s| - 1] == Digits(n / 10);
    }
  }

  /** Distinct lengths are written as distinct numerals. */
  lemma DigitsInjective(m: nat, n: nat)
    requires Digits(m) == Digits(n)
    ensures m == n
  {
    ValueDigits(m);
    ValueDigits(n);
  }
}
