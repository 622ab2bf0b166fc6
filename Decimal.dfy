/**
 * Decimal digit strings: rendering a natural number in base 10 and reading a
 * string of decimal digits back as a number. The codec relies on these for the
 * string coercions of numbers and for parsing the hour and minute fields.
 */
module Decimal {

  predicate IsDigit(c: char) {
    '0' <= c <= '9'
  }

  /** Every character of `s` is a decimal digit (the empty string included). */
  predicate AllDigits(s: string) {
    forall i :: 0 <= i < |s| ==> IsDigit(s[i])
  }

  /** A decimal numeral: a non-empty string of decimal digits. */
  predicate IsNumeral(s: string) {
    |s| > 0 && AllDigits(s)
  }

  /** A numeral without superfluous leading zeros: the form `Digits` produces. */
  predicate IsCanonical(s: string) {
    IsNumeral(s) && (s[0] == '0' ==> |s| == 1)
  }

  function DigitValue(c: char): (d: nat)
    requires IsDigit(c)
    ensures d < 10
  {
    c as int - '0' as int
  }

  function DigitChar(d: nat): (c: char)
    requires d < 10
    ensures IsDigit(c) && DigitValue(c) == d
  {
    ('0' as int + d) as char
  }

  lemma DigitCharOfValue(c: char)
    requires IsDigit(c)
    ensures DigitChar(DigitValue(c)) == c
  {
  }

  /** The number a string of decimal digits denotes, most significant digit first. */
  function Value(s: string): nat
    requires AllDigits(s)
  {
    if s == [] then 0 else Value(s[..|s| - 1]) * 10 + DigitValue(s[|s| - 1])
  }

  /** The decimal rendering of `n`, no leading zeros: what `String(n)` gives below 10^21. */
  function Digits(n: nat): string
    decreases n
  {
    if n < 10 then [DigitChar(n)] else Digits(n / 10) + [DigitChar(n % 10)]
  }

  /**
   * `Digits` renders `n` as a canonical numeral denoting `n`: one character
   * below 10, at most two below 100.
   */
  lemma {:induction false} DigitsValue(n: nat)
    ensures IsCanonical(Digits(n)) && Value(Digits(n)) == n
    ensures n < 10 ==> |Digits(n)| == 1
    ensures n < 100 ==> |Digits(n)| <= 2
    decreases n
  {
    if n >= 10 {
      var p := Digits(n / 10);
      var s := p + [DigitChar(n % 10)];
      DigitsValue(n / 10);
      assert s[..|s| - 1] == p;
      assert s[0] == p[0];
    }
  }

  lemma {:induction false} ValueOfLeadingNonZero(s: string)
    requires IsNumeral(s) && s[0] != '0'
    ensures Value(s) >= 1
  {
    if |s| > 1 {
      var p := s[..|s| - 1];
      assert p[0] == s[0];
      ValueOfLeadingNonZero(p);
    }
  }

  /** `Digits` is the inverse of `Value` on canonical numerals. */
  lemma {:induction false} DigitsOfValue(s: string)
    requires IsCanonical(s)
    ensures Digits(Value(s)) == s
  {
    var p := s[..|s| - 1];
    if |s| == 1 {
      assert p == [];
      DigitCharOfValue(s[0]);
    } else {
      assert p[0] == s[0];
      ValueOfLeadingNonZero(p);
      DigitsOfValue(p);
      DigitCharOfValue(s[|s| - 1]);
      assert Value(s) >= 10;
      assert s == p + [s[|s| - 1]];
    }
  }

  /** A two-character digit string denotes ten times its first digit plus its second. */
  lemma TwoDigitValue(s: string)
    requires |s| == 2 && AllDigits(s)
    ensures Value(s) == DigitValue(s[0]) * 10 + DigitValue(s[1])
  {
    var p := s[..1];
    assert p[..0] == [];
    assert Value(p) == DigitValue(s[0]);
  }
}
