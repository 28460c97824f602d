/**
 * Decimal digit strings: the building blocks of the number rendering done by
 * `toFixed` and read back by a person looking at the page.
 */
module Decimal {

  /** 10^e. */
  function Pow10(e: nat): (p: nat)
    ensures p >= 1
  {
    if e == 0 then 1 else 10 * Pow10(e - 1)
  }

  predicate IsDigit(c: char) {
    '0' <= c <= '9'
  }

  predicate AllDigits(s: string) {
    forall i :: 0 <= i < |s| ==> IsDigit(s[i])
  }

  predicate AllZeros(s: string) {
    forall i :: 0 <= i < |s| ==> s[i] == '0'
  }

  /** The character that writes the digit value d. */
  function DigitChar(d: nat): (c: char)
    requires d < 10
    ensures IsDigit(c)
    ensures c as int - '0' as int == d
  {
    ('0' as int + d) as char
  }

  /** The digit value written by the character c. */
  function DigitValue(c: char): (d: nat)
    requires IsDigit(c)
    ensures d < 10
  {
    c as int - '0' as int
  }

  /** A string of z zeros. */
  function Zeros(z: nat): (s: string)
    ensures |s| == z && AllDigits(s) && AllZeros(s)
  {
    seq(z, _ => '0')
  }

  /**
   * The decimal digits of n, most significant first, without leading
   * zeros; zero is written "0".
   */
  function DecimalDigits(n: nat): (s: string)
    ensures |s| >= 1 && AllDigits(s)
    ensures s[0] == '0' <==> n == 0
    ensures n < 10 <==> |s| == 1
    decreases n
  {
    if n < 10 then [DigitChar(n)] else DecimalDigits(n / 10) + [DigitChar(n % 10)]
  }

  /** The number a digit string denotes (the empty string denotes 0). */
  function DigitsValue(s: string): (v: nat)
    requires AllDigits(s)
    ensures v < Pow10(|s|)
  {
    if s == [] then 0 else DigitsValue(s[..|s| - 1]) * 10 + DigitValue(s[|s| - 1])
  }

  /** Reading back the digits of n gives n. */
  lemma {:induction false} DigitsValueOfDecimalDigits(n: nat)
    ensures DigitsValue(DecimalDigits(n)) == n
    decreases n
  {
    var s := DecimalDigits(n);
    if n >= 10 {
      DigitsValueOfDecimalDigits(n / 10);
      assert s[..|s| - 1] == DecimalDigits(n / 10);
    }
  }

  /** The value of a concatenation: the left part is shifted by the length of the right part. */
  lemma {:induction false} DigitsValueAppend(a: string, b: string)
    requires AllDigits(a) && AllDigits(b)
    ensures AllDigits(a + b)
    ensures DigitsValue(a + b) == DigitsValue(a) * Pow10(|b|) + DigitsValue(b)
    decreases |b|
  {
    var ab := a + b;
    if b == [] {
      assert ab == a;
    } else {
      var b' := b[..|b| - 1];
      assert ab[..|ab| - 1] == a + b';
      DigitsValueAppend(a, b');
      LastDigit(ab);
      LastDigit(b);
      ShiftOneDigit(DigitsValue(a), Pow10(|b'|), DigitsValue(b'), DigitValue(b[|b| - 1]),
                    DigitsValue(ab), DigitsValue(b), Pow10(|b|));
    }
  }

  /** The value of a nonempty digit string: ten times its value without the last digit, plus that digit. */
  lemma LastDigit(s: string)
    requires AllDigits(s) && s != []
    ensures DigitsValue(s) == DigitsValue(s[..|s| - 1]) * 10 + DigitValue(s[|s| - 1])
  {
  }

  lemma ShiftOneDigit(x: int, p: int, y: int, d: int, xy: int, yd: int, p10: int)
    requires xy == (x * p + y) * 10 + d && yd == y * 10 + d && p10 == p * 10
    ensures xy == x * p10 + yd
  {
    assert (x * p) * 10 == x * (p * 10);
  }

  /** A digit string denotes zero exactly when it is all zeros. */
  lemma {:induction false} DigitsValueZero(s: string)
    requires AllDigits(s)
    ensures DigitsValue(s) == 0 <==> AllZeros(s)
    decreases |s|
  {
    if s != [] {
      var s' := s[..|s| - 1];
      DigitsValueZero(s');
      if AllZeros(s) {
        assert AllZeros(s');
      } else if AllZeros(s') {
        assert s[|s| - 1] != '0';
      }
    }
  }
}
