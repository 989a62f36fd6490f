/** Decimal numerals as Python reads them with `int(...)` on a run of ASCII
    digits and writes them with `str(...)` (or `'%s' % n`) on an integer. */
module Decimal {

  predicate IsDigit(c: char) {
    '0' <= c <= '9'
  }

  predicate AllDigits(s: string) {
    forall i :: 0 <= i < |s| ==> IsDigit(s[i])
  }

  /** A numeral as `str` writes it: at least one digit, no leading zero
      unless the numeral is "0" itself. */
  predicate Canonical(s: string) {
    |s| >= 1 && AllDigits(s) && (s[0] == '0' ==> |s| == 1)
  }

  function DigitValue(c: char): (d: nat)
    requires IsDigit(c)
    ensures d < 10
  {
    (c as int) - ('0' as int)
  }

  function DigitChar(d: nat): (c: char)
    requires d < 10
    ensures IsDigit(c) && DigitValue(c) == d
  {
    (d + '0' as int) as char
  }

  /** `int(s)` for a string of ASCII digits; leading zeros are allowed. */
  function DecimalValue(s: string): nat
    requires AllDigits(s)
    decreases |s|
  {
    if s == [] then 0
    else 10 * DecimalValue(s[..|s| - 1]) + DigitValue(s[|s| - 1])
  }

  /** `str(n)` for a non-negative integer. */
  function Show(n: nat): (s: string)
    ensures Canonical(s)
    ensures n >= 10 <==> |s| >= 2
  {
    if n < 10 then [DigitChar(n)] else Show(n / 10) + [DigitChar(n % 10)]
  }

  /** `str(i)` for any integer: a minus sign in front of a negative one. */
  function ShowInt(i: int): (s: string)
    ensures |s| >= 1
    ensures i >= 0 ==> Canonical(s)
    ensures i < 0 ==> s[0] == '-' && Canonical(s[1..])
  {
    if i < 0 then "-" + Show(-i) else Show(i)
  }

  lemma {:induction false} ValueOfShow(n: nat)
    ensures DecimalValue(Show(n)) == n
  {
    if n >= 10 {
      ValueOfShow(n / 10);
      var s := Show(n);
      assert s[..|s| - 1] == Show(n / 10);
    }
  }

  /** `int` reads back what `str` writes for any integer: the numeral, or
      the numeral after the minus sign, denotes the magnitude. */
  lemma ValueOfShowInt(i: int)
    ensures i >= 0 ==> AllDigits(ShowInt(i)) && DecimalValue(ShowInt(i)) == i
    ensures i < 0 ==> AllDigits(ShowInt(i)[1..]) && DecimalValue(ShowInt(i)[1..]) == -i
  {
    if i < 0 {
      assert ShowInt(i)[1..] == Show(-i);
      ValueOfShow(-i);
    } else {
      ValueOfShow(i);
    }
  }

  lemma {:induction false} LeadingDigitPositive(s: string)
    requires |s| >= 1 && AllDigits(s) && s[0] != '0'
    ensures DecimalValue(s) >= 1
  {
    if |s| > 1 {
      LeadingDigitPositive(s[..|s| - 1]);
    }
  }

  lemma {:induction false} ShowOfValue(s: string)
    requires Canonical(s)
    ensures Show(DecimalValue(s)) == s
  {
    if |s| > 1 {
      var p := s[..|s| - 1];
      LeadingDigitPositive(p);
      ShowOfValue(p);
      var v := DecimalValue(s);
      assert v / 10 == DecimalValue(p) && v % 10 == DigitValue(s[|s| - 1]);
      assert s == p + [s[|s| - 1]];
    }
  }
}
