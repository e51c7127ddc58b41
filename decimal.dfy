/**
  Decimal text of integers: Python's `str(n)` for an `int`, and the `%Y`
  directive of `strptime`, which reads a year written as four ASCII digits.
*/
module Decimal {
  import opened Wrappers

  predicate IsDigit(c: char) {
    '0' <= c <= '9'
  }

  predicate AllDigits(s: string) {
    forall i :: 0 <= i < |s| ==> IsDigit(s[i])
  }

  function DigitValue(c: char): (d: nat)
    requires IsDigit(c)
    ensures d < 10
  {
    (c as int - '0' as int) as nat
  }

  function DigitChar(d: nat): (c: char)
    requires d < 10
    ensures IsDigit(c) && DigitValue(c) == d
  {
    ('0' as int + d) as char
  }

  function Pow10(k: nat): (p: nat)
    ensures p >= 1
  {
    if k == 0 then 1 else 10 * Pow10(k - 1)
  }

  /** The number a string of decimal digits denotes, most significant digit first. */
  function DigitsValue(s: string): (v: nat)
    requires AllDigits(s)
    ensures v < Pow10(|s|)
  {
    if s == [] then 0
    else
      var n := |s| - 1;
      DigitsValue(s[..n]) * 10 + DigitValue(s[n])
  }

  /** The shortest decimal digits of `n`: no leading zero, except "0" itself. */
  function NatToDigits(n: nat): (s: string)
    ensures |s| > 0 && AllDigits(s)
    ensures s[0] == '0' <==> n == 0
    ensures DigitsValue(s) == n
    decreases n
  {
    if n < 10 then [DigitChar(n)]
    else
      var front := NatToDigits(n / 10);
      var s := front + [DigitChar(n % 10)];
      assert s[..|front|] == front;
      s
  }

  /** `str(n)` for a Python `int`. */
  function IntToString(n: int): (s: string)
    ensures |s| > 0
    ensures n >= 0 <==> AllDigits(s)
    ensures n >= 0 ==> DigitsValue(s) == n
    ensures n < 0 ==> s[0] == '-' && AllDigits(s[1..]) && DigitsValue(s[1..]) == -n
  {
    if n < 0 then
      var s := "-" + NatToDigits(-n);
      assert !IsDigit(s[0]);
      assert s[1..] == NatToDigits(-n);
      s
    else NatToDigits(n)
  }

  /** `strptime(s, "%Y")`: the whole string must be exactly four ASCII digits. */
  function ParseYear(s: string): (r: Option<int>)
    ensures r.Some? ==> 0 <= r.value <= 9999
  {
    if |s| == 4 && AllDigits(s) then Some(DigitsValue(s)) else None
  }

  lemma YearTextLength(y: int)
    requires 1000 <= y <= 9999
    ensures |NatToDigits(y)| == 4
  {
    assert |NatToDigits(y / 1000)| == 1;
    assert |NatToDigits(y / 100)| == 2 by { assert (y / 100) / 10 == y / 1000; }
    assert |NatToDigits(y / 10)| == 3 by { assert (y / 10) / 10 == y / 100; }
  }

  /** Every year from 1000 to 9999 prints as four digits, and `%Y` reads that text back as the same year. */
  lemma YearTextRoundTrip(y: int)
    requires 1000 <= y <= 9999
    ensures |IntToString(y)| == 4 && AllDigits(IntToString(y))
    ensures ParseYear(IntToString(y)) == Some(y)
  {
    YearTextLength(y);
  }

  /** Digits with a nonzero leading digit denote at least the smallest number of that many digits. */
  lemma {:induction false} LeadingDigitBound(s: string)
    requires |s| > 0 && AllDigits(s) && s[0] != '0'
    ensures DigitsValue(s) >= Pow10(|s| - 1)
  {
    var n := |s| - 1;
    if n > 0 {
      assert s[..n][0] == s[0];
      LeadingDigitBound(s[..n]);
      assert DigitsValue(s) >= DigitsValue(s[..n]) * 10;
    }
  }

  lemma DigitCharOfValue(c: char)
    requires IsDigit(c)
    ensures DigitChar(DigitValue(c)) == c
  {
  }

  lemma NatToDigitsStep(a: nat, d: nat)
    requires a >= 1 && d < 10
    ensures NatToDigits(a * 10 + d) == NatToDigits(a) + [DigitChar(d)]
  {
    DivMod10(a, d);
  }

  lemma DivMod10(a: nat, d: nat)
    requires d < 10
    ensures (a * 10 + d) / 10 == a && (a * 10 + d) % 10 == d
  {
  }

  /** Digits without a leading zero are the shortest decimal digits of the number they denote. */
  lemma {:induction false} CanonicalDigits(s: string)
    requires |s| > 0 && AllDigits(s) && (s[0] == '0' ==> |s| == 1)
    ensures NatToDigits(DigitsValue(s)) == s
  {
    var n := |s| - 1;
    if n > 0 {
      var front := s[..n];
      assert front[0] == s[0];
      LeadingDigitBound(front);
      CanonicalDigits(front);
      var a, d := DigitsValue(front), DigitValue(s[n]);
      var v := DigitsValue(s);
      assert v == a * 10 + d;
      NatToDigitsStep(a, d);
      DigitCharOfValue(s[n]);
      assert front + [s[n]] == s;
    } else {
      DigitCharOfValue(s[0]);
    }
  }

  /** A year that `%Y` reads from text without a leading zero prints back as that same text. */
  lemma ParsedYearPrintsBack(s: string)
    requires ParseYear(s).Some? && s[0] != '0'
    ensures IntToString(ParseYear(s).value) == s
    ensures 1000 <= ParseYear(s).value
  {
    CanonicalDigits(s);
    YearLowerBound(s);
  }

  lemma YearLowerBound(s: string)
    requires |s| == 4 && AllDigits(s) && s[0] != '0'
    ensures DigitsValue(s) >= 1000
  {
    LeadingDigitBound(s);
    assert Pow10(3) == 1000;
  }
}
