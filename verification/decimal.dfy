/** `Integer.toString(int)` for the non-negative argument counts the check
    renders before matching them against an argument-count pattern. */
module Decimal {

  predicate IsDigit(c: char) {
    '0' <= c <= '9'
  }

  function DigitChar(d: nat): (c: char)
    requires d < 10
    ensures IsDigit(c)
  {
    ('0' as int + d) as char
  }

  function DigitValue(c: char): (d: nat)
    requires IsDigit(c)
    ensures d < 10 && DigitChar(d) == c
  {
    c as int - '0' as int
  }

  /** The decimal text of `n`: digits only, never empty, no leading zero. */
  function ToDecimalString(n: nat): (s: string)
    ensures |s| >= 1
    ensures forall k | 0 <= k < |s| :: IsDigit(s[k])
    ensures |s| > 1 ==> s[0] != '0'
    ensures n < 10 <==> |s| == 1
  {
    if n < 10 then [DigitChar(n)] else ToDecimalString(n / 10) + [DigitChar(n % 10)]
  }

  /** The value of a digit string, read most significant digit first. */
  function DecimalValue(s: string): nat
    requires forall k | 0 <= k < |s| :: IsDigit(s[k])
  {
    if s == [] then 0 else DecimalValue(s[..|s| - 1]) * 10 + DigitValue(s[|s| - 1])
  }

  /** Reading the rendered text back gives the number: the rendering loses nothing. */
  lemma {:induction false} DecimalRoundTrip(n: nat)
    ensures DecimalValue(ToDecimalString(n)) == n
  {
    var s := ToDecimalString(n);
    if n >= 10 {
      DecimalRoundTrip(n / 10);
      assert s[..|s| - 1] == ToDecimalString(n / 10);
      assert DigitValue(s[|s| - 1]) == n % 10;
    }
  }

  /** Distinct counts render to distinct texts. */
  lemma DecimalInjective(m: nat, n: nat)
    ensures ToDecimalString(m) == ToDecimalString(n) <==> m == n
  {
    if ToDecimalString(m) == ToDecimalString(n) {
      DecimalRoundTrip(m);
      DecimalRoundTrip(n);
    }
  }
}
