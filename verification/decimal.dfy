/**
 * Decimal text of integers: what `std::to_string` and Python's `str()` print,
 * and what Python's `int()` reads back from a run of ASCII digits.
 */
module Decimal {

  predicate IsDigit(c: char) {
    '0' <= c <= '9'
  }

  predicate AllDigits(s: string) {
    forall i :: 0 <= i < |s| ==> IsDigit(s[i])
  }

  function DigitChar(d: nat): (c: char)
    requires d < 10
    ensures IsDigit(c)
  {
    (('0' as int) + d) as char
  }

  function DigitValue(c: char): (d: nat)
    requires IsDigit(c)
    ensures d < 10
  {
    (c as int) - ('0' as int)
  }

  /** Shortest decimal form of a non-negative integer, no sign, no leading zero. */
  function NatToString(n: nat): (s: string)
    ensures |s| > 0 && AllDigits(s)
    ensures n < 10 <==> |s| == 1
    decreases n
  {
    if n < 10 then [DigitChar(n)] else NatToString(n / 10) + [DigitChar(n % 10)]
  }

  /** `std::to_string` of a signed integer: a leading '-' for negatives. */
  function IntToString(i: int): (s: string)
    ensures |s| > 0
    ensures i >= 0 ==> AllDigits(s)
    ensures i < 0 ==> s[0] == '-' && AllDigits(s[1..])
  {
    if i < 0 then "-" + NatToString(-i) else NatToString(i)
  }

  /** The value Python's `int()` gives to a string of ASCII digits (leading zeros allowed). */
  function DigitsValue(s: string): nat
    requires AllDigits(s)
  {
    if |s| == 0 then 0 else DigitsValue(s[..|s| - 1]) * 10 + DigitValue(s[|s| - 1])
  }

  lemma DigitRoundTrip(d: nat)
    requires d < 10
    ensures DigitValue(DigitChar(d)) == d
  {
  }

  /** Reading back what `std::to_string` printed gives the number printed. */
  lemma {:induction false} DigitsValueOfNatToString(n: nat)
    ensures DigitsValue(NatToString(n)) == n
    decreases n
  {
    var s := NatToString(n);
    if n < 10 {
      DigitRoundTrip(n);
    } else {
      DigitsValueOfNatToString(n / 10);
      DigitRoundTrip(n % 10);
      assert s[..|s| - 1] == NatToString(n / 10);
    }
  }

  /** Printing is injective: two numbers with the same text are equal. */
  lemma NatToStringInjective(m: nat, n: nat)
    requires NatToString(m) == NatToString(n)
    ensures m == n
  {
    DigitsValueOfNatToString(m);
    DigitsValueOfNatToString(n);
  }

  /** Greedy `\d*`: splits `t` into its leading ASCII digits and the rest. */
  function SpanDigits(t: string): (r: (string, string))
    ensures r.0 + r.1 == t && AllDigits(r.0)
    ensures |r.1| == 0 || !IsDigit(r.1[0])
  {
    if |t| > 0 && IsDigit(t[0]) then
      var (d, rest) := SpanDigits(t[1..]);
      ([t[0]] + d, rest)
    else
      ([], t)
  }

  /** A greedy digit span stops exactly where a digit run meets a non-digit. */
  lemma {:induction false} SpanDigitsOf(d: string, x: string)
    requires AllDigits(d)
    requires |x| == 0 || !IsDigit(x[0])
    ensures SpanDigits(d + x) == (d, x)
    decreases |d|
  {
    if |d| > 0 {
      assert (d + x)[1..] == d[1..] + x;
      SpanDigitsOf(d[1..], x);
      assert [d[0]] + d[1..] == d;
    } else {
      assert d + x == x;
    }
  }
}
