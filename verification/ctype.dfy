/** Character classes of the C library in the default ("C") locale. */
module CType {

  /** C `isspace` in the default locale. */
  predicate IsCSpace(c: char) {
    c == ' ' || '\t' <= c <= '\r'
  }

  /** The leading white space that `strtol` skips, and the rest. */
  function SpanCSpace(t: string): (r: (string, string))
    ensures r.0 + r.1 == t
    ensures forall i :: 0 <= i < |r.0| ==> IsCSpace(r.0[i])
    ensures |r.1| == 0 || !IsCSpace(r.1[0])
  {
    if |t| > 0 && IsCSpace(t[0]) then
      var (w, rest) := SpanCSpace(t[1..]);
      ([t[0]] + w, rest)
    else
      ([], t)
  }

  /** C `isxdigit`. */
  predicate IsHexDigit(c: char) {
    '0' <= c <= '9' || 'a' <= c <= 'f' || 'A' <= c <= 'F'
  }

  /** The value of a hexadecimal digit of either case. */
  function HexDigitValue(c: char): (d: nat)
    requires IsHexDigit(c)
    ensures d < 16
  {
    if '0' <= c <= '9' then (c as int) - ('0' as int)
    else if 'a' <= c <= 'f' then (c as int) - ('a' as int) + 10
    else (c as int) - ('A' as int) + 10
  }
}
