/**
 * Decimal rendering of integers, as a JavaScript template literal renders
 * the integer `getTime()` of a date inside an occurrence id.
 */
module Decimal {

  function DigitChar(d: int): char
    requires 0 <= d < 10
  {
    ('0' as int + d) as char
  }

  predicate IsDigit(c: char) {
    '0' <= c <= '9'
  }

  function DigitValue(c: char): int {
    c as int - '0' as int
  }

  /** The shortest decimal spelling of n, most significant digit first. */
  function NatToString(n: nat): (s: string)
    ensures |s| >= 1 && forall i :: 0 <= i < |s| ==> IsDigit(s[i])
  {
    if n < 10 then [DigitChar(n)] else NatToString(n / 10) + [DigitChar(n % 10)]
  }

  /** `String(i)` for an integer i: a minus sign before the digits of a negative number. */
  function IntToString(i: int): string {
    if i < 0 then "-" + NatToString(-i) else NatToString(i)
  }

  /** Reads back a non-empty string of digits. */
  function ParseDigits(s: string): int
    requires |s| >= 1
  {
    if |s| == 1 then DigitValue(s[0])
    else ParseDigits(s[..|s| - 1]) * 10 + DigitValue(s[|s| - 1])
  }

  /** Reads back the output of IntToString. */
  function ParseInt(s: string): int
    requires |s| >= 1
  {
    if s[0] == '-' && |s| >= 2 then -ParseDigits(s[1..]) else ParseDigits(s)
  }

  lemma {:induction false} NatToStringRoundTrip(n: nat)
    ensures ParseDigits(NatToString(n)) == n
  {
    if n >= 10 {
      var s := NatToString(n);
      assert s[..|s| - 1] == NatToString(n / 10);
      NatToStringRoundTrip(n / 10);
    }
  }

  /** Rendering an integer loses nothing: it can be read back. */
  lemma IntToStringRoundTrip(i: int)
    ensures |IntToString(i)| >= 1 && ParseInt(IntToString(i)) == i
  {
    var s := IntToString(i);
    if i < 0 {
      var digits := NatToString(-i);
      assert s == "-" + digits;
      assert s[0] == '-' && |s| >= 2;
      assert s[1..] == digits;
      NatToStringRoundTrip(-i);
    } else {
      assert s == NatToString(i);
      assert IsDigit(s[0]);
      NatToStringRoundTrip(i);
    }
  }

  /** Distinct integers are rendered as distinct strings. */
  lemma IntToStringInjective(a: int, b: int)
    requires IntToString(a) == IntToString(b)
    ensures a == b
  {
    IntToStringRoundTrip(a);
    IntToStringRoundTrip(b);
  }
}
