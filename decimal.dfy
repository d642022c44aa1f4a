/**
 * Decimal text of integers, as JavaScript's Number-to-String conversion
 * writes an integral value of magnitude at most 2^53 (no exponent, no
 * fraction, a leading '-' for negatives). Beyond 2^53 JavaScript writes the
 * shortest digits that identify the double, padded with zeros; this module
 * always writes every digit.
 */
module Decimal {
  import opened Wrappers

  predicate IsDigit(c: char) {
    '0' <= c <= '9'
  }

  predicate AllDigits(s: string) {
    forall i :: 0 <= i < |s| ==> IsDigit(s[i])
  }

  function DigitValue(c: char): (d: nat)
    requires IsDigit(c)
    ensures d < 10
  {
    c as int - '0' as int
  }

  function DigitChar(d: nat): (c: char)
    requires d < 10
    ensures IsDigit(c) && DigitValue(c) == d
  {
    ('0' as int + d) as char
  }

  /** Decimal digits of `n`, most significant first, without leading zeros. */
  function NatToString(n: nat): (s: string)
    ensures |s| >= 1 && AllDigits(s)
    ensures s[0] == '0' ==> n == 0
    decreases n
  {
    if n < 10 then [DigitChar(n)] else NatToString(n / 10) + [DigitChar(n % 10)]
  }

  /** The value of a string of decimal digits (the reading direction of NatToString). */
  function ParseDigits(s: string): nat
    requires AllDigits(s)
  {
    if s == [] then 0 else ParseDigits(s[..|s| - 1]) * 10 + DigitValue(s[|s| - 1])
  }

  lemma {:induction false} ParseNatToString(n: nat)
    ensures ParseDigits(NatToString(n)) == n
    decreases n
  {
    var s := NatToString(n);
    if n >= 10 {
      ParseNatToString(n / 10);
      assert s[..|s| - 1] == NatToString(n / 10);
    }
  }

  lemma NatToStringInjective(a: nat, b: nat)
    requires NatToString(a) == NatToString(b)
    ensures a == b
  {
    ParseNatToString(a);
    ParseNatToString(b);
  }

  /** JavaScript's `String(n)` for an integer `n` with |n| <= 2^53. */
  function IntToString(n: int): (s: string)
    ensures |s| >= 1
    ensures s[0] == '-' <==> n < 0
    ensures n >= 0 ==> AllDigits(s)
    ensures n >= 0 && s[0] == '0' ==> n == 0
    ensures n < 0 ==> |s| >= 2 && AllDigits(s[1..]) && s[1] != '0'
  {
    if n < 0 then "-" + NatToString(-n) else NatToString(n)
  }

  /** Reads back what IntToString writes. */
  function ParseInt(s: string): Option<int>
  {
    if |s| >= 1 && s[0] == '-' then
      if |s| >= 2 && AllDigits(s[1..]) then Some(-(ParseDigits(s[1..]) as int)) else None
    else if |s| >= 1 && AllDigits(s) then Some(ParseDigits(s) as int)
    else None
  }

  lemma IntToStringRoundTrip(n: int)
    ensures ParseInt(IntToString(n)) == Some(n)
  {
    if n < 0 {
      assert IntToString(n)[1..] == NatToString(-n);
      ParseNatToString(-n);
    } else {
      ParseNatToString(n);
    }
  }

  lemma IntToStringInjective(a: int, b: int)
    requires IntToString(a) == IntToString(b)
    ensures a == b
  {
    IntToStringRoundTrip(a);
    IntToStringRoundTrip(b);
  }

  /**
   * A decimal number followed by text that starts with a non-digit can be
   * split again in one way only.
   */
  lemma NatToStringPrefix(a: nat, b: nat, s: string, t: string)
    requires |s| >= 1 && !IsDigit(s[0]) && |t| >= 1 && !IsDigit(t[0])
    requires NatToString(a) + s == NatToString(b) + t
    ensures a == b && s == t
  {
    var x, y := NatToString(a), NatToString(b);
    // Compare the first position where one of the two numbers may end.
    var k := if |x| < |y| then |x| else |y|;
    assert (x + s)[k] == (y + t)[k];
    assert IsDigit((x + s)[k]) <==> k < |x|;
    assert IsDigit((y + t)[k]) <==> k < |y|;
    assert x == (x + s)[..|x|];
    assert y == (y + t)[..|y|];
    NatToStringInjective(a, b);
    assert s == (x + s)[|x|..];
    assert t == (y + t)[|y|..];
  }
}
