/**
 Decimal rendering of unsigned integers, as Rust's `{}` formatting of a
 `usize` produces it (no sign, no padding, no leading zeros), together with
 the digit scanners needed to read such a rendering back out of a longer
 string.
 */
module Decimal {

  predicate IsDigit(c: char) {
    '0' <= c <= '9'
  }

  predicate AllDigits(s: string) {
    forall k :: 0 <= k < |s| ==> IsDigit(s[k])
  }

  function DigitChar(d: nat): (c: char)
    requires d < 10
    ensures IsDigit(c)
  {
    (('0' as int) + d) as char
  }

  function DigitValue(c: char): (d: nat)
    requires IsDigit(c)
    ensures d < 10
    ensures DigitChar(d) == c
  {
    (c as int) - ('0' as int)
  }

  /** The decimal rendering of `n`: one or more digits, the first of which is
      only `0` when `n` itself is zero. */
  function NatToString(n: nat): (s: string)
    ensures |s| >= 1
    ensures AllDigits(s)
    ensures s[0] == '0' <==> n == 0
    decreases n
  {
    if n < 10 then [DigitChar(n)] else NatToString(n / 10) + [DigitChar(n % 10)]
  }

  /** The value of a string of decimal digits, most significant first. */
  function ParseDigits(s: string): nat
    requires AllDigits(s)
    decreases |s|
  {
    if |s| == 0 then 0 else 10 * ParseDigits(s[..|s| - 1]) + DigitValue(s[|s| - 1])
  }

  /** Reading the rendering of `n` back gives `n`. */
  lemma {:induction false} ParseNatToString(n: nat)
    ensures ParseDigits(NatToString(n)) == n
    decreases n
  {
    var s := NatToString(n);
    if n < 10 {
      assert s[..|s| - 1] == [];
    } else {
      ParseNatToString(n / 10);
      assert s[..|s| - 1] == NatToString(n / 10);
    }
  }

  /** The longest run of digits at the front of `s`. */
  function LeadingDigits(s: string): (r: string)
    ensures AllDigits(r)
    ensures r <= s
    ensures |r| < |s| ==> !IsDigit(s[|r|])
    decreases |s|
  {
    if |s| > 0 && IsDigit(s[0]) then [s[0]] + LeadingDigits(s[1..]) else []
  }

  /** The longest run of digits at the back of `s`. */
  function TrailingDigits(s: string): (r: string)
    ensures AllDigits(r)
    ensures |r| <= |s| && s[|s| - |r|..] == r
    ensures |r| < |s| ==> !IsDigit(s[|s| - |r| - 1])
    decreases |s|
  {
    if |s| > 0 && IsDigit(s[|s| - 1]) then TrailingDigits(s[..|s| - 1]) + [s[|s| - 1]] else []
  }

  /** A digit run followed by a non-digit is exactly what `LeadingDigits` finds. */
  lemma {:induction false} LeadingDigitsOfConcat(a: string, b: string)
    requires AllDigits(a)
    requires |b| > 0 && !IsDigit(b[0])
    ensures LeadingDigits(a + b) == a
    decreases |a|
  {
    if |a| > 0 {
      assert (a + b)[1..] == a[1..] + b;
      LeadingDigitsOfConcat(a[1..], b);
    } else {
      assert a + b == b;
    }
  }

  /** A digit run preceded by a non-digit is exactly what `TrailingDigits` finds. */
  lemma {:induction false} TrailingDigitsOfConcat(a: string, b: string)
    requires |a| > 0 && !IsDigit(a[|a| - 1])
    requires AllDigits(b)
    ensures TrailingDigits(a + b) == b
    decreases |b|
  {
    if |b| > 0 {
      assert (a + b)[..|a + b| - 1] == a + b[..|b| - 1];
      TrailingDigitsOfConcat(a, b[..|b| - 1]);
      assert b[..|b| - 1] + [b[|b| - 1]] == b;
    } else {
      assert a + b == a;
    }
  }
}
