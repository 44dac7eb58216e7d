/** Strings of decimal digits as numbers. */
module Decimals {
  import opened Powers

  predicate IsDigit(c: char) {
    '0' <= c <= '9'
  }

  ghost predicate AllDigits(s: string) {
    forall k :: 0 <= k < |s| ==> IsDigit(s[k])
  }

  /** The value of a string of decimal digits, highest first. */
  ghost function Dec(s: string): nat
    requires AllDigits(s)
  {
    if s == "" then 0 else (s[0] as int - '0' as int) * Pow(10, |s| - 1) + Dec(s[1..])
  }

  lemma {:induction false} DecBound(s: string)
    requires AllDigits(s)
    ensures Dec(s) < Pow(10, |s|)
  {
    if s != "" {
      DecBound(s[1..]);
      MulLe(s[0] as int - '0' as int, 9, Pow(10, |s| - 1));
    }
  }

  lemma {:induction false} DecSnoc(s: string)
    requires AllDigits(s) && s != ""
    ensures Dec(s) == 10 * Dec(s[..|s| - 1]) + (s[|s| - 1] as int - '0' as int)
  {
    hide Pow, Dec;
    DecHead(s);
    DecOfNothing();
    if |s| == 1 {
      assert s[1..] == "" && s[..0] == "";
    } else {
      var t, d := s[..|s| - 1], s[0] as int - '0' as int;
      DecHead(t);
      DecSnoc(s[1..]);
      assert s[1..][..|s| - 2] == t[1..];
      PowSucc(10, |s| - 2);
      assert d * (10 * Pow(10, |s| - 2)) == 10 * (d * Pow(10, |s| - 2)) by {
        Associate(d, 10, Pow(10, |s| - 2));
        Associate(10, d, Pow(10, |s| - 2));
      }
    }
  }

  lemma DecOfNothing()
    ensures Dec("") == 0 && Pow(10, 0) == 1
  {
  }

  lemma DigitAhead(x: char, tail: string)
    requires IsDigit(x) && AllDigits(tail)
    ensures AllDigits([x] + tail)
  {
  }

  lemma DecHead(s: string)
    requires s != "" && AllDigits(s)
    ensures AllDigits(s[1..])
    ensures Dec(s) == (s[0] as int - '0' as int) * Pow(10, |s| - 1) + Dec(s[1..])
  {
  }

  lemma {:induction false} DecZeros(s: string)
    requires forall k :: 0 <= k < |s| ==> s[k] == '0'
    ensures AllDigits(s) && Dec(s) == 0
  {
    if s != "" {
      DecZeros(s[1..]);
    }
  }
}
