/** Positional numbers, least significant digit first: the common meaning of
    BigUnsigned's blocks and BigUnsignedInABase's digits. */
module Radix {
  import opened Powers

  function Val(s: seq<nat>, b: nat): nat {
    if s == [] then 0 else s[0] + b * Val(s[1..], b)
  }

  /** Every entry is a digit of base b. */
  ghost predicate Digits(s: seq<nat>, b: nat) {
    forall i :: 0 <= i < |s| ==> s[i] < b
  }

  /** No leading (most significant) zero. */
  predicate Canonical(s: seq<nat>) {
    s != [] ==> s[|s| - 1] != 0
  }

  lemma {:induction false} ValAppend(s: seq<nat>, t: seq<nat>, b: nat)
    ensures Val(s + t, b) == Val(s, b) + Pow(b, |s|) * Val(t, b)
  {
    if s == [] {
      assert s + t == t;
    } else {
      assert (s + t)[1..] == s[1..] + t;
      ValAppend(s[1..], t, b);
      var p := Pow(b, |s| - 1);
      Distribute(b, Val(s[1..], b), p * Val(t, b));
      Associate(b, p, Val(t, b));
    }
  }

  lemma ValSplit(s: seq<nat>, i: nat, b: nat)
    requires i <= |s|
    ensures Val(s, b) == Val(s[..i], b) + Pow(b, i) * Val(s[i..], b)
  {
    assert s == s[..i] + s[i..];
    ValAppend(s[..i], s[i..], b);
  }

  /** Growing a prefix by one entry. */
  lemma ValPrefix(s: seq<nat>, i: nat, b: nat)
    requires i < |s|
    ensures Val(s[..i + 1], b) == Val(s[..i], b) + s[i] * Pow(b, i)
  {
    assert s[..i + 1] == s[..i] + [s[i]];
    ValAppend(s[..i], [s[i]], b);
    assert Val([s[i]], b) == s[i] + b * Val([], b) == s[i];
  }

  lemma {:induction false} ValBound(s: seq<nat>, b: nat)
    requires b >= 1 && Digits(s, b)
    ensures Val(s, b) < Pow(b, |s|)
  {
    if s != [] {
      ValBound(s[1..], b);
      BoundStep(s[0], Val(s[1..], b), Pow(b, |s| - 1), b);
    }
  }

  lemma BoundStep(d: nat, v: nat, p: int, b: nat)
    requires d < b && v < p
    ensures d + b * v < b * p
  {
    Commute(b, v + 1);
    Commute(b, p);
    Distribute(b, v, 1);
    MulLe(v + 1, p, b);
  }

  lemma {:induction false} ValZeros(s: seq<nat>, b: nat)
    requires b >= 1
    ensures Val(s, b) == 0 <==> forall i :: 0 <= i < |s| ==> s[i] == 0
  {
    if s == [] {
    } else {
      ValZeros(s[1..], b);
      assert forall i :: 0 <= i < |s| - 1 ==> s[1..][i] == s[i + 1];
      if Val(s[1..], b) > 0 {
        MulLe(1, b, Val(s[1..], b));
        assert !forall i :: 0 <= i < |s| - 1 ==> s[1..][i] == 0;
      } else {
        assert b * Val(s[1..], b) == 0;
        forall i | 0 < i < |s| ensures s[i] == 0 { assert s[i] == s[1..][i - 1]; }
      }
    }
  }

  /** Zeros on top do not count. */
  lemma ValDropZeros(s: seq<nat>, i: nat, b: nat)
    requires b >= 1 && i <= |s| && forall k :: i <= k < |s| ==> s[k] == 0
    ensures Val(s[..i], b) == Val(s, b)
  {
    ValSplit(s, i, b);
    ValZeros(s[i..], b);
    assert Pow(b, i) * 0 == 0;
  }

  lemma ValCanonicalLower(s: seq<nat>, b: nat)
    requires b >= 1 && s != [] && Canonical(s)
    ensures Pow(b, |s| - 1) <= Val(s, b)
  {
    ValPrefix(s, |s| - 1, b);
    assert s[..|s| - 1 + 1] == s;
    MulLe(1, s[|s| - 1], Pow(b, |s| - 1));
  }

  /** A longer canonical number is a larger one. */
  lemma ValLonger(s: seq<nat>, t: seq<nat>, b: nat)
    requires b >= 1 && Digits(s, b) && Canonical(t) && |s| < |t|
    ensures Val(s, b) < Val(t, b)
  {
    ValBound(s, b);
    ValCanonicalLower(t, b);
    PowMono(b, |s|, |t| - 1);
  }

  /** Equal lengths: the highest differing entry decides. */
  lemma ValCompare(s: seq<nat>, t: seq<nat>, i: nat, b: nat)
    requires b >= 1 && Digits(s, b) && |s| == |t| && i < |s|
    requires s[i] < t[i] && s[i + 1..] == t[i + 1..]
    ensures Val(s, b) < Val(t, b)
  {
    ValSplit(s, i + 1, b);
    ValSplit(t, i + 1, b);
    ValPrefix(s, i, b);
    ValPrefix(t, i, b);
    ValBound(s[..i], b);
    MulLe(s[i] + 1, t[i], Pow(b, i));
    assert (s[i] + 1) * Pow(b, i) == s[i] * Pow(b, i) + Pow(b, i);
  }

  /** The lowest digit and the rest are the remainder and the quotient. */
  lemma ValDivMod(s: seq<nat>, b: nat)
    requires b >= 1 && Digits(s, b) && s != []
    ensures Val(s, b) % b == s[0] && Val(s, b) / b == Val(s[1..], b)
  {
    assert Val(s, b) == Val(s[1..], b) * b + s[0];
    DivModUnique(Val(s, b), b, Val(s[1..], b), s[0]);
  }

  /** Two canonical digit strings with one value are the same string. */
  lemma {:induction false} ValUnique(s: seq<nat>, t: seq<nat>, b: nat)
    requires b >= 2 && Digits(s, b) && Digits(t, b) && Canonical(s) && Canonical(t)
    requires Val(s, b) == Val(t, b)
    ensures s == t
  {
    if |s| < |t| {
      ValLonger(s, t, b);
    } else if |t| < |s| {
      ValLonger(t, s, b);
    } else if s != [] {
      ValDivMod(s, b);
      ValDivMod(t, b);
      assert s == [s[0]] + s[1..] && t == [t[0]] + t[1..];
      ValUnique(s[1..], t[1..], b);
    }
  }

  /** Digit i of a number, read off its value. */
  lemma {:induction false} ValDigit(s: seq<nat>, i: nat, b: nat)
    requires b >= 1 && Digits(s, b) && i < |s|
    ensures (Val(s, b) / Pow(b, i)) % b == s[i]
  {
    ValDivMod(s, b);
    if i == 0 {
    } else {
      ValDigit(s[1..], i - 1, b);
      assert s[1..][i - 1] == s[i];
      DivDiv(Val(s, b), b, Pow(b, i - 1));
    }
  }
}
