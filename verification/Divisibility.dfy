/** Divisors, greatest common divisors and congruences of integers. */
module Divisibility {
  import opened Powers

  ghost predicate IsMultiple(n: int, k: int, d: int) {
    n == k * d
  }

  ghost predicate Divides(d: int, n: int) {
    exists k: int :: IsMultiple(n, k, d)
  }

  ghost predicate CommonDivisor(d: int, a: int, b: int) {
    Divides(d, a) && Divides(d, b)
  }

  /** g divides both numbers, and every common divisor divides g. */
  ghost predicate IsGcd(g: int, a: int, b: int) {
    && CommonDivisor(g, a, b)
    && forall d: int :: CommonDivisor(d, a, b) ==> Divides(d, g)
  }

  ghost predicate SameDivisors(a: int, b: int, c: int, d: int) {
    forall e: int :: CommonDivisor(e, a, b) <==> CommonDivisor(e, c, d)
  }

  lemma DividesCombination(d: int, a: int, b: int, x: int)
    requires Divides(d, a) && Divides(d, b)
    ensures Divides(d, a + x * b)
  {
    var i :| IsMultiple(a, i, d);
    var j :| IsMultiple(b, j, d);
    assert x * (j * d) == (x * j) * d;
    Distribute(d, i, x * j);
    assert IsMultiple(a + x * b, i + x * j, d);
  }

  /** Replacing a by its remainder keeps the common divisors. */
  lemma ReducePair(a: int, b: int, q: int, r: int)
    requires a == q * b + r
    ensures SameDivisors(a, b, r, b)
  {
    forall e: int
      ensures CommonDivisor(e, a, b) <==> CommonDivisor(e, r, b)
    {
      if CommonDivisor(e, a, b) {
        DividesCombination(e, a, b, -q);
        assert a + -q * b == r;
      }
      if CommonDivisor(e, r, b) {
        DividesCombination(e, r, b, q);
        assert r + q * b == a;
      }
    }
  }

  lemma SameDivisorsSwap(x: int, y: int, a: int, b: int)
    requires SameDivisors(x, y, a, b)
    ensures SameDivisors(x, y, b, a)
  {
    forall e: int
      ensures CommonDivisor(e, x, y) <==> CommonDivisor(e, b, a)
    {
      assert CommonDivisor(e, x, y) <==> CommonDivisor(e, a, b);
    }
  }

  /** One reduction step inside a run that started from (x, y). */
  lemma ReduceRun(x: int, y: int, a: int, b: int, q: int, r: int)
    requires SameDivisors(x, y, a, b) && a == q * b + r
    ensures SameDivisors(x, y, r, b)
  {
    ReducePair(a, b, q, r);
    forall e: int
      ensures CommonDivisor(e, x, y) <==> CommonDivisor(e, r, b)
    {
      assert CommonDivisor(e, x, y) <==> CommonDivisor(e, a, b);
    }
  }

  /** gcd(a, 0) is a. */
  lemma GcdWithZero(a: int)
    ensures IsGcd(a, a, 0) && IsGcd(a, 0, a)
  {
    assert IsMultiple(a, 1, a) && IsMultiple(0, 0, a);
  }

  lemma GcdTransfer(g: int, a: int, b: int, c: int, d: int)
    requires SameDivisors(a, b, c, d) && IsGcd(g, c, d)
    ensures IsGcd(g, a, b)
  {
    assert CommonDivisor(g, c, d);
    assert CommonDivisor(g, a, b);
  }

  lemma GcdFound(x: int, y: int, g: int)
    requires SameDivisors(x, y, g, 0)
    ensures IsGcd(g, x, y)
  {
    GcdWithZero(g);
    GcdTransfer(g, x, y, g, 0);
  }

  /** Two greatest common divisors of one pair agree up to sign. */
  lemma GcdUnique(g: int, h: int, a: int, b: int)
    requires IsGcd(g, a, b) && IsGcd(h, a, b)
    ensures g == h || g == -h
  {
    assert Divides(g, h) && Divides(h, g);
    var i :| IsMultiple(h, i, g);
    var j :| IsMultiple(g, j, h);
    assert g == (j * i) * g by { Associate(j, i, g); }
    if g != 0 {
      UnitProduct(j, i, g);
    }
  }

  /** Among natural numbers the gcd is unique; with a zero it is the other number. */
  lemma GcdOfNaturals(g: nat, h: nat, a: nat, b: nat)
    requires IsGcd(g, a, b)
    ensures IsGcd(h, a, b) ==> g == h
    ensures b == 0 ==> g == a
    ensures a == 0 ==> g == b
  {
    GcdWithZero(a);
    GcdWithZero(b);
    if IsGcd(h, a, b) {
      GcdUnique(g, h, a, b);
    }
    if b == 0 {
      GcdUnique(g, a, a, b);
    }
    if a == 0 {
      GcdUnique(g, b, a, b);
    }
  }

  lemma UnitProduct(j: int, i: int, g: int)
    requires g != 0 && g == (j * i) * g
    ensures j * i == 1 && (j == 1 || j == -1) && i == j
  {
    var p := j * i;
    assert (p - 1) * g == 0;
    assert p == 1;
    if j > 1 {
      if i >= 1 { MulLe(1, i, j); } else { MulLe(i, 0, j); }
    } else if j < -1 {
      if i >= 0 { MulLe(0, i, -j); } else { MulLe(i, -1, -j); }
    }
  }
}
