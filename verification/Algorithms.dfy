/** The number-theory algorithms. Each loop is written once, over the division as intended (wide
    false) or as written (wide true), and computes the run of that name. As written a loop need not
    return: limit is the number of rounds it is followed for. */
module Algorithms {
  import opened Powers
  import opened Radix
  import opened Bits
  import opened Blocks
  import opened Outcomes
  import opened Leftovers
  import opened Divisibility
  import opened BigUnsigneds
  import opened BigIntegers
  import opened Runs
  import opened PowerRuns

  // gcd

  /** The in-place alternation. */
  method Alternate(a0: BigUnsigned, b0: BigUnsigned, wide: bool, limit: nat) returns (r: Result<BigUnsigned>)
    requires a0.Valid() && b0.Valid()
    ensures r.Ok? ==> fresh(r.value) && fresh(r.value.blk) && r.value.Valid()
    ensures r.Ok? ==> GcdRun(a0.Value(), b0.Value(), wide, 2 * limit) == Ok(r.value.Value())
    ensures r.Err? ==> GcdRun(a0.Value(), b0.Value(), wide, 2 * limit) == Err(r.error)
  {
    hide GcdRun, RemainderOf, Val, Canonical, BigUnsigned.Value;
    var a := new BigUnsigned.Copy(a0);
    var b := new BigUnsigned.Copy(b0);
    var trash := new BigUnsigned();
    var left: nat := limit;
    ghost var answer := GcdRun(a0.Value(), b0.Value(), wide, 2 * limit);
    while true
      invariant fresh(a) && fresh(a.blk) && fresh(b) && fresh(b.blk) && fresh(trash) && fresh(trash.blk)
      invariant ThreeApart(a, b, trash) && a.Valid() && b.Valid()
      invariant GcdRun(a.Value(), b.Value(), wide, 2 * left) == answer
      decreases if wide then left else b.Value()
    {
      b.ZeroIffEmpty();
      GcdEnds(a.Value(), b.Value(), wide, 2 * left);
      if b.IsZero() {
        return Ok(a);
      }
      if wide && left == 0 {
        return Err(StillRunning);
      }
      left := if wide then left - 1 else left;
      ghost var steps := if wide then 2 * left + 1 else 2 * left;
      Reduce(a, b, trash, wide, if wide then 2 * left + 2 else 2 * left);
      a.ZeroIffEmpty();
      GcdEnds(b.Value(), a.Value(), wide, steps);
      if a.IsZero() {
        return Ok(b);
      }
      Reduce(b, a, trash, wide, steps);
    }
  }

  ghost function Fewer(wide: bool, steps: nat): nat
    requires wide ==> steps > 0
  {
    if wide then steps - 1 else steps
  }

  lemma GcdEnds(a: nat, b: nat, wide: bool, steps: nat)
    ensures b == 0 ==> GcdRun(a, b, wide, steps) == Ok(a)
    ensures b > 0 && wide && steps == 0 ==> GcdRun(a, b, wide, steps) == Err(StillRunning)
  {
  }

  lemma GcdStep(a: nat, b: nat, wide: bool, steps: nat)
    requires b > 0 && (wide ==> steps > 0)
    ensures GcdRun(a, b, wide, steps) == GcdRun(b, RemainderOf(a, b, wide), wide, Fewer(wide, steps))
    ensures !wide ==> RemainderOf(a, b, wide) < b
  {
    hide RemainderOf;
    LeftoverDecides(a, b);
    DivModDef(a, b);
    if !wide {
      GcdNoSteps(b, RemainderOf(a, b, wide), steps);
    }
  }

  lemma GcdNoSteps(a: nat, b: nat, steps: nat)
    ensures GcdRun(a, b, false, steps) == GcdRun(a, b, false, 0)
  {
  }

  ghost predicate ThreeApart(a: BigUnsigned, b: BigUnsigned, c: BigUnsigned)
    reads a, b, c
  {
    && a != b && a != c && b != c
    && a.blk != b.blk && a.blk != c.blk && b.blk != c.blk
    && c.Sized()
  }

  /** a := what a leaves divided by b, inside a run. */
  method Reduce(a: BigUnsigned, b: BigUnsigned, trash: BigUnsigned, wide: bool, ghost steps: nat)
    requires ThreeApart(a, b, trash) && a.Valid() && b.Valid() && b.Value() > 0 && (wide ==> steps > 0)
    modifies a, a.blk, trash, trash.blk
    ensures ThreeApart(a, b, trash) && a.Valid()
    ensures GcdRun(b.Value(), a.Value(), wide, Fewer(wide, steps)) == GcdRun(old(a.Value()), b.Value(), wide, steps)
    ensures !wide ==> a.Value() < b.Value()
    ensures a.blk == old(a.blk) || fresh(a.blk)
    ensures trash.blk == old(trash.blk) || fresh(trash.blk)
  {
    hide GcdRun, RemainderOf;
    GcdStep(a.Value(), b.Value(), wide, steps);
    var r := a.Divide(b, trash, wide);
    assert r.Pass?;
  }

  /** The greatest common divisor. */
  method Gcd(a0: BigUnsigned, b0: BigUnsigned) returns (g: BigUnsigned)
    requires a0.Valid() && b0.Valid()
    ensures fresh(g) && fresh(g.blk) && g.Valid()
    ensures IsGcd(g.Value(), a0.Value(), b0.Value())
  {
    hide IsGcd;
    GcdRunCorrect(a0.Value(), b0.Value(), a0.Value(), b0.Value(), 0);
    var r := Alternate(a0, b0, false, 0);
    return r.value;
  }

  /** gcd as written, followed for a number of rounds: right whenever every division is spared, which
      is always so for numbers of one block. */
  method GcdAsWritten(a0: BigUnsigned, b0: BigUnsigned, limit: nat) returns (r: Result<BigUnsigned>)
    requires a0.Valid() && b0.Valid()
    ensures r.Ok? ==> fresh(r.value) && fresh(r.value.blk) && r.value.Valid()
    ensures r.Ok? ==> GcdRun(a0.Value(), b0.Value(), true, 2 * limit) == Ok(r.value.Value())
    ensures r.Err? ==> GcdRun(a0.Value(), b0.Value(), true, 2 * limit) == Err(r.error)
    ensures GcdSpared(a0.Value(), b0.Value()) && limit >= BitCount(b0.Value()) ==>
              r.Ok? && IsGcd(r.value.Value(), a0.Value(), b0.Value())
    ensures a0.Value() < B && b0.Value() < B ==> GcdSpared(a0.Value(), b0.Value())
  {
    hide IsGcd, GcdRun, GcdSpared;
    ghost var a, b := a0.Value(), b0.Value();
    r := Alternate(a0, b0, true, limit);
    GcdRunCorrect(a, b, a, b, 0);
    if GcdSpared(a, b) && limit >= BitCount(b) {
      GcdRunSpared(a, b, 2 * limit);
    }
    if a < B && b < B {
      SmallGcdSpared(a, b);
    }
  }

  // Extended Euclid

  /** A row of the loop's variables, m, r1, s1 or n, r2, s2, with the objects they are made of. */
  datatype Row = Row(n: BigInteger, r: BigInteger, s: BigInteger, ghost repr: set<object>)

  ghost predicate RowValid(w: Row)
    reads w.repr
  {
    && w.n in w.repr && w.n.mag in w.repr && w.n.mag.blk in w.repr && w.n.Valid()
    && w.r in w.repr && w.r.mag in w.repr && w.r.mag.blk in w.repr && w.r.Valid()
    && w.s in w.repr && w.s.mag in w.repr && w.s.mag.blk in w.repr && w.s.Valid()
  }

  ghost function Numbers(w: Row): Combination
    requires RowValid(w)
    reads w.repr
  {
    Combination(w.n.Value(), w.r.Value(), w.s.Value())
  }

  function RowOf(n: BigInteger, r: BigInteger, s: BigInteger): Row
    reads n, n.mag, r, r.mag, s, s.mag
  {
    Row(n, r, s, n.Repr() + r.Repr() + s.Repr())
  }

  lemma RowOfValid(n: BigInteger, r: BigInteger, s: BigInteger)
    requires n.Valid() && r.Valid() && s.Valid()
    ensures RowValid(RowOf(n, r, s)) && Numbers(RowOf(n, r, s)) == Combination(n.Value(), r.Value(), s.Value())
  {
  }

  /** x - q * y */
  method SubtractProduct(x: BigInteger, q: BigInteger, y: BigInteger) returns (z: BigInteger)
    requires x.Valid() && q.Valid() && y.Valid()
    ensures fresh(z.Repr()) && z.Valid() && z.Value() == x.Value() - q.Value() * y.Value()
  {
    var t := q.Times(y);
    z := x.Minus(t);
  }

  /** Half a round: the row that takes the place of u. */
  method ReduceRow(u: Row, v: Row, wide: bool) returns (res: Outcome, w: Row)
    requires RowValid(u) && RowValid(v)
    ensures fresh(w.repr) && RowValid(w)
    ensures res == if SignedDivision(Numbers(u).g, Numbers(v).g, wide).Err? then Fail(NegativeResult) else Pass
    ensures res.Pass? ==>
              Numbers(w) == Next(Numbers(u), Numbers(v), SignedDivision(Numbers(u).g, Numbers(v).g, wide).value)
  {
    hide SignedDivision, BigInteger.Value, BigInteger.Repr;
    var q, r;
    res, q, r := u.n.DivMod(v.n, wide);
    var r1, s1 := ReduceCoefficients(u, v, q);
    RowOfValid(r, r1, s1);
    w := RowOf(r, r1, s1);
  }

  /** r1 -= q * r2, s1 -= q * s2 */
  method ReduceCoefficients(u: Row, v: Row, q: BigInteger) returns (r1: BigInteger, s1: BigInteger)
    requires RowValid(u) && RowValid(v) && q.Valid()
    ensures fresh(r1.Repr()) && r1.Valid() && r1.Value() == Numbers(u).r - q.Value() * Numbers(v).r
    ensures fresh(s1.Repr()) && s1.Valid() && s1.Value() == Numbers(u).s - q.Value() * Numbers(v).s
  {
    hide BigInteger.Value, BigInteger.Repr;
    r1 := SubtractProduct(u.r, q, v.r);
    s1 := SubtractProduct(u.s, q, v.s);
  }

  method StartRow(n: BigInteger, r: int, s: int) returns (w: Row)
    requires n.Valid() && 0 <= r <= 1 && 0 <= s <= 1
    ensures fresh(w.repr) && RowValid(w) && Numbers(w) == Combination(n.Value(), r, s)
  {
    hide BigInteger.Value, BigInteger.Repr;
    var x := new BigInteger.Copy(n);
    var y := new BigInteger.FromNumber(r);
    var z := new BigInteger.FromNumber(s);
    RowOfValid(x, y, z);
    w := RowOf(x, y, z);
  }

  method StartRows(m: BigInteger, n: BigInteger) returns (u: Row, v: Row)
    requires m.Valid() && n.Valid()
    ensures fresh(u.repr) && fresh(v.repr) && RowValid(u) && RowValid(v)
    ensures Numbers(u) == Combination(m.Value(), 1, 0) && Numbers(v) == Combination(n.Value(), 0, 1)
  {
    hide BigInteger.Value;
    u := StartRow(m, 1, 0);
    v := StartRow(n, 0, 1);
  }

  /** What the loop owes from rows u and v; wide runs count their steps. */
  lemma EuclidStep(u: Combination, v: Combination, wide: bool, steps: nat)
    ensures v.g == 0 ==> EuclidRun(u, v, wide, steps) == Ok(u)
    ensures v.g != 0 && wide && steps == 0 ==> EuclidRun(u, v, wide, steps) == Err(StillRunning)
    ensures v.g != 0 && (wide ==> steps > 0) ==>
              var d := SignedDivision(u.g, v.g, wide);
              if d.Err? then EuclidRun(u, v, wide, steps) == Err(NegativeResult)
              else EuclidRun(u, v, wide, steps)
                   == EuclidRun(v, Next(u, v, d.value), wide, if wide then steps - 1 else steps)
    ensures v.g != 0 && !wide ==>
              var d := SignedDivision(u.g, v.g, wide);
              d.Ok? && Magnitude(Next(u, v, d.value).g) < Magnitude(v.g)
  {
    hide FloorDiv, FloorMod;
    RoundShrinks(u.g, v.g);
    SignedDivisionMeaning(u.g, v.g, wide);
    if v.g != 0 && !wide {
      NoSteps(v, Next(u, v, FloorQuotRem(u.g, v.g)), steps);
    }
  }

  /** Half a round inside a run. */
  method HalfRound(u: Row, v: Row, wide: bool, ghost steps: nat) returns (res: Outcome, w: Row)
    requires RowValid(u) && RowValid(v) && Numbers(v).g != 0 && (wide ==> steps > 0)
    ensures fresh(w.repr) && RowValid(w)
    ensures res.Pass? ==> EuclidRun(Numbers(u), Numbers(v), wide, steps)
                          == EuclidRun(Numbers(v), Numbers(w), wide, Fewer(wide, steps))
    ensures res.Pass? && !wide ==> Magnitude(Numbers(w).g) < Magnitude(Numbers(v).g)
    ensures res.Fail? ==> wide && EuclidRun(Numbers(u), Numbers(v), wide, steps) == Err(res.error)
  {
    hide EuclidRun, SignedDivision, Next, Numbers;
    EuclidStep(Numbers(u), Numbers(v), wide, steps);
    res, w := ReduceRow(u, v, wide);
  }

  /** The loop: both halves of a round, until one number is zero. The other is the gcd, with its row. */
  method Rounds(m0: BigInteger, n0: BigInteger, wide: bool, limit: nat) returns (res: Outcome, w: Row)
    requires m0.Valid() && n0.Valid()
    ensures fresh(w.repr) && RowValid(w)
    ensures res.Pass? ==> ExtendedRun(m0.Value(), n0.Value(), wide, 2 * limit) == Ok(Numbers(w))
    ensures res.Fail? ==> ExtendedRun(m0.Value(), n0.Value(), wide, 2 * limit) == Err(res.error)
  {
    hide EuclidRun, Numbers, RowValid, BigInteger.Value;
    var u, v := StartRows(m0, n0);
    var left: nat := limit;
    ghost var answer := ExtendedRun(m0.Value(), n0.Value(), wide, 2 * limit);
    while true
      invariant fresh(u.repr) && fresh(v.repr) && RowValid(u) && RowValid(v)
      invariant EuclidRun(Numbers(u), Numbers(v), wide, 2 * left) == answer
      decreases if wide then left else Magnitude(Numbers(v).g)
    {
      FinishedRun(u, v, wide, 2 * left);
      if v.n.IsZero() {
        return Pass, u;
      }
      if wide && left == 0 {
        return Fail(StillRunning), u;
      }
      left := if wide then left - 1 else left;
      ghost var steps := if wide then 2 * left + 1 else 2 * left;
      res, u := HalfRound(u, v, wide, if wide then 2 * left + 2 else 2 * left);
      if res.Fail? {
        return res, u;
      }
      FinishedRun(v, u, wide, steps);
      if u.n.IsZero() {
        return Pass, v;
      }
      res, v := HalfRound(v, u, wide, steps);
      if res.Fail? {
        return res, v;
      }
    }
  }

  /** A run whose second number is zero is over. */
  lemma FinishedRun(u: Row, v: Row, wide: bool, steps: nat)
    requires RowValid(u) && RowValid(v)
    ensures v.n in v.repr && (v.n.IsZero() <==> Numbers(v).g == 0)
    ensures v.n.IsZero() ==> EuclidRun(Numbers(u), Numbers(v), wide, steps) == Ok(Numbers(u))
    ensures !v.n.IsZero() && wide && steps == 0 ==> EuclidRun(Numbers(u), Numbers(v), wide, steps) == Err(StillRunning)
  {
    v.n.ZeroIffNoSign();
  }

  method AssignThree(r: BigInteger, r1: BigInteger, s: BigInteger, s1: BigInteger, g: BigInteger, g1: BigInteger)
    requires r.mag.Sized() && s.mag.Sized() && g.mag.Sized() && r1.Valid() && s1.Valid() && g1.Valid()
    requires r != s && r != g && s != g && r.Apart(s) && r.Apart(g) && s.Apart(g)
    requires {r, r.mag, r.mag.blk, s, s.mag, s.mag.blk, g, g.mag, g.mag.blk}
             !! {r1, r1.mag, r1.mag.blk, s1, s1.mag, s1.mag.blk, g1, g1.mag, g1.mag.blk}
    modifies r, r.mag, r.mag.blk, s, s.mag, s.mag.blk, g, g.mag, g.mag.blk
    ensures r.Valid() && r.Value() == old(r1.Value())
    ensures s.Valid() && s.Value() == old(s1.Value())
    ensures g.Valid() && g.Value() == old(g1.Value())
  {
    r.Assign(r1);
    s.Assign(s1);
    g.Assign(g1);
  }

  /** The loop with its answer, if it has one, written to the outputs. */
  method RoundsInto(m: BigInteger, n: BigInteger, g: BigInteger, r: BigInteger, s: BigInteger, wide: bool, limit: nat)
    returns (res: Outcome)
    requires m.Valid() && n.Valid() && g.mag.Sized() && r.mag.Sized() && s.mag.Sized()
    requires r != s && r != g && s != g && r.Apart(s) && r.Apart(g) && s.Apart(g)
    modifies g, g.mag, g.mag.blk, r, r.mag, r.mag.blk, s, s.mag, s.mag.blk
    ensures res.Pass? ==> g.Valid() && r.Valid() && s.Valid()
    ensures res.Pass? ==> ExtendedRun(old(m.Value()), old(n.Value()), wide, 2 * limit)
                          == Ok(Combination(g.Value(), r.Value(), s.Value()))
    ensures res.Fail? ==> ExtendedRun(old(m.Value()), old(n.Value()), wide, 2 * limit) == Err(res.error)
    ensures res.Fail? ==> unchanged(g, r, s)
  {
    hide ExtendedRun, BigInteger.Value;
    var w;
    res, w := Rounds(m, n, wide, limit);
    if res.Pass? {
      AssignThree(r, w.r, s, w.s, g, w.n);
    }
  }

  /** r * m + s * n == g, a greatest common divisor of m and n; g has the sign of n, or is m if n is
      zero, and r is no larger than n. */
  method ExtendedEuclidean(m: BigInteger, n: BigInteger, g: BigInteger, r: BigInteger, s: BigInteger)
    returns (res: Outcome)
    requires m.Valid() && n.Valid() && g.mag.Sized() && r.mag.Sized() && s.mag.Sized()
    requires g.Apart(r) && g.Apart(s) && r.Apart(s)
    modifies g, g.mag, g.mag.blk, r, r.mag, r.mag.blk, s, s.mag, s.mag.blk
    ensures res == if g == r || g == s || r == s then Fail(OutputsAliased) else Pass
    ensures res.Pass? ==> g.Valid() && r.Valid() && s.Valid()
    ensures res.Pass? ==> IsGcd(g.Value(), old(m.Value()), old(n.Value()))
    ensures res.Pass? ==> r.Value() * old(m.Value()) + s.Value() * old(n.Value()) == g.Value()
    ensures res.Pass? && old(n.Value()) > 0 ==> g.Value() > 0 && Magnitude(r.Value()) <= old(n.Value())
    ensures res.Pass? && old(n.Value()) < 0 ==> g.Value() < 0
    ensures res.Pass? && old(n.Value()) == 0 ==> g.Value() == old(m.Value())
  {
    if g == r || g == s || r == s {
      return Fail(OutputsAliased);
    }
    hide ExtendedRun, IsGcd, BigInteger.Value;
    ExtendedRunCorrect(m.Value(), n.Value());
    res := RoundsInto(m, n, g, r, s, false, 0);
  }

  /** extendedEuclidean as written, followed for a number of rounds: right whenever every division is
      spared, which is always so for numbers of one block. */
  method ExtendedEuclideanAsWritten(m: BigInteger, n: BigInteger, g: BigInteger, r: BigInteger, s: BigInteger,
                                    limit: nat)
    returns (res: Outcome)
    requires m.Valid() && n.Valid() && g.mag.Sized() && r.mag.Sized() && s.mag.Sized()
    requires g.Apart(r) && g.Apart(s) && r.Apart(s)
    modifies g, g.mag, g.mag.blk, r, r.mag, r.mag.blk, s, s.mag, s.mag.blk
    ensures g == r || g == s || r == s ==> res == Fail(OutputsAliased)
    ensures g != r && g != s && r != s && res.Fail? ==>
              ExtendedRun(old(m.Value()), old(n.Value()), true, 2 * limit) == Err(res.error)
    ensures res.Fail? ==> unchanged(g, r, s)
    ensures res.Pass? ==> g.Valid() && r.Valid() && s.Valid()
    ensures res.Pass? ==> ExtendedRun(old(m.Value()), old(n.Value()), true, 2 * limit)
                          == Ok(Combination(g.Value(), r.Value(), s.Value()))
    ensures g != r && g != s && r != s
            && EuclidSpared(old(m.Value()), old(n.Value())) && limit >= BitCount(Magnitude(old(n.Value()))) ==>
              && res.Pass? && IsGcd(g.Value(), old(m.Value()), old(n.Value()))
              && r.Value() * old(m.Value()) + s.Value() * old(n.Value()) == g.Value()
              && (old(n.Value()) > 0 ==> g.Value() > 0) && (old(n.Value()) < 0 ==> g.Value() < 0)
              && (old(n.Value()) == 0 ==> g.Value() == old(m.Value()))
    ensures Magnitude(old(m.Value())) < B && Magnitude(old(n.Value())) < B ==>
              EuclidSpared(old(m.Value()), old(n.Value()))
  {
    hide ExtendedRun, EuclidSpared, IsGcd, BigInteger.Value;
    ExtendedAsWritten(m.Value(), n.Value(), 2 * limit);
    if g == r || g == s || r == s {
      return Fail(OutputsAliased);
    }
    res := RoundsInto(m, n, g, r, s, true, limit);
  }

  lemma ExtendedAsWritten(m: int, n: int, steps: nat)
    ensures EuclidSpared(m, n) && steps >= 2 * BitCount(Magnitude(n)) ==>
              && ExtendedRun(m, n, true, steps).Ok?
              && var c := ExtendedRun(m, n, true, steps).value;
                 && IsGcd(c.g, m, n) && BezoutIdentity(c.g, c.r, m, c.s, n)
                 && (n > 0 ==> c.g > 0) && (n < 0 ==> c.g < 0) && (n == 0 ==> c.g == m)
    ensures Magnitude(m) < B && Magnitude(n) < B ==> EuclidSpared(m, n)
  {
    hide IsGcd, BezoutIdentity, EuclidRun, EuclidSpared;
    ExtendedRunCorrect(m, n);
    if EuclidSpared(m, n) && steps >= 2 * BitCount(Magnitude(n)) {
      EuclidRunAnyway(m, n, true, steps);
    }
    if Magnitude(m) < B && Magnitude(n) < B {
      SmallEuclidSpared(m, n);
    }
  }

  // Modular inverse

  method Inverse(x: BigInteger, n: BigUnsigned, wide: bool, limit: nat) returns (res: Result<BigUnsigned>)
    requires x.Valid() && n.Valid()
    ensures res.Ok? ==> res.value.Valid() && InverseRun(x.Value(), n.Value(), wide, 2 * limit) == Ok(res.value.Value())
    ensures res.Err? ==> InverseRun(x.Value(), n.Value(), wide, 2 * limit) == Err(res.error)
  {
    hide ExtendedRun, SignedDivision, InverseRun, BigInteger.Value;
    InverseRunSteps(x.Value(), n.Value(), wide, 2 * limit);
    var bn := new BigInteger.FromUnsigned(n);
    var e, g, r := GcdAndCofactor(x, bn, wide, limit);
    if e.Fail? {
      return Err(e.error);
    }
    var isOne := IsOne(g);
    if !isOne {
      return Err(CommonFactor);
    }
    res := Residue(r, bn, wide);
  }

  method IsOne(g: BigInteger) returns (eq: bool)
    requires g.Valid()
    ensures eq <==> g.Value() == 1
  {
    var one := new BigInteger.FromNumber(1);
    eq := g.Equals(one);
  }

  /** (x % n).getMagnitude() */
  method Residue(x: BigInteger, n: BigInteger, wide: bool) returns (res: Result<BigUnsigned>)
    requires x.Valid() && n.Valid()
    ensures n.Value() == 0 ==> res == Err(DivisionByZero)
    ensures n.Value() != 0 && SignedDivision(x.Value(), n.Value(), wide).Err? ==> res == Err(NegativeResult)
    ensures n.Value() != 0 && SignedDivision(x.Value(), n.Value(), wide).Ok? ==>
              res.Ok? && fresh(res.value) && fresh(res.value.blk) && res.value.Valid()
              && res.value.Value() == Magnitude(SignedDivision(x.Value(), n.Value(), wide).value.r)
  {
    hide SignedDivision;
    var v := x.Reduced(n, wide);
    if v.Err? {
      return Err(v.error);
    }
    v.value.MagnitudeOfValue();
    return Ok(v.value.mag);
  }

  lemma InverseRunSteps(x: int, n: nat, wide: bool, steps: nat)
    ensures var c := ExtendedRun(x, n, wide, steps);
            && (c.Err? ==> InverseRun(x, n, wide, steps) == Err(c.error))
            && (c.Ok? && c.value.g != 1 ==> InverseRun(x, n, wide, steps) == Err(CommonFactor))
            && (c.Ok? && c.value.g == 1 && n == 0 ==> InverseRun(x, n, wide, steps) == Err(DivisionByZero))
            && (c.Ok? && c.value.g == 1 && n > 0 ==>
                  var d := SignedDivision(c.value.r, n, wide);
                  InverseRun(x, n, wide, steps) == if d.Err? then Err(NegativeResult) else Ok(Magnitude(d.value.r)))
  {
    hide ExtendedRun, SignedDivision;
  }

  /** Fresh outputs for extendedEuclidean; the second cofactor is not looked at. */
  method GcdAndCofactor(x: BigInteger, n: BigInteger, wide: bool, limit: nat)
    returns (e: Outcome, g: BigInteger, r: BigInteger)
    requires x.Valid() && n.Valid()
    ensures e.Pass? ==> g.Valid() && r.Valid()
    ensures e.Pass? ==> var c := ExtendedRun(x.Value(), n.Value(), wide, 2 * limit);
                        c.Ok? && c.value.g == g.Value() && c.value.r == r.Value()
    ensures e.Fail? ==> ExtendedRun(x.Value(), n.Value(), wide, 2 * limit) == Err(e.error)
  {
    hide ExtendedRun, BigInteger.Value;
    var s;
    g, r, s := ThreeZeros();
    e := RoundsInto(x, n, g, r, s, wide, limit);
  }

  method ThreeZeros() returns (g: BigInteger, r: BigInteger, s: BigInteger)
    ensures fresh(g.Repr()) && fresh(r.Repr()) && fresh(s.Repr())
    ensures g.Valid() && r.Valid() && s.Valid() && g.Value() == 0 && r.Value() == 0 && s.Value() == 0
    ensures g != r && g != s && r != s && g.Apart(r) && g.Apart(s) && r.Apart(s)
  {
    g := new BigInteger();
    r := new BigInteger();
    s := new BigInteger();
  }

  /** The inverse of x modulo n; fails exactly when there is none, or n is zero. */
  method ModInv(x: BigInteger, n: BigUnsigned) returns (res: Result<BigUnsigned>)
    requires x.Valid() && n.Valid()
    ensures res.Ok? <==> n.Value() > 0 && IsGcd(1, x.Value(), n.Value())
    ensures res.Err? ==> res.error == if n.Value() == 0 && x.Value() == 1 then DivisionByZero else CommonFactor
    ensures res.Ok? ==> res.value.Valid() && 0 <= res.value.Value() < n.Value()
    ensures res.Ok? ==> (x.Value() * res.value.Value()) % n.Value() == 1 % n.Value()
  {
    hide InverseRun, IsGcd;
    InverseRunMeaning(x.Value(), n.Value(), false, 0);
    res := Inverse(x, n, false, 0);
  }

  /** modinv as written, followed for a number of rounds: right whenever the divisions of the extended
      algorithm are spared, which is always so for numbers of one block. */
  method ModInvAsWritten(x: BigInteger, n: BigUnsigned, limit: nat) returns (res: Result<BigUnsigned>)
    requires x.Valid() && n.Valid()
    ensures res.Ok? ==> res.value.Valid() && InverseRun(x.Value(), n.Value(), true, 2 * limit) == Ok(res.value.Value())
    ensures res.Err? ==> InverseRun(x.Value(), n.Value(), true, 2 * limit) == Err(res.error)
    ensures EuclidSpared(x.Value(), n.Value()) && limit >= BitCount(n.Value()) ==>
              && (res.Ok? <==> n.Value() > 0 && IsGcd(1, x.Value(), n.Value()))
              && (res.Ok? ==> 0 <= res.value.Value() < n.Value()
                              && (x.Value() * res.value.Value()) % n.Value() == 1 % n.Value())
              && (res.Err? ==> res.error == if n.Value() == 0 && x.Value() == 1 then DivisionByZero else CommonFactor)
    ensures Magnitude(x.Value()) < B && n.Value() < B ==> EuclidSpared(x.Value(), n.Value())
  {
    hide InverseRun, EuclidSpared, IsGcd;
    if EuclidSpared(x.Value(), n.Value()) && limit >= BitCount(n.Value()) {
      InverseRunMeaning(x.Value(), n.Value(), true, 2 * limit);
    }
    if Magnitude(x.Value()) < B && n.Value() < B {
      SmallEuclidSpared(x.Value(), n.Value());
    }
    res := Inverse(x, n, true, limit);
  }

  // Modular exponentiation

  /** ans *= f; ans %= modulus */
  method MultiplyMod(ans: BigUnsigned, f: BigUnsigned, modulus: BigUnsigned, wide: bool)
    requires ans.Valid() && f.Valid() && modulus.Valid() && modulus.Value() > 0
    requires ans.Apart(f) && ans != modulus && ans.blk != modulus.blk
    modifies ans, ans.blk
    ensures ans.Valid()
    ensures ans.Value() == RemainderOf(Product(old(ans.Value()), old(f.Value())), modulus.Value(), wide)
    ensures ans.blk == old(ans.blk) || fresh(ans.blk)
  {
    hide RemainderOf;
    ans.Multiply(ans, f);
    var q := new BigUnsigned();
    var r := ans.Divide(modulus, q, wide);
    assert r.Pass?;
  }

  /** One bit of the exponent. */
  method PowerStep(ans: BigUnsigned, base2: BigUnsigned, exponent: BigUnsigned, modulus: BigUnsigned, i: nat,
                   wide: bool)
    requires ans.Valid() && base2.Valid() && exponent.Valid() && modulus.Valid() && modulus.Value() > 0
    requires ans != base2 && ans != exponent && ans != modulus
    requires ans.blk != base2.blk && ans.blk != exponent.blk && ans.blk != modulus.blk
    modifies ans, ans.blk
    ensures ans.Valid()
    ensures ans.Value() == PowerTurn(old(ans.Value()), base2.Value(), Bit(exponent.Value(), i), modulus.Value(), wide)
    ensures ans.blk == old(ans.blk) || fresh(ans.blk)
  {
    hide RemainderOf, Product;
    MultiplyMod(ans, ans, modulus, wide);
    var bit := exponent.GetBit(i);
    if bit {
      MultiplyMod(ans, base2, modulus, wide);
    }
  }

  /** Square for every bit of the exponent, multiply for every set one. */
  method PowerLoop(ans: BigUnsigned, base2: BigUnsigned, exponent: BigUnsigned, modulus: BigUnsigned, wide: bool)
    requires ans.Valid() && base2.Valid() && exponent.Valid() && modulus.Valid() && modulus.Value() > 0
    requires ans != base2 && ans != exponent && ans != modulus
    requires ans.blk != base2.blk && ans.blk != exponent.blk && ans.blk != modulus.blk
    modifies ans, ans.blk
    ensures ans.Valid()
    ensures ans.Value() == PowerRun(old(ans.Value()), base2.Value(), exponent.Value(), modulus.Value(),
                                    BitCount(exponent.Value()), wide)
  {
    hide PowerTurn, BitCount;
    var i := exponent.BitLength();
    BitCountIs(exponent.Value(), i);
    while i > 0
      invariant ans.Valid() && (ans.blk == old(ans.blk) || fresh(ans.blk))
      invariant PowerRun(ans.Value(), base2.Value(), exponent.Value(), modulus.Value(), i, wide)
                == PowerRun(old(ans.Value()), base2.Value(), exponent.Value(), modulus.Value(),
                            BitCount(exponent.Value()), wide)
    {
      i := i - 1;
      PowerStep(ans, base2, exponent, modulus, i, wide);
    }
  }

  method Power(base: BigInteger, exponent: BigUnsigned, modulus: BigUnsigned, wide: bool)
    returns (res: Result<BigUnsigned>)
    requires base.Valid() && exponent.Valid() && modulus.Valid()
    ensures res.Ok? ==> res.value.Valid()
    ensures res.Ok? ==> ModExpRun(base.Value(), exponent.Value(), modulus.Value(), wide) == Ok(res.value.Value())
    ensures res.Err? ==> ModExpRun(base.Value(), exponent.Value(), modulus.Value(), wide) == Err(res.error)
  {
    hide PowerRun, SignedDivision;
    var bm := new BigInteger.FromUnsigned(modulus);
    var b := Residue(base, bm, wide);
    if b.Err? {
      return Err(b.error);
    }
    var ans := new BigUnsigned.FromWord(1);
    PowerLoop(ans, b.value, exponent, modulus, wide);
    return Ok(ans);
  }

  /** base^exponent modulo modulus, except that exponent 0 gives 1 whatever the modulus. */
  method ModExp(base: BigInteger, exponent: BigUnsigned, modulus: BigUnsigned) returns (res: Result<BigUnsigned>)
    requires base.Valid() && exponent.Valid() && modulus.Valid()
    ensures modulus.Value() == 0 ==> res == Err(DivisionByZero)
    ensures modulus.Value() > 0 ==> res.Ok? && res.value.Valid()
    ensures modulus.Value() > 0 && exponent.Value() > 0 ==>
              res.value.Value() == Pow(base.Value(), exponent.Value()) % modulus.Value()
    ensures modulus.Value() > 0 && exponent.Value() == 0 ==> res.value.Value() == 1
    ensures modulus.Value() > 0 ==>
              (res.value.Value() == Pow(base.Value(), exponent.Value()) % modulus.Value()
               <==> exponent.Value() > 0 || modulus.Value() > 1)
  {
    ModulusZero(base.Value(), exponent.Value(), false);
    if modulus.Value() > 0 {
      ModExpRunMeaning(base.Value(), exponent.Value(), modulus.Value(), false);
      PowerZero(base.Value(), modulus.Value());
    }
    hide ModExpRun;
    res := Power(base, exponent, modulus, false);
  }

  lemma ModulusZero(base: int, e: nat, wide: bool)
    ensures ModExpRun(base, e, 0, wide) == Err(DivisionByZero)
  {
  }

  lemma ModExpRunFails(base: int, e: nat, m: nat)
    ensures ModExpRun(base, e, m, true).Err? <==> m == 0 || (Opposed(base, m) && !SignedSpared(base, m))
  {
    hide SignedDivision, SignedSpared, PowerRun;
    SignedDivisionMeaning(base, m, true);
  }

  /** modexp as written: right whenever every division is spared, which they are for every modulus up
      to 2^32 and for 2^64, if the reduction of the base is. */
  method ModExpAsWritten(base: BigInteger, exponent: BigUnsigned, modulus: BigUnsigned)
    returns (res: Result<BigUnsigned>)
    requires base.Valid() && exponent.Valid() && modulus.Valid()
    ensures res.Ok? ==> res.value.Valid()
    ensures res.Ok? ==> ModExpRun(base.Value(), exponent.Value(), modulus.Value(), true) == Ok(res.value.Value())
    ensures res.Err? ==> ModExpRun(base.Value(), exponent.Value(), modulus.Value(), true) == Err(res.error)
    ensures res.Err? <==> modulus.Value() == 0
                          || (Opposed(base.Value(), modulus.Value()) && !SignedSpared(base.Value(), modulus.Value()))
    ensures modulus.Value() > 0 && ModExpSpared(base.Value(), exponent.Value(), modulus.Value()) ==>
              res.Ok? && res.value.Value() == if exponent.Value() == 0 then 1
                                              else Pow(base.Value(), exponent.Value()) % modulus.Value()
    ensures modulus.Value() > 0 && SafeModulus(modulus.Value()) && SignedSpared(base.Value(), modulus.Value()) ==>
              ModExpSpared(base.Value(), exponent.Value(), modulus.Value())
    ensures 0 <= base.Value() < modulus.Value() || Magnitude(base.Value()) < B ==>
              SignedSpared(base.Value(), modulus.Value())
  {
    hide ModExpRun, SignedSpared, ModExpSpared;
    ghost var b, e, m := base.Value(), exponent.Value(), modulus.Value();
    ModExpRunFails(b, e, m);
    SmallBase(b, m);
    if m > 0 && SafeModulus(m) && SignedSpared(b, m) {
      SafeModExpSpared(b, e, m);
    }
    if m > 0 && ModExpSpared(b, e, m) {
      ModExpRunMeaning(b, e, m, true);
    }
    res := Power(base, exponent, modulus, true);
  }
}
