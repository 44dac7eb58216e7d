/** The number-theory algorithms as runs on numbers, over the division as intended (wide false) or
    as written (wide true). As written a run need not end: it is followed for a number of steps. */
module Runs {
  import opened Powers
  import opened Radix
  import opened Bits
  import opened Blocks
  import opened Division
  import opened Outcomes
  import opened Leftovers
  import opened Divisibility
  import opened BigIntegers

  // gcd

  /** gcd's alternation: a step reduces the first number by the second and exchanges them. */
  ghost function GcdRun(a: nat, b: nat, wide: bool, steps: nat): Result<nat>
    decreases if wide then steps else b
  {
    if b == 0 then Ok(a)
    else if wide && steps == 0 then Err(StillRunning)
    else
      LeftoverDecides(a, b);
      DivModDef(a, b);
      GcdRun(b, RemainderOf(a, b, wide), wide, if wide then steps - 1 else 0)
  }

  /** As intended the run ends in the greatest common divisor: a reduction keeps the common
      divisors of the pair it started from. */
  lemma {:induction false} GcdRunCorrect(x: nat, y: nat, a: nat, b: nat, steps: nat)
    requires SameDivisors(x, y, a, b)
    ensures GcdRun(a, b, false, steps).Ok? && IsGcd(GcdRun(a, b, false, steps).value, x, y)
    decreases b
  {
    if b == 0 {
      GcdFound(x, y, a);
    } else {
      DivModDef(a, b);
      ReduceRun(x, y, a, b, a / b, a % b);
      SameDivisorsSwap(x, y, a % b, b);
      GcdRunCorrect(x, y, b, a % b, 0);
    }
  }

  /** Every division on the way is spared by line 515. */
  ghost predicate GcdSpared(a: nat, b: nat)
    decreases b
  {
    if b == 0 then true
    else
      DivModDef(a, b);
      Spared(a, b) && GcdSpared(b, a % b)
  }

  /** Then the run as written is the intended one, over within two steps for each bit of b. */
  lemma {:induction false} GcdRunSpared(a: nat, b: nat, steps: nat)
    requires GcdSpared(a, b) && steps >= 2 * BitCount(b)
    ensures GcdRun(a, b, true, steps) == GcdRun(a, b, false, 0)
    decreases b
  {
    if b > 0 {
      var r := a % b;
      GcdSparedStep(a, b, steps);
      if r == 0 {
        assert GcdRun(b, r, true, steps - 1) == Ok(b) == GcdRun(b, r, false, 0);
      } else {
        GcdSparedStep(b, r, steps - 1);
        TwoStepsHalve(b, r);
        GcdRunSpared(r, b % r, steps - 2);
      }
    }
  }

  lemma GcdSparedStep(a: nat, b: nat, steps: nat)
    requires b > 0 && GcdSpared(a, b) && steps > 0
    ensures 0 <= a % b < b && GcdSpared(b, a % b)
    ensures GcdRun(a, b, true, steps) == GcdRun(b, a % b, true, steps - 1)
    ensures GcdRun(a, b, false, 0) == GcdRun(b, a % b, false, 0)
    ensures BitCount(b) >= 1
  {
    hide Spared, RemainderOf;
    LeftoverDecides(a, b);
    DivModDef(a, b);
  }

  /** Two reductions take a bit off. */
  lemma TwoStepsHalve(b: nat, r: nat)
    requires 0 < r < b
    ensures 0 <= b % r < r && BitCount(b % r) < BitCount(b)
  {
    DivModDef(b, r);
    if b < 2 * r {
      DivModUnique(b, r, 1, b - r);
    }
    BitCountMono(b % r, b / 2);
  }

  /** Numbers of one block are always safe. */
  lemma {:induction false} SmallGcdSpared(a: nat, b: nat)
    requires a < B && b < B
    ensures GcdSpared(a, b)
    decreases b
  {
    if b > 0 {
      SparedByLength(a, b);
      DivModDef(a, b);
      SmallGcdSpared(b, a % b);
    }
  }

  /** One block is the most that can be promised: gcd(2^64, 9) never returns. The first number goes
      round (B - 1) * B^2 + 7, + 4, + 1, and 9 is never reduced. */
  lemma {:induction false} GcdNeverReturns(steps: nat)
    ensures GcdRun(B, 9, true, steps) == Err(StillRunning)
  {
    hide RemainderOf;
    NinthsLeave();
    GcdGoesRound(steps);
    if steps > 0 {
      GcdGoesRound(steps - 1);
    }
  }

  /** What 9 leaves of each of the four numbers, and that they do not reduce 9. */
  lemma NinthsLeave()
    ensures RemainderOf(B, 9, true) == High(7)
    ensures RemainderOf(High(7), 9, true) == High(4)
    ensures RemainderOf(High(4), 9, true) == High(1)
    ensures RemainderOf(High(1), 9, true) == High(7)
    ensures forall r: nat :: RemainderOf(9, High(r), true) == 9
  {
    hide RemainderOf;
    OddGarbage(B, 9);
    assert High(7) == B % 9 + (B - 1) * B * B;
    ThreeBlocksByNine(7);
    ThreeBlocksByNine(4);
    ThreeBlocksByNine(1);
    forall r: nat ensures RemainderOf(9, High(r), true) == 9 {
      NineStays(r);
    }
  }

  lemma NineStays(r: nat)
    ensures RemainderOf(9, High(r), true) == 9
  {
    hide RemainderOf, Spared;
    SparedByLength(9, High(r));
    LeftoverDecides(9, High(r));
    DivModUnique(9, High(r), 0, 9);
  }

  ghost function High(r: nat): nat {
    (B - 1) * B * B + r
  }

  lemma {:induction false} GcdGoesRound(steps: nat)
    ensures forall r | r == 7 || r == 4 || r == 1 ::
              GcdRun(High(r), 9, true, steps) == GcdRun(9, High(r), true, steps) == Err(StillRunning)
  {
    hide RemainderOf;
    if steps > 0 {
      NinthsLeave();
      GcdGoesRound(steps - 1);
    }
  }

  lemma ThreeBlocksByNine(r: nat)
    requires r < 9
    ensures RemainderOf(High(r), 9, true) == High((6 + r) % 9)
  {
    hide RemainderOf, BlockCount, Val;
    var q: seq<Blk> := [(6 * B + r) / 9, 2 * (B - 1) / 3, (B - 1) / 9];
    ThreeBlocks(q);
    NinthOfHigh(r);
    HighCount(r);
    EvenMiddle(High(r), 9, q, (6 + r) % 9);
  }

  lemma HighCount(r: Blk)
    ensures BlockCount(High(r)) == 3
  {
    hide BlockCount, Val;
    var a: seq<Blk> := [r, 0, B - 1];
    ThreeBlocks(a);
    CountOfCanonical(a);
  }

  lemma NinthOfHigh(r: nat)
    requires r < 9
    ensures ((6 * B + r) / 9 + B * (2 * (B - 1) / 3 + B * ((B - 1) / 9))) * 9 + (6 + r) % 9 == High(r)
  {
    assert 9 * ((6 * B + r) / 9) == 6 * B + r - (6 + r) % 9;
    assert 9 * (2 * (B - 1) / 3) == 6 * B - 6;
    assert 9 * ((B - 1) / 9) == B - 7;
  }

  /** A quotient of three blocks, the middle one even and the top one odd: B - 1 stays in the third. */
  lemma EvenMiddle(a: nat, b: nat, q: seq<Blk>, rem: nat)
    requires 0 < b < B && BlockCount(a) == 3 && |q| == 3 && a == Val(q, B) * b + rem && rem < b
    requires q[0] != 0 && q[1] % 2 == 0 && q[2] % 2 == 1
    ensures RemainderOf(a, b, true) == rem + (B - 1) * B * B
  {
    DivModUnique(a, b, Val(q, B), rem);
    BlocksOfValue(q);
    assert NonzeroIn(q, 0, 1) && NonzeroIn(q, 0, 2);
    assert Above(q, true) == [0, B - 1, 0];
    ThreeBlocks([0, B - 1, 0]);
    assert Pow(B, 1) == B * Pow(B, 0) == B;
    assert BlockCount(b) == 1;
  }

  lemma ThreeBlocks(s: seq<Blk>)
    requires |s| == 3
    ensures Val(s, B) == s[0] + B * (s[1] + B * s[2])
  {
    assert s[1..][1..] == [s[2]];
    assert Val([s[2]], B) == s[2] + B * Val([], B);
  }

  /** The run as written comes to an end, and to the right one. */
  ghost predicate GcdReturns(a: nat, b: nat) {
    exists steps: nat :: GcdRun(a, b, true, steps) == GcdRun(a, b, false, 0)
  }

  /** 2^64 is the largest bound below which gcd as written is always right. */
  lemma GcdBound(bound: nat)
    ensures (forall a: nat, b: nat :: a < bound && b < bound ==> GcdReturns(a, b)) <==> bound <= B
  {
    if bound <= B {
      forall a: nat, b: nat | a < bound && b < bound
        ensures GcdReturns(a, b)
      {
        SmallGcdSpared(a, b);
        GcdRunSpared(a, b, 2 * BitCount(b));
      }
    } else if GcdReturns(B, 9) {
      var steps: nat :| GcdRun(B, 9, true, steps) == GcdRun(B, 9, false, 0);
      GcdNeverReturns(steps);
      GcdRunCorrect(B, 9, B, 9, 0);
    }
  }

  /** The other way round it is luck: 3 does not spare 2^64 + 5, and still gcd(2^64 + 5, 3) is 3. */
  lemma LuckyGcd()
    ensures !GcdSpared(B + 5, 3) && GcdRun(B + 5, 3, true, 3) == Ok(3) && GcdRun(B + 5, 3, false, 0) == Ok(3)
  {
    hide RemainderOf, Spared;
    TwoBlocksByOne(B + 5, 3);
    RemainderOfMultipleOfThree();
    assert High(0) == (B - 1) * B * B;
    ThirdOfHigh(0);
    SparedByLength(3, High(0));
    LeftoverDecides(3, High(0));
    DivModUnique(3, High(0), 0, 3);
    assert GcdRun(3, 0, true, 0) == Ok(3);
    assert GcdRun(High(0), 3, true, 1) == Ok(3);
    assert GcdRun(3, High(0), true, 2) == Ok(3);
    LeftoverDecides(B + 5, 3);
    assert GcdRun(3, 0, false, 0) == Ok(3);
  }

  /** The quotient is one odd block over two zero ones: nothing stays. */
  lemma ThirdOfHigh(r: nat)
    requires r < 3
    ensures RemainderOf(High(r), 3, true) == r
  {
    hide RemainderOf, Spared;
    var q: seq<Blk> := [0, 0, (B - 1) / 3];
    ThreeBlocks(q);
    DivModUnique(High(r), 3, Val(q, B), r);
    BlocksOfValue(q);
    forall m | 0 <= m < 3
      ensures (High(r) / 3) % Pow(B, m) == 0
    {
      LowBlocks(High(r) / 3, 3, m);
      ValZeros(q[..m], B);
    }
    HighCount(r);
    assert BlockCount(3) == 1;
    assert Spared(High(r), 3) by { SparedFromBlocks(High(r), 3); }
    LeftoverDecides(High(r), 3);
  }

  lemma SparedFromBlocks(a: nat, b: nat)
    requires b > 0 && BlockCount(b) <= BlockCount(a)
    requires QuotientBlocksOdd(a, BlockCount(a), b, BlockCount(b))
    ensures Spared(a, b)
  {
  }

  // Extended Euclid

  /** A number with coefficients that express it in the inputs: a row of the algorithm. */
  datatype Combination = Combination(g: int, r: int, s: int)

  ghost predicate BezoutIdentity(g: int, r: int, m: int, s: int, n: int) {
    r * m + s * n == g
  }

  /** The row that takes the place of u after a division of u's number by v's. */
  ghost function Next(u: Combination, v: Combination, d: QuotRem): Combination {
    Combination(d.r, u.r - d.q * v.r, u.s - d.q * v.s)
  }

  ghost function FloorQuotRem(a: int, b: int): QuotRem {
    QuotRem(FloorDiv(a, b), FloorMod(a, b))
  }

  /** The loop on rows u and v. A round of the source's loop is two steps of this: the rows
      change places. */
  ghost function EuclidRun(u: Combination, v: Combination, wide: bool, steps: nat): Result<Combination>
    decreases if wide then steps else Magnitude(v.g)
  {
    if v.g == 0 then Ok(u)
    else if wide && steps == 0 then Err(StillRunning)
    else
      var d := SignedDivision(u.g, v.g, wide);
      RoundShrinks(u.g, v.g);
      if d.Err? then Err(d.error) else EuclidRun(v, Next(u, v, d.value), wide, if wide then steps - 1 else 0)
  }

  lemma RoundShrinks(a: int, b: int)
    ensures SignedDivision(a, b, false) == Ok(FloorQuotRem(a, b))
    ensures b != 0 ==> Magnitude(FloorMod(a, b)) < Magnitude(b)
  {
    hide FloorDiv, FloorMod;
    SignedDivisionMeaning(a, b, false);
    FloorDivModMeaning(a, b);
  }

  lemma CombineRows(x: int, y: int, u: Combination, v: Combination, d: QuotRem)
    requires BezoutIdentity(u.g, u.r, x, u.s, y) && BezoutIdentity(v.g, v.r, x, v.s, y) && u.g == d.q * v.g + d.r
    ensures var w := Next(u, v, d); BezoutIdentity(w.g, w.r, x, w.s, y)
  {
    Distribute(x, u.r, -(d.q * v.r));
    Distribute(y, u.s, -(d.q * v.s));
    Distribute(d.q, v.r * x, v.s * y);
    Associate(d.q, v.r, x);
    Associate(d.q, v.s, y);
  }

  /** The two invariants of the source's comment, and the common divisors, survive every step. */
  lemma {:induction false} EuclidCorrect(x: int, y: int, u: Combination, v: Combination)
    requires BezoutIdentity(u.g, u.r, x, u.s, y) && BezoutIdentity(v.g, v.r, x, v.s, y) && SameDivisors(x, y, u.g, v.g)
    ensures EuclidRun(u, v, false, 0).Ok?
    ensures var c := EuclidRun(u, v, false, 0).value; IsGcd(c.g, x, y) && BezoutIdentity(c.g, c.r, x, c.s, y)
    decreases Magnitude(v.g)
  {
    hide BezoutIdentity, IsGcd, SameDivisors, FloorDiv, FloorMod, SignedDivision, Next;
    if v.g == 0 {
      GcdFound(x, y, u.g);
    } else {
      RoundShrinks(u.g, v.g);
      FloorDivModMeaning(u.g, v.g);
      var d := FloorQuotRem(u.g, v.g);
      CombineRows(x, y, u, v, d);
      ReduceRun(x, y, u.g, v.g, d.q, d.r);
      SameDivisorsSwap(x, y, d.r, v.g);
      NextNumber(u, v, d);
      EuclidCorrect(x, y, v, Next(u, v, d));
    }
  }

  lemma NextNumber(u: Combination, v: Combination, d: QuotRem)
    ensures Next(u, v, d).g == d.r
  {
  }

  /** The gcd found has the sign of the second number, or of the first when that is zero. */
  lemma {:induction false} EuclidSign(u: Combination, v: Combination)
    ensures EuclidRun(u, v, false, 0).Ok?
    ensures var g := EuclidRun(u, v, false, 0).value.g;
            && (v.g > 0 || (v.g == 0 && u.g > 0) ==> g > 0)
            && (v.g < 0 || (v.g == 0 && u.g < 0) ==> g < 0)
    decreases Magnitude(v.g)
  {
    hide FloorDiv, FloorMod, SignedDivision;
    if v.g != 0 {
      RoundShrinks(u.g, v.g);
      FloorDivModMeaning(u.g, v.g);
      EuclidSign(v, Next(u, v, FloorQuotRem(u.g, v.g)));
    }
  }

  /** The first coefficients of two rows have opposite signs, and weighed with the other row's number
      they stay within y. */
  ghost predicate Balanced(u: Combination, v: Combination, y: nat) {
    && v.g >= 0 && (u.g > 0 || v.r == 0)
    && (u.r >= 0 >= v.r || v.r >= 0 >= u.r)
    && Magnitude(u.r) <= y
    && Magnitude(u.r) * v.g + Magnitude(v.r) * Magnitude(u.g) <= y
  }

  lemma BalancedStep(u: Combination, v: Combination, y: nat)
    requires Balanced(u, v, y) && v.g > 0
    ensures Balanced(v, Next(u, v, FloorQuotRem(u.g, v.g)), y)
  {
    FloorDivModMeaning(u.g, v.g);
    var q, r := FloorDiv(u.g, v.g), FloorMod(u.g, v.g);
    BalancedNumbers(u.r, v.r, u.g, v.g, q, r, y);
  }

  lemma BalancedNumbers(c: int, d: int, m: int, n: int, q: int, r: int, y: int)
    requires m == q * n + r && 0 <= r < n && (m > 0 || d == 0) && (c >= 0 >= d || d >= 0 >= c)
    requires Magnitude(c) * n + Magnitude(d) * Magnitude(m) <= y
    ensures var c' := c - q * d;
            && (d >= 0 >= c' || c' >= 0 >= d)
            && Magnitude(d) <= y
            && Magnitude(d) * r + Magnitude(c') * n <= y
  {
    var e, f := Magnitude(d), Magnitude(c);
    MulLe(0, f, n);
    if d == 0 {
      assert q * d == 0;
    } else {
      MulLe(1, m, e);
      Commute(e, m);
      QuotientNotNegative(q, n, r, m);
      MulLe(0, q, e);
      Commute(q, e);
      assert q * d == if d > 0 then q * e else -(q * e) by { SignedFactor(q, d); }
      Distribute(n, f, q * e);
      assert e * m == e * r + (q * e) * n by {
        Distribute(e, q * n, r);
        Associate(e, q, n);
        Commute(e, q);
      }
    }
  }

  lemma QuotientNotNegative(q: int, n: int, r: int, m: int)
    requires m == q * n + r && 0 <= r < n && m > 0
    ensures q >= 0
  {
    if q < 0 {
      MulLe(q, -1, n);
    }
  }

  lemma SignedFactor(q: int, d: int)
    ensures q * d == if d < 0 then -(q * Magnitude(d)) else q * Magnitude(d)
  {
    var e: int := Magnitude(d);
    assert q * -e == -(q * e);
  }

  /** The first coefficient found is never larger than the second input. */
  lemma {:induction false} CofactorBound(u: Combination, v: Combination, y: nat)
    requires Balanced(u, v, y)
    ensures EuclidRun(u, v, false, 0).Ok? && Magnitude(EuclidRun(u, v, false, 0).value.r) <= y
    decreases Magnitude(v.g)
  {
    hide FloorDiv, FloorMod, SignedDivision, Next, Balanced;
    assert v.g >= 0 && Magnitude(u.r) <= y by { BalancedMeans(u, v, y); }
    if v.g > 0 {
      var d := FloorQuotRem(u.g, v.g);
      RoundShrinks(u.g, v.g);
      NextNumber(u, v, d);
      BalancedStep(u, v, y);
      CofactorBound(v, Next(u, v, d), y);
    }
  }

  lemma BalancedMeans(u: Combination, v: Combination, y: nat)
    requires Balanced(u, v, y)
    ensures v.g >= 0 && Magnitude(u.r) <= y
  {
  }

  /** The run from the starting rows. */
  ghost function ExtendedRun(m: int, n: int, wide: bool, steps: nat): Result<Combination> {
    EuclidRun(Combination(m, 1, 0), Combination(n, 0, 1), wide, steps)
  }

  /** What the algorithm returns, as intended. */
  lemma ExtendedRunCorrect(m: int, n: int)
    ensures ExtendedRun(m, n, false, 0).Ok?
    ensures var c := ExtendedRun(m, n, false, 0).value;
            && IsGcd(c.g, m, n) && BezoutIdentity(c.g, c.r, m, c.s, n)
            && (n > 0 ==> c.g > 0) && (n < 0 ==> c.g < 0) && (n == 0 ==> c.g == m)
            && (n > 0 ==> Magnitude(c.r) <= n)
  {
    hide IsGcd;
    var u, v := Combination(m, 1, 0), Combination(n, 0, 1);
    EuclidCorrect(m, n, u, v);
    EuclidSign(u, v);
    if n > 0 {
      CofactorBound(u, v, n);
    }
  }

  /** Every division on the way is spared by line 515. */
  ghost predicate EuclidSpared(m: int, n: int)
    decreases Magnitude(n)
  {
    if n == 0 then true
    else
      FloorDivModMeaning(m, n);
      SignedSpared(m, n) && EuclidSpared(n, FloorMod(m, n))
  }

  /** Then the run as written is the intended one, over within two steps for each bit of v's number. */
  lemma {:induction false} EuclidRunSpared(u: Combination, v: Combination, steps: nat)
    requires EuclidSpared(u.g, v.g) && steps >= 2 * BitCount(Magnitude(v.g))
    ensures EuclidRun(u, v, true, steps) == EuclidRun(u, v, false, 0)
    decreases Magnitude(v.g)
  {
    hide FloorDiv, FloorMod;
    if v.g != 0 {
      var w := EuclidSparedStep(u, v, steps);
      if w.g == 0 {
        assert EuclidRun(v, w, true, steps - 1) == Ok(v) == EuclidRun(v, w, false, 0);
      } else {
        var x := EuclidSparedStep(v, w, steps - 1);
        TwoFloorStepsHalve(u.g, v.g);
        EuclidRunSpared(w, x, steps - 2);
      }
    }
  }

  lemma EuclidSparedStep(u: Combination, v: Combination, steps: nat) returns (w: Combination)
    requires v.g != 0 && EuclidSpared(u.g, v.g) && steps > 0
    ensures w == Next(u, v, FloorQuotRem(u.g, v.g)) && w.g == FloorMod(u.g, v.g) && EuclidSpared(v.g, w.g)
    ensures EuclidRun(u, v, true, steps) == EuclidRun(v, w, true, steps - 1)
    ensures EuclidRun(u, v, false, 0) == EuclidRun(v, w, false, 0)
    ensures BitCount(Magnitude(v.g)) >= 1 && Magnitude(w.g) < Magnitude(v.g)
  {
    hide FloorDiv, FloorMod, SignedDivision, SignedSpared;
    RoundShrinks(u.g, v.g);
    SignedDivisionMeaning(u.g, v.g, true);
    w := Next(u, v, FloorQuotRem(u.g, v.g));
  }

  lemma TwoFloorStepsHalve(m: int, n: int)
    requires n != 0 && FloorMod(m, n) != 0
    ensures BitCount(Magnitude(FloorMod(n, FloorMod(m, n)))) < BitCount(Magnitude(n))
    ensures Magnitude(FloorMod(n, FloorMod(m, n))) < Magnitude(n)
  {
    hide FloorMod;
    var r := FloorMod(m, n);
    FloorDivModMeaning(m, n);
    SameSignFloorMod(n, r);
    TwoStepsHalve(Magnitude(n), Magnitude(r));
  }

  lemma {:induction false} SmallEuclidSpared(m: int, n: int)
    requires Magnitude(m) < B && Magnitude(n) < B
    ensures EuclidSpared(m, n)
    decreases Magnitude(n)
  {
    hide FloorMod;
    if n != 0 {
      SparedByLength(Dividend(m, n), Magnitude(n));
      FloorDivModMeaning(m, n);
      SmallEuclidSpared(n, FloorMod(m, n));
    }
  }

  /** On natural numbers extended Euclid as written returns exactly when gcd does, with the same g. */
  lemma {:induction false} EuclidFollowsGcd(u: Combination, v: Combination, steps: nat)
    requires u.g >= 0 && v.g >= 0
    ensures var c, g := EuclidRun(u, v, true, steps), GcdRun(u.g, v.g, true, steps);
            if g.Err? then c == Err(StillRunning) && g.error == StillRunning else c.Ok? && c.value.g == g.value
    decreases steps
  {
    hide RemainderOf, FloorDiv;
    if v.g > 0 && steps > 0 {
      EuclidFollowsGcd(v, Next(u, v, SignedDivision(u.g, v.g, true).value), steps - 1);
    }
  }

  /** So extendedEuclidean(2^64, 9) never returns. */
  lemma ExtendedRunNeverReturns(steps: nat)
    ensures ExtendedRun(B, 9, true, steps) == Err(StillRunning)
  {
    hide EuclidRun, GcdRun;
    GcdNeverReturns(steps);
    EuclidFollowsGcd(Combination(B, 1, 0), Combination(9, 0, 1), steps);
  }

  ghost predicate ExtendedReturns(m: int, n: int) {
    exists steps: nat :: ExtendedRun(m, n, true, steps) == ExtendedRun(m, n, false, 0)
  }

  /** 2^64 is the largest bound on the magnitudes below which extendedEuclidean as written is always
      right. */
  lemma ExtendedBound(bound: nat)
    ensures (forall m: int, n: int :: Magnitude(m) < bound && Magnitude(n) < bound ==> ExtendedReturns(m, n))
            <==> bound <= B
  {
    hide ExtendedRun, EuclidSpared;
    if bound <= B {
      forall m: int, n: int | Magnitude(m) < bound && Magnitude(n) < bound
        ensures ExtendedReturns(m, n)
      {
        SmallEuclidSpared(m, n);
        EuclidRunAnyway(m, n, true, 2 * BitCount(Magnitude(n)));
      }
    } else if ExtendedReturns(B, 9) {
      var steps: nat :| ExtendedRun(B, 9, true, steps) == ExtendedRun(B, 9, false, 0);
      ExtendedRunNeverReturns(steps);
      ExtendedRunCorrect(B, 9);
    }
  }

  /** Luck: 3 does not spare 2^64 + 5, and gcd and coefficients still come out as intended. */
  lemma LuckyEuclid()
    ensures !EuclidSpared((B as int) + 5, 3)
    ensures ExtendedRun((B as int) + 5, 3, true, 3) == Ok(Combination(3, 0, 1))
    ensures ExtendedRun((B as int) + 5, 3, false, 0) == Ok(Combination(3, 0, 1))
  {
    hide RemainderOf, Spared, FloorDiv;
    var a: int, h: int := (B as int) + 5, High(0);
    TwoBlocksByOne(B + 5, 3);
    LeftoverDecides(B + 5, 3);
    RemainderOfMultipleOfThree();
    ThirdOfHigh(0);
    NothingToDivide(3, High(0));
    var u, v := Combination(a, 1, 0), Combination(3, 0, 1);
    var w := Next(u, v, QuotRem(FloorDiv(a, 3), h));
    var x := Next(v, w, QuotRem(0, 3));
    assert x == v;
    var y := Next(w, x, QuotRem(FloorDiv(h, 3), 0));
    assert EuclidRun(x, y, true, 0) == Ok(v);
    assert EuclidRun(w, x, true, 1) == Ok(v);
    assert EuclidRun(v, w, true, 2) == Ok(v);
    var z := Next(u, v, QuotRem(FloorDiv(a, 3), 0));
    assert EuclidRun(v, z, false, 0) == Ok(v);
  }

  /** A smaller number divided by a larger one stays, under either reading. */
  lemma NothingToDivide(a: nat, b: nat)
    requires a < b
    ensures RemainderOf(a, b, true) == a && FloorDiv(a, b) == 0
  {
    hide RemainderOf, Spared;
    CountMono(a, b);
    SparedByLength(a, b);
    LeftoverDecides(a, b);
    DivModUnique(a, b, 0, a);
  }

  /** extendedEuclidean(-(2^64 + 6), 3) throws in its first division. */
  lemma ExtendedRunThrows(steps: nat)
    requires steps > 0
    ensures ExtendedRun(-((B as int) + 6), 3, true, steps) == Err(NegativeResult)
  {
    SignedDivisionsThatFail();
  }

  // Modular inverse

  /** x has an inverse modulo n. */
  ghost predicate Coprime(x: int, n: int) {
    IsGcd(1, x, n)
  }

  ghost predicate IsInverse(x: int, n: nat, v: int) {
    0 <= v < n && (x * v) % n == 1 % n
  }

  ghost function InverseRun(x: int, n: nat, wide: bool, steps: nat): Result<nat> {
    var c := ExtendedRun(x, n, wide, steps);
    if c.Err? then Err(c.error)
    else if c.value.g != 1 then Err(CommonFactor)
    else if n == 0 then Err(DivisionByZero)
    else
      var d := SignedDivision(c.value.r, n, wide);
      if d.Err? then Err(d.error) else Ok(Magnitude(d.value.r))
  }

  /** modinv succeeds exactly when there is an inverse, and finds it: as intended, and as written when
      the divisions of the extended algorithm are spared. The last one then is, the coefficient being
      no larger than n. */
  lemma InverseRunMeaning(x: int, n: nat, wide: bool, steps: nat)
    requires wide ==> EuclidSpared(x, n) && steps >= 2 * BitCount(n)
    ensures InverseRun(x, n, wide, steps).Ok? <==> n > 0 && Coprime(x, n)
    ensures InverseRun(x, n, wide, steps).Ok? ==> IsInverse(x, n, InverseRun(x, n, wide, steps).value)
    ensures InverseRun(x, n, wide, steps).Err? ==>
              InverseRun(x, n, wide, steps).error == if n == 0 && x == 1 then DivisionByZero else CommonFactor
  {
    hide IsGcd, FloorDiv, FloorMod, SignedDivision, SignedSpared, BezoutIdentity, EuclidRun, EuclidSpared;
    ExtendedRunCorrect(x, n);
    EuclidRunAnyway(x, n, wide, steps);
    var c := ExtendedRun(x, n, false, 0).value;
    InverseExists(x, n, c.g);
    if n > 0 {
      LastDivision(c.r, n, wide);
      if c.g == 1 {
        InverseWorks(x, n, c.r, c.s);
      }
    }
  }

  lemma EuclidRunAnyway(m: int, n: int, wide: bool, steps: nat)
    requires wide ==> EuclidSpared(m, n) && steps >= 2 * BitCount(Magnitude(n))
    ensures ExtendedRun(m, n, wide, steps) == ExtendedRun(m, n, false, 0)
  {
    var u, v := Combination(m, 1, 0), Combination(n, 0, 1);
    if wide {
      EuclidRunSpared(u, v, steps);
    } else {
      NoSteps(u, v, steps);
    }
  }

  lemma NoSteps(u: Combination, v: Combination, steps: nat)
    ensures EuclidRun(u, v, false, steps) == EuclidRun(u, v, false, 0)
  {
  }

  lemma LastDivision(r: int, n: nat, wide: bool)
    requires n > 0 && Magnitude(r) <= n
    ensures SignedDivision(r, n, wide) == Ok(FloorQuotRem(r, n))
    ensures 0 <= FloorMod(r, n) < n
  {
    hide SignedDivision;
    CountMono(Dividend(r, n), n);
    SparedByLength(Dividend(r, n), n);
    SignedDivisionMeaning(r, n, wide);
    FloorDivModMeaning(r, n);
  }

  lemma InverseExists(x: int, n: nat, g: int)
    requires IsGcd(g, x, n) && (n > 0 ==> g > 0)
    ensures n > 0 ==> (g == 1 <==> Coprime(x, n))
  {
    if n > 0 && Coprime(x, n) {
      GcdUnique(1, g, x, n);
    }
  }

  lemma InverseWorks(x: int, n: nat, r: int, s: int)
    requires n > 0 && BezoutIdentity(1, r, x, s, n)
    ensures IsInverse(x, n, FloorMod(r, n))
  {
    ModMul(r, x, n);
    ModAddMultiple(1, -s, n);
    assert r * x == 1 + -s * n;
    assert x * (r % n) == (r % n) * x;
  }

  /** -(2^64 + 6) has an inverse modulo 3, itself, and modinv throws over it. */
  lemma InverseRunThrows(steps: nat)
    requires steps > 0
    ensures Coprime(-((B as int) + 6), 3) && InverseRun(-((B as int) + 6), 3, true, steps) == Err(NegativeResult)
  {
    ExtendedRunThrows(steps);
    var x := -((B as int) + 6);
    ExtendedRunCorrect(x, 3);
    var k := ((B as int) + 8) / 3;
    CoprimeByCombination(x, 3, -1, 1 - k);
  }

  lemma CoprimeByCombination(x: int, n: int, r: int, s: int)
    requires r * x + s * n == 1
    ensures Coprime(x, n)
  {
    assert IsMultiple(x, x, 1) && IsMultiple(n, n, 1);
    forall d: int | CommonDivisor(d, x, n)
      ensures Divides(d, 1)
    {
      assert IsMultiple(0, 0, d);
      DividesCombination(d, 0, x, r);
      DividesCombination(d, r * x, n, s);
    }
  }

  /** modinv(2^64, 9) never returns. */
  lemma InverseRunNeverReturns(steps: nat)
    ensures InverseRun(B, 9, true, steps) == Err(StillRunning)
  {
    hide ExtendedRun;
    ExtendedRunNeverReturns(steps);
  }

  ghost predicate InverseReturns(x: int, n: nat) {
    exists steps: nat :: InverseRun(x, n, true, steps) == InverseRun(x, n, false, 0)
  }

  /** 2^64 is the largest bound for modinv as well. */
  lemma InverseBound(bound: nat)
    ensures (forall x: int, n: nat :: Magnitude(x) < bound && n < bound ==> InverseReturns(x, n)) <==> bound <= B
  {
    hide InverseRun, EuclidSpared;
    if bound <= B {
      forall x: int, n: nat | Magnitude(x) < bound && n < bound
        ensures InverseReturns(x, n)
      {
        SmallEuclidSpared(x, n);
        InverseRunSpared(x, n, 2 * BitCount(n));
      }
    } else if InverseReturns(B, 9) {
      var steps: nat :| InverseRun(B, 9, true, steps) == InverseRun(B, 9, false, 0);
      InverseRunNeverReturns(steps);
      InverseRunMeaning(B, 9, false, 0);
    }
  }

  lemma InverseRunSpared(x: int, n: nat, steps: nat)
    requires EuclidSpared(x, n) && steps >= 2 * BitCount(n)
    ensures InverseRun(x, n, true, steps) == InverseRun(x, n, false, 0)
  {
    hide SignedDivision, EuclidSpared, ExtendedRun;
    EuclidRunAnyway(x, n, true, steps);
    ExtendedRunCorrect(x, n);
    if n > 0 {
      LastDivision(ExtendedRun(x, n, false, 0).value.r, n, true);
      LastDivision(ExtendedRun(x, n, false, 0).value.r, n, false);
    }
  }

  /** One step of a run as written on natural numbers. */
  lemma NaturalStep(u: Combination, v: Combination, q: int, r: nat, steps: nat)
    requires u.g >= 0 && v.g > 0 && q == FloorDiv(u.g, v.g) && r == RemainderOf(u.g, v.g, true)
    ensures EuclidRun(u, v, true, steps + 1) == EuclidRun(v, Next(u, v, QuotRem(q, r)), true, steps)
  {
    hide RemainderOf, FloorDiv;
  }

  lemma RunEnds(u: Combination, v: Combination, steps: nat)
    requires v.g == 0
    ensures EuclidRun(u, v, true, steps) == Ok(u)
  {
  }

  /** Luck: 3 does not spare 2^64, whose inverse modulo 3 is found all the same. The second coefficient
      is wrong by then. */
  lemma LuckyInverse()
    ensures !EuclidSpared(B, 3)
    ensures InverseRun(B, 3, true, 4) == Ok(1) && IsInverse(B, 3, 1)
    ensures ExtendedRun(B, 3, true, 4).Ok? && var c := ExtendedRun(B, 3, true, 4).value;
            c.g == 1 && !BezoutIdentity(c.g, c.r, B, c.s, 3)
  {
    hide ExtendedRun, SignedDivision, Spared, EuclidRun;
    TwoBlocksByOne(B, 3);
    LuckyRows();
    FinalReduction();
  }

  lemma LuckyRows()
    ensures ExtendedRun(B, 3, true, 4) == Ok(Combination(1, 1, -(((B as int) - 1) / 3) - High(0) / 3))
  {
    hide EuclidRun, RemainderOf, Spared, FloorDiv, High;
    var q, p: int := ((B as int) - 1) / 3, High(0) / 3;
    var u, v := Combination(B, 1, 0), Combination(3, 0, 1);
    var w, y := Combination(High(1), 1, -q), Combination(1, 1, -q - p);
    OddGarbage(B, 3);
    HighOfThree();
    ThirdOfHigh(1);
    NothingToDivide(3, High(1));
    Thirds();
    assert EuclidRun(u, v, true, 4) == EuclidRun(v, w, true, 3) by { NaturalStep(u, v, q, High(1), 3); }
    assert EuclidRun(v, w, true, 3) == EuclidRun(w, v, true, 2) by { NaturalStep(v, w, 0, 3, 2); }
    assert EuclidRun(w, v, true, 2) == EuclidRun(v, y, true, 1) by { NaturalStep(w, v, p, 1, 1); }
    assert EuclidRun(v, y, true, 1) == Ok(y) by { LastStep(v, y); }
  }

  lemma HighOfThree()
    ensures High(1) == B % 3 + (B - 1) * B * B && 3 < High(1)
  {
  }

  lemma LastStep(v: Combination, y: Combination)
    requires v.g == 3 && y.g == 1
    ensures EuclidRun(v, y, true, 1) == Ok(y)
  {
    hide RemainderOf, Spared, FloorDiv;
    SparedByLength(3, 1);
    LeftoverDecides(3, 1);
    NaturalStep(v, y, FloorDiv(3, 1), 0, 0);
    RunEnds(y, Next(v, y, QuotRem(FloorDiv(3, 1), 0)), 0);
  }

  lemma Thirds()
    ensures FloorDiv(B, 3) == ((B as int) - 1) / 3 && FloorDiv(High(1), 3) == High(0) / 3 && FloorDiv(3, 1) == 3
  {
  }

  lemma FinalReduction()
    ensures SignedDivision(1, 3, true) == Ok(QuotRem(0, 1))
  {
    NothingToDivide(1, 3);
  }
}
