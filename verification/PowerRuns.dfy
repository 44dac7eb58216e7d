/** modexp as a run on numbers, over either reading of the division. */
module PowerRuns {
  import opened Powers
  import opened Bits
  import opened Blocks
  import opened Outcomes
  import opened Leftovers
  import opened BigIntegers
  import opened Runs

  /** One bit of the exponent: square, and multiply if it is set. */
  ghost function PowerTurn(a: nat, b: nat, bit: bool, m: nat, wide: bool): nat {
    var s := RemainderOf(Product(a, a), m, wide);
    if bit then RemainderOf(Product(s, b), m, wide) else s
  }

  ghost function Product(a: nat, b: nat): nat {
    MulLe(0, a, b);
    a * b
  }

  /** The lowest i bits of the exponent, highest first. */
  ghost function PowerRun(a: nat, b: nat, e: nat, m: nat, i: nat, wide: bool): nat
    decreases i
  {
    if i == 0 then a else PowerRun(PowerTurn(a, b, Bit(e, i - 1), m, wide), b, e, m, i - 1, wide)
  }

  ghost function ModExpRun(base: int, e: nat, m: nat, wide: bool): Result<nat> {
    if m == 0 then Err(DivisionByZero)
    else
      var d := SignedDivision(base, m, wide);
      if d.Err? then Err(d.error) else Ok(PowerRun(1, Magnitude(d.value.r), e, m, BitCount(e), wide))
  }

  /** base^e mod m, but 1 for exponent 0. */
  ghost function PowerModulo(base: int, e: nat, m: nat): int
    requires m > 0
  {
    if e == 0 then 1 else Pow(base, e) % m
  }

  // As intended

  /** a is congruent to base^h modulo m. */
  ghost predicate IsPower(a: int, base: int, h: nat, m: int)
    requires m > 0
  {
    a % m == Pow(base, h) % m
  }

  /** The bits of e from i up: e >> i. */
  ghost function TopBits(e: nat, i: nat): nat {
    DivLe(e, Pow(2, i));
    e / Pow(2, i)
  }

  lemma SquarePower(a: int, base: int, h: nat, m: int)
    requires m > 0 && IsPower(a, base, h, m)
    ensures IsPower((a * a) % m, base, 2 * h, m)
  {
    ModMul2(a, a, m);
    ModMul2(Pow(base, h), Pow(base, h), m);
    PowAdd(base, h, h);
    ModTwice(a * a, m);
  }

  lemma TimesBase(a: int, base: int, h: nat, m: int)
    requires m > 0 && IsPower(a, base, h, m)
    ensures IsPower((a * (base % m)) % m, base, h + 1, m)
  {
    ModMul2(a, base % m, m);
    ModTwice(base, m);
    ModMul2(Pow(base, h), base, m);
    ModTwice(a * (base % m), m);
  }

  lemma ModTwice(x: int, m: int)
    requires m > 0
    ensures (x % m) % m == x % m
  {
    DivModDef(x, m);
    DivModUnique(x % m, m, 0, x % m);
  }

  /** Line 515 leaves nothing in the divisions of a turn. */
  ghost predicate TurnSpared(a: nat, b: nat, bit: bool, m: nat) {
    && Spared(Product(a, a), m)
    && (bit ==> Spared(Product(RemainderOf(Product(a, a), m, false), b), m))
  }

  lemma TurnExact(a: nat, b: nat, bit: bool, m: nat)
    requires m > 0
    ensures TurnSpared(a, b, bit, m) ==> PowerTurn(a, b, bit, m, true) == PowerTurn(a, b, bit, m, false)
  {
    hide RemainderOf, Spared, Product;
    LeftoverDecides(Product(a, a), m);
    LeftoverDecides(Product(RemainderOf(Product(a, a), m, false), b), m);
  }

  /** A turn takes base^(e >> i + 1) to base^(e >> i), below the modulus: as intended, and as written
      when it is spared. */
  lemma TurnKeepsPower(a: nat, base: int, b: nat, e: nat, m: nat, i: nat, wide: bool)
    requires m > 0 && b == base % m && IsPower(a, base, TopBits(e, i + 1), m)
    requires wide ==> TurnSpared(a, b, Bit(e, i), m)
    ensures var a' := PowerTurn(a, b, Bit(e, i), m, wide);
            a' < m && IsPower(a', base, TopBits(e, i), m)
  {
    hide RemainderOf, IsPower, Bit, TurnSpared;
    if wide {
      TurnExact(a, b, Bit(e, i), m);
    }
    BitsAbove(e, i);
    var h := TopBits(e, i + 1);
    ExactProduct(a, a, m);
    SquarePower(a, base, h, m);
    var s: nat := (a * a) % m;
    if Bit(e, i) {
      ExactProduct(s, b, m);
      TimesBase(s, base, 2 * h, m);
    }
  }

  lemma ExactProduct(a: nat, b: nat, m: nat)
    requires m > 0
    ensures RemainderOf(Product(a, b), m, false) == (a * b) % m && 0 <= (a * b) % m < m
  {
    DivModDef(Product(a, b), m);
  }

  /** The invariant carried through. */
  lemma {:induction false} PowerRunCorrect(a: nat, base: int, b: nat, e: nat, m: nat, i: nat)
    requires m > 0 && b == base % m && IsPower(a, base, TopBits(e, i), m)
    ensures IsPower(PowerRun(a, b, e, m, i, false), base, TopBits(e, 0), m)
    ensures i > 0 ==> PowerRun(a, b, e, m, i, false) < m
    decreases i
  {
    hide IsPower, PowerTurn, TopBits, Bit;
    if i > 0 {
      TurnKeepsPower(a, base, b, e, m, i - 1, false);
      PowerRunCorrect(PowerTurn(a, b, Bit(e, i - 1), m, false), base, b, e, m, i - 1);
    }
  }

  /** Every division of the run is spared. */
  ghost predicate PowerSpared(a: nat, b: nat, e: nat, m: nat, i: nat)
    decreases i
  {
    i > 0 ==>
      && TurnSpared(a, b, Bit(e, i - 1), m)
      && PowerSpared(PowerTurn(a, b, Bit(e, i - 1), m, false), b, e, m, i - 1)
  }

  lemma {:induction false} PowerRunSpared(a: nat, b: nat, e: nat, m: nat, i: nat)
    requires m > 0 && PowerSpared(a, b, e, m, i)
    ensures PowerRun(a, b, e, m, i, true) == PowerRun(a, b, e, m, i, false)
    decreases i
  {
    hide PowerTurn, TurnSpared, Bit;
    if i > 0 {
      TurnExact(a, b, Bit(e, i - 1), m);
      PowerRunSpared(PowerTurn(a, b, Bit(e, i - 1), m, false), b, e, m, i - 1);
    }
  }

  /** The reduction of the base and every division after it are spared. */
  ghost predicate ModExpSpared(base: int, e: nat, m: nat) {
    && m > 0
    && SignedSpared(base, m)
    && PowerSpared(1, base % m, e, m, BitCount(e))
  }

  /** modexp is right for every modulus: as intended always, as written whenever spared. */
  lemma ModExpRunMeaning(base: int, e: nat, m: nat, wide: bool)
    requires m > 0 && (wide ==> ModExpSpared(base, e, m))
    ensures ModExpRun(base, e, m, wide) == Ok(PowerModulo(base, e, m))
  {
    hide IsPower, PowerRun, PowerSpared, TopBits, SignedDivision, SignedSpared, BitCount, FloorMod;
    SignedDivisionMeaning(base, m, wide);
    FloorModPositive(base, m);
    BitCountRange(e);
    var b: nat, n := base % m, BitCount(e);
    if wide {
      PowerRunSpared(1, b, e, m, n);
    }
    StartPower(base, e, m, n);
    PowerRunCorrect(1, base, b, e, m, n);
    EndPower(PowerRun(1, b, e, m, n, false), base, e, m);
    if e == 0 {
      NoBits(1, b, e, m, wide);
    }
  }

  lemma NoBits(a: nat, b: nat, e: nat, m: nat, wide: bool)
    ensures PowerRun(a, b, e, m, 0, wide) == a
  {
  }

  lemma StartPower(base: int, e: nat, m: nat, n: nat)
    requires m > 0 && e < Pow(2, n)
    ensures IsPower(1, base, TopBits(e, n), m)
  {
    DivModUnique(e, Pow(2, n), 0, e);
  }

  lemma EndPower(a: nat, base: int, e: nat, m: nat)
    requires m > 0 && IsPower(a, base, TopBits(e, 0), m)
    ensures a < m ==> a == Pow(base, e) % m
  {
    DivModUnique(e, Pow(2, 0), e, 0);
    if a < m {
      DivModUnique(a, m, 0, a);
    }
  }

  lemma FloorModPositive(a: int, m: int)
    requires m > 0
    ensures FloorMod(a, m) == a % m && 0 <= a % m < m
  {
  }

  lemma PowerZero(base: int, m: nat)
    requires m > 0
    ensures Pow(base, 0) % m == if m == 1 then 0 else 1
  {
    if m > 1 {
      DivModUnique(1, m, 0, 1);
    }
  }

  // As written

  /** The last division of a turn as written is spared. */
  ghost predicate LastSpared(a: nat, b: nat, bit: bool, m: nat) {
    if bit then Spared(Product(RemainderOf(Product(a, a), m, true), b), m) else Spared(Product(a, a), m)
  }

  /** A turn ends below the modulus exactly when its last division is spared; otherwise above it. */
  lemma TurnShows(a: nat, b: nat, bit: bool, m: nat)
    requires m > 0
    ensures LastSpared(a, b, bit, m) ==> PowerTurn(a, b, bit, m, true) < m
    ensures !LastSpared(a, b, bit, m) ==> PowerTurn(a, b, bit, m, true) > m
  {
    hide RemainderOf, Spared;
    var s := RemainderOf(Product(a, a), m, true);
    var x := if bit then Product(s, b) else Product(a, a);
    LeftoverDecides(x, m);
    DivModDef(x, m);
  }

  /** Moduli for which line 515 does no harm to any power: up to 2^32, and 2^64. */
  ghost predicate SafeModulus(m: nat) {
    m <= HALF || m == B
  }

  const HALF: nat := 0x1_0000_0000

  /** Reduced modulo such a number, the factors have a product no longer than the modulus, or of one
      block. */
  lemma SafeProduct(a: nat, b: nat, m: nat)
    requires SafeModulus(m) && (a < m || a == 1) && (b < m || b == 1) && m > 0
    ensures Spared(Product(a, b), m)
  {
    hide Spared;
    var p := Product(a, b);
    if m == B {
      ProductMono(a, B - 1, b, B - 1);
      assert Pow(B, 2) == B * B by { assert Pow(B, 2) == B * (B * Pow(B, 0)); }
      assert (B - 1) * (B - 1) < B * B;
      CountAtMost(p, 2);
      assert BlockCount(B) == 1 + BlockCount(1) && BlockCount(1) == 1 + BlockCount(0);
    } else {
      ProductMono(a, HALF - 1, b, HALF - 1);
    }
    SparedByLength(p, m);
  }

  lemma {:induction false} SafePowerSpared(a: nat, b: nat, e: nat, m: nat, i: nat)
    requires SafeModulus(m) && m > 0 && (a < m || a == 1) && b < m
    ensures PowerSpared(a, b, e, m, i)
    decreases i
  {
    hide Bit, Spared, SafeModulus;
    if i > 0 {
      SafeProduct(a, a, m);
      ExactProduct(a, a, m);
      var s := RemainderOf(Product(a, a), m, false);
      SafeProduct(s, b, m);
      ExactProduct(s, b, m);
      SafePowerSpared(PowerTurn(a, b, Bit(e, i - 1), m, false), b, e, m, i - 1);
    }
  }

  lemma SafeModExpSpared(base: int, e: nat, m: nat)
    requires SafeModulus(m) && m > 0 && SignedSpared(base, m)
    ensures ModExpSpared(base, e, m)
  {
    DivModDef(base, m);
    SafePowerSpared(1, base % m, e, m, BitCount(e));
  }

  /** A base already reduced is spared, and so is one of one block. */
  lemma SmallBase(base: int, m: nat)
    ensures 0 <= base < m ==> SignedSpared(base, m)
    ensures Magnitude(base) < B ==> SignedSpared(base, m)
  {
    if 0 <= base < m {
      CountMono(base, m);
    }
    SparedByLength(Dividend(base, m), m);
  }

  /** What a square comes to. */
  lemma SquareRun(base: nat, m: nat)
    requires base < m
    ensures ModExpRun(base, 2, m, true) == Ok(RemainderOf(Product(base, base), m, true))
  {
    hide RemainderOf, Spared, SignedDivision, FloorMod;
    SmallBase(base, m);
    SignedDivisionMeaning(base, m, true);
    FloorModPositive(base, m);
    DivModUnique(base, m, 0, base);
    TwoHasTwoBits();
    FirstTurn(base, m);
    var last := PowerTurn(base, base, false, m, true);
    assert PowerRun(last, base, 2, m, 0, true) == last;
    assert PowerRun(base, base, 2, m, 1, true) == last;
    assert PowerRun(1, base, 2, m, 2, true) == last;
  }

  lemma TwoHasTwoBits()
    ensures BitCount(2) == 2 && Bit(2, 1) && !Bit(2, 0)
  {
    assert Pow(2, 0) == 1 && Pow(2, 1) == 2 * Pow(2, 0);
    assert BitCount(2) == 1 + BitCount(1) && BitCount(1) == 1 + BitCount(0);
  }

  lemma FirstTurn(base: nat, m: nat)
    requires base < m
    ensures PowerTurn(1, base, true, m, true) == base
  {
    hide RemainderOf, Spared;
    CountMono(base, m);
    SparedByLength(1, m);
    LeftoverDecides(1, m);
    SparedByLength(base, m);
    LeftoverDecides(base, m);
    DivModUnique(base, m, 0, base);
    if m == 1 {
      assert Product(0, 0) == 0;
    } else {
      DivModUnique(1, m, 0, 1);
    }
  }

  /** Squares as written, for every modulus and every reduced base: right if and only if the division
      of the square is spared. Otherwise the answer is above the modulus. */
  lemma SquareAsWritten(base: nat, m: nat)
    requires base < m
    ensures 0 <= base * base
    ensures ModExpRun(base, 2, m, true).Ok?
    ensures ModExpRun(base, 2, m, true).value == Pow(base, 2) % m <==> Spared(base * base, m)
    ensures !Spared(base * base, m) ==> ModExpRun(base, 2, m, true).value > m
  {
    hide RemainderOf, Spared, ModExpRun;
    var p := Product(base, base);
    SquareRun(base, m);
    assert Pow(base, 2) == p by { assert Pow(base, 2) == base * (base * Pow(base, 0)); }
    DivModDef(p, m);
    LeftoverDecides(p, m);
  }

  /** For a modulus of one block that is when the square has one block. */
  lemma SquareOfOneBlock(base: nat, m: nat)
    requires base < m < B
    ensures 0 <= base * base && (Spared(base * base, m) <==> base * base < B)
  {
    hide Spared;
    var p := Product(base, base);
    if p < B {
      SparedByLength(p, m);
    } else {
      assert p < m * B by {
        MulLe(base, m, base);
        MulLt(base, B, m);
      }
      TwoBlocksByOne(p, m);
    }
  }

  /** 2^64 modulo 2^32 + 1, and 2^80 modulo 2^41 + 1. */
  lemma SquaresThatFail()
    ensures ModExpRun(HALF, 2, HALF + 1, true).value > HALF + 1
    ensures ModExpRun(0x100_0000_0000, 2, 0x200_0000_0001, true).value > 0x200_0000_0001
  {
    hide ModExpRun, Spared;
    SquareAsWritten(HALF, HALF + 1);
    SquareOfOneBlock(HALF, HALF + 1);
    SquareAsWritten(0x100_0000_0000, 0x200_0000_0001);
    SquareOfOneBlock(0x100_0000_0000, 0x200_0000_0001);
  }

  // The line between the moduli

  /** A base whose square modulo m goes wrong, if m is not safe: 2^32 for one block; otherwise the power
      of 2^64 that m exceeds; and 2^33 * 2^(64 k) + 2^32 for m == 2^(64 k + 64). */
  ghost function FailingBase(m: nat): nat
    requires m > 0 && !SafeModulus(m)
  {
    if m < B then HALF
    else
      var p := Pow(B, BlockCount(m) - 1);
      if m == p then HALF * (2 * Pow(B, BlockCount(m) - 2) + 1) else p
  }

  lemma UnsafeModulus(m: nat)
    requires m > 0 && !SafeModulus(m)
    ensures BlockCount(m) >= 1 && (m >= B ==> BlockCount(m) >= 2)
    ensures FailingBase(m) < m && 0 <= FailingBase(m) * FailingBase(m)
    ensures !Spared(FailingBase(m) * FailingBase(m), m)
  {
    hide Spared, BlockCount;
    CountRange(m);
    CountAtMost(m, 1);
    assert Pow(B, 1) == B * Pow(B, 0) == B;
    if m < B {
      SquareOfOneBlock(HALF, m);
    } else if m == Pow(B, BlockCount(m) - 1) {
      PowerModulus(BlockCount(m) - 2);
    } else {
      BetweenPowers(m);
    }
  }

  /** m strictly between p and p * 2^64: p squared is not spared. */
  lemma BetweenPowers(m: nat)
    requires BlockCount(m) >= 2 && Pow(B, BlockCount(m) - 1) < m
    ensures var p := Pow(B, BlockCount(m) - 1); 0 <= p * p && !Spared(p * p, m)
  {
    hide Spared;
    var k := BlockCount(m) - 1;
    var p: nat := Pow(B, k);
    CountRange(m);
    assert Pow(B, 2 * k) == p * p by { PowAdd(B, k, k); }
    SquareCount(k);
    PowMono(B, k + 1, 2 * k);
    assert p * p < m * p by { MulLt(p, m, p); }
    NeverSpared(p * p, m);
  }

  lemma SquareCount(k: nat)
    ensures BlockCount(Pow(B, 2 * k)) == 2 * k + 1
  {
    CountAtMost(Pow(B, 2 * k), 2 * k + 1);
    CountAtMost(Pow(B, 2 * k), 2 * k);
  }

  /** m == 2^64 * p with p == 2^(64 k): the base 2^32 * (2 * p + 1) has the square 4 * (p + 1) * m + 2^64.
      Block k of that quotient is 4, and 4 stands below it too. */
  lemma PowerModulus(k: nat)
    requires k >= 1
    ensures BlockCount(Pow(B, k + 1)) == k + 2
    ensures var b := HALF * (2 * Pow(B, k) + 1); 0 <= b < Pow(B, k + 1) && 0 <= b * b && !Spared(b * b, Pow(B, k + 1))
  {
    var p: nat, m: nat := Pow(B, k), Pow(B, k + 1);
    var b := HALF * (2 * p + 1);
    PowMono(B, 1, k);
    assert Pow(B, 1) == B * Pow(B, 0) == B;
    CountAtMost(m, k + 2);
    CountAtMost(m, k + 1);
    assert m == B * p;
    var v := 4 * p + 4;
    assert b * b == v * m + B by { SquareOfBase(p); }
    DivModUnique(b * b, m, v, B);
    assert v % p == 4 && v / p == 4 by { DivModUnique(v, p, 4, 4); }
    LongSquare(b * b, v, m, k);
    EvenBlock(b * b, m, k);
  }

  lemma SquareOfBase(p: nat)
    ensures 0 <= HALF * (2 * p + 1)
    ensures (HALF * (2 * p + 1)) * (HALF * (2 * p + 1)) == (4 * p + 4) * (B * p) + B
  {
    var c: int := 2 * p + 1;
    assert (HALF * c) * (HALF * c) == B * (c * c);
    assert c * c == 4 * (p * p) + 4 * p + 1;
    assert (4 * p + 4) * (B * p) == B * (4 * (p * p) + 4 * p);
  }

  lemma LongSquare(a: nat, v: nat, m: nat, k: nat)
    requires m == Pow(B, k + 1) && v >= Pow(B, k) && a >= v * m
    ensures BlockCount(a) >= 2 * k + 2
  {
    MulLe(Pow(B, k), v, m);
    PowAdd(B, k, k + 1);
    CountAtMost(a, 2 * k + 1);
  }

  lemma EvenBlock(a: nat, m: nat, k: nat)
    requires m > 0
    ensures (&& BlockCount(m) == k + 2 && BlockCount(a) >= 2 * k + 2
             && (a / m) % Pow(B, k) != 0 && (a / m) / Pow(B, k) == 4) ==>
              !Spared(a, m)
  {
    if BlockCount(m) == k + 2 && BlockCount(a) >= 2 * k + 2 && (a / m) / Pow(B, k) == 4 {
      var n := BlockCount(a) - BlockCount(m) + 1;
      assert 0 <= k < n;
      assert ((a / m) / Pow(B, k)) % B % 2 == 0;
    }
  }

  ghost predicate RightPower(base: int, e: nat, m: nat)
    requires m > 0
  {
    ModExpRun(base, e, m, true) == Ok(PowerModulo(base, e, m))
  }

  /** The exact line: modexp as written is right for all exponents and all bases whose reduction is
      spared if and only if the modulus is at most 2^32, or 2^64. The same line holds for reduced bases. */
  lemma ModulusLine(m: nat)
    requires m > 0
    ensures (forall base: int, e: nat :: SignedSpared(base, m) ==> RightPower(base, e, m)) <==> SafeModulus(m)
    ensures (forall base: int, e: nat :: 0 <= base < m ==> RightPower(base, e, m)) <==> SafeModulus(m)
  {
    hide RightPower, SignedSpared;
    if SafeModulus(m) {
      forall base: int, e: nat | SignedSpared(base, m)
        ensures RightPower(base, e, m)
      {
        SafePowerRight(base, e, m);
      }
      forall base: int, e: nat | 0 <= base < m
        ensures RightPower(base, e, m)
      {
        SmallBase(base, m);
        SafePowerRight(base, e, m);
      }
    } else {
      UnsafeModulus(m);
      var b := FailingBase(m);
      SmallBase(b, m);
      FailingSquare(b, m);
    }
  }

  lemma SafePowerRight(base: int, e: nat, m: nat)
    requires m > 0 && SafeModulus(m) && SignedSpared(base, m)
    ensures RightPower(base, e, m)
  {
    SafeModExpSpared(base, e, m);
    ModExpRunMeaning(base, e, m, true);
  }

  lemma FailingSquare(b: nat, m: nat)
    requires b < m
    ensures 0 <= b * b && (!Spared(b * b, m) ==> !RightPower(b, 2, m))
  {
    hide ModExpRun, Spared;
    SquareAsWritten(b, m);
    assert PowerModulo(b, 2, m) == Pow(b, 2) % m;
  }

  /** Luck: 3 does not spare 2^64, and a later reduction puts the power right. */
  lemma LuckyPower()
    ensures !SignedSpared(B, 3) && RightPower(B, 1, 3)
  {
    hide RemainderOf, Spared, FloorDiv, High;
    TwoBlocksByOne(B, 3);
    OddGarbage(B, 3);
    HighOfThree();
    assert SignedDivision(B, 3, true) == Ok(QuotRem(FloorDiv(B, 3), High(1)));
    ThirdOfHigh(1);
    SparedByLength(1, 3);
    LeftoverDecides(1, 3);
    assert Pow(2, 0) == 1 && Bit(1, 0);
    assert BitCount(1) == 1 + BitCount(0);
    assert Product(1, 1) == 1 && Product(1, High(1)) == High(1);
    assert PowerTurn(1, High(1), true, 3, true) == 1;
    assert PowerRun(1, High(1), 1, 3, 0, true) == 1;
    assert PowerRun(1, High(1), 1, 3, 1, true) == 1;
    assert Pow(B, 1) == B * Pow(B, 0) == B;
  }
}
