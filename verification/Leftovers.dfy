/** What divideWithRemainder leaves in the dividend, as a function of the two numbers alone: with the
    copy back its comment describes, or with that of line 515 of big_unsigned.cpp. */
module Leftovers {
  import opened Powers
  import opened Radix
  import opened Blocks
  import opened Division

  /** The blocks of n in canonical form. */
  ghost function BlockCount(n: nat): nat {
    if n == 0 then 0 else 1 + BlockCount(n / B)
  }

  /** The length of a canonical number is determined by its value. */
  lemma {:induction false} CountOfCanonical(s: seq<Blk>)
    requires Canonical(s)
    ensures BlockCount(Val(s, B)) == |s|
  {
    if s != [] {
      CanonicalRange(s);
      BlocksAreDigits(s);
      ValDivMod(s, B);
      CountOfCanonical(s[1..]);
    }
  }

  lemma {:induction false} CountRange(n: nat)
    ensures n < Pow(B, BlockCount(n))
    ensures n > 0 ==> BlockCount(n) > 0 && Pow(B, BlockCount(n) - 1) <= n
  {
    if n > 0 {
      CountRange(n / B);
    }
  }

  lemma CountAtMost(n: nat, k: nat)
    ensures BlockCount(n) <= k <==> n < Pow(B, k)
  {
    CountRange(n);
    if BlockCount(n) <= k {
      PowMono(B, BlockCount(n), k);
    } else {
      PowMono(B, k, BlockCount(n) - 1);
    }
  }

  lemma CountMono(a: nat, b: nat)
    requires a <= b
    ensures BlockCount(a) <= BlockCount(b)
  {
    CountRange(b);
    CountAtMost(a, BlockCount(b));
  }

  /** a / 0 is 0 here. */
  ghost function QuotientOf(a: nat, b: nat): nat {
    if b == 0 then 0
    else
      DivLe(a, b);
      a / b
  }

  /** a mod b, with a mod 0 == a, and with what line 515 adds when wide. */
  ghost function RemainderOf(a: nat, b: nat, wide: bool): nat {
    if b == 0 then a
    else if wide && BlockCount(b) <= BlockCount(a) then a % b + Garbage(a, BlockCount(a), b, BlockCount(b))
    else a % b
  }

  /** Line 515 leaves nothing above the remainder of a by b: every preliminary quotient block above
      the lowest nonzero one is odd. */
  ghost predicate Spared(a: nat, b: nat) {
    0 < b && BlockCount(b) <= BlockCount(a) ==> QuotientBlocksOdd(a, BlockCount(a), b, BlockCount(b))
  }

  lemma WithLengths(a: nat, alen: nat, b: nat, blen: nat, wide: bool)
    requires alen == BlockCount(a) && blen == BlockCount(b) && 0 < blen <= alen
    ensures b > 0 && QuotientOf(a, b) == a / b
    ensures RemainderOf(a, b, wide) == a % b + if wide then Garbage(a, alen, b, blen) else 0
  {
  }

  lemma ByZero(a: nat, wide: bool)
    ensures QuotientOf(a, 0) == 0 && RemainderOf(a, 0, wide) == a && Spared(a, 0)
  {
  }

  /** Spared divisions are exact; any other leaves more than the divisor, and at least a block more
      than the remainder. */
  lemma LeftoverDecides(a: nat, b: nat)
    requires b > 0
    ensures RemainderOf(a, b, false) == a % b
    ensures Spared(a, b) ==> RemainderOf(a, b, true) == a % b
    ensures !Spared(a, b) ==> b < RemainderOf(a, b, true) && a % b + B <= RemainderOf(a, b, true)
  {
    hide QuotientBlocksOdd;
    if BlockCount(b) <= BlockCount(a) {
      GarbageFreeIff(a, BlockCount(a), b, BlockCount(b));
      if !Spared(a, b) {
        GarbageIsHigh(a, BlockCount(a), b, BlockCount(b));
        CountRange(b);
        PowMono(B, 1, BlockCount(b));
        assert Pow(B, 1) == B * Pow(B, 0) == B;
        DivModDef(a, b);
      }
    }
  }

  lemma GarbageIsHigh(a: nat, alen: nat, b: nat, blen: nat)
    requires blen <= alen && b > 0 && Garbage(a, alen, b, blen) != 0
    ensures Pow(B, blen) <= Garbage(a, alen, b, blen)
  {
    var above := Val(Above(BlocksOf(a / b, alen - blen + 1), true), B);
    MulLe(1, above, Pow(B, blen));
    Commute(Pow(B, blen), above);
  }

  /** Operands of equal length are safe from line 515; a dividend of more blocks than its preliminary
      quotient fills, but not below the divisor, never is. */
  lemma GarbageByLength(a: nat, alen: nat, b: nat, blen: nat)
    requires blen <= alen && b > 0
    ensures alen == blen ==> Garbage(a, alen, b, blen) == 0
    ensures b <= a < b * Pow(B, alen - blen) ==> Garbage(a, alen, b, blen) != 0
  {
    hide Garbage, Val;
    GarbageFreeIff(a, alen, b, blen);
    var v: nat, m := QuotientOf(a, b), alen - blen;
    if b <= a < b * Pow(B, m) {
      QuotientBelow(a, b, Pow(B, m));
      DivModUnique(v, Pow(B, m), 0, v);
      assert v % Pow(B, m) != 0 && (v / Pow(B, m)) % B % 2 == 0;
    }
    if m == 0 {
      forall k | 0 <= k < 1
        ensures v % Pow(B, k) == 0
      {
        assert Pow(B, k) == 1;
      }
    }
  }

  lemma QuotientBelow(a: nat, b: nat, p: nat)
    requires 0 < b <= a < b * p
    ensures 0 < a / b < p
  {
    DivModDef(a, b);
    Commute(b, p);
    if a / b < 1 {
      MulLe(a / b, 0, b);
    }
    MulCancelLt(a / b, p, b);
  }

  /** A dividend no longer than the divisor is spared; one block always is. */
  lemma SparedByLength(a: nat, b: nat)
    ensures BlockCount(a) <= BlockCount(b) ==> Spared(a, b)
    ensures a < B ==> Spared(a, b)
  {
    hide QuotientBlocksOdd, Garbage;
    if b > 0 && BlockCount(b) <= BlockCount(a) {
      CountRange(b);
      CountAtMost(a, 1);
      assert Pow(B, 1) == B * Pow(B, 0) == B;
      GarbageByLength(a, BlockCount(a), b, BlockCount(b));
      GarbageFreeIff(a, BlockCount(a), b, BlockCount(b));
    }
  }

  lemma NeverSpared(a: nat, b: nat)
    requires 0 < b <= a
    ensures BlockCount(b) <= BlockCount(a)
    ensures a < b * Pow(B, BlockCount(a) - BlockCount(b)) ==> !Spared(a, b)
  {
    hide QuotientBlocksOdd, Garbage;
    CountMono(b, a);
    GarbageByLength(a, BlockCount(a), b, BlockCount(b));
    GarbageFreeIff(a, BlockCount(a), b, BlockCount(b));
  }

  /** A divisor of one block and a dividend of two: never spared unless the quotient has two blocks. */
  lemma TwoBlocksByOne(a: nat, b: nat)
    requires 0 < b < B <= a < b * B
    ensures !Spared(a, b)
  {
    assert Pow(B, 1) == B * Pow(B, 0) == B;
    OneAndTwoBlocks(a, b);
    MulLe(1, B, b);
    NeverSpared(a, b);
  }

  /** Three divides 2^64 + 5, yet as written the remainder has a third block, full of ones. */
  lemma RemainderOfMultipleOfThree()
    ensures (B + 5) % 3 == 0 && RemainderOf(B + 5, 3, true) == (B - 1) * B * B
  {
    SmallCounts();
    OddGarbage(B + 5, 3);
  }

  lemma SmallCounts()
    ensures BlockCount(3) == 1 && BlockCount(B + 5) == 2
  {
    assert (B + 5) / B == 1;
  }

  /** Two blocks by one, the quotient a single block: B - 1 stays in the third. */
  lemma OddGarbage(a: nat, b: nat)
    requires 0 < b < B <= a < b * B
    ensures RemainderOf(a, b, true) == a % b + (B - 1) * B * B
  {
    assert Pow(B, 0) == 1 && Pow(B, 1) == B;
    QuotientBelow(a, b, B);
    var q := BlocksOf(a / b, 2);
    assert q[0] == (a / b) / 1 % B == a / b && q[1] == 0;
    assert NonzeroIn(q, 0, 1);
    assert Above(q, true) == [0, B - 1];
    assert Val([0, B - 1], B) == 0 + B * Val([B - 1], B);
    assert Val([B - 1], B) == B - 1 + B * Val([], B);
    OneAndTwoBlocks(a, b);
  }

  lemma OneAndTwoBlocks(a: nat, b: nat)
    requires 0 < b < B <= a < b * B
    ensures BlockCount(b) == 1 && BlockCount(a) == 2
  {
    assert b / B == 0 && 0 < a / B < B;
    assert a / B / B == 0;
    assert BlockCount(a / B) == 1 + BlockCount(0);
    assert BlockCount(b) == 1 + BlockCount(0);
  }
}
