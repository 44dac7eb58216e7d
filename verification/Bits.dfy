/** Bits of natural numbers and the machine's bitwise operators. */
module Bits {
  import opened Powers

  /** Bit k of x, the bit worth 2^k. */
  predicate Bit(x: nat, k: nat) {
    (x / Pow(2, k)) % 2 == 1
  }

  datatype BitOp = And | Or | Xor {
    predicate Apply(x: bool, y: bool) {
      match this
      case And => x && y
      case Or => x || y
      case Xor => x != y
    }
  }

  /** x & y, x | y or x ^ y. */
  function Bitwise(op: BitOp, x: nat, y: nat): nat
    decreases x + y
  {
    if x == 0 && y == 0 then 0
    else (if op.Apply(x % 2 == 1, y % 2 == 1) then 1 else 0) + 2 * Bitwise(op, x / 2, y / 2)
  }

  lemma BitStep(x: nat, k: nat)
    requires k > 0
    ensures Bit(x, k) == Bit(x / 2, k - 1)
  {
    DivDiv(x, 2, Pow(2, k - 1));
  }

  lemma BitOfZero(k: nat)
    ensures !Bit(0, k)
  {
    DivModUnique(0, Pow(2, k), 0, 0);
  }

  /** The operators act bit by bit: as and, as or, and as difference. */
  lemma {:induction false} BitwiseBit(op: BitOp, x: nat, y: nat, k: nat)
    ensures Bit(Bitwise(op, x, y), k) == op.Apply(Bit(x, k), Bit(y, k))
    ensures Bit(Bitwise(op, x, y), k) == match op
                                         case And => Bit(x, k) && Bit(y, k)
                                         case Or => Bit(x, k) || Bit(y, k)
                                         case Xor => Bit(x, k) != Bit(y, k)
  {
    if x == 0 && y == 0 {
      BitOfZero(k);
    } else {
      var z := Bitwise(op, x, y);
      assert z / 2 == Bitwise(op, x / 2, y / 2);
      if k == 0 {
        assert z % 2 == if op.Apply(x % 2 == 1, y % 2 == 1) then 1 else 0;
      } else {
        BitStep(x, k);
        BitStep(y, k);
        BitStep(z, k);
        BitwiseBit(op, x / 2, y / 2, k - 1);
      }
    }
  }

  /** The operators in terms of addition: the bits set in both count twice in a sum. */
  lemma {:induction false} BitwiseSum(x: nat, y: nat)
    ensures Bitwise(Or, x, y) + Bitwise(And, x, y) == x + y
    ensures Bitwise(Xor, x, y) + 2 * Bitwise(And, x, y) == x + y
    decreases x + y
  {
    if x + y > 0 {
      BitwiseSum(x / 2, y / 2);
    }
  }

  lemma {:induction false} BitwiseZero(op: BitOp, x: nat)
    ensures Bitwise(op, x, 0) == (if op.And? then 0 else x) == Bitwise(op, 0, x)
  {
    if x > 0 {
      BitwiseZero(op, x / 2);
    }
  }

  function BitOf(op: BitOp, x: nat, y: nat): nat {
    if op.Apply(x % 2 == 1, y % 2 == 1) then 1 else 0
  }

  lemma BitwiseStep(op: BitOp, x: nat, y: nat)
    ensures Bitwise(op, x, y) == BitOf(op, x, y) + 2 * Bitwise(op, x / 2, y / 2)
  {
  }

  /** The operators split at any bit position: low parts and high parts do not meet. */
  lemma {:induction false} BitwiseSplit(op: BitOp, x: nat, y: nat, h: nat, g: nat, n: nat)
    requires x < Pow(2, n) && y < Pow(2, n)
    ensures 0 <= Pow(2, n) * h && 0 <= Pow(2, n) * g
    ensures Bitwise(op, x + Pow(2, n) * h, y + Pow(2, n) * g) == Bitwise(op, x, y) + Pow(2, n) * Bitwise(op, h, g)
  {
    if n > 0 {
      BitwiseSplit(op, x / 2, y / 2, h, g, n - 1);
      SplitStep(op, x, y, h, g, Pow(2, n - 1));
    }
  }

  lemma SplitStep(op: BitOp, x: nat, y: nat, h: nat, g: nat, p: int)
    requires 0 <= p * h && 0 <= p * g
    requires Bitwise(op, x / 2 + p * h, y / 2 + p * g) == Bitwise(op, x / 2, y / 2) + p * Bitwise(op, h, g)
    ensures 0 <= (2 * p) * h && 0 <= (2 * p) * g
    ensures Bitwise(op, x + (2 * p) * h, y + (2 * p) * g) == Bitwise(op, x, y) + (2 * p) * Bitwise(op, h, g)
  {
    hide Bitwise;
    Associate(2, p, h);
    Associate(2, p, g);
    Associate(2, p, Bitwise(op, h, g));
    var X: nat, Y: nat := x + 2 * (p * h), y + 2 * (p * g);
    BitwiseStep(op, x, y);
    BitwiseStep(op, X, Y);
    assert X / 2 == x / 2 + p * h && X % 2 == x % 2;
    assert Y / 2 == y / 2 + p * g && Y % 2 == y % 2;
  }

  lemma {:induction false} BitwiseBound(op: BitOp, x: nat, y: nat, n: nat)
    requires x < Pow(2, n) && y < Pow(2, n)
    ensures Bitwise(op, x, y) < Pow(2, n)
  {
    if n > 0 {
      BitwiseBound(op, x / 2, y / 2, n - 1);
    }
  }

  /** Or of numbers with no common bit is their sum. */
  lemma OrDisjoint(x: nat, h: nat, n: nat)
    requires x < Pow(2, n)
    ensures 0 <= Pow(2, n) * h
    ensures Bitwise(Or, x, Pow(2, n) * h) == x + Pow(2, n) * h == Bitwise(Or, Pow(2, n) * h, x)
  {
    assert Bitwise(Or, x + Pow(2, n) * 0, 0 + Pow(2, n) * h) == x + Pow(2, n) * h by {
      BitwiseSplit(Or, x, 0, 0, h, n);
      BitwiseZero(Or, x);
      BitwiseZero(Or, h);
    }
    assert Bitwise(Or, 0 + Pow(2, n) * h, x + Pow(2, n) * 0) == x + Pow(2, n) * h by {
      BitwiseSplit(Or, 0, x, h, 0, n);
      BitwiseZero(Or, x);
      BitwiseZero(Or, h);
    }
    assert Pow(2, n) * 0 == 0;
  }

  /** Masking with a single bit tests that bit; or-ing with it sets it. */
  lemma {:induction false} SingleBit(x: nat, k: nat)
    ensures Bitwise(And, x, Pow(2, k)) == if Bit(x, k) then Pow(2, k) else 0
    ensures Bitwise(Or, x, Pow(2, k)) == if Bit(x, k) then x else x + Pow(2, k)
  {
    if k == 0 {
      BitwiseZero(And, x / 2);
      BitwiseZero(Or, x / 2);
    } else {
      BitStep(x, k);
      SingleBit(x / 2, k - 1);
    }
  }

  /** Masking with the complement of a single bit, in n bits, clears that bit. */
  lemma {:induction false} ClearBit(x: nat, k: nat, n: nat)
    requires x < Pow(2, n) && k < n
    ensures Pow(2, k) < Pow(2, n)
    ensures Bitwise(And, x, Pow(2, n) - 1 - Pow(2, k)) == if Bit(x, k) then x - Pow(2, k) else x
  {
    if k == 0 {
      ClearLowBit(x, n);
    } else {
      ClearBit(x / 2, k - 1, n - 1);
      BitStep(x, k);
      ClearHighBit(x, Pow(2, k - 1), Pow(2, n - 1), Bit(x, k));
    }
  }

  lemma ClearLowBit(x: nat, n: nat)
    requires x < Pow(2, n) && n > 0
    ensures Bitwise(And, x, Pow(2, n) - 2) == if Bit(x, 0) then x - 1 else x
  {
    BitZero(x);
    AndOnes(x / 2, n - 1);
    AndStep(x, Pow(2, n - 1) - 1, 0);
  }

  lemma ClearHighBit(x: nat, half: nat, p: nat, bit: bool)
    requires half < p && Bitwise(And, x / 2, p - 1 - half) == if bit then x / 2 - half else x / 2
    ensures Bitwise(And, x, 2 * p - 1 - 2 * half) == if bit then x - 2 * half else x
  {
    hide Bitwise;
    AndStep(x, p - 1 - half, 1);
    assert 2 * p - 1 - 2 * half == 2 * (p - 1 - half) + 1;
  }

  lemma AndStep(x: nat, m: nat, bit: nat)
    requires bit < 2
    ensures Bitwise(And, x, 2 * m + bit) == (if bit == 1 then x % 2 else 0) + 2 * Bitwise(And, x / 2, m)
  {
    assert (2 * m + bit) / 2 == m && (2 * m + bit) % 2 == bit;
  }

  lemma {:induction false} AndOnes(x: nat, n: nat)
    requires x < Pow(2, n)
    ensures Bitwise(And, x, Pow(2, n) - 1) == x
  {
    if n > 0 {
      AndOnes(x / 2, n - 1);
      assert (Pow(2, n) - 1) / 2 == Pow(2, n - 1) - 1;
    }
  }

  /** Cutting off the low k bits: x = (bits from k up) * 2^k + rest. */
  lemma BitsAbove(x: nat, k: nat)
    ensures x / Pow(2, k) == 2 * (x / Pow(2, k + 1)) + (if Bit(x, k) then 1 else 0)
  {
    DivDiv(x, Pow(2, k), 2);
  }

  /** The low bits of a number are those of its remainder. */
  lemma {:induction false} BitOfLow(x: nat, k: nat, n: nat)
    requires k < n
    ensures Bit(x, k) == Bit(x % Pow(2, n), k)
  {
    var r := x % Pow(2, n);
    HalfMod(x, n);
    if k == 0 {
      BitZero(x);
      BitZero(r);
    } else {
      BitStep(x, k);
      BitStep(r, k);
      BitOfLow(x / 2, k - 1, n - 1);
    }
  }

  lemma BitZero(x: nat)
    ensures Bit(x, 0) == (x % 2 == 1)
  {
    assert Pow(2, 0) == 1;
  }

  lemma HalfMod(x: nat, n: nat)
    requires n > 0
    ensures (x % Pow(2, n)) % 2 == x % 2
    ensures (x % Pow(2, n)) / 2 == (x / 2) % Pow(2, n - 1)
  {
    hide Pow;
    PowSucc(2, n - 1);
    HalfUnique(x, Pow(2, n - 1));
  }

  lemma HalfUnique(x: nat, p: int)
    requires p > 0
    ensures 0 <= (x / 2) % p && x % (2 * p) == 2 * ((x / 2) % p) + x % 2
  {
    var h: int, r: int := (x / 2) / p, (x / 2) % p;
    assert x / 2 == h * p + r && 0 <= r < p by { DivModDef(x / 2, p); }
    assert h * (2 * p) == 2 * (h * p) by { Associate(h, 2, p); }
    DivModUnique(x, 2 * p, h, 2 * r + x % 2);
  }

  lemma {:induction false} BitwiseCommutes(op: BitOp, x: nat, y: nat)
    ensures Bitwise(op, x, y) == Bitwise(op, y, x)
    decreases x + y
  {
    if x + y > 0 {
      BitwiseCommutes(op, x / 2, y / 2);
    }
  }

  lemma {:induction false} BitwiseAtLeast(x: nat, y: nat)
    ensures Bitwise(Or, x, y) >= x
    decreases x + y
  {
    if x + y > 0 {
      BitwiseAtLeast(x / 2, y / 2);
    }
  }

  /** The number of bits of n. */
  ghost function BitCount(n: nat): nat {
    if n == 0 then 0 else 1 + BitCount(n / 2)
  }

  lemma {:induction false} BitCountIs(e: nat, n: nat)
    requires e < Pow(2, n) && (n > 0 ==> Pow(2, n - 1) <= e)
    ensures BitCount(e) == n
  {
    if n > 0 {
      if n > 1 {
        assert Pow(2, n - 1) == 2 * Pow(2, n - 2);
      }
      BitCountIs(e / 2, n - 1);
    }
  }

  lemma {:induction false} BitCountRange(e: nat)
    ensures e < Pow(2, BitCount(e)) && (BitCount(e) == 0 <==> e == 0)
  {
    if e > 0 {
      BitCountRange(e / 2);
    }
  }

  lemma {:induction false} BitCountMono(a: nat, b: nat)
    requires a <= b
    ensures BitCount(a) <= BitCount(b)
  {
    if a > 0 {
      BitCountMono(a / 2, b / 2);
    }
  }
}
