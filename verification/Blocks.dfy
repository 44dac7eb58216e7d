/** The blocks of a BigUnsigned: 64-bit words, as unsigned long is on an LP64 platform. */
module Blocks {
  import opened Powers
  import opened Radix
  import opened Bits

  const N: nat := 64
  const B: nat := 0x1_0000_0000_0000_0000

  type Blk = x: nat | x < B

  lemma BlockBase()
    ensures Pow(2, N) == B
  {
    assert Pow(2, 8) == 0x100;
    PowAdd(2, 8, 8);
    PowAdd(2, 16, 16);
    PowAdd(2, 32, 32);
  }

  lemma BlocksAreDigits(s: seq<Blk>)
    ensures Digits(s, B)
  {
  }

  /** The length of a canonical number brackets its value. */
  lemma CanonicalRange(s: seq<Blk>)
    requires s != [] && Canonical(s)
    ensures 0 < Pow(B, |s| - 1) <= Val(s, B) < Pow(B, |s|)
  {
    assert Digits(s, B);
    ValBound(s, B);
    ValCanonicalLower(s, B);
  }

  /** Block x of num << y. */
  function ShiftedBlock(num: seq<Blk>, x: nat, y: nat): Blk
    requires x <= |num| && y < N
  {
    var part1: Blk := if x == 0 || y == 0 then 0 else HighBits(num[x - 1], N - y);
    var part2: Blk := if x == |num| then 0 else (num[x] * Pow(2, y)) % B;
    OrIsBlock(part1, part2);
    Bitwise(Or, part1, part2)
  }

  /** n >> y */
  function HighBits(n: Blk, y: nat): Blk {
    DivLe(n, Pow(2, y));
    n / Pow(2, y)
  }

  lemma OrIsBlock(x: Blk, y: Blk)
    ensures Bitwise(Or, x, y) < B
  {
    BlockBase();
    BitwiseBound(Or, x, y, N);
  }

  /** All |num| + 1 blocks of num << y. */
  ghost function Shifted(num: seq<Blk>, y: nat): (s: seq<Blk>)
    requires y < N
    ensures |s| == |num| + 1
  {
    seq(|num| + 1, x requires 0 <= x <= |num| => ShiftedBlock(num, x, y))
  }

  /** The bits of n << y that leave the block. */
  ghost function Spill(n: Blk, y: nat): nat
    requires y < N
  {
    (n * Pow(2, y)) / B
  }

  lemma SpillIsHighBits(n: Blk, y: nat)
    requires y < N
    ensures Spill(n, y) < Pow(2, y)
    ensures Spill(n, y) == if y == 0 then 0 else n / Pow(2, N - y)
    ensures (n * Pow(2, y)) % B == Pow(2, y) * (n % Pow(2, N - y))
  {
    BlockBase();
    PowAdd(2, y, N - y);
    DivCancel(n, Pow(2, y), Pow(2, N - y));
    assert n * Pow(2, y) == Pow(2, y) * n;
    var q, d := n / Pow(2, N - y), Pow(2, N - y);
    if q >= Pow(2, y) {
      MulLe(Pow(2, y), q, d);
    }
    if y == 0 {
      DivModUnique(n, B, 0, n);
    }
  }

  lemma ShiftedBlockSum(num: seq<Blk>, x: nat, y: nat)
    requires x <= |num| && y < N
    ensures ShiftedBlock(num, x, y) == (if x == 0 then 0 else Spill(num[x - 1], y))
                                       + (if x == |num| then 0 else (num[x] * Pow(2, y)) % B)
  {
    var part1: nat := if x == 0 then 0 else Spill(num[x - 1], y);
    if x > 0 {
      SpillIsHighBits(num[x - 1], y);
    }
    if x < |num| {
      SpillIsHighBits(num[x], y);
      OrDisjoint(part1, num[x] % Pow(2, N - y), y);
    } else {
      BitwiseZero(Or, part1);
    }
  }

  lemma {:induction false} ShiftedPrefix(num: seq<Blk>, y: nat, j: nat)
    requires y < N && j <= |num|
    ensures Val(Shifted(num, y)[..j], B) + (if j == 0 then 0 else Spill(num[j - 1], y)) * Pow(B, j)
            == Val(num[..j], B) * Pow(2, y)
  {
    if j > 0 {
      ShiftedPrefix(num, y, j - 1);
      ValPrefix(Shifted(num, y), j - 1, B);
      ValPrefix(num, j - 1, B);
      ShiftedBlockSum(num, j - 1, y);
      var h: nat := if j == 1 then 0 else Spill(num[j - 2], y);
      ShiftStep(Val(Shifted(num, y)[..j - 1], B), h, num[j - 1], Val(num[..j - 1], B), Pow(2, y), Pow(B, j - 1));
    }
  }

  lemma ShiftStep(s: int, h: int, n: int, v: int, t: int, p: int)
    requires s + h * p == v * t
    ensures s + (h + (n * t) % B) * p + ((n * t) / B) * (B * p) == (v + n * p) * t
  {
    var lo, hi := (n * t) % B, (n * t) / B;
    assert n * t == hi * B + lo;
    Associate(hi, B, p);
    Distribute(p, h, lo);
    Distribute(p, hi * B, lo);
    Distribute(t, v, n * p);
    assert (n * p) * t == (n * t) * p;
  }

  /** The shifted blocks spell num * 2^y exactly, the extra top block included. */
  lemma ShiftedValue(num: seq<Blk>, y: nat)
    requires y < N
    ensures Val(Shifted(num, y), B) == Val(num, B) * Pow(2, y)
  {
    ShiftedPrefix(num, y, |num|);
    ValPrefix(Shifted(num, y), |num|, B);
    assert Shifted(num, y)[..|num| + 1] == Shifted(num, y);
    assert num[..|num|] == num;
    ShiftedBlockSum(num, |num|, y);
  }

  /** What the comment on getShiftedBlock promises: block x of num * 2^y. */
  lemma ShiftedBlockIsBlock(num: seq<Blk>, x: nat, y: nat)
    requires x <= |num| && y < N
    ensures ShiftedBlock(num, x, y) == ((Val(num, B) * Pow(2, y)) / Pow(B, x)) % B
  {
    ShiftedValue(num, y);
    ValDigit(Shifted(num, y), x, B);
  }

  /** The carry equation for one column of an addition. */
  lemma CarryStep(s: int, cin: int, u: int, v: int, x: int, y: int, t: int, cout: int, p: int)
    requires s + cin * p == u + v
    requires t + cout * B == x + y + cin
    ensures (s + t * p) + cout * (B * p) == (u + x * p) + (v + y * p)
  {
    assert cout * (B * p) == (cout * B) * p;
    Distribute(p, t, cout * B);
    Distribute(p, x + y, cin);
    Distribute(p, x, y);
  }
}
