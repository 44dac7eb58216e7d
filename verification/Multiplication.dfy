/** The shift-and-add loops of BigUnsigned::multiply. */
module Multiplication {
  import opened Powers
  import opened Radix
  import opened Bits
  import opened Blocks
  import opened BlockLoops

  /** Once the carry is gone the columns left over are what they were. */
  lemma SumFinished(d: seq<Blk>, u: seq<Blk>, v: seq<Blk>, j: nat)
    requires j <= |d| == |u| == |v| && SumSoFar(d, false, u, v, j)
    requires d[j..] == u[j..] && forall k :: j <= k < |v| ==> v[k] == 0
    ensures Val(d, B) == Val(u, B) + Val(v, B)
  {
    var rest := Pow(B, j) * Val(u[j..], B);
    assert Val(d, B) == Val(d[..j], B) + rest by { ValSplit(d, j, B); }
    assert Val(u, B) == Val(u[..j], B) + rest by { ValSplit(u, j, B); }
    assert Val(v, B) == Val(v[..j], B) by { ValDropZeros(v, j, B); }
    assert Carry(false) * Pow(B, j) == 0;
  }

  /** A carry never leaves a buffer that is wide enough for the sum. */
  lemma CarryStaysInside(d: seq<Blk>, u: seq<Blk>, v: seq<Blk>)
    requires |d| == |u| == |v| && Val(u, B) + Val(v, B) < Pow(B, |d|)
    ensures !SumSoFar(d, true, u, v, |d|)
  {
    if SumSoFar(d, true, u, v, |d|) {
      SumComplete(d, true, u, v);
    }
  }

  lemma ShiftedFits(b: seq<Blk>, i: nat, y: nat, u: seq<Blk>, n: nat, v: seq<Blk>)
    requires y < N && i + |b| < n == |u|
    requires Val(u, B) + Val(b, B) * Pow(2, y) * Pow(B, i) < Pow(B, n)
    requires v == Padded(Shifted(b, y), n - i)
    ensures Val(v, B) == Val(b, B) * Pow(2, y)
    ensures Val(u[i..], B) + Val(v, B) < Pow(B, n - i)
  {
    hide Pow, Val;
    var x, w := Val(b, B) * Pow(2, y), Val(u[i..], B);
    assert Val(v, B) == x by {
      ShiftedValue(b, y);
      ValDropZeros(v, |b| + 1, B);
    }
    assert w * Pow(B, i) + x * Pow(B, i) < Pow(B, n) by { ValSplit(u, i, B); }
    assert Pow(B, n) == Pow(B, n - i) * Pow(B, i) by { PowAdd(B, i, n - i); }
    Distribute(Pow(B, i), w, x);
    MulCancelLt(w + x, Pow(B, n - i), Pow(B, i));
  }

  /** Add b, shifted left i blocks and y bits, to dst[..n]: the columns b reaches. */
  method AddShiftedColumns(dst: array<Blk>, n: nat, b: array<Blk>, blen: nat, i: nat, y: nat, ghost v: seq<Blk>)
    returns (carry: bool)
    requires blen <= b.Length && n <= dst.Length && dst != b && y < N && i + blen < n
    requires v == Padded(Shifted(b[..blen], y), n - i)
    modifies dst
    ensures dst[..i] == old(dst[..i])
    ensures dst[i + blen + 1..] == old(dst[i + blen + 1..])
    ensures SumSoFar(dst[i..n], carry, old(dst[i..n]), v, blen + 1)
  {
    ghost var u := dst[i..n];
    carry := false;
    for j := 0 to blen + 1
      invariant dst[..i] == old(dst[..i]) && dst[i + j..] == old(dst[i + j..])
      invariant SumSoFar(dst[i..n], carry, u, v, j)
    {
      var k := i + j;
      assert dst[k] == dst[i + j..][0] == u[j];
      assert v[..blen + 1] == Shifted(b[..blen], y);
      assert v[j] == v[..blen + 1][j] == ShiftedBlock(b[..blen], j, y);
      var temp, carryOut := AddWithCarry(dst[k], ShiftedBlock(b[..blen], j, y), carry);
      SumColumn(dst[i..n], carry, u, v, j, temp, carryOut);
      WriteColumn(dst, i, n, j, temp);
      carry := carryOut;
    }
  }

  method WriteColumn(dst: array<Blk>, i: nat, n: nat, j: nat, temp: Blk)
    requires i + j < n <= dst.Length
    modifies dst
    ensures dst[i..n] == old(dst[i..n])[j := temp]
    ensures dst[..i] == old(dst[..i])
    ensures dst[i + j + 1..] == old(dst[i + j + 1..])
    ensures forall k :: 0 <= k < dst.Length && k != i + j ==> dst[k] == old(dst[k])
  {
    dst[i + j] := temp;
  }

  ghost predicate RippleState(w: seq<Blk>, carry: bool, u: seq<Blk>, v: seq<Blk>, j: nat)
    requires j <= |w| == |u| == |v|
  {
    && w[j..] == u[j..]
    && (forall k :: j <= k < |v| ==> v[k] == 0)
    && Val(u, B) + Val(v, B) < Pow(B, |u|)
    && SumSoFar(w, carry, u, v, j)
  }

  /** With the carry still on there is a block left for it to go to. */
  lemma RippleColumn(w: seq<Blk>, u: seq<Blk>, v: seq<Blk>, j: nat)
    requires j <= |w| == |u| == |v| && RippleState(w, true, u, v, j)
    ensures j < |w|
    ensures var temp: Blk := (w[j] + 1) % B; RippleState(w[j := temp], temp == 0, u, v, j + 1)
  {
    if j == |w| {
      CarryStaysInside(w, u, v);
    } else {
      var temp: Blk := (w[j] + 1) % B;
      assert w[j] == w[j..][0] == u[j];
      SumColumn(w, true, u, v, j, temp, temp == 0);
      assert w[j := temp][j + 1..] == w[j..][1..] == u[j + 1..];
    }
  }

  /** Roll a carry over as far as it goes. No bound is tested: the sum fits, so it stops in time. */
  method RippleCarry(dst: array<Blk>, i: nat, n: nat, from: nat, carryIn: bool, ghost u: seq<Blk>, ghost v: seq<Blk>)
    requires i + from <= n <= dst.Length && |u| == |v| == n - i
    requires RippleState(dst[i..n], carryIn, u, v, from)
    modifies dst
    ensures dst[..i] == old(dst[..i])
    ensures Val(dst[i..n], B) == Val(u, B) + Val(v, B)
  {
    hide RippleState, SumSoFar, Val;
    var carry, k := carryIn, i + from;
    ghost var w := dst[i..n];
    while carry
      invariant i + from <= k <= n
      invariant dst[..i] == old(dst[..i]) && dst[i..n] == w
      invariant RippleState(w, carry, u, v, k - i)
      decreases n - k
    {
      RippleColumn(w, u, v, k - i);
      var temp: Blk := (dst[k] + 1) % B;
      WriteColumn(dst, i, n, k - i, temp);
      carry := temp == 0;
      w := w[k - i := temp];
      k := k + 1;
    }
    RippleDone(w, u, v, k - i);
  }

  lemma RippleDone(w: seq<Blk>, u: seq<Blk>, v: seq<Blk>, j: nat)
    requires j <= |w| == |u| == |v| && RippleState(w, false, u, v, j)
    ensures Val(w, B) == Val(u, B) + Val(v, B)
  {
    SumFinished(w, u, v, j);
  }

  /** A change of x in the window above position i is worth x * B^i. */
  lemma WindowToWhole(s: seq<Blk>, t: seq<Blk>, i: nat, x: int)
    requires i <= |s| && |s| == |t| && s[..i] == t[..i] && Val(t[i..], B) == Val(s[i..], B) + x
    ensures Val(t, B) == Val(s, B) + x * Pow(B, i)
  {
    var low := Val(s[..i], B);
    assert Val(s, B) == low + Pow(B, i) * Val(s[i..], B) by { ValSplit(s, i, B); }
    assert Val(t, B) == low + Pow(B, i) * Val(t[i..], B) by { ValSplit(t, i, B); }
    Scale(Pow(B, i), Val(s[i..], B), Val(t[i..], B), x);
  }

  /** Add b, shifted left i blocks and y bits, to dst[..n]. */
  method AddShifted(dst: array<Blk>, n: nat, b: array<Blk>, blen: nat, i: nat, y: nat)
    requires blen <= b.Length && n <= dst.Length && dst != b && y < N && i + blen < n
    requires Val(dst[..n], B) + Val(b[..blen], B) * Pow(2, y) * Pow(B, i) < Pow(B, n)
    modifies dst
    ensures Val(dst[..n], B) == Val(old(dst[..n]), B) + Val(b[..blen], B) * Pow(2, y) * Pow(B, i)
  {
    ghost var whole, u := dst[..n], dst[i..n];
    ghost var v: seq<Blk> := Padded(Shifted(b[..blen], y), n - i);
    assert whole[i..] == u;
    ShiftedFits(b[..blen], i, y, whole, n, v);
    var carry := AddShiftedColumns(dst, n, b, blen, i, y, v);
    assert dst[i..n][blen + 1..] == u[blen + 1..] by {
      assert dst[i..n][blen + 1..] == dst[i + blen + 1..][..n - (i + blen + 1)];
    }
    RippleCarry(dst, i, n, blen + 1, carry, u, v);
    assert dst[..n][..i] == dst[..i] && whole[..i] == old(dst[..i]);
    assert dst[..n][i..] == dst[i..n];
    WindowToWhole(whole, dst[..n], i, Val(v, B));
  }

  /** Splitting off one more low bit. */
  lemma LowBits(x: nat, y: nat)
    ensures x % Pow(2, y + 1) == x % Pow(2, y) + (if Bit(x, y) then Pow(2, y) else 0)
  {
    var p, bit := Pow(2, y), if Bit(x, y) then 1 else 0;
    var q, h := x / p, x / Pow(2, y + 1);
    assert q == 2 * h + bit by { BitsAbove(x, y); }
    assert q * p == (2 * h) * p + bit * p by { Scale(p, 2 * h, q, bit); }
    assert h * Pow(2, y + 1) == (2 * h) * p by { Associate(h, 2, p); }
    DivModDef(x, p);
    DivModDef(x, Pow(2, y + 1));
  }

  /** dst[..n] += ai * b * B^i, one set bit of ai at a time. */
  method MultiplyBlock(dst: array<Blk>, n: nat, ai: Blk, b: array<Blk>, blen: nat, i: nat)
    requires blen <= b.Length && n <= dst.Length && dst != b && i + blen < n
    requires Val(dst[..n], B) + ai * (Val(b[..blen], B) * Pow(B, i)) < Pow(B, n)
    modifies dst
    ensures Val(dst[..n], B) == Val(old(dst[..n]), B) + ai * (Val(b[..blen], B) * Pow(B, i))
  {
    ghost var v0, c := Val(dst[..n], B), Val(b[..blen], B) * Pow(B, i);
    BlockBase();
    DivModUnique(ai, Pow(2, 0), ai, 0);
    for y := 0 to N
      invariant Val(dst[..n], B) == v0 + (ai % Pow(2, y)) * c
    {
      LowBits(ai, y);
      SingleBit(ai, y);
      ghost var low := ai % Pow(2, y);
      if Bitwise(And, ai, Pow(2, y)) != 0 {
        BitStepFits(ai, y, low, Val(b[..blen], B), Pow(B, i));
        AddShifted(dst, n, b, blen, i, y);
      }
    }
    DivModUnique(ai, B, 0, ai);
  }

  lemma BitStepFits(a: nat, y: nat, low: nat, b: nat, p: nat)
    requires low == a % Pow(2, y) && low + Pow(2, y) == a % Pow(2, y + 1)
    ensures (low + Pow(2, y)) * (b * p) == low * (b * p) + b * Pow(2, y) * p
    ensures (low + Pow(2, y)) * (b * p) <= a * (b * p)
  {
    assert (low + Pow(2, y)) * (b * p) == low * (b * p) + Pow(2, y) * (b * p) by { Distribute(b * p, low, Pow(2, y)); }
    assert Pow(2, y) * (b * p) == b * Pow(2, y) * p by { Associate(Pow(2, y), b, p); }
    DivModLe(a, Pow(2, y + 1));
    MulLe(0, b, p);
    MulLe(low + Pow(2, y), a, b * p);
  }

  /** dst[..alen + blen] := a * b, for every pair of nonempty block strings. */
  method MultiplyBlocks(dst: array<Blk>, a: array<Blk>, alen: nat, b: array<Blk>, blen: nat)
    requires 0 < alen <= a.Length && 0 < blen <= b.Length && alen + blen <= dst.Length && dst != a && dst != b
    modifies dst
    ensures Val(dst[..alen + blen], B) == Val(a[..alen], B) * Val(b[..blen], B)
  {
    var n := alen + blen;
    ghost var bv := Val(b[..blen], B);
    ZeroBlocks(dst, n);
    for i := 0 to alen
      invariant Val(dst[..n], B) == Val(a[..i], B) * bv
    {
      ProductFits(a[..alen], i, b[..blen]);
      assert a[..alen][..i] == a[..i] && a[..alen][..i + 1] == a[..i + 1];
      MultiplyBlock(dst, n, a[i], b, blen, i);
    }
  }

  lemma ProductFits(a: seq<Blk>, i: nat, b: seq<Blk>)
    requires i < |a|
    ensures Val(a[..i + 1], B) * Val(b, B) == Val(a[..i], B) * Val(b, B) + a[i] * (Val(b, B) * Pow(B, i))
    ensures Val(a[..i + 1], B) * Val(b, B) < Pow(B, |a| + |b|)
  {
    var x, bv, p := Val(a[..i], B), Val(b, B), Pow(B, i);
    assert Val(a[..i + 1], B) == x + a[i] * p by { ValPrefix(a, i, B); }
    Distribute(bv, x, a[i] * p);
    assert (a[i] * p) * bv == a[i] * (bv * p);
    BlocksAreDigits(a[..i + 1]);
    BlocksAreDigits(b);
    ValBound(a[..i + 1], B);
    ValBound(b, B);
    PowMono(B, i + 1, |a|);
    PowAdd(B, |a|, |b|);
    ProductBound(Val(a[..i + 1], B), Pow(B, |a|), bv, Pow(B, |b|));
  }

  lemma ProductBound(x: nat, xb: nat, y: nat, yb: nat)
    requires x < xb && y < yb
    ensures x * y < xb * yb
  {
    MulLe(x, xb, y);
    MulLt(y, yb, xb);
  }
}
