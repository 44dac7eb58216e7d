/** Single blocks and bits of a number, and the blockwise operators. */
module BlockBits {
  import opened Powers
  import opened Radix
  import opened Bits
  import opened Blocks
  import opened BlockLoops

  /** Bit 64 * i + y of a number is bit y of its block i. */
  lemma BitInBlock(s: seq<Blk>, i: nat, y: nat)
    requires y < N
    ensures Bit(Val(s, B), i * N + y) == (i < |s| && Bit(s[i], y))
  {
    BitAbovePower(Val(s, B), i, y);
    if i < |s| {
      BitOfLow(Val(s, B) / Pow(B, i), y, N);
      assert (Val(s, B) / Pow(B, i)) % Pow(2, N) == s[i] by {
        BlockBase();
        BlocksAreDigits(s);
        ValDigit(s, i, B);
      }
    } else {
      assert Val(s, B) / Pow(B, i) == 0 by { NothingAbove(s, i); }
      BitOfZero(y);
    }
  }

  lemma NothingAbove(s: seq<Blk>, i: nat)
    requires |s| <= i
    ensures Val(s, B) / Pow(B, i) == 0
  {
    BlocksAreDigits(s);
    ValBound(s, B);
    PowMono(B, |s|, i);
    DivModUnique(Val(s, B), Pow(B, i), 0, Val(s, B));
  }

  lemma BitPower(i: nat, y: nat)
    ensures Pow(2, i * N + y) == Pow(B, i) * Pow(2, y)
  {
    BlockBase();
    PowMul(2, N, i);
    assert i * N == N * i;
    PowAdd(2, i * N, y);
  }

  lemma BitAbovePower(v: nat, i: nat, y: nat)
    ensures Bit(v, i * N + y) == Bit(v / Pow(B, i), y)
  {
    BitPower(i, y);
    DivDiv(v, Pow(B, i), Pow(2, y));
  }

  /** Replacing one block. */
  lemma ReplaceBlock(s: seq<Blk>, i: nat, x: Blk)
    requires i < |s|
    ensures Val(s[i := x], B) == Val(s, B) + (x - s[i]) * Pow(B, i)
  {
    var t, p := s[i := x], Pow(B, i);
    var high := Pow(B, i + 1) * Val(s[i + 1..], B);
    assert t[i + 1..] == s[i + 1..] && t[..i] == s[..i];
    assert Val(s, B) == Val(s[..i], B) + s[i] * p + high by { ValSplit(s, i + 1, B); ValPrefix(s, i, B); }
    assert Val(t, B) == Val(s[..i], B) + x * p + high by { ValSplit(t, i + 1, B); ValPrefix(t, i, B); }
    Scale(p, s[i], x, x - s[i]);
  }

  /** x is w without its low n bits. */
  ghost predicate WithoutLow(x: nat, n: nat, w: nat) {
    x * Pow(2, n) <= w < (x + 1) * Pow(2, n)
  }

  lemma HalveStep(x: nat, n: nat, w: nat)
    requires x > 0 && WithoutLow(x, n, w)
    ensures WithoutLow(x / 2, n + 1, w) && Pow(2, n) <= w
  {
    var h, p := x / 2, Pow(2, n);
    assert h * (2 * p) == (2 * h) * p by { Associate(h, 2, p); }
    assert (h + 1) * (2 * p) == (2 * (h + 1)) * p by { Associate(h + 1, 2, p); }
    MulLe(2 * h, x, p);
    MulLe(x + 1, 2 * (h + 1), p);
    MulLe(1, x, p);
  }

  lemma NothingLeft(n: nat, w: nat)
    requires WithoutLow(0, n, w)
    ensures w < Pow(2, n)
  {
  }

  /** Zero added blocks. */
  method ClearBlocks(dst: array<Blk>, from: nat, to: nat)
    requires from <= to <= dst.Length
    modifies dst
    ensures forall k :: 0 <= k < dst.Length ==> dst[k] == if from <= k < to then 0 else old(dst[k])
  {
    for j := from to to
      invariant forall k :: 0 <= k < dst.Length ==> dst[k] == if from <= k < j then 0 else old(dst[k])
    {
      dst[j] := 0;
    }
  }

  lemma ExtendedValue(s: seq<Blk>, t: seq<Blk>, x: Blk)
    requires |s| < |t| && t[..|s|] == s && t[|t| - 1] == x
    requires forall k :: |s| <= k < |t| - 1 ==> t[k] == 0
    ensures Val(t, B) == Val(s, B) + x * Pow(B, |t| - 1)
  {
    var n := |t| - 1;
    ValPrefix(t, n, B);
    assert t[..n + 1] == t;
    assert t[..n][..|s|] == s;
    ValDropZeros(t[..n], |s|, B);
  }

  /** The number of bits of one block. */
  method BlockBitLength(w: Blk) returns (n: nat)
    ensures w == 0 ==> n == 0
    ensures w > 0 ==> n > 0 && Pow(2, n - 1) <= w
    ensures w < Pow(2, n)
  {
    var x := w;
    n := 0;
    assert WithoutLow(w, 0, w) by { assert Pow(2, 0) == 1; }
    while x != 0
      invariant WithoutLow(x, n, w)
      invariant n > 0 ==> Pow(2, n - 1) <= w
      invariant w > 0 ==> x > 0 || n > 0
      invariant w == 0 ==> n == 0
    {
      HalveStep(x, n, w);
      x := x / 2;
      n := n + 1;
    }
    NothingLeft(n, w);
  }

  /** Length in bits from the top block's. */
  lemma BitLengthOfBlocks(s: seq<Blk>, n: nat)
    requires s != [] && n > 0 && Pow(2, n - 1) <= s[|s| - 1] < Pow(2, n)
    ensures Pow(2, n + (|s| - 1) * N - 1) <= Val(s, B) < Pow(2, n + (|s| - 1) * N)
  {
    var k, w := |s| - 1, s[|s| - 1];
    var p := Pow(B, k);
    assert Pow(2, k * N) == p by {
      BlockBase();
      PowMul(2, N, k);
      assert k * N == N * k;
    }
    PowAdd(2, n, k * N);
    PowAdd(2, n - 1, k * N);
    assert Val(s, B) == Val(s[..k], B) + w * p by {
      ValPrefix(s, k, B);
      assert s[..k + 1] == s;
    }
    assert Val(s[..k], B) < p by { assert Digits(s[..k], B); ValBound(s[..k], B); }
    MulLe(Pow(2, n - 1), w, p);
    MulLe(w + 1, Pow(2, n), p);
    Scale(p, w, w + 1, 1);
  }

  lemma SetOneBit(s: seq<Blk>, i: nat, y: nat, newBit: bool)
    requires y < N
    ensures Pow(2, y) < B
    ensures var block: Blk := if i < |s| then s[i] else 0;
            && BlockWithBit(block, y, newBit) < B
            && (BlockWithBit(block, y, newBit) - block) * Pow(B, i)
               == (Carry(newBit) - Carry(Bit(Val(s, B), i * N + y))) * Pow(2, i * N + y)
  {
    var block: Blk := if i < |s| then s[i] else 0;
    var bit := Bit(block, y);
    assert bit == Bit(Val(s, B), i * N + y) by {
      BitInBlock(s, i, y);
      BitOfZero(y);
    }
    ChangeBit(block, y, newBit);
    BitPower(i, y);
    var d, t, p := Carry(newBit) - Carry(bit), Pow(2, y), Pow(B, i);
    assert (d * t) * p == d * (p * t) by { Associate(d, t, p); }
  }

  /** newBit ? block | mask : block & ~mask */
  function BlockWithBit(block: Blk, y: nat, newBit: bool): nat
    requires y < N && Pow(2, y) < B
  {
    if newBit then Bitwise(Or, block, Pow(2, y)) else Bitwise(And, block, B - 1 - Pow(2, y))
  }

  lemma ChangeBit(block: Blk, y: nat, newBit: bool)
    requires y < N
    ensures Pow(2, y) < B && BlockWithBit(block, y, newBit) < B
    ensures BlockWithBit(block, y, newBit) - block == (Carry(newBit) - Carry(Bit(block, y))) * Pow(2, y)
  {
    BlockBase();
    assert Pow(2, y) < B by { PowMono(2, y + 1, N); }
    if newBit {
      SingleBit(block, y);
      BitwiseBound(Or, block, Pow(2, y), N);
    } else {
      ClearBit(block, y, N);
    }
    assert forall c | c == 0 || c == 1 || c == -1 ::
        c * Pow(2, y) == if c == 0 then 0 else if c == 1 then Pow(2, y) else -Pow(2, y);
  }

  // The blockwise operators

  /** c is u op v block by block; v is the shorter, its missing blocks count as zero. */
  ghost predicate Blockwise(op: BitOp, c: seq<Blk>, u: seq<Blk>, v: seq<Blk>) {
    && |c| == |u| == |v|
    && forall k :: 0 <= k < |c| ==> c[k] == Bitwise(op, u[k], v[k])
  }

  lemma {:induction false} BlockwiseValue(op: BitOp, c: seq<Blk>, u: seq<Blk>, v: seq<Blk>)
    requires Blockwise(op, c, u, v)
    ensures Val(c, B) == Bitwise(op, Val(u, B), Val(v, B))
  {
    if c == [] {
    } else {
      assert Blockwise(op, c[1..], u[1..], v[1..]);
      BlockwiseValue(op, c[1..], u[1..], v[1..]);
      BlockBase();
      BitwiseSplit(op, u[0], v[0], Val(u[1..], B), Val(v[1..], B), N);
    }
  }

  function BlockOp(op: BitOp, x: Blk, y: Blk): Blk {
    BlockBase();
    BitwiseBound(op, x, y, N);
    Bitwise(op, x, y)
  }

  /** dst := a op b over the common blocks; above them a is copied, except for And, which stops. */
  method CombineBlocks(op: BitOp, dst: array<Blk>, a: array<Blk>, alen: nat, b: array<Blk>, blen: nat)
    requires blen <= alen <= a.Length && blen <= b.Length && dst != a && dst != b
    requires (if op.And? then blen else alen) <= dst.Length
    modifies dst
    ensures var n := if op.And? then blen else alen;
            Val(dst[..n], B) == Bitwise(op, Val(a[..alen], B), Val(b[..blen], B))
  {
    for i := 0 to blen
      invariant forall k :: 0 <= k < i ==> dst[k] == Bitwise(op, a[k], b[k])
    {
      dst[i] := BlockOp(op, a[i], b[i]);
    }
    ghost var u, v := a[..alen], b[..blen];
    if !op.And? {
      for i := blen to alen
        invariant forall k :: 0 <= k < blen ==> dst[k] == Bitwise(op, a[k], b[k])
        invariant forall k :: blen <= k < i ==> dst[k] == a[k]
      {
        dst[i] := a[i];
      }
      Combined(op, dst[..alen], u, v);
    } else {
      Combined(op, Padded(dst[..blen], alen), u, v);
      ValDropZeros(Padded(dst[..blen], alen), blen, B);
    }
  }

  lemma Combined(op: BitOp, c: seq<Blk>, u: seq<Blk>, v: seq<Blk>)
    requires |v| <= |u| == |c|
    requires forall k :: 0 <= k < |v| ==> c[k] == Bitwise(op, u[k], v[k])
    requires forall k :: |v| <= k < |u| ==> c[k] == if op.And? then 0 else u[k]
    ensures Val(c, B) == Bitwise(op, Val(u, B), Val(v, B))
  {
    var w := Padded(v, |u|);
    ValDropZeros(w, |v|, B);
    forall k | 0 <= k < |c|
      ensures c[k] == Bitwise(op, u[k], w[k])
    {
      if k < |v| {
        assert w[k] == w[..|v|][k];
      } else {
        BitwiseZero(op, u[k]);
      }
    }
    BlockwiseValue(op, c, u, w);
  }

  // Increment and decrement

  lemma OneMore(d: seq<Blk>, cin: bool, u: seq<Blk>, i: nat, t: Blk, cout: bool)
    requires i < |d| == |u|
    requires Val(d[..i], B) + Carry(cin) * Pow(B, i) == Val(u[..i], B) + 1
    requires t + Carry(cout) * B == u[i] + Carry(cin)
    ensures Val(d[i := t][..i + 1], B) + Carry(cout) * Pow(B, i + 1) == Val(u[..i + 1], B) + 1
  {
    assert d[i := t][..i] == d[..i];
    ValPrefix(d[i := t], i, B);
    ValPrefix(u, i, B);
    CarryStep(Val(d[..i], B), Carry(cin), Val(u[..i], B), 1, u[i], 0, t, Carry(cout), Pow(B, i));
  }

  lemma OneLess(d: seq<Blk>, bin: bool, u: seq<Blk>, i: nat, t: Blk, bout: bool)
    requires i < |d| == |u|
    requires Val(u[..i], B) + Carry(bin) * Pow(B, i) == Val(d[..i], B) + 1
    requires u[i] + Carry(bout) * B == t + Carry(bin)
    ensures Val(u[..i + 1], B) + Carry(bout) * Pow(B, i + 1) == Val(d[i := t][..i + 1], B) + 1
  {
    assert d[i := t][..i] == d[..i];
    ValPrefix(d[i := t], i, B);
    ValPrefix(u, i, B);
    CarryStep(Val(u[..i], B), Carry(bin), Val(d[..i], B), 1, t, 0, u[i], Carry(bout), Pow(B, i));
  }

  lemma Unchanged(d: seq<Blk>, u: seq<Blk>, i: nat, x: int)
    requires i <= |d| == |u| && d[i..] == u[i..] && Val(d[..i], B) == Val(u[..i], B) + x
    ensures Val(d, B) == Val(u, B) + x
  {
    var high := Pow(B, i) * Val(u[i..], B);
    assert Val(d, B) == Val(d[..i], B) + high by { ValSplit(d, i, B); }
    assert Val(u, B) == Val(u[..i], B) + high by { ValSplit(u, i, B); }
  }

  /** Add one in place; a carry out means every block rolled over. */
  method IncrementBlocks(blk: array<Blk>, n: nat) returns (carry: bool)
    requires n <= blk.Length
    modifies blk
    ensures Val(blk[..n], B) + Carry(carry) * Pow(B, n) == Val(old(blk[..n]), B) + 1
    ensures forall k :: n <= k < blk.Length ==> blk[k] == old(blk[k])
  {
    hide Val;
    ghost var u := blk[..n];
    carry := true;
    var i := 0;
    while i < n && carry
      invariant 0 <= i <= n && blk[i..n] == u[i..]
      invariant forall k :: n <= k < blk.Length ==> blk[k] == old(blk[k])
      invariant Val(blk[..n][..i], B) + Carry(carry) * Pow(B, i) == Val(u[..i], B) + 1
    {
      ghost var d := blk[..n];
      assert blk[i] == blk[i..n][0] == u[i];
      var t: Blk := (blk[i] + 1) % B;
      OneMore(d, true, u, i, t, t == 0);
      assert u[i + 1..] == blk[i..n][1..];
      blk[i] := t;
      assert blk[..n] == d[i := t];
      carry := t == 0;
      i := i + 1;
    }
    if carry {
      assert blk[..n][..n] == blk[..n] && u[..n] == u;
    } else {
      Unchanged(blk[..n], u, i, 1);
    }
  }

  /** Subtract one in place from a nonzero number. No bound is tested: the borrow stops in time. */
  method DecrementBlocks(blk: array<Blk>, n: nat)
    requires n <= blk.Length && Val(blk[..n], B) > 0
    modifies blk
    ensures Val(blk[..n], B) == Val(old(blk[..n]), B) - 1
  {
    ghost var u := blk[..n];
    var borrow := true;
    var i := 0;
    while borrow
      invariant 0 <= i <= n && blk[i..n] == u[i..]
      invariant Val(u[..i], B) + Carry(borrow) * Pow(B, i) == Val(blk[..n][..i], B) + 1
      decreases n - i + Carry(borrow)
    {
      ghost var d := blk[..n];
      if i == n {
        assert d[..n] == d && u[..n] == u;
        assert Digits(d, B);
        ValBound(d, B);
        assert false;
      }
      assert blk[i] == blk[i..n][0] == u[i];
      var t: Blk := (blk[i] - 1) % B;
      borrow := blk[i] == 0;
      OneLess(d, true, u, i, t, borrow);
      assert u[i + 1..] == blk[i..n][1..];
      blk[i] := t;
      assert blk[..n] == d[i := t];
      i := i + 1;
    }
    Unchanged(blk[..n], u, i, -1);
  }
}
