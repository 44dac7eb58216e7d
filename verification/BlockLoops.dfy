/** The block loops inside BigUnsigned's operations, on the arrays they run over. */
module BlockLoops {
  import opened Powers
  import opened Radix
  import opened Blocks

  function Carry(c: bool): nat { if c then 1 else 0 }

  /** A same-length result no smaller than a canonical number is canonical. */
  lemma TopNonzero(s: seq<Blk>, a: seq<Blk>)
    requires |s| == |a| && Canonical(a) && Val(s, B) >= Val(a, B)
    ensures Canonical(s)
  {
    if s != [] && s[|s| - 1] == 0 {
      var n := |s| - 1;
      ValDropZeros(s, n, B);
      BlocksAreDigits(s[..n]);
      ValLonger(s[..n], a, B);
    }
  }

  /** Large enough for its length to have at most one leading zero. */
  ghost predicate AtMostOneZero(s: seq<Blk>) {
    |s| > 1 ==> Pow(B, |s| - 2) <= Val(s, B)
  }

  /** Such a number is canonical once its top block, if zero, is dropped. */
  lemma DropTop(s: seq<Blk>)
    requires s != [] && AtMostOneZero(s)
    ensures var t := if s[|s| - 1] == 0 then s[..|s| - 1] else s; Val(t, B) == Val(s, B) && Canonical(t)
  {
    if s[|s| - 1] == 0 {
      var t := s[..|s| - 1];
      ValDropZeros(s, |s| - 1, B);
      if t != [] && t[|t| - 1] == 0 {
        ValDropZeros(t, |t| - 1, B);
        assert Digits(t[..|t| - 1], B);
        ValBound(t[..|t| - 1], B);
      }
    }
  }

  lemma ValAppendOne(s: seq<Blk>, x: Blk)
    ensures Val(s + [x], B) == Val(s, B) + x * Pow(B, |s|)
  {
    ValPrefix(s + [x], |s|, B);
    assert (s + [x])[..|s|] == s && (s + [x])[..|s| + 1] == s + [x];
  }

  method ZeroBlocks(dst: array<Blk>, n: nat)
    requires n <= dst.Length
    modifies dst
    ensures Val(dst[..n], B) == 0
  {
    for i := 0 to n
      invariant forall k :: 0 <= k < i ==> dst[k] == 0
    {
      dst[i] := 0;
    }
    ValZeros(dst[..n], B);
  }

  method CopyBlocks<T>(dst: array<T>, src: array<T>, n: nat)
    requires n <= dst.Length && n <= src.Length && dst != src
    modifies dst
    ensures dst[..n] == src[..n]
  {
    for i := 0 to n
      invariant dst[..i] == src[..i]
    {
      dst[i] := src[i];
      assert dst[..i + 1] == dst[..i] + [src[i]];
      assert src[..i + 1] == src[..i] + [src[i]];
    }
  }

  /** One column of an addition. A rollover shows as a sum less than either input. */
  method AddWithCarry(x: Blk, y: Blk, carryIn: bool) returns (t: Blk, carryOut: bool)
    ensures t + Carry(carryOut) * B == x + y + Carry(carryIn)
  {
    t := (x + y) % B;
    carryOut := t < x;
    if carryIn {
      t := (t + 1) % B;
      carryOut := carryOut || t == 0;
    }
  }

  /** One column of a subtraction. A reverse rollover shows as a difference greater than x. */
  method SubtractWithBorrow(x: Blk, y: Blk, borrowIn: bool) returns (t: Blk, borrowOut: bool)
    ensures x + Carry(borrowOut) * B == t + y + Carry(borrowIn)
  {
    t := (x - y) % B;
    borrowOut := t > x;
    if borrowIn {
      borrowOut := borrowOut || t == 0;
      t := (t - 1) % B;
    }
  }

  /** The lowest i columns of u + v are done: d holds them and carry is what is owed. */
  ghost predicate SumSoFar(d: seq<Blk>, carry: bool, u: seq<Blk>, v: seq<Blk>, i: nat)
    requires i <= |d| && i <= |u| && i <= |v|
  {
    Val(d[..i], B) + Carry(carry) * Pow(B, i) == Val(u[..i], B) + Val(v[..i], B)
  }

  /** All columns done: the equation is about the whole numbers. */
  lemma SumComplete(d: seq<Blk>, carry: bool, u: seq<Blk>, v: seq<Blk>)
    requires |d| == |u| == |v| && SumSoFar(d, carry, u, v, |d|)
    ensures Val(d, B) + (if carry then Pow(B, |d|) else 0) == Val(u, B) + Val(v, B)
    ensures Val(d, B) < Pow(B, |d|) && Val(u, B) < Pow(B, |d|) && Val(v, B) < Pow(B, |d|)
  {
    assert d[..|d|] == d;
    assert u[..|d|] == u;
    assert v[..|d|] == v;
    assert Digits(d, B) && Digits(u, B) && Digits(v, B);
    ValBound(d, B);
    ValBound(u, B);
    ValBound(v, B);
  }

  lemma SumColumn(d: seq<Blk>, cin: bool, u: seq<Blk>, v: seq<Blk>, i: nat, t: Blk, cout: bool)
    requires i < |d| && i < |u| && i < |v| && SumSoFar(d, cin, u, v, i)
    requires t + Carry(cout) * B == u[i] + v[i] + Carry(cin)
    ensures SumSoFar(d[i := t], cout, u, v, i + 1)
  {
    var e := d[i := t];
    assert e[..i] == d[..i];
    ValPrefix(e, i, B);
    ValPrefix(u, i, B);
    ValPrefix(v, i, B);
    CarryStep(Val(d[..i], B), Carry(cin), Val(u[..i], B), Val(v[..i], B), u[i], v[i], t, Carry(cout), Pow(B, i));
  }

  /** Write one column of the destination. */
  method PutBlock(dst: array<Blk>, i: nat, t: Blk)
    requires i < dst.Length
    modifies dst
    ensures dst[..] == old(dst[..])[i := t]
  {
    dst[i] := t;
  }

  /** dst := a + b over the blocks present in both. */
  method AddCommon(dst: array<Blk>, a: array<Blk>, b: array<Blk>, n: nat) returns (carry: bool)
    requires n <= a.Length && n <= b.Length && n <= dst.Length && dst != a && dst != b
    modifies dst
    ensures SumSoFar(dst[..], carry, a[..], b[..], n)
  {
    carry := false;
    for i := 0 to n
      invariant SumSoFar(dst[..], carry, a[..], b[..], i)
    {
      var temp, carryOut := AddWithCarry(a[i], b[i], carry);
      SumColumn(dst[..], carry, a[..], b[..], i, temp, carryOut);
      PutBlock(dst, i, temp);
      carry := carryOut;
    }
  }

  /** The columns only a has: roll the carry over, then copy. v is b padded with zeros. */
  method AddRest(dst: array<Blk>, a: array<Blk>, ghost v: seq<Blk>, from: nat, n: nat, carryIn: bool)
    returns (carry: bool)
    requires from <= n <= a.Length && n <= dst.Length && |v| == n && dst != a
    requires forall k :: from <= k < n ==> v[k] == 0
    requires SumSoFar(dst[..], carryIn, a[..], v, from)
    modifies dst
    ensures SumSoFar(dst[..], carry, a[..], v, n)
  {
    hide SumSoFar;
    carry := carryIn;
    var i := from;
    while i < n && carry
      invariant from <= i <= n
      invariant SumSoFar(dst[..], carry, a[..], v, i)
    {
      var temp: Blk := (a[i] + 1) % B;
      SumColumn(dst[..], carry, a[..], v, i, temp, temp == 0);
      PutBlock(dst, i, temp);
      carry := temp == 0;
      i := i + 1;
    }
    while i < n
      invariant from <= i <= n && (i < n ==> !carry)
      invariant SumSoFar(dst[..], carry, a[..], v, i)
    {
      SumColumn(dst[..], false, a[..], v, i, a[i], false);
      PutBlock(dst, i, a[i]);
      i := i + 1;
    }
  }

  /** dst := a + b over a's length; the carry out of it is returned. */
  method AddBlocks(dst: array<Blk>, a: array<Blk>, alen: nat, b: array<Blk>, blen: nat) returns (carry: bool)
    requires blen <= alen <= a.Length && blen <= b.Length && alen <= dst.Length && dst != a && dst != b
    modifies dst
    ensures Val(dst[..alen], B) + Carry(carry) * Pow(B, alen) == Val(a[..alen], B) + Val(b[..blen], B)
  {
    carry := AddCommon(dst, a, b, blen);
    ghost var v: seq<Blk> := Padded(b[..blen], alen);
    assert v[..blen] == b[..][..blen] == b[..blen];
    carry := AddRest(dst, a, v, blen, alen, carry);
    ValDropZeros(v, blen, B);
    assert v[..alen] == v;
    assert dst[..][..alen] == dst[..alen] && a[..][..alen] == a[..alen];
  }

  /** s with zero blocks on top, n blocks in all. */
  ghost function Padded(s: seq<Blk>, n: nat): (p: seq<Blk>)
    requires |s| <= n
    ensures |p| == n && p[..|s|] == s && forall k :: |s| <= k < n ==> p[k] == 0
  {
    s + seq(n - |s|, _ => 0)
  }

  // Subtraction: u - v = d with a borrow is the same equation, u + borrow = d + v.

  lemma DifferenceColumn(u: seq<Blk>, bin: bool, d: seq<Blk>, v: seq<Blk>, i: nat, t: Blk, bout: bool)
    requires i < |d| && i < |u| && i < |v| && SumSoFar(u, bin, d, v, i)
    requires u[i] + Carry(bout) * B == t + v[i] + Carry(bin)
    ensures SumSoFar(u, bout, d[i := t], v, i + 1)
  {
    var e := d[i := t];
    assert e[..i] == d[..i];
    ValPrefix(e, i, B);
    ValPrefix(u, i, B);
    ValPrefix(v, i, B);
    CarryStep(Val(u[..i], B), Carry(bin), Val(d[..i], B), Val(v[..i], B), t, v[i], u[i], Carry(bout), Pow(B, i));
  }

  /** dst := a - b over the blocks present in both. */
  method SubtractCommon(dst: array<Blk>, a: array<Blk>, b: array<Blk>, n: nat) returns (borrow: bool)
    requires n <= a.Length && n <= b.Length && n <= dst.Length && dst != a && dst != b
    modifies dst
    ensures SumSoFar(a[..], borrow, dst[..], b[..], n)
  {
    borrow := false;
    for i := 0 to n
      invariant SumSoFar(a[..], borrow, dst[..], b[..], i)
    {
      var temp, borrowOut := SubtractWithBorrow(a[i], b[i], borrow);
      DifferenceColumn(a[..], borrow, dst[..], b[..], i, temp, borrowOut);
      PutBlock(dst, i, temp);
      borrow := borrowOut;
    }
  }

  /** The columns only a has: roll the borrow over, then copy unless it never resolved. */
  method SubtractRest(dst: array<Blk>, a: array<Blk>, ghost v: seq<Blk>, from: nat, n: nat, borrowIn: bool)
    returns (borrow: bool)
    requires from <= n <= a.Length && n <= dst.Length && |v| == n && dst != a
    requires forall k :: from <= k < n ==> v[k] == 0
    requires SumSoFar(a[..], borrowIn, dst[..], v, from)
    modifies dst
    ensures SumSoFar(a[..], borrow, dst[..], v, n)
  {
    hide SumSoFar;
    borrow := borrowIn;
    var i := from;
    while i < n && borrow
      invariant from <= i <= n
      invariant SumSoFar(a[..], borrow, dst[..], v, i)
    {
      var borrowOut := a[i] == 0;
      var temp: Blk := (a[i] - 1) % B;
      DifferenceColumn(a[..], borrow, dst[..], v, i, temp, borrowOut);
      PutBlock(dst, i, temp);
      borrow := borrowOut;
      i := i + 1;
    }
    if !borrow {
      while i < n
        invariant from <= i <= n
        invariant SumSoFar(a[..], false, dst[..], v, i)
      {
        DifferenceColumn(a[..], false, dst[..], v, i, a[i], false);
        PutBlock(dst, i, a[i]);
        i := i + 1;
      }
    }
  }

  /** dst := a - b over a's length; a borrow out of the top means a < b. */
  method SubtractBlocks(dst: array<Blk>, a: array<Blk>, alen: nat, b: array<Blk>, blen: nat) returns (borrow: bool)
    requires blen <= alen <= a.Length && blen <= b.Length && alen <= dst.Length && dst != a && dst != b
    modifies dst
    ensures borrow <==> Val(a[..alen], B) < Val(b[..blen], B)
    ensures !borrow ==> Val(dst[..alen], B) + Val(b[..blen], B) == Val(a[..alen], B)
  {
    borrow := SubtractCommon(dst, a, b, blen);
    ghost var v: seq<Blk> := Padded(b[..blen], alen);
    assert v[..blen] == b[..][..blen] == b[..blen];
    borrow := SubtractRest(dst, a, v, blen, alen, borrow);
    ValDropZeros(v, blen, B);
    assert v[..alen] == v;
    assert dst[..][..alen] == dst[..alen] && a[..][..alen] == a[..alen];
    BlocksAreDigits(dst[..alen]);
    ValBound(dst[..alen], B);
  }
}
