/** The block loops of bitShiftLeft and bitShiftRight. */
module Shifts {
  import opened Powers
  import opened Radix
  import opened Blocks
  import opened BlockLoops

  lemma BlockPower(up: nat)
    ensures Pow(2, N * up) == Pow(B, up)
  {
    BlockBase();
    PowMul(2, N, up);
  }

  /** dst := src << (up blocks and y bits), |src| + up + 1 blocks in all. */
  method ShiftBlocksUp(dst: array<Blk>, src: array<Blk>, n: nat, up: nat, y: nat)
    requires n <= src.Length && n + up + 1 <= dst.Length && dst != src && y < N
    modifies dst
    ensures dst[..n + up + 1] == Zeros(up) + Shifted(src[..n], y)
  {
    for i := 0 to up
      invariant forall k :: 0 <= k < i ==> dst[k] == 0
    {
      dst[i] := 0;
    }
    for j := 0 to n + 1
      invariant forall k :: 0 <= k < up ==> dst[k] == 0
      invariant forall k :: 0 <= k < j ==> dst[up + k] == ShiftedBlock(src[..n], k, y)
    {
      dst[up + j] := ShiftedBlock(src[..n], j, y);
    }
  }

  ghost function Zeros(n: nat): seq<Blk> {
    seq(n, _ => 0)
  }

  lemma LeftShiftValue(a: seq<Blk>, up: nat, y: nat)
    requires y < N
    ensures Val(Zeros(up) + Shifted(a, y), B) == Val(a, B) * Pow(2, up * N + y)
  {
    hide Pow;
    var p, t, v := Pow(B, up), Pow(2, y), Val(a, B);
    assert Val(Zeros(up) + Shifted(a, y), B) == p * (v * t) by {
      ValAppend(Zeros(up), Shifted(a, y), B);
      ValZeros(Zeros(up), B);
      ShiftedValue(a, y);
    }
    assert Pow(2, up * N + y) == p * t by {
      assert up * N == N * up;
      BlockPower(up);
      PowAdd(2, up * N, y);
    }
    assert p * (v * t) == v * (p * t) by {
      Associate(p, v, t);
      Associate(v, p, t);
    }
  }

  lemma LeftShiftLength(s: seq<Blk>, a: seq<Blk>, up: nat, y: nat)
    requires a != [] && Canonical(a) && |s| == |a| + up + 1 && y < N
    requires Val(s, B) == Val(a, B) * Pow(2, up * N + y)
    ensures AtMostOneZero(s)
  {
    var p, r, v := Pow(B, up), Pow(B, |a| - 1), Pow(2, up * N + y);
    assert p <= v by {
      assert up * N == N * up;
      BlockPower(up);
      PowMono(2, up * N, up * N + y);
    }
    assert r <= Val(a, B) by { CanonicalRange(a); }
    assert Pow(B, |s| - 2) == r * p by { PowAdd(B, |a| - 1, up); }
    ProductMono(r, Val(a, B), p, v);
  }

  lemma LeftShiftOfZero(s: seq<Blk>)
    requires s != [] && Val(s, B) == 0
    ensures s[|s| - 1] == 0 && Val(s[..|s| - 1], B) == 0
    ensures Canonical(s[..|s| - 1]) <==> |s| == 1
  {
    ValZeros(s, B);
    ValDropZeros(s, |s| - 1, B);
  }

  /** dst := src << y without its lowest down blocks. */
  method ShiftBlocksDown(dst: array<Blk>, src: array<Blk>, n: nat, down: nat, y: nat)
    requires n <= src.Length && down <= n && n + 1 - down <= dst.Length && dst != src && y < N
    modifies dst
    ensures dst[..n + 1 - down] == Shifted(src[..n], y)[down..]
  {
    for i := 0 to n + 1 - down
      invariant forall k :: 0 <= k < i ==> dst[k] == ShiftedBlock(src[..n], k + down, y)
    {
      dst[i] := ShiftedBlock(src[..n], i + down, y);
    }
  }

  /** Everything is shifted off. */
  lemma ShiftedOff(a: seq<Blk>, b: nat)
    requires |a| + 1 <= (b + N - 1) / N
    ensures Val(a, B) / Pow(2, b) == 0
  {
    assert Digits(a, B);
    ValBound(a, B);
    BlockPower(|a|);
    PowMono(2, N * |a|, b);
    DivModUnique(Val(a, B), Pow(2, b), 0, Val(a, B));
  }

  lemma RightShiftValue(s: seq<Blk>, a: seq<Blk>, down: nat, y: nat, b: nat)
    requires down <= |a| && y < N && N * down == b + y && s == Shifted(a, y)[down..] && Canonical(a)
    ensures Val(s, B) == Val(a, B) / Pow(2, b)
    ensures AtMostOneZero(s)
  {
    hide Val, Pow, Shifted;
    var t, p := Shifted(a, y), Pow(B, down);
    assert Val(t, B) == Pow(2, y) * Val(a, B) by { ShiftedValue(a, y); }
    assert p == Pow(2, y) * Pow(2, b) by {
      BlockPower(down);
      PowAdd(2, y, b);
    }
    DropLow(t, down);
    DivCancel(Val(a, B), Pow(2, y), Pow(2, b));
    if |s| > 1 {
      assert Pow(B, |a| - 1) == Pow(B, |s| - 2) * p by { PowAdd(B, |s| - 2, down); }
      CanonicalRange(a);
      RightShiftLength(Val(t, B), p, Val(s, B), Pow(2, y), Val(a, B), Pow(B, |a| - 1), Pow(B, |s| - 2));
    }
  }

  lemma DropLow(t: seq<Blk>, i: nat)
    requires i <= |t|
    ensures Val(t, B) / Pow(B, i) == Val(t[i..], B)
  {
    assert Digits(t[..i], B);
    ValBound(t[..i], B);
    ValSplit(t, i, B);
    assert Pow(B, i) * Val(t[i..], B) == Val(t[i..], B) * Pow(B, i);
    DivModUnique(Val(t, B), Pow(B, i), Val(t[i..], B), Val(t[..i], B));
  }

  lemma RightShiftLength(t: nat, p: nat, s: nat, z: nat, a: nat, low: nat, want: nat)
    requires p > 0 && z > 0 && t == z * a && s == t / p && low <= a
    requires low == want * p
    ensures want <= s
  {
    MulLe(1, z, a);
    DivModDef(t, p);
    if s < want {
      Scale(p, s, s + 1, 1);
      MulLe(s + 1, want, p);
    }
  }
}
