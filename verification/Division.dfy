/** The shift-and-subtract loops of BigUnsigned::divideWithRemainder. */
module Division {
  import opened Powers
  import opened Radix
  import opened Bits
  import opened Blocks
  import opened BlockLoops

  /** Try blk[i..] - (b << y), columns i to i + blen, leaving the difference in buf. */
  method TrySubtract(blk: array<Blk>, buf: array<Blk>, b: array<Blk>, blen: nat, i: nat, y: nat) returns (borrow: bool)
    requires blen <= b.Length && i + blen < blk.Length && i + blen < buf.Length && y < N
    requires buf != blk && buf != b
    modifies buf
    ensures forall k :: 0 <= k < buf.Length && !(i <= k <= i + blen) ==> buf[k] == old(buf[k])
    ensures SumSoFar(blk[i..i + blen + 1], borrow, buf[i..i + blen + 1], Shifted(b[..blen], y), blen + 1)
  {
    ghost var v, w, m := Shifted(b[..blen], y), blk[i..i + blen + 1], i + blen + 1;
    borrow := false;
    for j := 0 to blen + 1
      invariant forall k :: 0 <= k < buf.Length && !(i <= k < i + j) ==> buf[k] == old(buf[k])
      invariant SumSoFar(w, borrow, buf[i..m], v, j)
    {
      var k := i + j;
      var temp, borrowOut := SubtractWithBorrow(blk[k], ShiftedBlock(b[..blen], j, y), borrow);
      DifferenceColumn(w, borrow, buf[i..m], v, j, temp, borrowOut);
      ghost var d := buf[i..m];
      buf[k] := temp;
      assert buf[i..m] == d[j := temp];
      borrow := borrowOut;
    }
  }

  /** What an attempt decides. w is the window of the dividend, d what the attempt left,
      x the shifted divisor. */
  lemma AttemptDecides(w: seq<Blk>, d: seq<Blk>, b: seq<Blk>, y: nat, borrow: bool)
    requires y < N && |w| == |d| == |b| + 1
    requires SumSoFar(w, borrow, d, Shifted(b, y), |b| + 1)
    ensures var x := Val(b, B) * Pow(2, y);
            && borrow == (Val(w, B) < x)
            && Val(d, B) == Val(w, B) - x + Carry(borrow) * Pow(B, |b| + 1)
  {
    SumComplete(w, borrow, d, Shifted(b, y));
    ShiftedValue(b, y);
  }

  lemma TopBlock(s: seq<Blk>)
    requires s != []
    ensures Val(s, B) == Val(s[..|s| - 1], B) + s[|s| - 1] * Pow(B, |s| - 1)
    ensures 0 <= Val(s[..|s| - 1], B) < Pow(B, |s| - 1)
  {
    ValPrefix(s, |s| - 1, B);
    assert s[..|s| - 1 + 1] == s;
    BlocksAreDigits(s[..|s| - 1]);
    ValBound(s[..|s| - 1], B);
  }

  /** A small value has a zero top block; a value just short of full has B - 1 there. */
  lemma TopBlockExtreme(s: seq<Blk>)
    requires s != []
    ensures Val(s, B) < Pow(B, |s| - 1) <==> s[|s| - 1] == 0
    ensures Val(s, B) >= Pow(B, |s|) - Pow(B, |s| - 1) ==> s[|s| - 1] == B - 1
  {
    TopBlock(s);
    var t, p := s[|s| - 1], Pow(B, |s| - 1);
    if t >= 1 {
      MulLe(1, t, p);
    }
    if t < B - 1 {
      MulLe(t, B - 2, p);
    }
  }

  /** Copy buf[i..top] over blk. */
  method CopyBack(blk: array<Blk>, buf: array<Blk>, i: nat, top: nat)
    requires i <= top <= blk.Length && top <= buf.Length && blk != buf
    modifies blk
    ensures forall k :: 0 <= k < blk.Length ==> blk[k] == if i <= k < top then buf[k] else old(blk[k])
  {
    for k := i to top
      invariant forall m :: 0 <= m < blk.Length ==> blk[m] == if i <= m < k then buf[m] else old(blk[m])
    {
      blk[k] := buf[k];
    }
  }

  /** One quotient bit: subtract b << (i blocks and y bits) if it fits. The copy back covers the
      blocks of the attempt, or with wide everything up to block n - 1. */
  method DivideBit(blk: array<Blk>, n: nat, buf: array<Blk>, b: array<Blk>, blen: nat, i: nat, y: nat, wide: bool)
    returns (hit: bool)
    requires blen <= b.Length && i + blen < n <= blk.Length && n <= buf.Length && y < N
    requires buf != blk && buf != b && blk != b
    modifies blk, buf
    ensures forall k :: 0 <= k < buf.Length && !(i <= k <= i + blen) ==> buf[k] == old(buf[k])
    ensures forall k :: 0 <= k < blk.Length && !(i <= k <= i + blen) ==>
              blk[k] == if hit && wide && i + blen < k < n then buf[k] else old(blk[k])
    ensures BitDone(old(blk[i..i + blen + 1]), blk[i..i + blen + 1], buf[i + blen], b[..blen], y, hit)
  {
    var borrow := TrySubtract(blk, buf, b, blen, i, y);
    ghost var w, d := blk[i..i + blen + 1], buf[i..i + blen + 1];
    AttemptMeaning(w, d, b[..blen], y, borrow);
    hit := !borrow;
    if hit {
      CopyBack(blk, buf, i, if wide then n else i + blen + 1);
      assert blk[i..i + blen + 1] == d;
    }
    assert d[blen] == buf[i + blen];
  }

  lemma AttemptMeaning(w: seq<Blk>, d: seq<Blk>, b: seq<Blk>, y: nat, borrow: bool)
    requires y < N && |w| == |d| == |b| + 1
    requires SumSoFar(w, borrow, d, Shifted(b, y), |b| + 1)
    ensures BitDone(w, if borrow then w else d, d[|b|], b, y, !borrow)
  {
    AttemptDecides(w, d, b, y, borrow);
    if y == 0 && Val(w, B) < 2 * Val(b, B) {
      assert Val(b, B) * Pow(2, 0) == Val(b, B);
      AttemptTop(w, d, b, y, !borrow);
    }
  }

  /** The window went from w to w', by the shifted divisor if it fitted; top is what the attempt
      left in its highest block. */
  ghost predicate BitDone(w: seq<Blk>, w': seq<Blk>, top: Blk, b: seq<Blk>, y: nat, hit: bool)
  {
    var x := Val(b, B) * Pow(2, y);
    && hit == (Val(w, B) >= x)
    && Val(w', B) == Val(w, B) - (if hit then x else 0)
    && (y == 0 && Val(w, B) < 2 * Val(b, B) ==> top == if hit then 0 else B - 1)
  }

  lemma AttemptTop(w: seq<Blk>, d: seq<Blk>, b: seq<Blk>, y: nat, hit: bool)
    requires |d| == |b| + 1 && y == 0 && Val(w, B) < 2 * Val(b, B)
    requires hit == (Val(w, B) >= Val(b, B))
    requires Val(d, B) == Val(w, B) - Val(b, B) + (if hit then 0 else Pow(B, |b| + 1))
    ensures d[|b|] == if hit then 0 else B - 1
  {
    TopBlockExtreme(d);
    BlocksAreDigits(b);
    ValBound(b, B);
  }

  /** Bits y and up of quotient block q are settled: w0 = w + q * b and w < b * 2^y. */
  ghost predicate BlockState(w0: seq<Blk>, w: seq<Blk>, q: nat, b: seq<Blk>, y: nat) {
    && q % Pow(2, y) == 0
    && Val(w0, B) == Val(w, B) + q * Val(b, B)
    && Val(w, B) < Val(b, B) * Pow(2, y)
  }

  function SetBit(q: nat, y: nat, hit: bool): nat {
    if hit then Bitwise(Or, q, Pow(2, y)) else q
  }

  lemma SettleBit(w0: seq<Blk>, w: seq<Blk>, q: nat, b: seq<Blk>, y: nat, w': seq<Blk>, top: Blk, hit: bool)
    requires BlockState(w0, w, q, b, y + 1) && BitDone(w, w', top, b, y, hit)
    requires Val(w0, B) < Val(b, B) * B
    ensures BlockState(w0, w', SetBit(q, y, hit), b, y)
    ensures SetBit(q, y, hit) < B
    ensures SetBit(q, y, hit) == 0 <==> q == 0 && !hit
    ensures y == 0 ==> top == if SetBit(q, y, hit) % 2 == 0 then B - 1 else 0
  {
    var bv, q' := Val(b, B), SetBit(q, y, hit);
    assert q' == (if hit then q + Pow(2, y) else q) && q' % Pow(2, y) == 0 && (y == 0 ==> q % 2 == 0) by {
      SetBitAdds(q, y);
    }
    SettleNumbers(Val(w0, B), Val(w, B), q, bv, Pow(2, y), hit);
    if y == 0 {
      LastAttempt(w, b, w', top, hit);
    }
  }

  lemma LastAttempt(w: seq<Blk>, b: seq<Blk>, w': seq<Blk>, top: Blk, hit: bool)
    requires BitDone(w, w', top, b, 0, hit) && Val(w, B) < Val(b, B) * Pow(2, 1)
    ensures top == if hit then 0 else B - 1
  {
    assert Val(b, B) * Pow(2, 1) == 2 * Val(b, B) by { assert Pow(2, 1) == 2 * Pow(2, 0) == 2; }
  }

  /** Setting a bit below all the set ones adds it. */
  lemma SetBitAdds(q: nat, y: nat)
    requires q % Pow(2, y + 1) == 0
    ensures Bitwise(Or, q, Pow(2, y)) == q + Pow(2, y)
    ensures q % Pow(2, y) == 0 && (q + Pow(2, y)) % Pow(2, y) == 0
    ensures y == 0 ==> q % 2 == 0
  {
    var p, m := Pow(2, y), Pow(2, y + 1);
    var h := q / m;
    assert q == m * h by { DivModDef(q, m); }
    assert Bitwise(Or, q, p) == q + p by { OrDisjoint(p, h, y + 1); }
    assert q == (2 * h) * p by { Associate(h, 2, p); }
    assert q + p == (2 * h + 1) * p by { Scale(p, 2 * h, 2 * h + 1, 1); }
    assert q % p == 0 by { DivModUnique(q, p, 2 * h, 0); }
    assert (q + p) % p == 0 by { DivModUnique(q + p, p, 2 * h + 1, 0); }
  }

  lemma SettleNumbers(v0: int, v: int, q: int, b: int, p: int, hit: bool)
    requires v0 == v + q * b && 0 <= v < b * (2 * p) && v0 < b * B && b > 0
    requires hit == (v >= b * p)
    ensures var q', v' := if hit then q + p else q, if hit then v - b * p else v;
            v0 == v' + q' * b && v' < b * p && q' < B
  {
    Associate(b, 2, p);
    assert b * (2 * p) == 2 * (b * p);
    Scale(b, q, q + p, p);
    assert p * b == b * p;
    var q' := if hit then q + p else q;
    assert q' * b < B * b;
    MulCancelLt(q', B, b);
  }

  /** All bits of one quotient block: divide the window by b. */
  method DivideBlock(blk: array<Blk>, n: nat, buf: array<Blk>, b: array<Blk>, blen: nat, i: nat, wide: bool)
    returns (qi: Blk)
    requires blen <= b.Length && i + blen < n <= blk.Length && n <= buf.Length
    requires buf != blk && buf != b && blk != b
    requires Val(blk[i..i + blen + 1], B) < Val(b[..blen], B) * B
    modifies blk, buf
    ensures forall k :: 0 <= k < buf.Length && !(i <= k <= i + blen) ==> buf[k] == old(buf[k])
    ensures forall k :: 0 <= k < blk.Length && !(i <= k <= i + blen) ==>
              blk[k] == if qi != 0 && wide && i + blen < k < n then buf[k] else old(blk[k])
    ensures BlockState(old(blk[i..i + blen + 1]), blk[i..i + blen + 1], qi, b[..blen], 0)
    ensures buf[i + blen] == if qi % 2 == 0 then B - 1 else 0
  {
    ghost var w0, d := blk[i..i + blen + 1], b[..blen];
    qi := 0;
    BlockBase();
    DivModUnique(0, Pow(2, N), 0, 0);
    for y := N downto 0
      invariant forall k :: 0 <= k < buf.Length && !(i <= k <= i + blen) ==> buf[k] == old(buf[k])
      invariant forall k :: 0 <= k < blk.Length && !(i <= k <= i + blen) ==>
                  blk[k] == if qi != 0 && wide && i + blen < k < n then buf[k] else old(blk[k])
      invariant BlockState(w0, blk[i..i + blen + 1], qi, d, y)
      invariant y == 0 ==> buf[i + blen] == if qi % 2 == 0 then B - 1 else 0
    {
      ghost var w := blk[i..i + blen + 1];
      var hit := DivideBit(blk, n, buf, b, blen, i, y, wide);
      SettleBit(w0, w, qi, d, y, blk[i..i + blen + 1], buf[i + blen], hit);
      qi := SetBit(qi, y, hit);
    }
  }

  // From the window at block i to the whole dividend

  /** Quotient blocks qs, from block i up, are settled; r is what is left of the dividend a. */
  ghost predicate Settled(a: nat, r: seq<Blk>, qs: seq<Blk>, b: seq<Blk>, i: nat) {
    && a == Val(r, B) + Val(qs, B) * (Val(b, B) * Pow(B, i))
    && Val(r, B) < Val(b, B) * Pow(B, i)
  }

  lemma BeforeBlock(s: seq<Blk>, i: nat, b: seq<Blk>, a: nat, qs: seq<Blk>)
    requires |s| == i + |b| + 1 && Settled(a, s, qs, b, i + 1)
    ensures Val(s[i..], B) < Val(b, B) * B
  {
    var p, w, bv := Pow(B, i), Val(s[i..], B), Val(b, B);
    assert Val(s, B) == Val(s[..i], B) + p * w by { ValSplit(s, i, B); }
    Associate(bv, B, p);
    assert w * p < (bv * B) * p;
    MulCancelLt(w, bv * B, p);
  }

  lemma AfterBlock(s: seq<Blk>, s': seq<Blk>, i: nat, b: seq<Blk>, qi: Blk, a: nat, qs: seq<Blk>)
    requires |s| == |s'| == i + |b| + 1 && s[..i] == s'[..i]
    requires BlockState(s[i..], s'[i..], qi, b, 0)
    requires Settled(a, s, qs, b, i + 1)
    ensures s'[i + |b|] == 0
    ensures Settled(a, s'[..i + |b|], [qi] + qs, b, i)
  {
    var p, bv, low, w, w' := Pow(B, i), Val(b, B), Val(s[..i], B), Val(s[i..], B), Val(s'[i..], B);
    assert w == w' + qi * bv && w' < bv;
    assert s'[i + |b|] == 0 by {
      assert Val(b, B) < Pow(B, |b|) by { assert Digits(b, B); ValBound(b, B); }
      assert s'[i..][|b|] == s'[i + |b|];
      TopBlockExtreme(s'[i..]);
    }
    assert Val(s'[..i + |b|], B) == Val(s', B) by { ValDropZeros(s', i + |b|, B); }
    assert Val(s, B) == low + p * w by { ValSplit(s, i, B); }
    assert Val(s', B) == low + p * w' by { ValSplit(s', i, B); }
    assert low < p by { assert Digits(s[..i], B); ValBound(s[..i], B); }
    assert Val([qi] + qs, B) == qi + B * Val(qs, B) by {
      assert ([qi] + qs)[1..] == qs;
    }
    AfterBlockNumbers(a, low, p, w, w', qi, Val(qs, B), bv);
  }

  lemma AfterBlockNumbers(a: int, low: int, p: int, w: int, w': int, qi: int, q: int, b: int)
    requires w == w' + qi * b && w' < b && low < p && p > 0
    requires a == low + p * w + q * (b * (B * p))
    ensures a == low + p * w' + (qi + B * q) * (b * p)
    ensures low + p * w' < b * p
  {
    assert p * w == p * w' + (qi * b) * p by { Scale(p, w', w, qi * b); }
    assert (qi * b) * p == qi * (b * p) by { Associate(qi, b, p); }
    assert q * (b * (B * p)) == (B * q) * (b * p) by { assert b * (B * p) == B * (b * p); }
    assert (qi + B * q) * (b * p) == qi * (b * p) + (B * q) * (b * p) by { Distribute(b * p, qi, B * q); }
    MulLe(w' + 1, b, p);
    Scale(p, w', w' + 1, 1);
  }

  /** Some quotient block in [i, m) is nonzero. */
  ghost predicate NonzeroIn(q: seq<Blk>, i: nat, m: nat)
    requires m <= |q|
  {
    exists k :: i <= k < m && q[k] != 0
  }

  /** What line 515 leaves above the remainder: B - 1 for each even quotient block
      above the lowest nonzero one. */
  ghost function Leftover(q: seq<Blk>, i: nat, m: nat): Blk
    requires m < |q|
  {
    if NonzeroIn(q, i, m) && q[m] % 2 == 0 then B - 1 else 0
  }

  /** What the blocks above the active ones hold: in buf, the traces of failed attempts;
      in blk, zeros or, with the wide copy back, those traces. */
  ghost predicate Traces(blk: seq<Blk>, buf: seq<Blk>, q: seq<Blk>, blen: nat, i: nat, wide: bool)
    requires |q| + blen <= |blk| && |q| + blen <= |buf|
  {
    forall m :: i <= m < |q| ==> TraceAt(blk, buf, q, blen, i, m, wide)
  }

  ghost predicate TraceAt(blk: seq<Blk>, buf: seq<Blk>, q: seq<Blk>, blen: nat, i: nat, m: nat, wide: bool)
    requires |q| + blen <= |blk| && |q| + blen <= |buf| && m < |q|
  {
    && buf[m + blen] == (if q[m] % 2 == 0 then B - 1 else 0)
    && blk[m + blen] == (if wide then Leftover(q, i, m) else 0)
  }

  /** A new lowest quotient block decides about every block above it. */
  lemma NonzeroStep(q: seq<Blk>, i: nat, qi: Blk, m: nat)
    requires i < m < |q|
    ensures NonzeroIn(q[i := qi], i, m) <==> qi != 0 || NonzeroIn(q, i + 1, m)
  {
    var q' := q[i := qi];
    if qi != 0 {
      assert q'[i] != 0;
    } else if NonzeroIn(q, i + 1, m) {
      var k :| i + 1 <= k < m && q[k] != 0;
      assert q'[k] != 0;
    } else {
      assert forall k :: i <= k < m ==> q'[k] == if k == i then 0 else q[k];
    }
  }

  lemma LeftoverStep(q: seq<Blk>, i: nat, qi: Blk, m: nat)
    requires i < m < |q|
    ensures Leftover(q[i := qi], i, m)
            == if qi != 0 then (if q[m] % 2 == 0 then B - 1 else 0) else Leftover(q, i + 1, m)
  {
    NonzeroStep(q, i, qi, m);
    assert q[i := qi][m] == q[m];
  }

  lemma NothingBelow(q: seq<Blk>, i: nat)
    requires i < |q|
    ensures Leftover(q, i, i) == 0
  {
  }

  lemma TracesStep(blk: seq<Blk>, buf: seq<Blk>, q: seq<Blk>, blen: nat, i: nat, wide: bool,
                   blk': seq<Blk>, buf': seq<Blk>, qi: Blk)
    requires |blk| == |blk'| && |buf| == |buf'| && |q| + blen <= |blk| && |q| + blen <= |buf| && i < |q|
    requires Traces(blk, buf, q, blen, i + 1, wide)
    requires forall k :: i + blen < k < |buf| ==> buf'[k] == buf[k]
    requires forall k :: i + blen < k < |q| + blen ==> blk'[k] == if qi != 0 && wide then buf'[k] else blk[k]
    requires buf'[i + blen] == if qi % 2 == 0 then B - 1 else 0
    requires blk'[i + blen] == 0
    ensures Traces(blk', buf', q[i := qi], blen, i, wide)
  {
    hide Leftover;
    var q' := q[i := qi];
    NothingBelow(q', i);
    forall m | i <= m < |q|
      ensures TraceAt(blk', buf', q', blen, i, m, wide)
    {
      if m > i {
        var k := m + blen;
        assert q'[m] == q[m] && buf'[k] == buf[k];
        assert TraceAt(blk, buf, q, blen, i + 1, m, wide);
        assert blk'[k] == if qi != 0 && wide then buf'[k] else blk[k];
        LeftoverStep(q, i, qi, m);
      }
    }
  }

  /** Settle quotient block i. */
  method DivideStep(blk: array<Blk>, n: nat, buf: array<Blk>, b: array<Blk>, blen: nat, q: array<Blk>, qlen: nat,
                    i: nat, wide: bool, ghost a: nat)
    requires blen <= b.Length && n == qlen + blen <= blk.Length && n <= buf.Length && i < qlen <= q.Length
    requires buf != blk && buf != b && blk != b && q != blk && q != b && q != buf
    requires Settled(a, blk[..i + 1 + blen], q[i + 1..qlen], b[..blen], i + 1)
    requires Traces(blk[..], buf[..], q[..qlen], blen, i + 1, wide)
    modifies blk, buf, q
    ensures Settled(a, blk[..i + blen], q[i..qlen], b[..blen], i)
    ensures Traces(blk[..], buf[..], q[..qlen], blen, i, wide)
  {
    hide Val, Settled, BlockState, Leftover;
    ghost var s, q0, d := blk[..i + blen + 1], q[..qlen], b[..blen];
    assert q0[i + 1..] == q[i + 1..qlen];
    ghost var blk0, buf0 := blk[..], buf[..];
    BeforeBlock(s, i, d, a, q0[i + 1..]);
    assert s[i..] == blk[i..i + blen + 1];
    var qi := DivideBlock(blk, n, buf, b, blen, i, wide);
    ghost var s' := blk[..i + blen + 1];
    assert s'[i..] == blk[i..i + blen + 1];
    assert s'[..i] == s[..i];
    AfterBlock(s, s', i, d, qi, a, q0[i + 1..]);
    assert s'[..i + blen] == blk[..i + blen];
    TracesStep(blk0, buf0, q0, blen, i, wide, blk[..], buf[..], qi);
    q[i] := qi;
    assert q[..qlen] == q0[i := qi];
    assert q[i..qlen] == [qi] + q0[i + 1..];
  }

  /** Shift-and-subtract over every block of the quotient, highest first. */
  method DivideLoop(blk: array<Blk>, n: nat, buf: array<Blk>, b: array<Blk>, blen: nat, q: array<Blk>, qlen: nat,
                    wide: bool)
    requires blen <= b.Length && n == qlen + blen <= blk.Length && n <= buf.Length && qlen <= q.Length
    requires buf != blk && buf != b && blk != b && q != blk && q != b && q != buf
    requires Val(blk[..n], B) < Val(b[..blen], B) * Pow(B, qlen)
    modifies blk, buf, q
    ensures Val(old(blk[..n]), B) == Val(blk[..blen], B) + Val(q[..qlen], B) * Val(b[..blen], B)
    ensures Val(blk[..blen], B) < Val(b[..blen], B)
    ensures blk[blen..n] == Above(q[..qlen], wide)
  {
    ghost var a := Val(blk[..n], B);
    assert q[qlen..qlen] == [] && Val([], B) == 0;
    for i := qlen downto 0
      invariant Settled(a, blk[..i + blen], q[i..qlen], b[..blen], i)
      invariant Traces(blk[..], buf[..], q[..qlen], blen, i, wide)
    {
      DivideStep(blk, n, buf, b, blen, q, qlen, i, wide, a);
    }
    SettledAll(a, blk[..blen], q[..qlen], b[..blen]);
    TracesDone(blk[..], buf[..], q[..qlen], blen, wide);
    assert blk[..][blen..n] == blk[blen..n];
  }

  /** The blocks left above the remainder when the loop is over. */
  ghost function Above(q: seq<Blk>, wide: bool): (s: seq<Blk>)
    ensures |s| == |q|
  {
    seq(|q|, m requires 0 <= m < |q| => if wide then Leftover(q, 0, m) else 0)
  }

  lemma TracesDone(blk: seq<Blk>, buf: seq<Blk>, q: seq<Blk>, blen: nat, wide: bool)
    requires |q| + blen <= |blk| && |q| + blen <= |buf| && Traces(blk, buf, q, blen, 0, wide)
    ensures blk[blen..blen + |q|] == Above(q, wide)
  {
    forall m | 0 <= m < |q|
      ensures blk[blen..blen + |q|][m] == Above(q, wide)[m]
    {
      assert TraceAt(blk, buf, q, blen, 0, m, wide);
    }
  }

  lemma SettledAll(a: nat, r: seq<Blk>, qs: seq<Blk>, b: seq<Blk>)
    requires Settled(a, r, qs, b, 0)
    ensures a == Val(r, B) + Val(qs, B) * Val(b, B) && Val(r, B) < Val(b, B)
  {
  }

  // The division as arithmetic

  /** n blocks of v, least significant first. */
  ghost function BlocksOf(v: nat, n: nat): (s: seq<Blk>)
    ensures |s| == n
  {
    seq(n, m requires 0 <= m < n => (v / Pow(B, m)) % B)
  }

  lemma BlocksOfValue(s: seq<Blk>)
    ensures s == BlocksOf(Val(s, B), |s|)
  {
    assert Digits(s, B);
    forall m | 0 <= m < |s|
      ensures s[m] == BlocksOf(Val(s, B), |s|)[m]
    {
      ValDigit(s, m, B);
    }
  }

  /** What line 515 adds to the remainder of a divided by b, operands of alen and blen blocks. */
  ghost function Garbage(a: nat, alen: nat, b: nat, blen: nat): nat
    requires blen <= alen && b > 0
  {
    Pow(B, blen) * Val(Above(BlocksOf(a / b, alen - blen + 1), true), B)
  }

  lemma LoopResult(a: nat, alen: nat, b: nat, blen: nat, r: seq<Blk>, q: seq<Blk>, wide: bool)
    requires blen <= alen && b > 0 && |q| == alen - blen + 1 && |r| == alen + 1
    requires a == Val(r[..blen], B) + Val(q, B) * b && Val(r[..blen], B) < b
    requires r[blen..] == Above(q, wide)
    ensures Val(q, B) == a / b
    ensures Val(r, B) == a % b + if wide then Garbage(a, alen, b, blen) else 0
  {
    DivModUnique(a, b, Val(q, B), Val(r[..blen], B));
    BlocksOfValue(q);
    ValSplit(r, blen, B);
    if !wide {
      ValZeros(Above(q, wide), B);
      assert Pow(B, blen) * 0 == 0;
    }
  }

  /** The quotient needs all but perhaps the top one of its preliminary blocks. */
  lemma QuotientLength(a: nat, alen: nat, b: nat, blen: nat, q: nat)
    requires 0 < blen <= alen && 0 < b < Pow(B, blen) && Pow(B, alen - 1) <= a && q == a / b
    ensures alen > blen ==> Pow(B, alen - blen - 1) <= q
  {
    var d := alen - blen;
    assert a < (q + 1) * b by { DivModDef(a, b); Scale(b, q, q + 1, 1); }
    MulLe(b, Pow(B, blen), q + 1);
    assert Pow(B, alen) == Pow(B, d) * Pow(B, blen) by { PowAdd(B, d, blen); }
    assert Pow(B, alen) == B * Pow(B, alen - 1);
    assert b * (q + 1) == (q + 1) * b;
    assert Pow(B, blen) * (q + 1) == (q + 1) * Pow(B, blen);
    assert Pow(B, d) * Pow(B, blen) < (B * (q + 1)) * Pow(B, blen) by { Associate(B, q + 1, Pow(B, blen)); }
    MulCancelLt(Pow(B, d), B * (q + 1), Pow(B, blen));
  }

  /** The dividend is small enough for the first attempt. */
  lemma DividendFits(a: seq<Blk>, b: seq<Blk>)
    requires 0 < |b| <= |a| && Canonical(b)
    ensures Val(a, B) < Val(b, B) * Pow(B, |a| - |b| + 1)
  {
    assert Digits(a, B);
    ValBound(a, B);
    ValCanonicalLower(b, B);
    var d := |a| - |b| + 1;
    PowAdd(B, |b| - 1, d);
    MulLe(Pow(B, |b| - 1), Val(b, B), Pow(B, d));
  }

  lemma QuotientTop(a: seq<Blk>, b: seq<Blk>, q: seq<Blk>)
    requires 0 < |b| <= |a| && Canonical(a) && Canonical(b) && |q| == |a| - |b| + 1
    requires Val(b, B) > 0 && Val(q, B) == Val(a, B) / Val(b, B)
    ensures AtMostOneZero(q)
  {
    CanonicalRange(a);
    CanonicalRange(b);
    QuotientLength(Val(a, B), |a|, Val(b, B), |b|, Val(q, B));
  }

  /** The division proper, on canonical operands and with a zero block above the dividend. */
  method DivideBlocks(blk: array<Blk>, alen: nat, b: array<Blk>, blen: nat, q: array<Blk>, qlen: nat, wide: bool)
    requires 0 < blen <= b.Length && blen <= alen < blk.Length && qlen == alen - blen + 1 <= q.Length
    requires blk != b && q != blk && q != b
    requires Canonical(blk[..alen]) && Canonical(b[..blen]) && blk[alen] == 0
    modifies blk, q
    ensures Val(b[..blen], B) > 0
    ensures Val(q[..qlen], B) == Val(old(blk[..alen]), B) / Val(b[..blen], B) && AtMostOneZero(q[..qlen])
    ensures Val(blk[..alen + 1], B) == Val(old(blk[..alen]), B) % Val(b[..blen], B)
              + if wide then Garbage(Val(old(blk[..alen]), B), alen, Val(b[..blen], B), blen) else 0
  {
    ghost var a, d, n := blk[..alen], b[..blen], alen + 1;
    var buf := new Blk[alen + 1];
    ZeroBlocks(q, qlen);
    DividendFits(a, d);
    assert blk[..n] == a + [0];
    ValAppendOne(a, 0);
    DivideLoop(blk, alen + 1, buf, b, blen, q, qlen, wide);
    assert blk[..n][..blen] == blk[..blen] && blk[..n][blen..] == blk[blen..n];
    assert Val(d, B) > 0 by { CanonicalRange(d); }
    LoopResult(Val(a, B), alen, Val(d, B), blen, blk[..n], q[..qlen], wide);
    QuotientTop(a, d, q[..qlen]);
  }

  /** Every preliminary block of floor(a / b) above the lowest nonzero one is odd. */
  ghost predicate QuotientBlocksOdd(a: nat, alen: nat, b: nat, blen: nat)
    requires blen <= alen && b > 0
  {
    forall m :: 0 <= m < alen - blen + 1 && (a / b) % Pow(B, m) != 0 ==> ((a / b) / Pow(B, m)) % B % 2 == 1
  }

  lemma LowBlocks(v: nat, n: nat, m: nat)
    requires m <= n
    ensures Val(BlocksOf(v, n)[..m], B) == v % Pow(B, m)
  {
    hide Val;
    if m == 0 {
      assert BlocksOf(v, n)[..0] == [];
      NoBlocks(v);
    } else {
      var p := Pow(B, m - 1);
      LowBlocks(v, n, m - 1);
      ValPrefix(BlocksOf(v, n), m - 1, B);
      SplitTwice(v, p, B);
      Commute(p, B);
    }
  }

  lemma NoBlocks(v: nat)
    ensures Val([], B) == 0 == v % Pow(B, 0)
  {
    DivModUnique(v, Pow(B, 0), v, 0);
  }

  /** Line 515 does no harm exactly when all those quotient blocks are odd. */
  lemma GarbageFreeIff(a: nat, alen: nat, b: nat, blen: nat)
    requires blen <= alen && b > 0
    ensures Garbage(a, alen, b, blen) == 0 <==> QuotientBlocksOdd(a, alen, b, blen)
  {
    hide Pow, Val;
    var v, n := a / b, alen - blen + 1;
    var q := BlocksOf(v, n);
    ValZeros(Above(q, true), B);
    forall m | 0 <= m < n
      ensures Above(q, true)[m] == 0 <==> (v % Pow(B, m) != 0 ==> (v / Pow(B, m)) % B % 2 == 1)
    {
      LowBlocks(v, n, m);
      ValZeros(q[..m], B);
      assert NonzeroIn(q, 0, m) <==> !forall k :: 0 <= k < m ==> q[..m][k] == 0;
    }
    if Garbage(a, alen, b, blen) == 0 && Val(Above(q, true), B) > 0 {
      MulLe(1, Val(Above(q, true), B), Pow(B, blen));
    }
  }
}
