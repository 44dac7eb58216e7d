/** BigUnsigned: a natural number in a growable array of blocks, least significant
    first, the top block nonzero. */
module BigUnsigneds {
  import opened Powers
  import opened Radix
  import opened Bits
  import opened Blocks
  import opened BlockLoops
  import opened Multiplication
  import opened Division
  import opened Leftovers
  import opened Shifts
  import opened BlockBits
  import opened Outcomes

  datatype CmpRes = Less | Equal | Greater

  class BigUnsigned {
    var cap: nat
    var len: nat
    var blk: array<Blk>

    ghost predicate Sized()
      reads this
    {
      cap == blk.Length
    }

    ghost predicate Stored()
      reads this
    {
      len <= cap == blk.Length
    }

    /** Storage is sound and the top block is nonzero. */
    ghost predicate Valid()
      reads this, blk
    {
      Stored() && Canonical(blk[..len])
    }

    ghost function Value(): nat
      requires Stored()
      reads this, blk
    {
      Val(blk[..len], B)
    }

    /** Distinct objects own distinct arrays. */
    ghost predicate Apart(x: BigUnsigned)
      reads this, x
    {
      x == this || x.blk != blk
    }

    // Storage

    constructor ()
      ensures Valid() && len == 0 && fresh(blk)
    {
      cap, len, blk := 0, 0, new Blk[0];
    }

    constructor Copy(x: BigUnsigned)
      requires x.Stored()
      ensures Stored() && blk[..len] == x.blk[..x.len] && fresh(blk)
      ensures Value() == x.Value() && (x.Valid() ==> Valid())
    {
      cap, len, blk := x.len, x.len, new Blk[x.len];
      new;
      CopyBlocks(blk, x.blk, len);
    }

    /** From a single machine word. */
    constructor FromWord(w: Blk)
      ensures Valid() && Value() == w && fresh(blk)
    {
      cap, len, blk := 0, 0, new Blk[0];
      new;
      if w != 0 {
        cap, len, blk := 1, 1, new Blk[1];
        blk[0] := w;
        assert blk[..len] == [w];
        assert Val([w], B) == w + B * Val([], B);
      }
    }

    /** From an array of blocks that may have leading zeros. */
    constructor FromBlocks(b: array<Blk>, blen: nat)
      requires blen <= b.Length
      ensures Valid() && Value() == Val(b[..blen], B) && fresh(blk)
    {
      cap, len, blk := blen, blen, new Blk[blen];
      new;
      CopyBlocks(blk, b, len);
      ZapLeadingZeros();
    }

    method Allocate(c: nat)
      requires Sized()
      modifies `cap, `blk
      ensures Sized() && cap >= c
      ensures blk == old(blk) || fresh(blk)
      ensures old(cap) >= c ==> blk == old(blk)
    {
      if c > cap {
        cap, blk := c, new Blk[c];
      }
    }

    method AllocateAndCopy(c: nat)
      requires Stored()
      modifies `cap, `blk
      ensures Stored() && cap >= c
      ensures blk == old(blk) || fresh(blk)
      ensures blk[..len] == old(blk[..len])
    {
      if c > cap {
        var oldBlk := blk;
        cap, blk := c, new Blk[c];
        CopyBlocks(blk, oldBlk, len);
      }
    }

    method Assign(x: BigUnsigned)
      requires Sized() && x.Stored() && Apart(x)
      modifies this, blk
      ensures Stored() && blk[..len] == old(x.blk[..x.len])
      ensures blk == old(blk) || fresh(blk)
    {
      if this == x {
        return;
      }
      len := x.len;
      Allocate(len);
      CopyBlocks(blk, x.blk, len);
    }

    method ZapLeadingZeros()
      requires Stored()
      modifies `len
      ensures Valid() && len <= old(len) && Value() == old(Value())
      ensures forall k :: len <= k < old(len) ==> blk[k] == 0
    {
      ghost var all := blk[..len];
      while len > 0 && blk[len - 1] == 0
        invariant len <= |all| && all == blk[..|all|]
        invariant forall k :: len <= k < |all| ==> all[k] == 0
      {
        len := len - 1;
      }
      ValDropZeros(all, len, B);
      assert all[..len] == blk[..len];
    }

    method ZapOneZero()
      requires Stored() && len > 0 && AtMostOneZero(blk[..len])
      modifies `len
      ensures Valid() && Value() == old(Value())
    {
      DropTop(blk[..len]);
      if blk[len - 1] == 0 {
        assert blk[..len][..len - 1] == blk[..len - 1];
        len := len - 1;
      }
    }

    method Equals(x: BigUnsigned) returns (eq: bool)
      requires Valid() && x.Valid()
      ensures eq <==> blk[..len] == x.blk[..x.len]
      ensures eq <==> Value() == x.Value()
    {
      BlocksAreDigits(blk[..len]);
      BlocksAreDigits(x.blk[..x.len]);
      if Value() == x.Value() {
        ValUnique(blk[..len], x.blk[..x.len], B);
      }
      if len != x.len {
        return false;
      }
      for i := 0 to len
        invariant forall k :: 0 <= k < i ==> blk[k] == x.blk[k]
      {
        if blk[i] != x.blk[i] {
          assert blk[..len][i] != x.blk[..x.len][i];
          return false;
        }
      }
      assert blk[..len] == x.blk[..x.len];
      return true;
    }

    predicate IsZero()
      reads this
    {
      len == 0
    }

    lemma ZeroIffEmpty()
      requires Valid()
      ensures Value() == 0 <==> len == 0
    {
      if len > 0 {
        ValCanonicalLower(blk[..len], B);
      }
    }

    method CompareTo(x: BigUnsigned) returns (r: CmpRes)
      requires Valid() && x.Valid()
      ensures r == if Value() < x.Value() then Less else if Value() > x.Value() then Greater else Equal
    {
      ghost var s, t := blk[..len], x.blk[..x.len];
      BlocksAreDigits(s);
      BlocksAreDigits(t);
      if len < x.len {
        ValLonger(s, t, B);
        return Less;
      } else if len > x.len {
        ValLonger(t, s, B);
        return Greater;
      }
      var i := len;
      while i > 0
        invariant 0 <= i <= |s| == |t| && s[i..] == t[i..]
      {
        i := i - 1;
        assert s[i] == blk[i] && t[i] == x.blk[i];
        assert s[i + 1..] == t[i + 1..];
        if blk[i] == x.blk[i] {
          assert s[i..] == [s[i]] + s[i + 1..] && t[i..] == [t[i]] + t[i + 1..];
        } else if blk[i] > x.blk[i] {
          ValCompare(t, s, i, B);
          return Greater;
        } else {
          ValCompare(s, t, i, B);
          return Less;
        }
      }
      assert s == t;
      return Equal;
    }

    // Addition and subtraction

    method Add(a: BigUnsigned, b: BigUnsigned)
      requires Sized() && a.Valid() && b.Valid() && Apart(a) && Apart(b)
      modifies this, blk
      ensures Valid() && Value() == old(a.Value()) + old(b.Value())
      ensures blk == old(blk) || fresh(blk)
      decreases this == a || this == b
    {
      if this == a || this == b {
        var tmp := new BigUnsigned();
        tmp.Add(a, b);
        Assign(tmp);
        return;
      }
      if a.len == 0 {
        Assign(b);
        return;
      } else if b.len == 0 {
        Assign(a);
        return;
      }
      AddNonzero(a, b);
    }

    method AddNonzero(a: BigUnsigned, b: BigUnsigned)
      requires Sized() && a.Valid() && b.Valid() && blk != a.blk && blk != b.blk && this != a && this != b
      requires a.len > 0 && b.len > 0
      modifies this, blk
      ensures Valid() && Value() == old(a.Value()) + old(b.Value())
      ensures blk == old(blk) || fresh(blk)
    {
      var a2, b2 := a, b;
      if a.len < b.len {
        a2, b2 := b, a;
      }
      len := a2.len + 1;
      Allocate(len);
      var carry := AddBlocks(blk, a2.blk, a2.len, b2.blk, b2.len);
      ghost var low := blk[..a2.len];
      if carry {
        blk[a2.len] := 1;
        assert blk[..len] == low + [1];
        ValAppendOne(low, 1);
      } else {
        len := len - 1;
        TopNonzero(low, a2.blk[..a2.len]);
      }
    }

    /** Fails iff the result would be negative. A late failure zeroes the receiver;
        an early one, or one seen through an aliased operand, leaves it alone. */
    method Subtract(a: BigUnsigned, b: BigUnsigned) returns (r: Outcome)
      requires Sized() && a.Valid() && b.Valid() && Apart(a) && Apart(b)
      modifies this, blk
      ensures r == if old(a.Value()) < old(b.Value()) then Fail(NegativeResult) else Pass
      ensures r.Pass? ==> Valid() && Value() == old(a.Value()) - old(b.Value())
      ensures r.Fail? ==> Sized() && len == if this == a || this == b || old(a.len < b.len) then old(len) else 0
      ensures r.Fail? && (this == a || this == b || old(a.len < b.len)) ==> blk == old(blk) && blk[..] == old(blk[..])
      ensures blk == old(blk) || fresh(blk)
      decreases this == a || this == b
    {
      if this == a || this == b {
        var tmp := new BigUnsigned();
        r := tmp.Subtract(a, b);
        if r.Pass? {
          Assign(tmp);
        }
        return;
      }
      a.ZeroIffEmpty();
      b.ZeroIffEmpty();
      if b.len == 0 {
        Assign(a);
        return Pass;
      } else if a.len < b.len {
        BlocksAreDigits(a.blk[..a.len]);
        ValLonger(a.blk[..a.len], b.blk[..b.len], B);
        return Fail(NegativeResult);
      }
      len := a.len;
      Allocate(len);
      var borrow := SubtractBlocks(blk, a.blk, a.len, b.blk, b.len);
      if borrow {
        len := 0;
        return Fail(NegativeResult);
      }
      ZapLeadingZeros();
      return Pass;
    }

    // Multiplication and division

    method Multiply(a: BigUnsigned, b: BigUnsigned)
      requires Sized() && a.Valid() && b.Valid() && Apart(a) && Apart(b)
      modifies this, blk
      ensures Valid() && Value() == old(a.Value()) * old(b.Value())
      ensures blk == old(blk) || fresh(blk)
      decreases this == a || this == b
    {
      if this == a || this == b {
        var tmp := new BigUnsigned();
        tmp.Multiply(a, b);
        Assign(tmp);
        return;
      }
      if a.len == 0 || b.len == 0 {
        len := 0;
        return;
      }
      len := a.len + b.len;
      Allocate(len);
      MultiplyBlocks(blk, a.blk, a.len, b.blk, b.len);
      ProductLength(a.blk[..a.len], b.blk[..b.len], blk[..len]);
      ZapOneZero();
    }

    /** Lines 463-525 of big_unsigned.cpp, with the copy back as its comment describes it (wide false)
        or as line 515 writes it (wide true); everything else is common to both. */
    method ShiftSubtract(b: BigUnsigned, q: BigUnsigned, wide: bool)
      requires Valid() && b.Valid() && q.Sized() && this != b && this != q && b != q
      requires blk != b.blk && blk != q.blk && b.blk != q.blk
      requires 0 < b.len <= len
      modifies this, blk, q, q.blk
      ensures Valid() && q.Valid()
      ensures q.Value() == QuotientOf(old(Value()), b.Value())
      ensures Value() == RemainderOf(old(Value()), b.Value(), wide)
      ensures blk == old(blk) || fresh(blk)
      ensures q.blk == old(q.blk) || fresh(q.blk)
      ensures blk != q.blk
    {
      hide Val, Canonical, AtMostOneZero, Garbage, BlockCount, QuotientOf, RemainderOf;
      ghost var a := blk[..len];
      LengthIsCount();
      b.LengthIsCount();
      WithLengths(Value(), len, b.Value(), b.len, wide);
      var origLen := len;
      AllocateAndCopy(len + 1);
      len := len + 1;
      blk[origLen] := 0;
      assert blk[..origLen] == a;
      q.len := origLen - b.len + 1;
      q.Allocate(q.len);
      DivideBlocks(blk, origLen, b.blk, b.len, q.blk, q.len, wide);
      q.ZapOneZero();
      ZapLeadingZeros();
    }

    /** Quotient to q, remainder left here. */
    method Divide(b: BigUnsigned, q: BigUnsigned, wide: bool) returns (r: Outcome)
      requires Valid() && b.Valid() && q.Sized() && Apart(b) && Apart(q) && q.Apart(b)
      modifies this, blk, q, q.blk
      ensures r == if this == q then Fail(SameVariable) else Pass
      ensures r.Fail? ==> Valid() && unchanged(this) && blk[..] == old(blk[..]) && Value() == old(Value())
      ensures r.Pass? ==> Valid() && q.Valid() && blk != q.blk
      ensures r.Pass? ==> q.Value() == QuotientOf(old(Value()), old(b.Value()))
      ensures r.Pass? ==> Value() == RemainderOf(old(Value()), old(b.Value()), wide)
      ensures blk == old(blk) || fresh(blk)
      ensures q.blk == old(q.blk) || fresh(q.blk)
      decreases this == b || q == b
    {
      hide Val, QuotientOf, RemainderOf;
      if this == q {
        return Fail(SameVariable);
      }
      if this == b || q == b {
        var tmpB := new BigUnsigned.Copy(b);
        assert tmpB.Value() == b.Value();
        r := Divide(tmpB, q, wide);
        return;
      }
      b.ZeroIffEmpty();
      if b.len == 0 {
        ByZero(Value(), wide);
        q.Clear();
        return Pass;
      }
      if len < b.len {
        ShorterDividend(b, wide);
        q.Clear();
        return Pass;
      }
      ShiftSubtract(b, q, wide);
      return Pass;
    }

    /** len = 0 */
    method Clear()
      requires Sized()
      modifies `len
      ensures Valid() && Value() == 0
    {
      len := 0;
    }

    lemma LengthIsCount()
      requires Valid()
      ensures len == BlockCount(Value())
    {
      CountOfCanonical(blk[..len]);
    }

    lemma ShorterDividend(b: BigUnsigned, wide: bool)
      requires Valid() && b.Valid() && len < b.len
      ensures QuotientOf(Value(), b.Value()) == 0 && RemainderOf(Value(), b.Value(), wide) == Value()
    {
      LengthIsCount();
      b.LengthIsCount();
      BlocksAreDigits(blk[..len]);
      ValLonger(blk[..len], b.blk[..b.len], B);
      DivModUnique(Value(), b.Value(), 0, Value());
    }

    /** divideWithRemainder with the copy back its comment describes: blocks i to i + b.len. */
    method DivideWithRemainder(b: BigUnsigned, q: BigUnsigned) returns (r: Outcome)
      requires Valid() && b.Valid() && q.Sized() && Apart(b) && Apart(q) && q.Apart(b)
      modifies this, blk, q, q.blk
      ensures r == if this == q then Fail(SameVariable) else Pass
      ensures r.Fail? ==> Valid() && unchanged(this) && blk[..] == old(blk[..]) && Value() == old(Value())
      ensures r.Pass? ==> Valid() && q.Valid() && blk != q.blk
      ensures r.Pass? ==> old(Value()) == q.Value() * old(b.Value()) + Value()
      ensures r.Pass? && old(b.Value()) == 0 ==> q.Value() == 0
      ensures r.Pass? && old(b.Value()) > 0 ==>
                && Value() < old(b.Value())
                && q.Value() == old(Value()) / old(b.Value()) && Value() == old(Value()) % old(b.Value())
      ensures blk == old(blk) || fresh(blk)
      ensures q.blk == old(q.blk) || fresh(q.blk)
    {
      ghost var a, d := Value(), b.Value();
      r := Divide(b, q, false);
      if d > 0 {
        DivModDef(a, d);
      }
    }

    /** divideWithRemainder exactly as written, line 515 copying up to the top block. */
    method DivideWithRemainderAsWritten(b: BigUnsigned, q: BigUnsigned) returns (r: Outcome)
      requires Valid() && b.Valid() && q.Sized() && Apart(b) && Apart(q) && q.Apart(b)
      modifies this, blk, q, q.blk
      ensures r == if this == q then Fail(SameVariable) else Pass
      ensures r.Fail? ==> Valid() && unchanged(this) && blk[..] == old(blk[..]) && Value() == old(Value())
      ensures r.Pass? ==> Valid() && q.Valid() && blk != q.blk
      ensures r.Pass? && old(b.Value()) == 0 ==> q.Value() == 0 && Value() == old(Value())
      ensures r.Pass? && old(b.Value()) > 0 ==>
                && q.Value() == old(Value()) / old(b.Value())
                && Value() == old(Value()) % old(b.Value())
                   + if old(b.len <= len) then Garbage(old(Value()), old(len), old(b.Value()), old(b.len)) else 0
      ensures r.Pass? && old(b.Value()) > 0 && old(b.len <= len) ==>
                (Value() == old(Value()) % old(b.Value()) <==>
                 QuotientBlocksOdd(old(Value()), old(len), old(b.Value()), old(b.len)))
      ensures blk == old(blk) || fresh(blk)
      ensures q.blk == old(q.blk) || fresh(q.blk)
    {
      ghost var a, alen, d, dlen := Value(), len, b.Value(), b.len;
      LengthIsCount();
      b.LengthIsCount();
      r := Divide(b, q, true);
      if d > 0 && dlen <= alen {
        GarbageFreeIff(a, alen, d, dlen);
      }
    }

    // Shifts

    /** Shift by b bits; a negative b shifts right. Zero shifted by a block or more is left
        with zero blocks on top: the one result that is not canonical. */
    method BitShiftLeft(a: BigUnsigned, b: int) returns (r: Outcome)
      requires Sized() && a.Valid() && Apart(a) && -0x8000_0000 <= b < 0x8000_0000
      modifies this, blk
      ensures r == if b == -0x8000_0000 then Fail(PathologicalShift) else Pass
      ensures r.Pass? ==> Stored()
      ensures r.Pass? ==> Value() == if b >= 0 then old(a.Value()) * Pow(2, b) else old(a.Value()) / Pow(2, -b)
      ensures r.Pass? ==> (Valid() <==> !(old(a.Value()) == 0 && b >= N))
      ensures blk == old(blk) || fresh(blk)
      decreases b < 0, this == a
    {
      if this == a {
        var tmp := new BigUnsigned();
        r := tmp.BitShiftLeft(a, b);
        if r.Pass? {
          Assign(tmp);
        }
        return;
      }
      if b < 0 {
        if b == -0x8000_0000 {
          return Fail(PathologicalShift);
        }
        r := BitShiftRight(a, -b);
        return;
      }
      ShiftUp(a, b);
      return Pass;
    }

    method ShiftUp(a: BigUnsigned, b: nat)
      requires Sized() && a.Valid() && this != a && a.blk != blk
      modifies this, blk
      ensures Stored() && Value() == a.Value() * Pow(2, b)
      ensures Valid() <==> !(a.Value() == 0 && b >= N)
      ensures blk == old(blk) || fresh(blk)
    {
      hide Val, Pow, Shifted;
      a.ZeroIffEmpty();
      var shiftBlocks, shiftBits := b / N, b % N;
      len := a.len + shiftBlocks + 1;
      Allocate(len);
      ShiftBlocksUp(blk, a.blk, a.len, shiftBlocks, shiftBits);
      LeftShiftValue(a.blk[..a.len], shiftBlocks, shiftBits);
      if a.len > 0 {
        LeftShiftLength(blk[..len], a.blk[..a.len], shiftBlocks, shiftBits);
        ZapOneZero();
      } else {
        LeftShiftOfZero(blk[..len]);
        assert blk[..len][..len - 1] == blk[..len - 1];
        len := len - 1;
      }
    }

    /** Shift right by b bits; a negative b shifts left. */
    method BitShiftRight(a: BigUnsigned, b: int) returns (r: Outcome)
      requires Sized() && a.Valid() && Apart(a) && -0x8000_0000 <= b < 0x8000_0000
      modifies this, blk
      ensures r == if b == -0x8000_0000 then Fail(PathologicalShift) else Pass
      ensures r.Pass? ==> Stored()
      ensures r.Pass? ==> Value() == if b >= 0 then old(a.Value()) / Pow(2, b) else old(a.Value()) * Pow(2, -b)
      ensures r.Pass? ==> (Valid() <==> !(old(a.Value()) == 0 && -b >= N))
      ensures blk == old(blk) || fresh(blk)
      decreases b < 0, this == a
    {
      if this == a {
        var tmp := new BigUnsigned();
        r := tmp.BitShiftRight(a, b);
        if r.Pass? {
          Assign(tmp);
        }
        return;
      }
      if b < 0 {
        if b == -0x8000_0000 {
          return Fail(PathologicalShift);
        }
        r := BitShiftLeft(a, -b);
        return;
      }
      var rightShiftBlocks := (b + N - 1) / N;
      var leftShiftBits := N * rightShiftBlocks - b;
      if rightShiftBlocks >= a.len + 1 {
        ShiftedOff(a.blk[..a.len], b);
        len := 0;
        return Pass;
      }
      len := a.len + 1 - rightShiftBlocks;
      Allocate(len);
      ShiftBlocksDown(blk, a.blk, a.len, rightShiftBlocks, leftShiftBits);
      RightShiftValue(blk[..len], a.blk[..a.len], rightShiftBlocks, leftShiftBits, b);
      ZapOneZero();
      return Pass;
    }

    // Blocks and bits

    function GetBlock(i: nat): Blk
      requires Stored()
      reads this, blk
    {
      if i >= len then 0 else blk[i]
    }

    method SetBlock(i: nat, newBlock: Blk)
      requires Valid()
      modifies this, blk
      ensures Valid() && Value() == old(Value()) + (newBlock - old(GetBlock(i))) * Pow(B, i)
      ensures blk == old(blk) || fresh(blk)
    {
      ghost var s := blk[..len];
      if newBlock == 0 {
        if i < len {
          ReplaceBlock(s, i, 0);
          blk[i] := 0;
          assert blk[..len] == s[i := 0];
          ZapLeadingZeros();
        }
      } else if i >= len {
        Extend(i, newBlock);
      } else {
        ReplaceBlock(s, i, newBlock);
        blk[i] := newBlock;
        assert blk[..len] == s[i := newBlock];
      }
    }

    /** The nonzero block extends the number. */
    method Extend(i: nat, newBlock: Blk)
      requires Valid() && i >= len && newBlock != 0
      modifies this, blk
      ensures Valid() && Value() == old(Value()) + newBlock * Pow(B, i)
      ensures blk == old(blk) || fresh(blk)
    {
      ghost var s := blk[..len];
      AllocateAndCopy(i + 1);
      ClearBlocks(blk, len, i);
      assert blk[..|s|] == s;
      len := i + 1;
      blk[i] := newBlock;
      assert blk[..len][..|s|] == s;
      ExtendedValue(s, blk[..len], newBlock);
    }

    method BitLength() returns (n: nat)
      requires Valid()
      ensures Value() == 0 ==> n == 0
      ensures Value() > 0 ==> n > 0 && Pow(2, n - 1) <= Value()
      ensures Value() < Pow(2, n)
    {
      ZeroIffEmpty();
      if len == 0 {
        return 0;
      }
      n := BlockBitLength(blk[len - 1]);
      BitLengthOfBlocks(blk[..len], n);
      n := n + (len - 1) * N;
    }

    method GetBit(bi: nat) returns (bit: bool)
      requires Valid()
      ensures bit == Bit(Value(), bi)
    {
      var block := GetBlock(bi / N);
      SingleBit(block, bi % N);
      BitInBlock(blk[..len], bi / N, bi % N);
      BitOfZero(bi % N);
      return Bitwise(And, block, Pow(2, bi % N)) != 0;
    }

    method SetBit(bi: nat, newBit: bool)
      requires Valid()
      modifies this, blk
      ensures Valid()
      ensures Value() == old(Value()) + (Carry(newBit) - Carry(old(Bit(Value(), bi)))) * Pow(2, bi)
      ensures blk == old(blk) || fresh(blk)
    {
      var blockI, y := bi / N, bi % N;
      SetOneBit(blk[..len], blockI, y, newBit);
      SetBlock(blockI, BlockWithBit(GetBlock(blockI), y, newBit));
    }

    /** Conversion to unsigned short: a value that does not fit is refused. */
    method ToUnsignedShort() returns (r: Result<nat>)
      requires Valid()
      ensures r == if Value() < 0x1_0000 then Ok(Value()) else Err(TooBigForType)
    {
      ZeroIffEmpty();
      if len == 0 {
        return Ok(0);
      } else if len == 1 {
        assert blk[..len] == [blk[0]] && Val([blk[0]], B) == blk[0] + B * Val([], B);
        if blk[0] % 0x1_0000 == blk[0] {
          return Ok(blk[0] % 0x1_0000);
        }
      } else {
        CanonicalRange(blk[..len]);
        PowMono(B, 1, len - 1);
        assert Pow(B, 1) == B * Pow(B, 0);
      }
      return Err(TooBigForType);
    }

    // Bitwise operators

    method BitAnd(a: BigUnsigned, b: BigUnsigned)
      requires Sized() && a.Valid() && b.Valid() && Apart(a) && Apart(b)
      modifies this, blk
      ensures Valid() && Value() == Bitwise(And, old(a.Value()), old(b.Value()))
      ensures forall k: nat :: Bit(Value(), k) <==> (Bit(old(a.Value()), k) && Bit(old(b.Value()), k))
      ensures blk == old(blk) || fresh(blk)
      decreases this == a || this == b
    {
      forall k: nat
        ensures Bit(Bitwise(And, a.Value(), b.Value()), k) <==> (Bit(a.Value(), k) && Bit(b.Value(), k))
      {
        BitwiseBit(And, a.Value(), b.Value(), k);
      }
      if this == a || this == b {
        var tmp := new BigUnsigned();
        tmp.BitAnd(a, b);
        Assign(tmp);
        return;
      }
      len := if a.len >= b.len then b.len else a.len;
      Allocate(len);
      if a.len >= b.len {
        CombineBlocks(And, blk, a.blk, a.len, b.blk, b.len);
      } else {
        CombineBlocks(And, blk, b.blk, b.len, a.blk, a.len);
        BitwiseCommutes(And, a.Value(), b.Value());
      }
      ZapLeadingZeros();
    }

    method BitOr(a: BigUnsigned, b: BigUnsigned)
      requires Sized() && a.Valid() && b.Valid() && Apart(a) && Apart(b)
      modifies this, blk
      ensures Valid() && Value() == Bitwise(Or, old(a.Value()), old(b.Value()))
      ensures forall k: nat :: Bit(Value(), k) <==> (Bit(old(a.Value()), k) || Bit(old(b.Value()), k))
      ensures blk == old(blk) || fresh(blk)
      decreases this == a || this == b
    {
      forall k: nat
        ensures Bit(Bitwise(Or, a.Value(), b.Value()), k) <==> (Bit(a.Value(), k) || Bit(b.Value(), k))
      {
        BitwiseBit(Or, a.Value(), b.Value(), k);
      }
      if this == a || this == b {
        var tmp := new BigUnsigned();
        tmp.BitOr(a, b);
        Assign(tmp);
        return;
      }
      var a2, b2 := if a.len >= b.len then a else b, if a.len >= b.len then b else a;
      Allocate(a2.len);
      CombineBlocks(Or, blk, a2.blk, a2.len, b2.blk, b2.len);
      BitwiseCommutes(Or, a.Value(), b.Value());
      len := a2.len;
      BitwiseAtLeast(a2.Value(), b2.Value());
      TopNonzero(blk[..len], a2.blk[..a2.len]);
    }

    method BitXor(a: BigUnsigned, b: BigUnsigned)
      requires Sized() && a.Valid() && b.Valid() && Apart(a) && Apart(b)
      modifies this, blk
      ensures Valid() && Value() == Bitwise(Xor, old(a.Value()), old(b.Value()))
      ensures forall k: nat :: Bit(Value(), k) <==> (Bit(old(a.Value()), k) != Bit(old(b.Value()), k))
      ensures blk == old(blk) || fresh(blk)
      decreases this == a || this == b
    {
      forall k: nat
        ensures Bit(Bitwise(Xor, a.Value(), b.Value()), k) <==> (Bit(a.Value(), k) != Bit(b.Value(), k))
      {
        BitwiseBit(Xor, a.Value(), b.Value(), k);
      }
      if this == a || this == b {
        var tmp := new BigUnsigned();
        tmp.BitXor(a, b);
        Assign(tmp);
        return;
      }
      var a2, b2 := if a.len >= b.len then a else b, if a.len >= b.len then b else a;
      Allocate(a2.len);
      CombineBlocks(Xor, blk, a2.blk, a2.len, b2.blk, b2.len);
      BitwiseCommutes(Xor, a.Value(), b.Value());
      len := a2.len;
      ZapLeadingZeros();
    }

    // Increment and decrement

    method Increment()
      requires Valid()
      modifies this, blk
      ensures Valid() && Value() == old(Value()) + 1
      ensures blk == old(blk) || fresh(blk)
    {
      ghost var s := blk[..len];
      var carry := IncrementBlocks(blk, len);
      if carry {
        ghost var low := blk[..len];
        AllocateAndCopy(len + 1);
        blk[len] := 1;
        len := len + 1;
        assert blk[..len] == low + [1];
        ValAppendOne(low, 1);
      } else {
        TopNonzero(blk[..len], s);
      }
    }

    method Decrement() returns (r: Outcome)
      requires Valid()
      modifies this, blk
      ensures r == if old(Value()) == 0 then Fail(DecrementOfZero) else Pass
      ensures Valid() && blk == old(blk)
      ensures Value() == if r.Pass? then old(Value()) - 1 else 0
    {
      ZeroIffEmpty();
      if len == 0 {
        return Fail(DecrementOfZero);
      }
      CanonicalRange(blk[..len]);
      if len > 1 {
        assert Pow(B, len - 1) == B * Pow(B, len - 2);
      }
      DecrementBlocks(blk, len);
      ZapOneZero();
      return Pass;
    }
  }

  lemma ProductLength(a: seq<Blk>, b: seq<Blk>, s: seq<Blk>)
    requires a != [] && b != [] && Canonical(a) && Canonical(b) && |s| == |a| + |b|
    requires Val(s, B) == Val(a, B) * Val(b, B)
    ensures AtMostOneZero(s)
  {
    var p, r := Pow(B, |a| - 1), Pow(B, |b| - 1);
    assert Pow(B, |s| - 2) == p * r by { PowAdd(B, |a| - 1, |b| - 1); }
    assert p <= Val(a, B) by { ValCanonicalLower(a, B); }
    assert r <= Val(b, B) by { ValCanonicalLower(b, B); }
    ProductMono(p, Val(a, B), r, Val(b, B));
  }
}
