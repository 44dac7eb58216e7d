/** BigUnsignedInABase: a natural number as digits in a base that fits an unsigned short. */
module InABase {
  import opened Powers
  import opened Radix
  import opened Blocks
  import opened BlockLoops
  import opened BlockBits
  import opened Outcomes
  import opened Leftovers
  import opened Symbols
  import opened BigUnsigneds

  type Digit = x: nat | x < 0x1_0000

  /** The canonical digits of n. */
  function DigitsOf(n: nat, base: nat): (ds: seq<nat>)
    requires base >= 2
    decreases n
  {
    if n == 0 then []
    else
      Shrinks(n, base);
      [n % base] + DigitsOf(n / base, base)
  }

  lemma Shrinks(n: nat, base: nat)
    requires base >= 2 && n > 0
    ensures 0 <= n / base < n && 0 <= n % base < base
  {
    DivLe(n, base);
    DivModDef(n, base);
    if n / base == n {
      MulLe(2, base, n);
    }
  }

  /** The digits spell n, and are the only canonical ones that do. */
  lemma {:induction false} DigitsOfCorrect(n: nat, base: nat)
    requires base >= 2
    ensures Val(DigitsOf(n, base), base) == n
    ensures Digits(DigitsOf(n, base), base) && Canonical(DigitsOf(n, base))
    decreases n
  {
    if n > 0 {
      Shrinks(n, base);
      DigitsOfCorrect(n / base, base);
      var ds, rest := DigitsOf(n, base), DigitsOf(n / base, base);
      assert ds[1..] == rest;
      DivModDef(n, base);
      if rest == [] {
        assert n / base == 0;
      } else {
        assert ds[|ds| - 1] == rest[|rest| - 1];
      }
    }
  }

  lemma DigitsOfVal(ds: seq<nat>, base: nat)
    requires base >= 2 && Digits(ds, base) && Canonical(ds)
    ensures DigitsOf(Val(ds, base), base) == ds
  {
    DigitsOfCorrect(Val(ds, base), base);
    ValUnique(DigitsOf(Val(ds, base), base), ds, base);
  }

  /** ValUnique for every base: below base 2 there is no digit but zero. */
  lemma SameNumberSameDigits(s: seq<nat>, t: seq<nat>, b: nat)
    requires Digits(s, b) && Digits(t, b) && Canonical(s) && Canonical(t) && Val(s, b) == Val(t, b)
    ensures s == t
  {
    if b >= 2 {
      ValUnique(s, t, b);
    } else {
      assert s == [] && t == [];
    }
  }

  /** ceilingDiv(len * N, bitLen(base) - 1) digits always suffice. */
  lemma DigitBound(x: nat, len: nat, base: nat, bitLen: nat, max: nat)
    requires x < Pow(B, len) && bitLen >= 2 && Pow(2, bitLen - 1) <= base
    requires max == CeilingDiv(len * N, bitLen - 1)
    ensures x < Pow(base, max)
  {
    var d := bitLen - 1;
    assert len * N <= d * max by {
      DivModDef(len * N + d - 1, d);
      assert max * d == d * max;
    }
    assert Pow(B, len) == Pow(2, len * N) by {
      BlockBase();
      PowMul(2, N, len);
      assert N * len == len * N;
    }
    PowMono(2, len * N, d * max);
    PowMul(2, d, max);
    PowBaseMono(Pow(2, d), base, max);
  }

  /** The least number of groups of b that hold a. */
  function CeilingDiv(a: nat, b: nat): (q: nat)
    requires b > 0
    ensures a <= q * b && (q > 0 ==> (q - 1) * b < a)
  {
    DivModDef(a + b - 1, b);
    DivLe(a + b - 1, b);
    Scale(b, (a + b - 1) / b - 1, (a + b - 1) / b, 1);
    (a + b - 1) / b
  }

  class BigUnsignedInABase {
    var base: Digit
    var len: nat
    var blk: array<Digit>

    /** Digits below the base, the top one nonzero. */
    ghost predicate Valid()
      reads this, blk
    {
      len <= blk.Length && Digits(blk[..len], base) && Canonical(blk[..len])
    }

    ghost function Value(): nat
      requires len <= blk.Length
      reads this, blk
    {
      Val(blk[..len], base)
    }

    constructor Blank(base: Digit, len: nat)
      ensures this.base == base && this.len == len && blk.Length == len && fresh(blk)
    {
      this.base, this.len, blk := base, len, new Digit[len];
    }

    method ZapLeadingZeros()
      requires len <= blk.Length
      modifies `len
      ensures len <= old(len) && Canonical(blk[..len]) && blk[..len] == Stripped(blk[..old(len)])
    {
      ghost var all := blk[..len];
      while len > 0 && blk[len - 1] == 0
        invariant len <= |all| && Stripped(blk[..len]) == Stripped(all)
      {
        assert blk[..len][..len - 1] == blk[..len - 1];
        len := len - 1;
      }
    }

    /** Same base and same digits: the same number written the same way. */
    method Equals(x: BigUnsignedInABase) returns (eq: bool)
      requires Valid() && x.Valid()
      ensures eq <==> base == x.base && blk[..len] == x.blk[..x.len]
      ensures eq <==> base == x.base && Value() == x.Value()
    {
      if base == x.base && Value() == x.Value() {
        SameNumberSameDigits(blk[..len], x.blk[..x.len], base);
      }
      eq := base == x.base && len == x.len;
      if eq {
        for i := 0 to len
          invariant forall k :: 0 <= k < i ==> blk[k] == x.blk[k]
        {
          if blk[i] != x.blk[i] {
            assert blk[..len][i] != x.blk[..x.len][i];
            return false;
          }
        }
        assert blk[..len] == x.blk[..x.len];
      }
    }

    /** From digits, least significant first, leading zeros allowed. */
    static method FromDigits(d: array<Digit>, l: nat, base: Digit) returns (r: Result<BigUnsignedInABase>)
      requires l <= d.Length
      ensures base < 2 ==> r == Err(BaseTooSmall)
      ensures base >= 2 && !Digits(d[..l], base) ==> r == Err(DigitTooLarge)
      ensures base >= 2 && Digits(d[..l], base) ==> r.Ok? && r.value.Valid() && r.value.base == base
      ensures r.Ok? ==> r.value.blk[..r.value.len] == Stripped(d[..l])
    {
      if base < 2 {
        return Err(BaseTooSmall);
      }
      var z := new BigUnsignedInABase.Blank(base, l);
      CopyBlocks(z.blk, d, l);
      var ok := DigitsBelow(z.blk, l, base);
      if !ok {
        return Err(DigitTooLarge);
      }
      StrippedDigits(d[..l], base);
      z.ZapLeadingZeros();
      return Ok(z);
    }

    /** The digits of x: remainders by the base, lowest first, in a buffer sized beforehand. As written
        (wide) every number of two or more blocks fails in the conversion of some digit. */
    static method Convert(x: BigUnsigned, base: Digit, wide: bool) returns (r: Result<BigUnsignedInABase>)
      requires x.Valid()
      ensures base < 2 ==> r == Err(BaseTooSmall)
      ensures base >= 2 && wide && x.Value() >= B ==> r == Err(TooBigForType)
      ensures base >= 2 && (wide ==> x.Value() < B) ==>
                r.Ok? && fresh(r.value) && r.value.Valid() && r.value.base == base
                && r.value.blk[..r.value.len] == DigitsOf(x.Value(), base)
    {
      if base < 2 {
        return Err(BaseTooSmall);
      }
      hide Val, Pow, CeilingDiv, DigitsOf, DigitLoopFails;
      var baseBits := BlockBitLength(base);
      BaseHasTwoBits(base, baseBits);
      var max := CeilingDiv(x.len * N, baseBits - 1);
      var z := new BigUnsignedInABase.Blank(base, max);
      assert x.Value() < Pow(B, x.len) by {
        BlocksAreDigits(x.blk[..x.len]);
        ValBound(x.blk[..x.len], B);
      }
      DigitBound(x.Value(), x.len, base, baseBits, max);
      DigitLoopFailsIff(x.Value(), base);
      var e, n := PeelDigits(x, base, z.blk, wide);
      if e.Fail? {
        return Err(e.error);
      }
      DigitsOfCorrect(x.Value(), base);
      z.len := n;
      return Ok(z);
    }

    static method FromBigUnsigned(x: BigUnsigned, base: Digit) returns (r: Result<BigUnsignedInABase>)
      requires x.Valid()
      ensures base < 2 ==> r == Err(BaseTooSmall)
      ensures base >= 2 ==> r.Ok? && fresh(r.value) && r.value.Valid() && r.value.base == base
      ensures base >= 2 ==> r.value.blk[..r.value.len] == DigitsOf(x.Value(), base)
    {
      r := Convert(x, base, false);
    }

    /** As written: exactly the numbers of one block convert. */
    static method FromBigUnsignedAsWritten(x: BigUnsigned, base: Digit) returns (r: Result<BigUnsignedInABase>)
      requires x.Valid()
      ensures r.Ok? <==> base >= 2 && x.Value() < B
      ensures r.Err? ==> r.error == if base < 2 then BaseTooSmall else TooBigForType
      ensures r.Ok? ==> fresh(r.value) && r.value.Valid() && r.value.base == base
      ensures r.Ok? ==> r.value.blk[..r.value.len] == DigitsOf(x.Value(), base)
    {
      r := Convert(x, base, true);
    }

    /** Horner's rule, highest digit first. */
    method ToBigUnsigned() returns (ans: BigUnsigned)
      requires Valid()
      ensures fresh(ans) && ans.Valid() && ans.Value() == Value()
    {
      hide Val;
      ans := new BigUnsigned();
      var buBase := new BigUnsigned.FromWord(base);
      var temp := new BigUnsigned();
      assert blk[len..len] == [];
      NoDigits(base);
      ZeroValue(ans);
      for digitNum := len downto 0
        invariant fresh(ans) && fresh(ans.blk) && fresh(buBase) && fresh(buBase.blk) && fresh(temp) && fresh(temp.blk)
        invariant ans != buBase && ans != temp && buBase != temp
        invariant ans.blk != buBase.blk && ans.blk != temp.blk && buBase.blk != temp.blk
        invariant ans.Valid() && buBase.Valid() && temp.Valid() && buBase.Value() == base
        invariant ans.Value() == Val(blk[digitNum..len], base)
      {
        TakeDigit(ans, buBase, temp, blk[digitNum]);
        HornerStep(blk[..len], digitNum, base);
      }
      assert blk[0..len] == blk[..len];
    }

    /** From a string in a base up to 36. */
    static method FromString(s: string, base: Digit) returns (r: Result<BigUnsignedInABase>)
      ensures base > 36 ==> r == Err(BaseTooLarge)
      ensures base <= 36 && Scan(s, base).Err? ==> r == Err(Scan(s, base).error)
      ensures base <= 36 && Scan(s, base).Ok? ==>
                r.Ok? && fresh(r.value) && r.value.Valid() && r.value.base == base
                && r.value.blk[..r.value.len] == Stripped(Scan(s, base).value)
    {
      if base > 36 {
        return Err(BaseTooLarge);
      }
      var z := new BigUnsignedInABase.Blank(base, |s|);
      var e := ReadDigits(s, base, z.blk);
      if e.Fail? {
        return Err(e.error);
      }
      assert z.blk[..|s|] == Scan(s, base).value;
      StrippedDigits(z.blk[..|s|], base);
      z.ZapLeadingZeros();
      return Ok(z);
    }

    /** To a string; bases over 36 have no symbols. */
    method ToText() returns (r: Result<string>)
      requires Valid()
      ensures base > 36 ==> r == Err(BaseTooLarge)
      ensures base <= 36 ==> r == Ok(Printed(blk[..len]))
    {
      if base > 36 {
        return Err(BaseTooLarge);
      }
      if len == 0 {
        return Ok("0");
      }
      var s := WriteSymbols(blk, len);
      return Ok(s);
    }
  }

  /** Symbol by symbol from the right. */
  method ReadDigits(s: string, base: Digit, out: array<Digit>) returns (e: Outcome)
    requires base <= 36 && out.Length == |s|
    modifies out
    ensures Scan(s, base).Err? ==> e == Fail(Scan(s, base).error)
    ensures Scan(s, base).Ok? ==> e.Pass? && out[..] == Scan(s, base).value
  {
    var n := |s|;
    assert s[..n] == s && out[..0] == [];
    assert Scan(s, base).Ok? ==> [] + Scan(s, base).value == Scan(s, base).value;
    for digitNum := 0 to n
      invariant ScanFrom(s, base, digitNum, out[..digitNum])
    {
      var symbolNumInString := n - 1 - digitNum;
      var v := DigitValue(s[symbolNumInString], base);
      ScanStep(s, base, digitNum, out[..digitNum]);
      if v.Err? {
        return Fail(v.error);
      }
      ghost var done := out[..digitNum];
      out[digitNum] := v.value;
      assert out[..digitNum + 1] == done + [v.value];
    }
    assert s[..0] == "" && out[..n] + [] == out[..];
    return Pass;
  }

  /** The last k symbols are read as ds; the rest of the string decides the rest. */
  ghost predicate ScanFrom(s: string, base: nat, k: nat, ds: seq<nat>)
    requires k <= |s|
  {
    var rest := Scan(s[..|s| - k], base);
    Scan(s, base) == if rest.Err? then rest else Ok(ds + rest.value)
  }

  lemma ScanStep(s: string, base: nat, k: nat, ds: seq<nat>)
    requires k < |s| && ScanFrom(s, base, k, ds)
    ensures var v := DigitValue(s[|s| - 1 - k], base);
            if v.Err? then Scan(s, base) == Err(v.error) else ScanFrom(s, base, k + 1, ds + [v.value])
  {
    var n := |s| - k - 1;
    assert s[..n + 1][..n] == s[..n] && s[..n + 1][n] == s[n];
    var v, rest := DigitValue(s[n], base), Scan(s[..n], base);
    if v.Ok? && rest.Ok? {
      assert ds + ([v.value] + rest.value) == (ds + [v.value]) + rest.value;
    }
  }

  /** Highest digit first. */
  method WriteSymbols(blk: array<Digit>, len: nat) returns (s: string)
    requires len <= blk.Length && Digits(blk[..len], 36)
    ensures s == SymbolsOf(blk[..len])
  {
    s := "";
    ghost var ds := blk[..len];
    assert ds[len..] == [];
    for symbolNumInString := 0 to len
      invariant s == SymbolsOf(ds[len - symbolNumInString..])
    {
      var digitNum := len - 1 - symbolNumInString;
      assert ds[digitNum..][1..] == ds[digitNum + 1..];
      s := s + [Symbol(blk[digitNum])];
    }
    assert ds[0..] == ds;
  }

  method DigitsBelow(d: array<Digit>, l: nat, base: Digit) returns (ok: bool)
    requires l <= d.Length
    ensures ok <==> Digits(d[..l], base)
  {
    for i := 0 to l
      invariant forall k :: 0 <= k < i ==> d[k] < base
    {
      if d[i] >= base {
        assert d[..l][i] >= base;
        return false;
      }
    }
    return true;
  }

  /** ans := ans * buBase + digit */
  method TakeDigit(ans: BigUnsigned, buBase: BigUnsigned, temp: BigUnsigned, digit: Digit)
    requires ans != buBase && ans != temp && buBase != temp
    requires ans.blk != buBase.blk && ans.blk != temp.blk && buBase.blk != temp.blk
    requires ans.Valid() && buBase.Valid() && temp.Sized()
    modifies ans, ans.blk, temp, temp.blk
    ensures ans.Valid() && temp.Valid() && ans.blk != temp.blk
    ensures ans.Value() == old(ans.Value()) * buBase.Value() + digit
    ensures ans.blk == old(ans.blk) || fresh(ans.blk)
    ensures temp.blk == old(temp.blk) || fresh(temp.blk)
  {
    hide Val;
    temp.Multiply(ans, buBase);
    var d := new BigUnsigned.FromWord(digit);
    ans.Add(temp, d);
  }

  lemma NoDigits(b: nat)
    ensures Val([], b) == 0
  {
  }

  lemma ZeroValue(x: BigUnsigned)
    requires x.Valid() && x.len == 0
    ensures x.Value() == 0
  {
  }

  lemma HornerStep(s: seq<nat>, i: nat, b: nat)
    requires i < |s|
    ensures Val(s[i..], b) == Val(s[i + 1..], b) * b + s[i]
  {
    assert s[i..][1..] == s[i + 1..];
  }

  lemma BaseHasTwoBits(base: nat, bits: nat)
    requires base >= 2 && bits > 0 && base < Pow(2, bits)
    ensures bits >= 2
  {
    assert Pow(2, 1) == 2 * Pow(2, 0) == 2;
  }

  /** The k digits in ds are done, rest is still to do, and room more places hold it. */
  ghost predicate Peeled(n: nat, ds: seq<nat>, rest: nat, base: nat, room: int) {
    && n == Val(ds, base) + Pow(base, |ds|) * rest
    && Digits(ds, base)
    && (rest == 0 ==> Canonical(ds))
    && room >= 0 && base >= 2 && rest < Pow(base, room)
  }

  lemma PeelOne(n: nat, ds: seq<nat>, rest: nat, base: nat, room: int)
    requires Peeled(n, ds, rest, base, room) && rest > 0
    ensures room > 0 && base > 0
    ensures 0 <= rest / base < rest && 0 <= rest % base < base
    ensures Peeled(n, ds + [rest % base], rest / base, base, room - 1)
  {
    var d, q, p := rest % base, rest / base, Pow(base, |ds|);
    Shrinks(rest, base);
    assert rest == q * base + d by { DivModDef(rest, base); }
    assert Val(ds + [d], base) == Val(ds, base) + d * p by {
      ValPrefix(ds + [d], |ds|, base);
      assert (ds + [d])[..|ds|] == ds && (ds + [d])[..|ds| + 1] == ds + [d];
    }
    assert p * rest == (base * p) * q + d * p by {
      Scale(p, q * base, rest, d);
      Associate(p, q, base);
      Associate(base, p, q);
    }
    PeelRoom(q, d, rest, base, room);
  }

  lemma PeelRoom(q: nat, d: nat, rest: nat, base: nat, room: nat)
    requires rest == q * base + d && 0 < rest < Pow(base, room)
    ensures room > 0 && q < Pow(base, room - 1)
  {
    if room > 0 {
      assert q * base < Pow(base, room - 1) * base;
      MulCancelLt(q, Pow(base, room - 1), base);
    }
  }

  lemma PeelStart(n: nat, base: nat, room: nat)
    requires base >= 2 && n < Pow(base, room)
    ensures Peeled(n, [], n, base, room)
  {
  }

  lemma PeelDone(n: nat, ds: seq<nat>, base: nat, room: int)
    requires Peeled(n, ds, 0, base, room)
    ensures ds == DigitsOf(n, base)
  {
    assert Pow(base, |ds|) * 0 == 0;
    DigitsOfVal(ds, base);
  }

  /** lastDigit = x2 % buBase, x2 /= buBase */
  method PeelDigit(x2: BigUnsigned, buBase: BigUnsigned, wide: bool) returns (digit: Result<Digit>)
    requires x2.Valid() && buBase.Valid() && 0 < buBase.Value() < 0x1_0000
    requires x2 != buBase && x2.blk != buBase.blk
    modifies x2, x2.blk
    ensures x2.Valid() && x2.Value() == old(x2.Value()) / buBase.Value()
    ensures digit.Ok? <==> !wide || Spared(old(x2.Value()), buBase.Value())
    ensures digit == if digit.Ok? then Ok(old(x2.Value()) % buBase.Value()) else Err(TooBigForType)
    ensures x2.blk == old(x2.blk) || fresh(x2.blk)
  {
    hide RemainderOf, Spared;
    LeftoverDecides(x2.Value(), buBase.Value());
    DivModDef(x2.Value(), buBase.Value());
    var lastDigit := new BigUnsigned.Copy(x2);
    var r := lastDigit.Divide(buBase, x2, wide);
    assert r.Pass?;
    digit := lastDigit.ToUnsignedShort();
  }

  /** Some digit is taken off by a division that line 515 does not spare. */
  ghost predicate DigitLoopFails(n: nat, base: nat)
    requires base >= 2
    decreases n
  {
    if n == 0 then false
    else
      Shrinks(n, base);
      !Spared(n, base) || DigitLoopFails(n / base, base)
  }

  /** That is so for every number of two or more blocks, in every base of one block: while digits are
      taken off, the top block of a quotient sooner or later comes out zero. */
  lemma {:induction false} DigitLoopFailsIff(n: nat, base: nat)
    requires 2 <= base < B
    ensures DigitLoopFails(n, base) <==> n >= B
    decreases n
  {
    hide Spared;
    if n > 0 {
      Shrinks(n, base);
      DigitLoopFailsIff(n / base, base);
      if n < B {
        SparedByLength(n, base);
      } else {
        NotSparedOrLong(n, base);
      }
    }
  }

  lemma NotSparedOrLong(n: nat, base: nat)
    requires 2 <= base < B <= n
    ensures !Spared(n, base) || n / base >= B
  {
    hide Spared;
    assert Pow(B, 1) == B * Pow(B, 0) == B;
    CountAtMost(n, 1);
    CountAtMost(base, 1);
    CountRange(base);
    var p := Pow(B, BlockCount(n) - 1);
    PowMono(B, 1, BlockCount(n) - 1);
    NeverSpared(n, base);
    if base * p <= n {
      Commute(base, p);
      QuotientAtLeast(n, base, p);
    }
  }

  lemma QuotientAtLeast(n: nat, base: nat, p: nat)
    requires base > 0 && p * base <= n
    ensures p <= n / base
  {
    DivModDef(n, base);
    if n / base < p {
      MulLe(n / base + 1, p, base);
      Scale(base, n / base, n / base + 1, 1);
    }
  }

  /** Store the digits of x in out; the room was measured beforehand. */
  method PeelDigits(x: BigUnsigned, base: Digit, out: array<Digit>, wide: bool) returns (e: Outcome, n: nat)
    requires x.Valid() && base >= 2 && x.Value() < Pow(base, out.Length)
    modifies out
    ensures e == if wide && DigitLoopFails(x.Value(), base) then Fail(TooBigForType) else Pass
    ensures n <= out.Length && (e.Pass? ==> out[..n] == DigitsOf(x.Value(), base))
  {
    hide Val, Pow, Peeled, DigitLoopFails, Spared;
    ghost var v := x.Value();
    PeelStart(v, base, out.Length);
    var x2 := new BigUnsigned.Copy(x);
    var buBase := new BigUnsigned.FromWord(base);
    n := 0;
    assert out[..n] == [];
    while x2.len != 0
      invariant fresh(x2) && fresh(x2.blk) && fresh(buBase) && fresh(buBase.blk)
      invariant x2 != buBase && x2.blk != buBase.blk && x2.Valid() && buBase.Valid() && buBase.Value() == base
      invariant n <= out.Length && Peeled(v, out[..n], x2.Value(), base, out.Length - n)
      invariant DigitLoopFails(v, base) == DigitLoopFails(x2.Value(), base) || !wide
      decreases x2.Value()
    {
      x2.ZeroIffEmpty();
      FailsStep(x2.Value(), base);
      PeelOne(v, out[..n], x2.Value(), base, out.Length - n);
      var digit := PeelDigit(x2, buBase, wide);
      if digit.Err? {
        return Fail(digit.error), n;
      }
      ghost var done := out[..n];
      out[n] := digit.value;
      n := n + 1;
      assert out[..n] == done + [digit.value];
    }
    x2.ZeroIffEmpty();
    FailsStep(x2.Value(), base);
    PeelDone(v, out[..n], base, out.Length - n);
    return Pass, n;
  }

  lemma FailsStep(n: nat, base: nat)
    requires base >= 2
    ensures n == 0 ==> !DigitLoopFails(n, base)
    ensures n > 0 ==> 0 <= n / base && (DigitLoopFails(n, base) <==> !Spared(n, base) || DigitLoopFails(n / base, base))
  {
    if n > 0 {
      Shrinks(n, base);
    }
  }
}
