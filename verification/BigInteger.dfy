/** BigInteger: a sign and a BigUnsigned magnitude. */
module BigIntegers {
  import opened Powers
  import opened Radix
  import opened Blocks
  import opened Outcomes
  import opened Leftovers
  import opened BigUnsigneds

  datatype Sign = Negative | Zero | Positive {
    function Opposite(): Sign {
      match this
      case Negative => Positive
      case Zero => Zero
      case Positive => Negative
    }

    function Number(): int {
      match this
      case Negative => -1
      case Zero => 0
      case Positive => 1
    }
  }

  ghost function Signed(s: Sign, m: nat): int {
    match s
    case Negative => -(m as int)
    case Zero => 0
    case Positive => m
  }

  class BigInteger {
    var sign: Sign
    const mag: BigUnsigned

    /** The magnitude is canonical and the sign is zero exactly when it is. */
    ghost predicate Valid()
      reads this, mag, mag.blk
    {
      mag.Valid() && (sign == Zero <==> mag.Value() == 0)
    }

    ghost function Value(): int
      requires mag.Stored()
      reads this, mag, mag.blk
    {
      Signed(sign, mag.Value())
    }

    /** The objects that make up the number. */
    ghost function Repr(): set<object>
      reads this, mag
    {
      {this, mag, mag.blk}
    }

    predicate IsZero()
      reads this
    {
      sign == Zero
    }

    lemma ZeroIffNoSign()
      requires Valid()
      ensures Value() == 0 <==> IsZero()
    {
    }

    lemma MagnitudeOfValue()
      requires Valid()
      ensures mag.Value() == Magnitude(Value())
    {
    }

    ghost predicate Apart(x: BigInteger)
      reads mag, x.mag
    {
      x == this || (x.mag != mag && x.mag.blk != mag.blk)
    }

    constructor ()
      ensures Valid() && Value() == 0 && fresh(Repr())
    {
      sign := Zero;
      mag := new BigUnsigned();
    }

    constructor Copy(x: BigInteger)
      requires x.Valid()
      ensures Valid() && Value() == x.Value() && fresh(Repr())
    {
      sign := x.sign;
      mag := new BigUnsigned.Copy(x.mag);
    }

    constructor FromUnsigned(x: BigUnsigned)
      requires x.Valid()
      ensures Valid() && Value() == x.Value() && fresh(Repr())
    {
      var m := new BigUnsigned.Copy(x);
      x.ZeroIffEmpty();
      mag := m;
      sign := if m.len == 0 then Zero else Positive;
    }

    /** From a signed machine number; the source takes short, int and long. */
    constructor FromNumber(n: int)
      requires -(B as int) < n < B
      ensures Valid() && Value() == n && fresh(Repr())
    {
      sign := if n == 0 then Zero else if n > 0 then Positive else Negative;
      mag := new BigUnsigned.FromWord(if n < 0 then -n else n);
    }

    /** A magnitude with a requested sign: a zero magnitude forces the sign to zero, and a zero
        sign with a nonzero magnitude is refused. */
    static method FromParts(x: BigUnsigned, s: Sign) returns (r: Result<BigInteger>)
      requires x.Valid()
      ensures r.Err? <==> s == Zero && x.Value() != 0
      ensures r.Err? ==> r.error == BadSign
      ensures r.Ok? ==> r.value.Valid() && r.value.Value() == Signed(s, x.Value())
      ensures r.Ok? ==> r.value.Value() == if s == Negative then -(x.Value() as int) else x.Value()
      ensures r.Ok? ==> fresh(r.value.Repr())
    {
      x.ZeroIffEmpty();
      if s == Zero && x.len != 0 {
        return Err(BadSign);
      }
      var z := new BigInteger.FromUnsigned(x);
      z.sign := if s == Zero || x.len == 0 then Zero else s;
      return Ok(z);
    }

    method Assign(x: BigInteger)
      requires mag.Sized() && x.Valid() && Apart(x)
      modifies this, mag, mag.blk
      ensures Valid() && Value() == old(x.Value())
      ensures mag.blk == old(mag.blk) || fresh(mag.blk)
    {
      if this == x {
        return;
      }
      sign := x.sign;
      mag.Assign(x.mag);
    }

    /** mag = BigUnsigned(0), sign = zero */
    method Clear()
      requires mag.Sized()
      modifies this, mag, mag.blk
      ensures Valid() && Value() == 0
      ensures mag.blk == old(mag.blk) || fresh(mag.blk)
    {
      var z := new BigUnsigned();
      mag.Assign(z);
      sign := Zero;
    }

    method CompareTo(x: BigInteger) returns (r: CmpRes)
      requires Valid() && x.Valid()
      ensures r == if Value() < x.Value() then Less else if Value() > x.Value() then Greater else Equal
    {
      if sign.Number() < x.sign.Number() {
        return Less;
      } else if sign.Number() > x.sign.Number() {
        return Greater;
      }
      match sign {
        case Zero =>
          return Equal;
        case Positive =>
          r := mag.CompareTo(x.mag);
        case Negative =>
          r := mag.CompareTo(x.mag);
          r := match r case Less => Greater case Equal => Equal case Greater => Less;
      }
    }

    method Equals(x: BigInteger) returns (eq: bool)
      requires Valid() && x.Valid()
      ensures eq <==> Value() == x.Value()
    {
      var same := mag.Equals(x.mag);
      return sign == x.sign && same;
    }

    method Add(a: BigInteger, b: BigInteger)
      requires mag.Sized() && a.Valid() && b.Valid() && Apart(a) && Apart(b)
      modifies this, mag, mag.blk
      ensures Valid() && Value() == old(a.Value()) + old(b.Value())
      ensures mag.blk == old(mag.blk) || fresh(mag.blk)
      decreases this == a || this == b
    {
      if this == a || this == b {
        var tmp := new BigInteger();
        tmp.Add(a, b);
        Assign(tmp);
        return;
      }
      if a.sign == Zero {
        Assign(b);
      } else if b.sign == Zero {
        Assign(a);
      } else if a.sign == b.sign {
        sign := a.sign;
        mag.Add(a.mag, b.mag);
      } else {
        var c := a.mag.CompareTo(b.mag);
        match c {
          case Equal =>
            Clear();
          case Greater =>
            sign := a.sign;
            var r := mag.Subtract(a.mag, b.mag);
            assert r.Pass?;
          case Less =>
            sign := b.sign;
            var r := mag.Subtract(b.mag, a.mag);
            assert r.Pass?;
        }
      }
    }

    method Subtract(a: BigInteger, b: BigInteger)
      requires mag.Sized() && a.Valid() && b.Valid() && Apart(a) && Apart(b)
      modifies this, mag, mag.blk
      ensures Valid() && Value() == old(a.Value()) - old(b.Value())
      ensures mag.blk == old(mag.blk) || fresh(mag.blk)
      decreases this == a || this == b
    {
      if this == a || this == b {
        var tmp := new BigInteger();
        tmp.Subtract(a, b);
        Assign(tmp);
        return;
      }
      if a.sign == Zero {
        mag.Assign(b.mag);
        sign := b.sign.Opposite();
      } else if b.sign == Zero {
        Assign(a);
      } else if a.sign != b.sign {
        sign := a.sign;
        mag.Add(a.mag, b.mag);
      } else {
        var c := a.mag.CompareTo(b.mag);
        match c {
          case Equal =>
            Clear();
          case Greater =>
            sign := a.sign;
            var r := mag.Subtract(a.mag, b.mag);
            assert r.Pass?;
          case Less =>
            sign := b.sign.Opposite();
            var r := mag.Subtract(b.mag, a.mag);
            assert r.Pass?;
        }
      }
    }

    method Multiply(a: BigInteger, b: BigInteger)
      requires mag.Sized() && a.Valid() && b.Valid() && Apart(a) && Apart(b)
      modifies this, mag, mag.blk
      ensures Valid() && Value() == old(a.Value()) * old(b.Value())
      ensures mag.blk == old(mag.blk) || fresh(mag.blk)
      decreases this == a || this == b
    {
      if this == a || this == b {
        var tmp := new BigInteger();
        tmp.Multiply(a, b);
        Assign(tmp);
        return;
      }
      ghost var x, y := a.mag.Value(), b.mag.Value();
      SignedProduct(a.sign, x, b.sign, y);
      if a.sign == Zero || b.sign == Zero {
        Clear();
        return;
      }
      sign := if a.sign == b.sign then Positive else Negative;
      mag.Multiply(a.mag, b.mag);
    }

    /** Quotient to q, remainder left here, over either reading of the unsigned division. */
    method Divide(b: BigInteger, q: BigInteger, wide: bool) returns (r: Outcome)
      requires Valid() && b.Valid() && q.mag.Sized() && Apart(b) && Apart(q) && q.Apart(b)
      modifies this, mag, mag.blk, q, q.mag, q.mag.blk
      ensures r == if this == q then Fail(SameVariable)
                   else if SignedDivision(old(Value()), old(b.Value()), wide).Err? then Fail(NegativeResult) else Pass
      ensures this == q ==> Valid() && Value() == old(Value())
      ensures this != q ==> Valid() && q.Valid() && mag.blk != q.mag.blk
      ensures r.Pass? ==> SignedDivision(old(Value()), old(b.Value()), wide) == Ok(QuotRem(q.Value(), Value()))
      ensures r == Fail(NegativeResult) ==> LeftByFailure(old(Value()), old(b.Value()), q.Value(), Value())
      ensures mag.blk == old(mag.blk) || fresh(mag.blk)
      ensures q.mag.blk == old(q.mag.blk) || fresh(q.mag.blk)
      decreases this == b || q == b
    {
      hide SignedDivision, LeftByFailure;
      if this == q {
        return Fail(SameVariable);
      }
      if this == b || q == b {
        var tmpB := new BigInteger.Copy(b);
        r := Divide(tmpB, q, wide);
        return;
      }
      ZeroOperands(Value(), b.Value(), wide);
      if b.sign == Zero {
        q.Clear();
        return Pass;
      }
      if sign == Zero {
        q.Clear();
        return Pass;
      }
      if sign == b.sign {
        DivideSameSign(b, q, wide);
        return Pass;
      }
      r := DivideOppositeSigns(b, q, wide);
    }

    /** The easy case: the quotient is zero or positive. */
    method DivideSameSign(b: BigInteger, q: BigInteger, wide: bool)
      requires Valid() && b.Valid() && q.mag.Sized() && this != b && this != q && b != q
      requires Apart(b) && Apart(q) && q.Apart(b) && sign == b.sign != Zero
      modifies this, mag, mag.blk, q, q.mag, q.mag.blk
      ensures Valid() && q.Valid() && mag.blk != q.mag.blk
      ensures SignedDivision(old(Value()), b.Value(), wide) == Ok(QuotRem(q.Value(), Value()))
      ensures mag.blk == old(mag.blk) || fresh(mag.blk)
      ensures q.mag.blk == old(q.mag.blk) || fresh(q.mag.blk)
    {
      hide Val, SignedDivision, RemainderOf;
      SameSignDivision(sign, mag.Value(), b.mag.Value(), wide);
      q.sign := Positive;
      var r := mag.Divide(b.mag, q.mag, wide);
      assert r.Pass?;
      FixSigns(b.sign, q);
    }

    /** The harder case: decrement the dividend, divide, increment the quotient and
        turn the remainder R into (b - 1) - R, if R is not past b. */
    method DivideOppositeSigns(b: BigInteger, q: BigInteger, wide: bool) returns (r: Outcome)
      requires Valid() && b.Valid() && q.mag.Sized() && this != b && this != q && b != q
      requires Apart(b) && Apart(q) && q.Apart(b) && sign == b.sign.Opposite() != Zero
      modifies this, mag, mag.blk, q, q.mag, q.mag.blk
      ensures Valid() && q.Valid() && mag.blk != q.mag.blk
      ensures r == if SignedDivision(old(Value()), b.Value(), wide).Err? then Fail(NegativeResult) else Pass
      ensures r.Pass? ==> SignedDivision(old(Value()), b.Value(), wide) == Ok(QuotRem(q.Value(), Value()))
      ensures r.Fail? ==> LeftByFailure(old(Value()), b.Value(), q.Value(), Value())
      ensures mag.blk == old(mag.blk) || fresh(mag.blk)
      ensures q.mag.blk == old(q.mag.blk) || fresh(q.mag.blk)
    {
      hide Val, SignedDivision, Spared, RemainderOf;
      OppositeSignDivision(sign, mag.Value(), b.mag.Value(), wide);
      q.sign := Negative;
      r := CorrectedDivision(mag, b.mag, q.mag, wide);
      if r.Pass? {
        FixSigns(b.sign, q);
      }
    }

    /** Floor division: quotient to q, remainder, with b's sign or zero, left here. */
    method DivideWithRemainder(b: BigInteger, q: BigInteger) returns (r: Outcome)
      requires Valid() && b.Valid() && q.mag.Sized() && Apart(b) && Apart(q) && q.Apart(b)
      modifies this, mag, mag.blk, q, q.mag, q.mag.blk
      ensures r == if this == q then Fail(SameVariable) else Pass
      ensures r.Fail? ==> Valid() && Value() == old(Value())
      ensures r.Pass? ==> Valid() && q.Valid() && mag.blk != q.mag.blk
      ensures r.Pass? ==> FloorDivided(old(Value()), old(b.Value()), q.Value(), Value())
      ensures r.Pass? && old(b.Value()) == 0 ==> q.Value() == 0
      ensures mag.blk == old(mag.blk) || fresh(mag.blk)
      ensures q.mag.blk == old(q.mag.blk) || fresh(q.mag.blk)
    {
      SignedDivisionMeaning(Value(), b.Value(), false);
      FloorDivModMeaning(Value(), b.Value());
      r := Divide(b, q, false);
    }

    /** divideWithRemainder over the unsigned division as written. With opposite signs it fails, and
        with equal signs the remainder is off, exactly when the division of magnitudes is not spared. */
    method DivideWithRemainderAsWritten(b: BigInteger, q: BigInteger) returns (r: Outcome)
      requires Valid() && b.Valid() && q.mag.Sized() && Apart(b) && Apart(q) && q.Apart(b)
      modifies this, mag, mag.blk, q, q.mag, q.mag.blk
      ensures r == if this == q then Fail(SameVariable)
                   else if Opposed(old(Value()), old(b.Value())) && !SignedSpared(old(Value()), old(b.Value()))
                   then Fail(NegativeResult) else Pass
      ensures this == q ==> Valid() && Value() == old(Value())
      ensures this != q ==> Valid() && q.Valid() && mag.blk != q.mag.blk
      ensures r.Pass? ==> q.Value() == FloorDiv(old(Value()), old(b.Value()))
      ensures r.Pass? ==> (Value() == FloorMod(old(Value()), old(b.Value()))
                           <==> SignedSpared(old(Value()), old(b.Value())))
      ensures r.Pass? ==> Magnitude(Value())
                          == if Opposed(old(Value()), old(b.Value()))
                             then Magnitude(FloorMod(old(Value()), old(b.Value())))
                             else RemainderOf(Magnitude(old(Value())), Magnitude(old(b.Value())), true)
      ensures r == Fail(NegativeResult) ==> LeftByFailure(old(Value()), old(b.Value()), q.Value(), Value())
      ensures r == Fail(NegativeResult) ==>
                && q.Value() == FloorDiv(old(Value()), old(b.Value()))
                && Magnitude(Value()) == RemainderOf(Magnitude(old(Value())) - 1, Magnitude(old(b.Value())), true)
                && (Value() < 0 <==> old(Value()) < 0)
      ensures mag.blk == old(mag.blk) || fresh(mag.blk)
      ensures q.mag.blk == old(q.mag.blk) || fresh(q.mag.blk)
    {
      hide RemainderOf, FloorDiv, FloorMod, SignedSpared, LeftByFailure;
      FailureMeaning(Value(), b.Value());
      SignedDivisionMeaning(Value(), b.Value(), true);
      r := Divide(b, q, true);
    }

    /** The remainder takes the divisor's sign; zero magnitudes take sign zero. */
    method FixSigns(s: Sign, q: BigInteger)
      requires mag.Valid() && q.mag.Valid() && this != q && s != Zero && q.sign != Zero
      modifies this`sign, q`sign
      ensures Valid() && q.Valid()
      ensures Value() == Signed(s, mag.Value()) && q.Value() == Signed(old(q.sign), q.mag.Value())
    {
      mag.ZeroIffEmpty();
      q.mag.ZeroIffEmpty();
      sign := s;
      if mag.len == 0 {
        sign := Zero;
      }
      if q.mag.len == 0 {
        q.sign := Zero;
      }
    }

    method Negate(a: BigInteger)
      requires mag.Sized() && a.Valid() && Apart(a)
      modifies this, mag, mag.blk
      ensures Valid() && Value() == -old(a.Value())
      ensures mag.blk == old(mag.blk) || fresh(mag.blk)
      decreases this == a
    {
      if this == a {
        var tmp := new BigInteger();
        tmp.Negate(a);
        Assign(tmp);
        return;
      }
      mag.Assign(a.mag);
      sign := a.sign.Opposite();
    }

    method FlipSign()
      requires Valid()
      modifies this`sign
      ensures Valid() && Value() == -old(Value())
    {
      sign := sign.Opposite();
    }

    method Increment()
      requires Valid()
      modifies this, mag, mag.blk
      ensures Valid() && Value() == old(Value()) + 1
      ensures mag.blk == old(mag.blk) || fresh(mag.blk)
    {
      if sign == Negative {
        var r := mag.Decrement();
        assert r.Pass?;
        var zero := new BigUnsigned.FromWord(0);
        var eq := mag.Equals(zero);
        if eq {
          sign := Zero;
        }
      } else {
        mag.Increment();
        sign := Positive;
      }
    }

    method Decrement()
      requires Valid()
      modifies this, mag, mag.blk
      ensures Valid() && Value() == old(Value()) - 1
      ensures mag.blk == old(mag.blk) || fresh(mag.blk)
    {
      if sign == Positive {
        var r := mag.Decrement();
        assert r.Pass?;
        var zero := new BigUnsigned.FromWord(0);
        var eq := mag.Equals(zero);
        if eq {
          sign := Zero;
        }
      } else {
        mag.Increment();
        sign := Negative;
      }
    }

    // Return-by-value operators

    method Plus(x: BigInteger) returns (z: BigInteger)
      requires Valid() && x.Valid()
      ensures fresh(z.Repr()) && z.Valid() && z.Value() == Value() + x.Value()
    {
      z := new BigInteger();
      z.Add(this, x);
    }

    method Minus(x: BigInteger) returns (z: BigInteger)
      requires Valid() && x.Valid()
      ensures fresh(z.Repr()) && z.Valid() && z.Value() == Value() - x.Value()
    {
      z := new BigInteger();
      z.Subtract(this, x);
    }

    method Times(x: BigInteger) returns (z: BigInteger)
      requires Valid() && x.Valid()
      ensures fresh(z.Repr()) && z.Valid() && z.Value() == Value() * x.Value()
    {
      z := new BigInteger();
      z.Multiply(this, x);
    }

    /** The division behind / and %, on a copy; a zero divisor gives quotient zero. */
    method DivMod(x: BigInteger, wide: bool) returns (res: Outcome, q: BigInteger, r: BigInteger)
      requires Valid() && x.Valid()
      ensures res == if SignedDivision(Value(), x.Value(), wide).Err? then Fail(NegativeResult) else Pass
      ensures fresh(q.Repr()) && fresh(r.Repr()) && q.Valid() && r.Valid()
      ensures res.Pass? ==> SignedDivision(Value(), x.Value(), wide) == Ok(QuotRem(q.Value(), r.Value()))
    {
      hide SignedDivision, LeftByFailure;
      q := new BigInteger();
      r := new BigInteger.Copy(this);
      res := r.Divide(x, q, wide);
    }

    /** operator /, over either reading; a zero divisor is refused. */
    method Divided(x: BigInteger, wide: bool) returns (r: Result<BigInteger>)
      requires Valid() && x.Valid()
      ensures x.Value() == 0 ==> r == Err(DivisionByZero)
      ensures x.Value() != 0 && SignedDivision(Value(), x.Value(), wide).Err? ==> r == Err(NegativeResult)
      ensures x.Value() != 0 && SignedDivision(Value(), x.Value(), wide).Ok? ==>
                r.Ok? && fresh(r.value.Repr()) && r.value.Valid()
                && r.value.Value() == SignedDivision(Value(), x.Value(), wide).value.q
    {
      if x.sign == Zero {
        return Err(DivisionByZero);
      }
      hide SignedDivision;
      var res, q, z := DivMod(x, wide);
      return if res.Fail? then Err(res.error) else Ok(q);
    }

    /** operator %, over either reading; a zero divisor is refused. */
    method Reduced(x: BigInteger, wide: bool) returns (r: Result<BigInteger>)
      requires Valid() && x.Valid()
      ensures x.Value() == 0 ==> r == Err(DivisionByZero)
      ensures x.Value() != 0 && SignedDivision(Value(), x.Value(), wide).Err? ==> r == Err(NegativeResult)
      ensures x.Value() != 0 && SignedDivision(Value(), x.Value(), wide).Ok? ==>
                r.Ok? && fresh(r.value.Repr()) && r.value.Valid()
                && r.value.Value() == SignedDivision(Value(), x.Value(), wide).value.r
    {
      if x.sign == Zero {
        return Err(DivisionByZero);
      }
      hide SignedDivision;
      var res, q, z := DivMod(x, wide);
      return if res.Fail? then Err(res.error) else Ok(z);
    }

    /** operator / */
    method Over(x: BigInteger) returns (r: Result<BigInteger>)
      requires Valid() && x.Valid()
      ensures x.Value() == 0 ==> r == Err(DivisionByZero)
      ensures x.Value() != 0 ==> r.Ok? && fresh(r.value.Repr()) && r.value.Valid()
      ensures x.Value() != 0 ==> r.Ok? && r.value.Value() == FloorDiv(Value(), x.Value())
    {
      hide SignedDivision, FloorDiv, FloorMod;
      SignedDivisionMeaning(Value(), x.Value(), false);
      r := Divided(x, false);
    }

    /** operator % */
    method Modulo(x: BigInteger) returns (r: Result<BigInteger>)
      requires Valid() && x.Valid()
      ensures x.Value() == 0 ==> r == Err(DivisionByZero)
      ensures x.Value() != 0 ==> r.Ok? && fresh(r.value.Repr()) && r.value.Valid()
      ensures x.Value() != 0 ==> r.Ok? && r.value.Value() == FloorMod(Value(), x.Value())
    {
      hide SignedDivision, FloorDiv, FloorMod;
      SignedDivisionMeaning(Value(), x.Value(), false);
      r := Reduced(x, false);
    }

    /** operator / as written: a quotient, when there is one, is right. */
    method OverAsWritten(x: BigInteger) returns (r: Result<BigInteger>)
      requires Valid() && x.Valid()
      ensures r.Err? ==> r.error == if x.Value() == 0 then DivisionByZero else NegativeResult
      ensures r.Err? <==> x.Value() == 0 || (Opposed(Value(), x.Value()) && !SignedSpared(Value(), x.Value()))
      ensures r.Ok? ==> fresh(r.value.Repr()) && r.value.Valid() && r.value.Value() == FloorDiv(Value(), x.Value())
    {
      hide SignedDivision, FloorDiv, FloorMod;
      SignedDivisionMeaning(Value(), x.Value(), true);
      r := Divided(x, true);
    }

    /** operator % as written: right exactly when spared. */
    method ModuloAsWritten(x: BigInteger) returns (r: Result<BigInteger>)
      requires Valid() && x.Valid()
      ensures r.Err? ==> r.error == if x.Value() == 0 then DivisionByZero else NegativeResult
      ensures r.Err? <==> x.Value() == 0 || (Opposed(Value(), x.Value()) && !SignedSpared(Value(), x.Value()))
      ensures r.Ok? ==> fresh(r.value.Repr()) && r.value.Valid()
      ensures r.Ok? ==> (r.value.Value() == FloorMod(Value(), x.Value()) <==> SignedSpared(Value(), x.Value()))
    {
      hide SignedDivision, FloorDiv, FloorMod;
      SignedDivisionMeaning(Value(), x.Value(), true);
      r := Reduced(x, true);
    }
  }

  lemma SignedProduct(s: Sign, x: nat, t: Sign, y: nat)
    ensures Signed(s, x) * Signed(t, y)
            == if s == Zero || t == Zero then 0 else if s == t then x * y else -(x * y)
    ensures x > 0 && y > 0 ==> x * y > 0
  {
    if x > 0 && y > 0 {
      MulLe(1, x, y);
    }
    var i: int, j: int := x, y;
    assert (-i) * j == -(i * j) == i * (-j) && (-i) * (-j) == i * j;
  }

  /** The three corrections around the division of magnitudes. The subtraction goes negative, and
      throws, exactly when the division leaves something above its remainder. */
  method CorrectedDivision(m: BigUnsigned, b: BigUnsigned, q: BigUnsigned, wide: bool) returns (r: Outcome)
    requires m.Valid() && b.Valid() && q.Sized() && m.Value() > 0 && b.Value() > 0
    requires m != b && m != q && b != q && m.blk != b.blk && m.blk != q.blk && b.blk != q.blk
    modifies m, m.blk, q, q.blk
    ensures m.Valid() && q.Valid() && m.blk != q.blk
    ensures r == if wide && !Spared(old(m.Value()) - 1, b.Value()) then Fail(NegativeResult) else Pass
    ensures q.Value() == (old(m.Value()) - 1) / b.Value() + 1
    ensures m.Value() == if r.Pass? then b.Value() - 1 - (old(m.Value()) - 1) % b.Value()
                         else RemainderOf(old(m.Value()) - 1, b.Value(), true)
    ensures q.Value() > 0 && (r.Fail? ==> m.Value() > 0)
    ensures m.blk == old(m.blk) || fresh(m.blk)
    ensures q.blk == old(q.blk) || fresh(q.blk)
  {
    hide Val, Spared, RemainderOf;
    LeftoverDecides(m.Value() - 1, b.Value());
    DivModDef(m.Value() - 1, b.Value());
    r := m.Decrement();
    assert r.Pass?;
    r := m.Divide(b, q, wide);
    assert r.Pass?;
    q.Increment();
    r := m.Subtract(b, m);
    if r.Pass? {
      r := m.Decrement();
      assert r.Pass?;
    }
  }

  /** q and r are the floor quotient and remainder of a by b. */
  ghost predicate FloorDivided(a: int, b: int, q: int, r: int) {
    && a == q * b + r
    && (b > 0 ==> 0 <= r < b)
    && (b < 0 ==> b < r <= 0)
  }

  /** Knuth's quotient and remainder: rounding toward minus infinity, a mod 0 == a. */
  ghost function FloorDiv(a: int, b: int): int {
    if b == 0 then 0 else if b > 0 then a / b else -a / -b
  }

  ghost function FloorMod(a: int, b: int): int {
    if b == 0 then a else if b > 0 then a % b else -(-a % -b)
  }

  lemma FloorDivModMeaning(a: int, b: int)
    ensures FloorDivided(a, b, FloorDiv(a, b), FloorMod(a, b))
  {
    if b > 0 {
      DivModDef(a, b);
    } else if b < 0 {
      DivModDef(-a, -b);
    }
  }

  lemma OppositeSignFloor(s: Sign, x: nat, y: nat, q: nat, r: nat)
    requires s != Zero && x > 0 && x - 1 == q * y + r && r < y
    ensures FloorDivided(Signed(s, x), Signed(s.Opposite(), y),
                         Signed(Negative, q + 1), Signed(s.Opposite(), y - 1 - r))
  {
    SignedProduct(Negative, q + 1, s.Opposite(), y);
    Scale(y, q, q + 1, 1);
  }

  /** FloorDivided pins the pair down: q is the largest integer with q * b not past a. */
  lemma FloorDividedUnique(a: int, b: int, q: int, r: int, q': int, r': int)
    requires b != 0 && FloorDivided(a, b, q, r) && FloorDivided(a, b, q', r')
    ensures q == q' && r == r'
  {
    if b > 0 {
      DivModUnique(a, b, q, r);
      DivModUnique(a, b, q', r');
    } else {
      assert -a == q * -b + -r && -a == q' * -b + -r';
      DivModUnique(-a, -b, q, -r);
      DivModUnique(-a, -b, q', -r');
    }
  }

  // The division as written

  datatype QuotRem = QuotRem(q: int, r: int)

  ghost function Magnitude(n: int): nat {
    if n < 0 then -n else n
  }

  ghost predicate Opposed(a: int, b: int) {
    a < 0 < b || b < 0 < a
  }

  /** The magnitude that is divided: one less in the harder case. */
  ghost function Dividend(a: int, b: int): nat {
    if Opposed(a, b) then Magnitude(a) - 1 else Magnitude(a)
  }

  /** Line 515 leaves nothing behind in the division of magnitudes that a by b leads to. */
  ghost predicate SignedSpared(a: int, b: int) {
    Spared(Dividend(a, b), Magnitude(b))
  }

  /** The outcome of divideWithRemainder on numbers. */
  ghost function SignedDivision(a: int, b: int, wide: bool): (d: Result<QuotRem>)
    ensures d.Err? ==> wide && Opposed(a, b) && d.error == NegativeResult
  {
    if !Opposed(a, b) then
      var r: int := RemainderOf(Magnitude(a), Magnitude(b), wide);
      Ok(QuotRem(FloorDiv(a, b), if a < 0 then -r else r))
    else if wide && !SignedSpared(a, b) then Err(NegativeResult)
    else Ok(QuotRem(FloorDiv(a, b), FloorMod(a, b)))
  }

  /** What the failed subtraction leaves: the incremented quotient, and the remainder as divided. */
  ghost predicate LeftByFailure(a: int, b: int, q: int, r: int) {
    && b != 0
    && q == -(QuotientOf(Dividend(a, b), Magnitude(b)) + 1)
    && r == (if a < 0 then -1 else 1) * RemainderOf(Dividend(a, b), Magnitude(b), true)
  }

  /** What is left by a failure: the floor quotient, and more than the divisor where the remainder was
      to be, under the dividend's sign. */
  lemma FailureMeaning(a: int, b: int)
    ensures Opposed(a, b) && !SignedSpared(a, b) ==>
              forall q, r | LeftByFailure(a, b, q, r) ::
                && q == FloorDiv(a, b)
                && Magnitude(r) == RemainderOf(Magnitude(a) - 1, Magnitude(b), true)
                && (r < 0 <==> a < 0)
  {
    hide RemainderOf, Spared, FloorDiv;
    if Opposed(a, b) {
      LeftoverDecides(Magnitude(a) - 1, Magnitude(b));
      OppositeSignFloorDiv(if a < 0 then Negative else Positive, Magnitude(a), Magnitude(b));
    }
  }

  lemma ZeroOperands(a: int, b: int, wide: bool)
    ensures a == 0 || b == 0 ==> SignedDivision(a, b, wide) == Ok(QuotRem(0, a))
  {
  }

  lemma SameSignDivision(s: Sign, x: nat, y: nat, wide: bool)
    requires s != Zero && x > 0 && y > 0
    ensures SignedDivision(Signed(s, x), Signed(s, y), wide)
            == Ok(QuotRem(QuotientOf(x, y), Signed(s, RemainderOf(x, y, wide))))
  {
    hide RemainderOf;
  }

  /** The corrected magnitudes are the floor quotient and remainder. */
  lemma OppositeSignFloorDiv(s: Sign, x: nat, y: nat)
    requires s != Zero && x > 0 && y > 0
    ensures (x - 1) / y >= 0
    ensures FloorDiv(Signed(s, x), Signed(s.Opposite(), y)) == Signed(Negative, (x - 1) / y + 1)
    ensures FloorMod(Signed(s, x), Signed(s.Opposite(), y)) == Signed(s.Opposite(), y - 1 - (x - 1) % y)
  {
    hide FloorDiv, FloorMod, FloorDivided;
    var a, b := Signed(s, x), Signed(s.Opposite(), y);
    DivModDef(x - 1, y);
    DivLe(x - 1, y);
    var q: nat, r: nat := (x - 1) / y, (x - 1) % y;
    OppositeSignFloor(s, x, y, q, r);
    FloorDivModMeaning(a, b);
    FloorDividedUnique(a, b, FloorDiv(a, b), FloorMod(a, b), Signed(Negative, q + 1), Signed(s.Opposite(), y - 1 - r));
  }

  lemma OppositeSignDivision(s: Sign, x: nat, y: nat, wide: bool)
    requires s != Zero && x > 0 && y > 0
    ensures (x - 1) / y >= 0
    ensures var a, b := Signed(s, x), Signed(s.Opposite(), y);
            if wide && !Spared(x - 1, y) then
              && SignedDivision(a, b, wide) == Err(NegativeResult)
              && LeftByFailure(a, b, Signed(Negative, (x - 1) / y + 1), Signed(s, RemainderOf(x - 1, y, true)))
            else
              SignedDivision(a, b, wide)
              == Ok(QuotRem(Signed(Negative, (x - 1) / y + 1), Signed(s.Opposite(), y - 1 - (x - 1) % y)))
  {
    hide RemainderOf, Spared, FloorDiv, FloorMod;
    OppositeSignFloorDiv(s, x, y);
  }

  /** As intended it is floor division. As written it is floor division exactly when spared; with
      opposite signs it fails otherwise, with equal signs the remainder is off. */
  lemma SignedDivisionMeaning(a: int, b: int, wide: bool)
    ensures !wide || SignedSpared(a, b) ==> SignedDivision(a, b, wide) == Ok(QuotRem(FloorDiv(a, b), FloorMod(a, b)))
    ensures wide && !SignedSpared(a, b) && Opposed(a, b) ==> SignedDivision(a, b, wide) == Err(NegativeResult)
    ensures wide && !SignedSpared(a, b) && !Opposed(a, b) ==>
              && SignedDivision(a, b, wide).Ok? && SignedDivision(a, b, wide).value.q == FloorDiv(a, b)
              && SignedDivision(a, b, wide).value.r != FloorMod(a, b)
  {
    hide RemainderOf, Spared, FloorDiv, FloorMod;
    SameSignFloorMod(a, b);
    if b == 0 {
      ByZero(Magnitude(a), wide);
    } else {
      LeftoverDecides(Dividend(a, b), Magnitude(b));
    }
  }

  /** As written, (2^64 + 5) / 3 returns (B - 1) * B^2 as remainder, and -(2^64 + 6) / 3 throws. */
  lemma SignedDivisionsThatFail()
    ensures SignedDivision((B as int) + 5, 3, true) == Ok(QuotRem(((B as int) + 5) / 3, (B - 1) * B * B))
    ensures SignedDivision(-((B as int) + 6), 3, true) == Err(NegativeResult)
  {
    RemainderOfMultipleOfThree();
    TwoBlocksByOne(B + 5, 3);
  }

  lemma SameSignFloorMod(a: int, b: int)
    ensures b == 0 ==> FloorMod(a, b) == a
    ensures b != 0 && !Opposed(a, b) ==>
              FloorMod(a, b) == if a < 0 then -(Magnitude(a) % Magnitude(b)) else Magnitude(a) % Magnitude(b)
  {
    if a == 0 && b != 0 {
      DivModUnique(0, Magnitude(b), 0, 0);
    }
  }
}
