/** Decimal text of BigUnsigned and BigInteger. */
module Text {
  import opened Powers
  import opened Radix
  import opened Decimals
  import opened Blocks
  import opened Outcomes
  import opened Leftovers
  import opened Symbols
  import opened BigUnsigneds
  import opened BigIntegers
  import opened InABase

  /** The numeral of n in a base with symbols. */
  function Numeral(n: nat, base: nat): string
    requires 2 <= base <= 36
  {
    DigitsOfCorrect(n, base);
    Printed(DigitsOf(n, base))
  }

  /** The number a string of symbols stands for. */
  function ParseNat(s: string, base: nat): Result<nat> {
    var ds := Scan(s, base);
    if ds.Err? then Err(ds.error) else Ok(Val(ds.value, base))
  }

  function SignedNumeral(i: int): string {
    if i < 0 then "-" + Numeral(-i, 10) else Numeral(i, 10)
  }

  /** An optional sign, then a decimal numeral. */
  function ParseInt(s: string): Result<int> {
    var signed := s != "" && (s[0] == '-' || s[0] == '+');
    var n := ParseNat(if signed then s[1..] else s, 10);
    if n.Err? then Err(n.error) else if signed && s[0] == '-' then Ok(-(n.value as int)) else Ok(n.value)
  }

  /** A numeral, digit by digit: the last symbol is that of the remainder, the rest the numeral of the
      quotient. */
  lemma NumeralSteps(n: nat, base: nat)
    requires 2 <= base <= 36
    ensures n < base ==> Numeral(n, base) == ["0123456789ABCDEFGHIJKLMNOPQRSTUVWXYZ"[n]]
    ensures n >= base ==>
              && 0 <= n % base < base && 0 <= n / base
              && Numeral(n, base) == Numeral(n / base, base) + ["0123456789ABCDEFGHIJKLMNOPQRSTUVWXYZ"[n % base]]
  {
    hide Numeral, Symbol;
    if n < base {
      OneSymbol(n, base);
      SymbolTable(n);
    } else {
      Shrinks(n, base);
      LastSymbol(n, base);
      SymbolTable(n % base);
    }
  }

  lemma OneSymbol(n: nat, base: nat)
    requires 2 <= base <= 36 && n < base
    ensures Numeral(n, base) == [Symbol(n)]
  {
    DigitsOfCorrect(n, base);
    if n > 0 {
      DivModUnique(n, base, 0, n);
      assert DigitsOf(n, base) == [n];
      assert [n][1..] == [];
    }
  }

  lemma LastSymbol(n: nat, base: nat)
    requires 2 <= base <= 36 && n >= base
    ensures 0 <= n % base < base && 0 <= n / base
    ensures Numeral(n, base) == Numeral(n / base, base) + [Symbol(n % base)]
  {
    hide Symbol;
    Shrinks(n, base);
    DivModDef(n, base);
    assert n / base > 0;
    DigitsOfCorrect(n, base);
    DigitsOfCorrect(n / base, base);
    assert DigitsOf(n, base)[1..] == DigitsOf(n / base, base);
  }

  /** Reading, digit by digit: one more symbol on the right multiplies by the base and adds its digit. */
  lemma ParseSteps(s: string, c: char, base: nat)
    ensures ParseNat("", base) == Ok(0)
    ensures ParseNat(s + [c], base)
            == if DigitValue(c, base).Err? then Err(DigitValue(c, base).error)
               else if ParseNat(s, base).Err? then ParseNat(s, base)
               else Ok(base * ParseNat(s, base).value + DigitValue(c, base).value)
  {
    var t := s + [c];
    assert t[|t| - 1] == c && t[..|t| - 1] == s;
    if DigitValue(c, base).Ok? && Scan(s, base).Ok? {
      var d, rest := DigitValue(c, base).value, Scan(s, base).value;
      assert ([d] + rest)[1..] == rest;
    }
  }

  /** A sign is read as a sign: minus negates, plus does not, and neither is needed. */
  lemma ParseSigned(t: string)
    ensures ParseInt("-" + t)
            == if ParseNat(t, 10).Err? then Err(ParseNat(t, 10).error) else Ok(-(ParseNat(t, 10).value as int))
    ensures ParseInt("+" + t)
            == if ParseNat(t, 10).Err? then Err(ParseNat(t, 10).error) else Ok(ParseNat(t, 10).value)
    ensures t == "" || (t[0] != '-' && t[0] != '+') ==>
              ParseInt(t) == if ParseNat(t, 10).Err? then Err(ParseNat(t, 10).error) else Ok(ParseNat(t, 10).value)
  {
    assert ("-" + t)[1..] == t && ("+" + t)[1..] == t;
  }

  /** The same value as the library's parser gives. */
  lemma {:induction false} DecIsParsed(s: string)
    requires AllDigits(s)
    ensures ParseNat(s, 10) == Ok(Dec(s))
  {
    if s != "" {
      var n := |s| - 1;
      DecSnoc(s);
      DecIsParsed(s[..n]);
      var d := s[n] as int - '0' as int;
      assert DigitValue(s[n], 10) == Ok(d);
      var rest := Scan(s[..n], 10).value;
      assert ([d] + rest)[1..] == rest;
    }
  }

  /** Strings of digits, with a sign or without. */
  lemma DecIsParsedSigned(t: string)
    requires AllDigits(t)
    ensures ParseInt("-" + t) == Ok(-(Dec(t) as int)) && ParseInt("+" + t) == Ok(Dec(t)) && ParseInt(t) == Ok(Dec(t))
  {
    hide ParseInt, ParseNat, Dec;
    ParseSigned(t);
    DecIsParsed(t);
    assert t != "" ==> IsDigit(t[0]);
  }

  /** Text round trip, number side: any base with symbols, any number. */
  lemma ParseNumeral(n: nat, base: nat)
    requires 2 <= base <= 36
    ensures ParseNat(Numeral(n, base), base) == Ok(n)
  {
    var ds := DigitsOf(n, base);
    DigitsOfCorrect(n, base);
    ParsePrinted(ds, base);
    StrippedDigits(Scan(Printed(ds), base).value, base);
  }

  /** Text round trip, string side: uppercased, leading zeros gone, "0" when nothing remains. */
  lemma NumeralOfParsed(s: string, base: nat)
    requires 2 <= base <= 36 && ParseNat(s, base).Ok?
    ensures Numeral(ParseNat(s, base).value, base) == Normalized(s)
  {
    var ds := Scan(s, base).value;
    PrintParsed(s, base);
    StrippedDigits(ds, base);
    DigitsOfVal(Stripped(ds), base);
  }

  lemma NumeralStartsWithDigit(n: nat)
    ensures Numeral(n, 10) != "" && '0' <= Numeral(n, 10)[0] <= '9'
  {
    DigitsOfCorrect(n, 10);
    var ds := DigitsOf(n, 10);
    if ds != [] {
      SymbolsSplit(ds);
    }
  }

  /** Parsing the printed form of any signed number returns that number. */
  lemma ParseSignedNumeral(i: int)
    ensures ParseInt(SignedNumeral(i)) == Ok(i)
  {
    hide Numeral, ParseNat;
    var n := if i < 0 then -i else i;
    ParseNumeral(n, 10);
    NumeralStartsWithDigit(n);
    if i < 0 {
      assert SignedNumeral(i)[1..] == Numeral(n, 10);
    }
  }

  method BigUnsignedToString(x: BigUnsigned) returns (s: string)
    requires x.Valid()
    ensures s == Numeral(x.Value(), 10)
  {
    var d := BigUnsignedInABase.FromBigUnsigned(x, 10);
    var t := d.value.ToText();
    return t.value;
  }

  method BigIntegerToString(x: BigInteger) returns (s: string)
    requires x.Valid()
    ensures s == SignedNumeral(x.Value())
    ensures s == if x.Value() < 0 then "-" + Numeral(-x.Value(), 10) else Numeral(x.Value(), 10)
  {
    s := BigUnsignedToString(x.mag);
    if x.sign == Negative {
      s := "-" + s;
    }
  }

  /** What the printers give as written: the numeral, or the failure of some digit's conversion. The
      numbers that print are those of one block. */
  ghost function TextAsWritten(i: int): (r: Result<string>)
    ensures r.Ok? <==> -(B as int) < i < B
  {
    DigitLoopFailsIff(Magnitude(i), 10);
    if DigitLoopFails(Magnitude(i), 10) then Err(TooBigForType) else Ok(SignedNumeral(i))
  }

  method BigUnsignedToStringAsWritten(x: BigUnsigned) returns (s: Result<string>)
    requires x.Valid()
    ensures s == TextAsWritten(x.Value())
    ensures s == if x.Value() < B then Ok(Numeral(x.Value(), 10)) else Err(TooBigForType)
  {
    var d := BigUnsignedInABase.FromBigUnsignedAsWritten(x, 10);
    if d.Err? {
      return Err(d.error);
    }
    s := d.value.ToText();
  }

  method BigIntegerToStringAsWritten(x: BigInteger) returns (s: Result<string>)
    requires x.Valid()
    ensures s == TextAsWritten(x.Value())
    ensures s == if x.Value() <= -(B as int) || B <= x.Value() then Err(TooBigForType)
                 else if x.Value() < 0 then Ok("-" + Numeral(-x.Value(), 10))
                 else Ok(Numeral(x.Value(), 10))
  {
    s := BigUnsignedToStringAsWritten(x.mag);
    if s.Ok? && x.sign == Negative {
      s := Ok("-" + s.value);
    }
  }

  /** As written the round trip through text is there for numbers of one block, and for no others. */
  lemma RoundTripAsWritten(i: int)
    ensures TextAsWritten(i).Ok? && ParseInt(TextAsWritten(i).value) == Ok(i) <==> -(B as int) < i < B
  {
    ParseSignedNumeral(i);
  }

  /** 2^64 does not print: its lowest decimal digit, 6, is to be read from 6 + (B - 1) * B^2. */
  lemma TwoTo64DoesNotPrint()
    ensures TextAsWritten(B) == Err(TooBigForType)
    ensures RemainderOf(B, 10, true) == 6 + (B - 1) * B * B
  {
    OddGarbage(B, 10);
  }

  method StringToBigUnsigned(s: string) returns (r: Result<BigUnsigned>)
    ensures ParseNat(s, 10).Err? ==> r == Err(ParseNat(s, 10).error)
    ensures ParseNat(s, 10).Ok? ==> r.Ok? && r.value.Valid() && r.value.Value() == ParseNat(s, 10).value
  {
    var d := BigUnsignedInABase.FromString(s, 10);
    if d.Err? {
      return Err(d.error);
    }
    StrippedDigits(Scan(s, 10).value, 10);
    var n := d.value.ToBigUnsigned();
    return Ok(n);
  }

  method StringToBigInteger(s: string) returns (r: Result<BigInteger>)
    ensures ParseInt(s).Err? ==> r == Err(ParseInt(s).error)
    ensures ParseInt(s).Ok? ==> r.Ok? && r.value.Valid() && r.value.Value() == ParseInt(s).value
    ensures s != "" && s[0] == '-' ==>
              var n := ParseNat(s[1..], 10);
              if n.Err? then r == Err(n.error) else r.Ok? && r.value.Value() == -(n.value as int)
    ensures s != "" && s[0] == '+' ==>
              var n := ParseNat(s[1..], 10);
              if n.Err? then r == Err(n.error) else r.Ok? && r.value.Value() == n.value
    ensures s == "" || (s[0] != '-' && s[0] != '+') ==>
              var n := ParseNat(s, 10);
              if n.Err? then r == Err(n.error) else r.Ok? && r.value.Value() == n.value
  {
    var signed := s != "" && (s[0] == '-' || s[0] == '+');
    var n := StringToBigUnsigned(if signed then s[1..] else s);
    if n.Err? {
      return Err(n.error);
    }
    if signed && s[0] == '-' {
      r := BigInteger.FromParts(n.value, Negative);
      return;
    }
    var z := new BigInteger.FromUnsigned(n.value);
    return Ok(z);
  }
}
