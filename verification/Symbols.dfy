/** Digits as the symbols 0-9, A-Z, and strings of them, highest digit first. */
module Symbols {
  import opened Radix
  import opened Outcomes

  function Symbol(d: nat): char
    requires d < 36
  {
    if d < 10 then '0' + d as char else 'A' + (d - 10) as char
  }

  function SymbolValue(c: char): (r: Result<nat>)
    ensures r.Ok? ==> r.value < 36
  {
    if '0' <= c <= '9' then Ok(c as int - '0' as int)
    else if 'A' <= c <= 'Z' then Ok(c as int - 'A' as int + 10)
    else if 'a' <= c <= 'z' then Ok(c as int - 'a' as int + 10)
    else Err(BadSymbol)
  }

  function Upper(c: char): char {
    if 'a' <= c <= 'z' then 'A' + (c - 'a') else c
  }

  lemma SymbolRoundTrip(d: nat, c: char)
    ensures d < 36 ==> SymbolValue(Symbol(d)) == Ok(d)
    ensures SymbolValue(c).Ok? ==> Symbol(SymbolValue(c).value) == Upper(c)
  {
  }

  /** The symbols in order of value, upper case when printed, either case when read. */
  lemma SymbolTable(d: nat)
    requires d < 36
    ensures Symbol(d) == "0123456789ABCDEFGHIJKLMNOPQRSTUVWXYZ"[d]
    ensures SymbolValue("0123456789ABCDEFGHIJKLMNOPQRSTUVWXYZ"[d]) == Ok(d)
    ensures SymbolValue("0123456789abcdefghijklmnopqrstuvwxyz"[d]) == Ok(d)
  {
    UpperTable(d);
    LowerTable(d);
  }

  lemma UpperTable(d: nat)
    requires d < 36
    ensures "0123456789ABCDEFGHIJKLMNOPQRSTUVWXYZ"[d] == if d < 10 then '0' + d as char else 'A' + (d - 10) as char
  {
  }

  lemma LowerTable(d: nat)
    requires d < 36
    ensures "0123456789abcdefghijklmnopqrstuvwxyz"[d] == if d < 10 then '0' + d as char else 'a' + (d - 10) as char
  {
  }

  /** What a symbol is as a digit of a base, and which error a digit too large gives. */
  lemma SymbolAsDigit(c: char, d: nat, base: nat)
    requires d < 36
    requires c == "0123456789ABCDEFGHIJKLMNOPQRSTUVWXYZ"[d] || c == "0123456789abcdefghijklmnopqrstuvwxyz"[d]
    ensures DigitValue(c, base) == if d < base then Ok(d) else Err(DigitTooLarge)
  {
    UpperTable(d);
    LowerTable(d);
  }

  /** Every other character is a bad symbol. */
  lemma BadSymbols(c: char, base: nat)
    ensures DigitValue(c, base) == Err(BadSymbol)
            <==> c !in "0123456789ABCDEFGHIJKLMNOPQRSTUVWXYZ" && c !in "0123456789abcdefghijklmnopqrstuvwxyz"
  {
    UpperMembers(c);
    LowerMembers(c);
  }

  lemma UpperMembers(c: char)
    ensures c in "0123456789ABCDEFGHIJKLMNOPQRSTUVWXYZ" <==> '0' <= c <= '9' || 'A' <= c <= 'Z'
  {
    if '0' <= c <= '9' {
      UpperTable(c as int - '0' as int);
    } else if 'A' <= c <= 'Z' {
      UpperTable(c as int - 'A' as int + 10);
    }
  }

  lemma LowerMembers(c: char)
    ensures c in "0123456789abcdefghijklmnopqrstuvwxyz" <==> '0' <= c <= '9' || 'a' <= c <= 'z'
  {
    if '0' <= c <= '9' {
      LowerTable(c as int - '0' as int);
    } else if 'a' <= c <= 'z' {
      LowerTable(c as int - 'a' as int + 10);
    }
  }

  /** One symbol as a digit of the base. */
  function DigitValue(c: char, base: nat): Result<nat> {
    var v := SymbolValue(c);
    if v.Ok? && v.value >= base then Err(DigitTooLarge) else v
  }

  /** The digits of a string, lowest first. The last symbol is read first, so it is the
      rightmost bad symbol that decides the error. */
  function Scan(s: string, base: nat): (r: Result<seq<nat>>)
    ensures r.Ok? ==> |r.value| == |s| && Digits(r.value, base)
  {
    if s == "" then Ok([])
    else
      var n := |s| - 1;
      var d := DigitValue(s[n], base);
      if d.Err? then Err(d.error)
      else
        var rest := Scan(s[..n], base);
        if rest.Err? then rest else Ok([d.value] + rest.value)
  }

  /** The rightmost symbol that is no digit decides the error. */
  lemma {:induction false} ScanFails(s: string, base: nat, k: nat)
    requires k < |s| && DigitValue(s[k], base).Err?
    requires forall j :: k < j < |s| ==> DigitValue(s[j], base).Ok?
    ensures Scan(s, base) == Err(DigitValue(s[k], base).error)
  {
    var n := |s| - 1;
    if k < n {
      ScanFails(s[..n], base, k);
    }
  }

  /** Digits without their leading (last) zeros. */
  function Stripped(ds: seq<nat>): (t: seq<nat>)
    ensures Canonical(t)
  {
    if ds != [] && ds[|ds| - 1] == 0 then Stripped(ds[..|ds| - 1]) else ds
  }

  lemma {:induction false} StrippedDigits(ds: seq<nat>, b: nat)
    requires Digits(ds, b)
    ensures Digits(Stripped(ds), b)
    ensures b >= 1 ==> Val(Stripped(ds), b) == Val(ds, b)
  {
    if ds != [] && ds[|ds| - 1] == 0 {
      StrippedDigits(ds[..|ds| - 1], b);
      if b >= 1 {
        ValDropZeros(ds, |ds| - 1, b);
      }
    }
  }

  /** Highest digit first. */
  function SymbolsOf(ds: seq<nat>): (s: string)
    requires Digits(ds, 36)
    ensures |s| == |ds|
  {
    if ds == [] then "" else SymbolsOf(ds[1..]) + [Symbol(ds[0])]
  }

  /** Zero prints as one symbol. */
  function Printed(ds: seq<nat>): string
    requires Digits(ds, 36)
  {
    if ds == [] then "0" else SymbolsOf(ds)
  }

  function Uppercase(s: string): (t: string)
    ensures |t| == |s|
  {
    if s == "" then "" else Uppercase(s[..|s| - 1]) + [Upper(s[|s| - 1])]
  }

  function WithoutLeadingZeros(s: string): string {
    if s != "" && s[0] == '0' then WithoutLeadingZeros(s[1..]) else s
  }

  /** The form a number string has after a trip through its digits. */
  function Normalized(s: string): string {
    var t := WithoutLeadingZeros(Uppercase(s));
    if t == "" then "0" else t
  }

  lemma {:induction false} ScanSymbols(ds: seq<nat>, base: nat)
    requires base <= 36 && Digits(ds, base)
    ensures Scan(SymbolsOf(ds), base) == Ok(ds)
  {
    if ds != [] {
      var s, n := SymbolsOf(ds), |ds| - 1;
      assert s[..n] == SymbolsOf(ds[1..]) && s[n] == Symbol(ds[0]);
      SymbolRoundTrip(ds[0], '0');
      ScanSymbols(ds[1..], base);
      assert [ds[0]] + ds[1..] == ds;
    }
  }

  lemma {:induction false} StrippedCanonical(ds: seq<nat>)
    requires Canonical(ds)
    ensures Stripped(ds) == ds
  {
  }

  /** Parsing what was printed gives the digits back. */
  lemma ParsePrinted(ds: seq<nat>, base: nat)
    requires 1 <= base <= 36 && Digits(ds, base) && Canonical(ds)
    ensures Scan(Printed(ds), base).Ok? && Stripped(Scan(Printed(ds), base).value) == ds
  {
    if ds == [] {
      ScanSymbols([0], base);
      assert SymbolsOf([0]) == "" + ['0'] == "0" by {
        assert [0][1..] == [];
      }
      assert [0][..0] == [];
    } else {
      ScanSymbols(ds, base);
      StrippedCanonical(ds);
    }
  }

  lemma {:induction false} SymbolsOfScan(s: string, base: nat)
    requires base <= 36 && Scan(s, base).Ok?
    ensures SymbolsOf(Scan(s, base).value) == Uppercase(s)
  {
    if s != "" {
      var n := |s| - 1;
      SymbolRoundTrip(0, s[n]);
      SymbolsOfScan(s[..n], base);
      var ds := Scan(s, base).value;
      assert ds[1..] == Scan(s[..n], base).value;
    }
  }

  lemma {:induction false} SymbolsSplit(ds: seq<nat>)
    requires Digits(ds, 36) && ds != []
    ensures SymbolsOf(ds) == [Symbol(ds[|ds| - 1])] + SymbolsOf(ds[..|ds| - 1])
  {
    if |ds| > 1 {
      SymbolsSplit(ds[1..]);
      assert ds[1..][..|ds| - 2] == ds[..|ds| - 1][1..];
    } else {
      assert ds[1..] == [] && ds[..0] == [];
    }
  }

  lemma {:induction false} StripSymbols(ds: seq<nat>)
    requires Digits(ds, 36)
    ensures Digits(Stripped(ds), 36)
    ensures SymbolsOf(Stripped(ds)) == WithoutLeadingZeros(SymbolsOf(ds))
  {
    if ds != [] {
      var n := |ds| - 1;
      SymbolsSplit(ds);
      assert SymbolsOf(ds)[1..] == SymbolsOf(ds[..n]);
      SymbolRoundTrip(ds[n], '0');
      if ds[n] == 0 {
        StripSymbols(ds[..n]);
      }
    }
  }

  /** Printing what was parsed gives the string uppercased, without leading zeros. */
  lemma PrintParsed(s: string, base: nat)
    requires base <= 36 && Scan(s, base).Ok?
    ensures Digits(Stripped(Scan(s, base).value), 36)
    ensures Printed(Stripped(Scan(s, base).value)) == Normalized(s)
  {
    var ds := Scan(s, base).value;
    SymbolsOfScan(s, base);
    StripSymbols(ds);
  }
}
