/** Bin128ToDec: the decimal numeral of a 128-bit number, by doubling a string of digits. */
module Bin128 {
  import opened Powers
  import opened Radix
  import opened Decimals
  import opened Outcomes
  import opened Symbols
  import opened Text
  import opened BigUnsigneds

  type Word = x: nat | x < 0x1_0000_0000

  const TWO_TO_128: nat := 0x1_0000_0000_0000_0000_0000_0000_0000_0000
  /** Room for 128 / 3 + 1 digits. */
  const PLACES: nat := 43

  ghost function WordsValue(n0: Word, n1: Word, n2: Word, n3: Word): nat {
    n0 + 0x1_0000_0000 * n1 + 0x1_0000_0000_0000_0000 * n2 + 0x1_0000_0000_0000_0000_0000_0000 * n3
  }

  /** The words are the digits of the number in base 2^32, least significant first. */
  lemma WordsAreDigits(n: seq<Word>)
    requires |n| == 4
    ensures WordsValue(n[0], n[1], n[2], n[3]) == Val(n, 0x1_0000_0000)
    ensures WordsValue(n[0], n[1], n[2], n[3]) < TWO_TO_128
  {
    var w := 0x1_0000_0000;
    assert Val(n[3..], w) == n[3] by { assert n[3..][1..] == []; }
    assert Val(n[2..], w) == n[2] + w * Val(n[3..], w) by { assert n[2..][1..] == n[3..]; }
    assert Val(n[1..], w) == n[1] + w * Val(n[2..], w) by { assert n[1..][1..] == n[2..]; }
    assert Val(n, w) == n[0] + w * Val(n[1..], w);
  }

  function TopBit(n: Word): (b: nat)
    ensures b <= 1
  {
    if n >= 0x8000_0000 then 1 else 0
  }

  /** One word shifted left, taking in the top bit of the word below. */
  function DoubledWord(n: Word, low: nat): (r: Word)
    requires low <= 1
    ensures r + 0x1_0000_0000 * TopBit(n) == 2 * n + low
  {
    (2 * (n as int)) % 0x1_0000_0000 + low
  }

  /** Shift n[] left, doubling it; the bit shifted out is returned. */
  method DoubleWords(n: array<Word>) returns (carry: nat)
    requires n.Length == 4
    modifies n
    ensures carry <= 1
    ensures WordsValue(n[0], n[1], n[2], n[3]) + carry * TWO_TO_128
            == 2 * old(WordsValue(n[0], n[1], n[2], n[3]))
  {
    hide TopBit, DoubledWord;
    carry := TopBit(n[3]);
    n[3] := DoubledWord(n[3], TopBit(n[2]));
    n[2] := DoubledWord(n[2], TopBit(n[1]));
    n[1] := DoubledWord(n[1], TopBit(n[0]));
    n[0] := DoubledWord(n[0], 0);
  }

  /** Add the first len characters of s to themselves in decimal, carry coming in on the right. */
  method DoubleDigits(s: array<char>, len: nat, carryIn: nat) returns (carry: nat)
    requires len <= s.Length && AllDigits(s[..len]) && carryIn <= 1
    modifies s
    ensures carry <= 1 && AllDigits(s[..len])
    ensures Dec(s[..len]) + carry * Pow(10, len) == 2 * Dec(old(s[..len])) + carryIn
    ensures forall k :: len <= k < s.Length ==> s[k] == old(s[k])
  {
    hide Pow, Dec;
    ghost var was := s[..len];
    carry := carryIn;
    DecOfNothing();
    assert was[len..] == "" && s[len..len] == "";
    for j := len downto 0
      invariant carry <= 1 && s[..j] == was[..j] && AllDigits(s[j..len])
      invariant forall k :: len <= k < s.Length ==> s[k] == old(s[k])
      invariant Dec(s[j..len]) + carry * Pow(10, len - j) == 2 * Dec(was[j..]) + carryIn
    {
      ghost var tail := s[j + 1..len];
      assert s[j] == s[..j + 1][j] == was[j];
      var doubled := s[j] as int + (s[j] as int - '0' as int) + carry;
      var next := if doubled > '9' as int then 1 else 0;
      DoubleColumn(was[j..], tail, carry, carryIn, (doubled - 10 * next) as char, next);
      s[j] := (doubled - 10 * next) as char;
      carry := next;
      assert s[j + 1..len] == tail;
      assert s[j..len] == [s[j]] + s[j + 1..len];
      assert s[..j] == was[..j + 1][..j];
    }
    assert s[0..len] == s[..len] && was[0..] == was;
  }

  lemma DoubleColumn(u: string, tail: string, cin: nat, c0: nat, x: char, cout: nat)
    requires u != "" && AllDigits(u) && AllDigits(tail) && |tail| == |u| - 1 && cin <= 1 && cout <= 1
    requires Dec(tail) + cin * Pow(10, |tail|) == 2 * Dec(u[1..]) + c0
    requires x as int - '0' as int + 10 * cout == 2 * (u[0] as int - '0' as int) + cin && IsDigit(x)
    ensures Dec([x] + tail) + cout * Pow(10, |u|) == 2 * Dec(u) + c0
  {
    hide Pow, Dec, AllDigits, IsDigit;
    PowSucc(10, |tail|);
    DecHead(u);
    DigitAhead(x, tail);
    DecHead([x] + tail);
    assert ([x] + tail)[1..] == tail;
    DoubleNumbers(x as int - '0' as int, u[0] as int - '0' as int, Pow(10, |tail|), cin, cout,
                  Dec(tail), Dec(u[1..]), c0);
  }

  lemma DoubleNumbers(e: int, d: int, p: int, cin: int, cout: int, t: int, u: int, c0: int)
    requires e + 10 * cout == 2 * d + cin && t + cin * p == 2 * u + c0
    ensures e * p + t + cout * (10 * p) == 2 * (d * p + u) + c0
  {
    assert e * p + (10 * cout) * p == (2 * d) * p + cin * p by {
      Distribute(p, e, 10 * cout);
      Distribute(p, 2 * d, cin);
    }
    Associate(2, d, p);
    Associate(cout, 10, p);
  }

  lemma TwoTo128()
    ensures Pow(2, 128) == TWO_TO_128
  {
    assert Pow(2, 8) == 0x100;
    PowAdd(2, 8, 8);
    PowAdd(2, 16, 16);
    PowAdd(2, 32, 32);
    PowAdd(2, 64, 64);
  }

  lemma PlacesSuffice()
    ensures TWO_TO_128 < Pow(10, PLACES)
  {
    assert Pow(10, 5) == 1_00000;
    PowAdd(10, 5, 5);
    PowAdd(10, 10, 10);
    PowAdd(10, 20, 20);
    PowMono(10, 40, PLACES);
  }

  /** After i rounds: the digits hold the top i bits, the words hold the rest moved to the top. */
  ghost predicate Rounds(v: nat, i: nat, d: nat, x: nat) {
    d * TWO_TO_128 + x == v * Pow(2, i)
  }

  lemma RoundsBound(v: nat, i: nat, d: nat, x: nat)
    requires v < TWO_TO_128 && i <= 128 && x < TWO_TO_128 && Rounds(v, i, d, x)
    ensures d < Pow(2, i)
    ensures d == v / Pow(2, 128 - i)
  {
    hide Pow;
    var p, r := Pow(2, i), Pow(2, 128 - i);
    assert d < p by {
      MulLt(v, TWO_TO_128, p);
      MulCancelLt(d, p, TWO_TO_128);
    }
    assert TWO_TO_128 == r * p by {
      TwoTo128();
      PowAdd(2, 128 - i, i);
    }
    assert (d * r) * p <= v * p < ((d + 1) * r) * p by {
      Associate(d, r, p);
      Associate(d + 1, r, p);
    }
    assert d * r <= v by { MulCancelLt(d * r, v + 1, p); }
    MulCancelLt(v, (d + 1) * r, p);
    Scale(r, d, d + 1, 1);
    DivModUnique(v, r, d, v - d * r);
  }

  lemma RoundsStep(v: nat, i: nat, d: nat, x: nat, c: nat, d': nat, x': nat, out: nat)
    requires v < TWO_TO_128 && i < 128 && x < TWO_TO_128 && x' < TWO_TO_128 && Rounds(v, i, d, x)
    requires x' + c * TWO_TO_128 == 2 * x && c <= 1 && out <= 1
    requires d' + out * Pow(10, PLACES) == 2 * d + c
    ensures out == 0 && Rounds(v, i + 1, d', x')
  {
    hide Pow;
    assert v * Pow(2, i + 1) == 2 * (v * Pow(2, i)) by {
      PowSucc(2, i);
      Associate(v, 2, Pow(2, i));
    }
    assert 2 * d + c < Pow(10, PLACES) by {
      RoundsBound(v, i, d, x);
      PowSucc(2, i);
      PowMono(2, i + 1, 128);
      TwoTo128();
      PlacesSuffice();
    }
    assert out * Pow(10, PLACES) == if out == 1 then Pow(10, PLACES) else 0;
  }

  lemma SkipZeros(t: string, p: nat)
    requires AllDigits(t) && p < |t| && (forall k :: 0 <= k < p ==> t[k] == '0')
    requires t[p] != '0' || p == |t| - 1
    ensures t[p..] == Numeral(Dec(t), 10)
  {
    DecIsParsed(t);
    NumeralOfParsed(t, 10);
    UppercaseDigits(t);
    LeadingZeros(t, p);
  }

  lemma {:induction false} UppercaseDigits(t: string)
    requires AllDigits(t)
    ensures Uppercase(t) == t
  {
    if t != "" {
      UppercaseDigits(t[..|t| - 1]);
      assert t == t[..|t| - 1] + [t[|t| - 1]];
    }
  }

  lemma {:induction false} LeadingZeros(t: string, p: nat)
    requires p < |t| && (forall k :: 0 <= k < p ==> t[k] == '0') && (t[p] != '0' || p == |t| - 1)
    ensures t[p..] == if WithoutLeadingZeros(t) == "" then "0" else WithoutLeadingZeros(t)
  {
    if p > 0 {
      LeadingZeros(t[1..], p - 1);
      assert t[1..][p - 1..] == t[p..];
    } else if t[0] == '0' {
      assert t == "0" && t[1..] == "";
    }
  }

  /** One round: the bit shifted out of the words is added to the doubled digits. */
  method DoubleOnce(n: array<Word>, s: array<char>, ghost v: nat, ghost i: nat)
    requires n.Length == 4 && s.Length >= PLACES && AllDigits(s[..PLACES])
    requires v < TWO_TO_128 && i < 128 && Rounds(v, i, Dec(s[..PLACES]), WordsValue(n[0], n[1], n[2], n[3]))
    modifies n, s
    ensures AllDigits(s[..PLACES])
    ensures Rounds(v, i + 1, Dec(s[..PLACES]), WordsValue(n[0], n[1], n[2], n[3]))
  {
    hide Pow, Dec, Rounds;
    ghost var d, x := Dec(s[..PLACES]), WordsValue(n[0], n[1], n[2], n[3]);
    var carry := DoubleWords(n);
    ghost var c := carry;
    carry := DoubleDigits(s, PLACES, carry);
    RoundsStep(v, i, d, x, c, Dec(s[..PLACES]), WordsValue(n[0], n[1], n[2], n[3]), carry);
  }

  lemma RoundsStart(v: nat)
    ensures Rounds(v, 0, 0, v)
  {
    assert v * Pow(2, 0) == v;
  }

  lemma RoundsEnd(v: nat, d: nat, x: nat)
    requires v < TWO_TO_128 && x < TWO_TO_128 && Rounds(v, 128, d, x)
    ensures d == v
  {
    RoundsBound(v, 128, d, x);
    DivModUnique(v, Pow(2, 0), v, 0);
  }

  /** The decimal numeral of the 128-bit number in four words, least significant first. */
  method Bin128ToDec(words: array<Word>) returns (text: string)
    requires words.Length == 4
    ensures text == Numeral(Val(words[..], 0x1_0000_0000), 10)
  {
    WordsAreDigits(words[..]);
    hide Pow, Dec, Rounds;
    var s := new char[PLACES + 1](_ => '0');
    s[PLACES] := '\0';
    var n := new Word[4](k requires 0 <= k < 4 reads words => words[k]);
    ghost var v := WordsValue(words[0], words[1], words[2], words[3]);
    DecZeros(s[..PLACES]);
    RoundsStart(v);
    for i := 0 to 128
      invariant AllDigits(s[..PLACES])
      invariant Rounds(v, i, Dec(s[..PLACES]), WordsValue(n[0], n[1], n[2], n[3]))
    {
      DoubleOnce(n, s, v, i);
    }
    RoundsEnd(v, Dec(s[..PLACES]), WordsValue(n[0], n[1], n[2], n[3]));
    var p := 0;
    while s[p] == '0' && p < PLACES - 1
      invariant p < PLACES && forall k :: 0 <= k < p ==> s[k] == '0'
    {
      p := p + 1;
    }
    ghost var t := s[..PLACES];
    assert t[p] == s[p];
    SkipZeros(t, p);
    assert s[p..PLACES] == t[p..];
    return s[p..PLACES];
  }

  /** The two printers on one value: the same text. */
  method PrintBoth(words: array<Word>, x: BigUnsigned) returns (s: string, t: string)
    requires words.Length == 4 && x.Valid()
    requires x.Value() == Val(words[..], 0x1_0000_0000)
    ensures s == t
  {
    s := Bin128ToDec(words);
    t := BigUnsignedToString(x);
  }

  /** As written: the same text exactly when the two high words are zero; otherwise the library's
      printer fails. */
  method PrintBothAsWritten(words: array<Word>, x: BigUnsigned) returns (s: string, t: Result<string>)
    requires words.Length == 4 && x.Valid()
    requires x.Value() == Val(words[..], 0x1_0000_0000)
    ensures t == Ok(s) <==> words[2] == 0 && words[3] == 0
    ensures t.Ok? ==> t == Ok(s)
  {
    WordsAreDigits(words[..]);
    s := Bin128ToDec(words);
    t := BigUnsignedToStringAsWritten(x);
  }
}
