/** dataToBigInteger: pieces of 1, 2, 4 or 8 bytes packed into blocks. The code does not mask a
    piece to its width, so a cast that fills the high bytes can spill into later pieces. */
module Data {
  import opened Powers
  import opened Radix
  import opened Bits
  import opened Blocks
  import opened Outcomes
  import opened BigUnsigneds
  import opened BigIntegers

  /** Bits in a piece: eight times its size in bytes. */
  predicate PieceSize(bits: nat) {
    bits == 8 || bits == 16 || bits == 32 || bits == 64
  }

  function PiecesPerBlock(bits: nat): (n: nat)
    requires PieceSize(bits)
    ensures n >= 1 && bits * n == N
  {
    N / bits
  }

  /** Blk(x) << (bits * k). */
  function Piece(x: Blk, bits: nat, k: nat): Blk {
    (x * Pow(2, bits * k)) % B
  }

  /** The pieces or-ed into one block. */
  function Packed(ps: seq<Blk>, bits: nat): Blk {
    if ps == [] then 0
    else
      var n := |ps| - 1;
      OrIsBlock(Packed(ps[..n], bits), Piece(ps[n], bits, n));
      Bitwise(Or, Packed(ps[..n], bits), Piece(ps[n], bits, n))
  }

  /** The pieces that go into the lowest block. */
  function Chunk(data: seq<Blk>, bits: nat): (c: seq<Blk>)
    requires PieceSize(bits)
    ensures c <= data && |c| <= PiecesPerBlock(bits)
    ensures |c| < PiecesPerBlock(bits) ==> c == data
    ensures data != [] ==> c != []
  {
    if |data| <= PiecesPerBlock(bits) then data else data[..PiecesPerBlock(bits)]
  }

  function PackAll(data: seq<Blk>, bits: nat): seq<Blk>
    requires PieceSize(bits)
    decreases |data|
  {
    if data == [] then []
    else
      var c := Chunk(data, bits);
      [Packed(c, bits)] + PackAll(data[|c|..], bits)
  }

  lemma OneBlockMore(size: nat, rest: nat, n: nat)
    requires size > 0 && n > 0 && rest == if size <= n then 0 else size - n
    ensures (size + n - 1) / n == 1 + (rest + n - 1) / n
  {
    if size <= n {
      DivModUnique(size + n - 1, n, 1, size - 1);
      DivModUnique(n - 1, n, 0, n - 1);
    } else {
      DivModDef(size - 1, n);
      Distribute(n, (size - 1) / n, 1);
      DivModUnique(size + n - 1, n, (size - 1) / n + 1, (size - 1) % n);
    }
  }

  lemma {:induction false} PackedCount(data: seq<Blk>, bits: nat)
    requires PieceSize(bits)
    ensures |PackAll(data, bits)| == (|data| + PiecesPerBlock(bits) - 1) / PiecesPerBlock(bits)
    decreases |data|
  {
    hide Packed;
    if data != [] {
      var rest, n := data[|Chunk(data, bits)|..], PiecesPerBlock(bits);
      PackedCount(rest, bits);
      assert |PackAll(data, bits)| == 1 + |PackAll(rest, bits)|;
      OneBlockMore(|data|, |rest|, n);
    }
  }

  /** The nested loops over blocks and pieces. */
  method DataToBigInteger(data: seq<Blk>, bits: nat, sign: Sign) returns (r: Result<BigInteger>)
    requires PieceSize(bits)
    ensures r.Err? <==> sign == Zero && Val(PackAll(data, bits), B) != 0
    ensures r.Err? ==> r.error == BadSign
    ensures r.Ok? ==> r.value.Valid() && r.value.Value() == Signed(sign, Val(PackAll(data, bits), B))
    ensures r.Ok? && NoneSpills(data, bits) ==>
              r.value.Value() == if sign == Negative then -(Wanted(data, bits) as int) else Wanted(data, bits)
    ensures r.Ok? && Digits(data, Pow(2, bits)) ==>
              r.value.Value() == if sign == Negative then -(Val(data, Pow(2, bits)) as int) else Val(data, Pow(2, bits))
    ensures r.Ok? ==> fresh(r.value.Repr())
  {
    hide Val, Pow, PackAll, Packed, Chunk, Signed;
    var piecesPerBlock := PiecesPerBlock(bits);
    var numBlocks := (|data| + piecesPerBlock - 1) / piecesPerBlock;
    PackedCount(data, bits);
    DataExact(data, bits);
    if Digits(data, Pow(2, bits)) {
      UnsignedPiecesExact(data, bits);
    }
    var blocks := new Blk[numBlocks];
    var blockNum, pieceNum := 0, 0;
    while blockNum < numBlocks
      invariant 0 <= blockNum <= numBlocks && 0 <= pieceNum <= |data|
      invariant blocks[..blockNum] + PackAll(data[pieceNum..], bits) == PackAll(data, bits)
    {
      PackStep(data, bits, pieceNum);
      var curBlock: Blk;
      curBlock, pieceNum := PackBlock(data, bits, pieceNum);
      blocks[blockNum] := curBlock;
      blockNum := blockNum + 1;
    }
    assert blocks[..blockNum] == PackAll(data, bits);
    var mag := new BigUnsigned.FromBlocks(blocks, numBlocks);
    r := BigInteger.FromParts(mag, sign);
  }

  lemma PackStep(data: seq<Blk>, bits: nat, from: nat)
    requires PieceSize(bits) && from <= |data| && PackAll(data[from..], bits) != []
    ensures var c := Chunk(data[from..], bits);
            PackAll(data[from..], bits) == [Packed(c, bits)] + PackAll(data[from + |c|..], bits)
  {
    hide Packed;
    var c := Chunk(data[from..], bits);
    assert data[from..][|c|..] == data[from + |c|..];
  }

  /** The inner loop: one block, or what is left of the data. */
  method PackBlock(data: seq<Blk>, bits: nat, from: nat) returns (curBlock: Blk, pieceNum: nat)
    requires PieceSize(bits) && from <= |data|
    ensures pieceNum == from + |Chunk(data[from..], bits)| && curBlock == Packed(Chunk(data[from..], bits), bits)
  {
    curBlock, pieceNum := 0, from;
    var pieceNumHere := 0;
    ghost var c := Chunk(data[from..], bits);
    while pieceNumHere < PiecesPerBlock(bits) && pieceNum < |data|
      invariant pieceNumHere <= |c| && pieceNum == from + pieceNumHere
      invariant curBlock == Packed(c[..pieceNumHere], bits)
    {
      assert c[..pieceNumHere + 1][..pieceNumHere] == c[..pieceNumHere];
      OrIsBlock(curBlock, Piece(data[pieceNum], bits, pieceNumHere));
      curBlock := Bitwise(Or, curBlock, Piece(data[pieceNum], bits, pieceNumHere));
      pieceNumHere := pieceNumHere + 1;
      pieceNum := pieceNum + 1;
    }
    assert c[..pieceNumHere] == c;
  }

  // What the pieces are meant to spell

  /** The low bits of every piece: the binary data the caller asked for. */
  ghost function Low(ps: seq<Blk>, bits: nat): (s: seq<nat>)
    ensures |s| == |ps|
  {
    seq(|ps|, i requires 0 <= i < |ps| => LowBits(ps[i], bits))
  }

  function LowBits(x: Blk, bits: nat): nat {
    x % Pow(2, bits)
  }

  ghost function Wanted(data: seq<Blk>, bits: nat): nat {
    Val(Low(data, bits), Pow(2, bits))
  }

  /** No high bit of a piece, moved to its place in the block, sets a bit the data has clear. */
  ghost predicate NoSpill(ps: seq<Blk>, bits: nat)
    requires bits > 0
  {
    forall k: nat, p: nat ::
      k < |ps| && bits * k <= p < N && Bit(ps[k], p - bits * k) ==> WantedBit(ps, bits, p)
  }

  ghost predicate WantedBit(ps: seq<Blk>, bits: nat, p: nat)
    requires bits > 0
  {
    p / bits < |ps| && Bit(ps[p / bits], p % bits)
  }

  /** No block of the data spills. */
  ghost predicate NoneSpills(data: seq<Blk>, bits: nat)
    requires PieceSize(bits)
    decreases |data|
  {
    data != [] ==> NoSpill(Chunk(data, bits), bits) && NoneSpills(data[|Chunk(data, bits)|..], bits)
  }

  lemma ShiftBit(x: nat, s: nat, p: nat)
    ensures 0 <= x * Pow(2, s)
    ensures Bit(x * Pow(2, s), p) <==> p >= s && Bit(x, p - s)
  {
    if p >= s {
      PowAdd(2, s, p - s);
      DivCancel(x, Pow(2, s), Pow(2, p - s));
    } else {
      PowAdd(2, p, s - p);
      var q, r := Pow(2, p), Pow(2, s - p - 1);
      EvenQuotient(x, r, q);
    }
  }

  lemma EvenQuotient(x: nat, r: nat, q: nat)
    requires q > 0
    ensures 0 <= x * (q * (2 * r)) && (x * (q * (2 * r)) / q) % 2 == 0
  {
    var h := x * r;
    assert x * (q * (2 * r)) == (2 * h) * q by {
      Associate(x, q, 2 * r);
      Associate(q, x, 2 * r);
      Associate(2, x, r);
    }
    DivModUnique((2 * h) * q, q, 2 * h, 0);
  }

  lemma PieceBit(x: Blk, bits: nat, k: nat, p: nat)
    requires p < N
    ensures Bit(Piece(x, bits, k), p) <==> p >= bits * k && Bit(x, p - bits * k)
  {
    BlockBase();
    ShiftBit(x, bits * k, p);
    BitOfLow(x * Pow(2, bits * k), p, N);
  }

  lemma {:induction false} PackedBit(ps: seq<Blk>, bits: nat, p: nat)
    requires p < N
    ensures Bit(Packed(ps, bits), p)
            <==> exists k: nat :: k < |ps| && bits * k <= p && Bit(ps[k], p - bits * k)
  {
    if ps == [] {
      BitOfZero(p);
    } else {
      var n := |ps| - 1;
      PackedBit(ps[..n], bits, p);
      PieceBit(ps[n], bits, n, p);
      BitwiseBit(Or, Packed(ps[..n], bits), Piece(ps[n], bits, n), p);
    }
  }

  lemma {:induction false} WantedBits(ps: seq<Blk>, bits: nat, p: nat)
    requires bits > 0
    ensures Bit(Wanted(ps, bits), p) <==> WantedBit(ps, bits, p)
    decreases |ps|
  {
    hide Wanted, Pow;
    if ps == [] {
      NothingWanted(bits);
      BitOfZero(p);
    } else {
      WantedHead(ps, bits);
      if p < bits {
        BitOfLow(Wanted(ps, bits), p, bits);
        BitOfLow(ps[0], p, bits);
        DivModUnique(p, bits, 0, p);
      } else {
        NextPieceBit(ps, bits, p);
        WantedBits(ps[1..], bits, p - bits);
      }
    }
  }

  lemma NextPieceBit(ps: seq<Blk>, bits: nat, p: nat)
    requires bits > 0 && ps != [] && p >= bits
    ensures Bit(Wanted(ps, bits), p) == Bit(Wanted(ps[1..], bits), p - bits)
    ensures WantedBit(ps, bits, p) == WantedBit(ps[1..], bits, p - bits)
  {
    assert Bit(Wanted(ps, bits), p) == Bit(Wanted(ps[1..], bits), p - bits) by {
      hide Wanted, Low;
      WantedHead(ps, bits);
      PowAdd(2, bits, p - bits);
      DivDiv(Wanted(ps, bits), Pow(2, bits), Pow(2, p - bits));
    }
    assert p / bits == (p - bits) / bits + 1 && p % bits == (p - bits) % bits by {
      NextQuotient(p, bits);
    }
  }

  lemma NextQuotient(p: nat, m: nat)
    requires m > 0 && p >= m
    ensures p / m == (p - m) / m + 1 && p % m == (p - m) % m
  {
    DivModDef(p - m, m);
    Distribute(m, (p - m) / m, 1);
    DivModUnique(p, m, (p - m) / m + 1, (p - m) % m);
  }

  lemma NothingWanted(bits: nat)
    ensures Wanted([], bits) == 0 == Val([], Pow(2, bits))
  {
  }

  lemma WantedHead(ps: seq<Blk>, bits: nat)
    requires ps != []
    ensures Wanted(ps, bits) / Pow(2, bits) == Wanted(ps[1..], bits)
    ensures Wanted(ps, bits) % Pow(2, bits) == ps[0] % Pow(2, bits)
  {
    var w := Pow(2, bits);
    assert Low(ps, bits)[1..] == Low(ps[1..], bits);
    DivModUnique(Wanted(ps, bits), w, Wanted(ps[1..], bits), ps[0] % w);
  }

  /** A number is its bits. */
  lemma {:induction false} SameBits(x: nat, y: nat, n: nat)
    requires x < Pow(2, n) && y < Pow(2, n)
    requires forall p: nat :: p < n ==> Bit(x, p) == Bit(y, p)
    ensures x == y
  {
    if n > 0 {
      BitZero(x);
      BitZero(y);
      forall p: nat | p < n - 1 ensures Bit(x / 2, p) == Bit(y / 2, p) {
        BitStep(x, p + 1);
        BitStep(y, p + 1);
      }
      SameBits(x / 2, y / 2, n - 1);
    }
  }

  lemma WantedBound(ps: seq<Blk>, bits: nat)
    ensures Wanted(ps, bits) < Pow(2, bits * |ps|)
  {
    ValBound(Low(ps, bits), Pow(2, bits));
    PowMul(2, bits, |ps|);
  }

  /** One block comes out right exactly when it does not spill. */
  lemma BlockExact(ps: seq<Blk>, bits: nat)
    requires PieceSize(bits) && |ps| <= PiecesPerBlock(bits)
    ensures Wanted(ps, bits) < B
    ensures Packed(ps, bits) == Wanted(ps, bits) <==> NoSpill(ps, bits)
  {
    hide Pow, Wanted, Packed, Bit;
    BlockBase();
    WantedBound(ps, bits);
    PowMono(2, bits * |ps|, N);
    var got, want := Packed(ps, bits), Wanted(ps, bits);
    forall p: nat | p < N
      ensures Bit(got, p) <==> exists k: nat :: k < |ps| && bits * k <= p && Bit(ps[k], p - bits * k)
    {
      PackedBit(ps, bits, p);
    }
    forall p: nat | p < N
      ensures Bit(want, p) <==> WantedBit(ps, bits, p)
      ensures Bit(want, p) ==> Bit(got, p)
    {
      WantedBits(ps, bits, p);
      DivModDef(p, bits);
      assert p - bits * (p / bits) == p % bits;
    }
    if NoSpill(ps, bits) {
      SameBits(got, want, N);
    }
  }

  /** The packed blocks spell the low bits of the pieces, lowest piece first, exactly when
      nothing spills. */
  lemma {:induction false} DataExact(data: seq<Blk>, bits: nat)
    requires PieceSize(bits)
    ensures Val(PackAll(data, bits), B) == Wanted(data, bits) <==> NoneSpills(data, bits)
    decreases |data|
  {
    if data != [] {
      var c := Chunk(data, bits);
      var rest := data[|c|..];
      BlockExact(c, bits);
      DataExact(rest, bits);
      WantedSplit(data, bits);
      assert Val(PackAll(data, bits), B) == Val(PackAll(rest, bits), B) * B + Packed(c, bits);
    }
  }

  lemma WantedSplit(data: seq<Blk>, bits: nat)
    requires PieceSize(bits) && data != []
    ensures var c := Chunk(data, bits);
            Wanted(data, bits) == Wanted(data[|c|..], bits) * B + Wanted(c, bits)
  {
    var c, w := Chunk(data, bits), Pow(2, bits);
    var rest := data[|c|..];
    hide Pow, Val, Chunk;
    assert Low(data, bits) == Low(c, bits) + Low(rest, bits);
    ValAppend(Low(c, bits), Low(rest, bits), w);
    BlockBase();
    PowMul(2, bits, |c|);
    if rest == [] {
      assert Val(Low(rest, bits), w) == 0 by { NothingWanted(bits); }
    }
  }

  /** Pieces that fit their width, as an unsigned type gives them, never spill. */
  lemma {:induction false} UnsignedPiecesExact(data: seq<Blk>, bits: nat)
    requires PieceSize(bits) && Digits(data, Pow(2, bits))
    ensures NoneSpills(data, bits) && Val(PackAll(data, bits), B) == Val(data, Pow(2, bits))
  {
    UnsignedNeverSpills(data, bits);
    DataExact(data, bits);
    forall i | 0 <= i < |data| ensures Low(data, bits)[i] == data[i] {
      DivModUnique(data[i], Pow(2, bits), 0, data[i]);
    }
    assert Low(data, bits) == data;
  }

  lemma {:induction false} UnsignedNeverSpills(data: seq<Blk>, bits: nat)
    requires PieceSize(bits) && Digits(data, Pow(2, bits))
    ensures NoneSpills(data, bits)
    decreases |data|
  {
    if data != [] {
      var c := Chunk(data, bits);
      forall k: nat, p: nat | k < |c| && bits * k <= p < N && Bit(c[k], p - bits * k)
        ensures WantedBit(c, bits, p)
      {
        BitInside(c[k], bits, p - bits * k);
        DivModUnique(p, bits, k, p - bits * k);
      }
      UnsignedNeverSpills(data[|c|..], bits);
    }
  }

  lemma BitInside(x: nat, bits: nat, t: nat)
    requires x < Pow(2, bits) && Bit(x, t)
    ensures t < bits
  {
    if t >= bits {
      PowMono(2, bits, t);
      DivModUnique(x, Pow(2, t), 0, x);
    }
  }

  /** Signed bytes -1, 0 cast to blocks: 255 was asked for, a full block comes out. */
  lemma SignedPiecesSpill()
    ensures Val(PackAll([B - 1, 0], 8), B) == B - 1 && Wanted([B - 1, 0], 8) == 255
  {
    assert Pow(2, 8) == 0x100;
    var d: seq<Blk> := [B - 1, 0];
    assert Low(d, 8) == [255, 0];
    assert Val([255, 0], 0x100) == 255 + 0x100 * Val([0], 0x100);
    assert Val([0], 0x100) == 0 + 0x100 * Val([], 0x100);
    assert d[..1] == [B - 1] && d[..1][..0] == [];
    assert Piece(B - 1, 8, 0) == B - 1;
    assert Piece(0, 8, 1) == 0;
    BitwiseZero(Or, B - 1);
    assert Packed(d[..1], 8) == B - 1;
    assert Packed(d, 8) == B - 1;
    assert PackAll(d, 8) == [B - 1];
    assert Val([B - 1], B) == B - 1 + B * Val([], B);
  }
}
