/** findDG2ImagePayload: a flat walk over BER-TLV bytes, against the tree the bytes encode. */
module Tlv {
  import opened Powers
  import opened Bits

  type Byte = x: nat | x < 0x100

  /** A value: where it starts and how long it is. */
  datatype Slice = Nothing | Slice(start: nat, len: nat)

  datatype Header = Broken | Header(tag: nat, first: Byte, start: nat, valLen: nat)

  /** The low five bits of a first tag byte announce a second one. */
  predicate HasSecondByte(b: Byte) {
    b % 0x20 == 0x1F
  }

  /** Bytes as a number, highest first. */
  function BigEndian(s: seq<Byte>): nat {
    if s == [] then 0 else 0x100 * BigEndian(s[..|s| - 1]) + s[|s| - 1]
  }

  predicate IsConstructed(b: Byte) {
    (b / 0x20) % 2 == 1
  }

  predicate IsImageTag(tag: nat) {
    tag == 0x5F2E || tag == 0x7F2E
  }

  /** Decode the length at i: short form, or 81, 82 or 83 with their bytes present. */
  function LengthAt(data: seq<Byte>, i: nat): (r: Slice)
    ensures r.Slice? ==> r.start > i
    ensures i < |data| && data[i] < 0x80 ==> r == Slice(i + 1, data[i])
    ensures i < |data| && 0x81 <= data[i] <= 0x83 && i + (data[i] - 0x80) < |data| ==>
              var k := data[i] - 0x80; r == Slice(i + 1 + k, BigEndian(data[i + 1..i + 1 + k]))
    ensures r.Slice? ==> i < |data| && (data[i] < 0x80 || (0x81 <= data[i] <= 0x83 && i + (data[i] - 0x80) < |data|))
  {
    OneByte(data, i + 1);
    var n := |data|;
    if i >= n then Nothing
    else if data[i] <= 0x7F then Slice(i + 1, data[i])
    else if data[i] == 0x81 && i + 1 < n then Slice(i + 2, data[i + 1])
    else if data[i] == 0x82 && i + 2 < n then Slice(i + 3, BigEndian(data[i + 1..i + 3]))
    else if data[i] == 0x83 && i + 3 < n then Slice(i + 4, BigEndian(data[i + 1..i + 4]))
    else Nothing
  }

  lemma OneByte(data: seq<Byte>, i: nat)
    ensures i < |data| ==> BigEndian(data[i..i + 1]) == data[i]
  {
    if i < |data| {
      assert data[i..i + 1][..0] == [];
    }
  }

  /** Decode tag and length at i; broken if anything would run past the end. */
  function HeaderAt(data: seq<Byte>, i: nat): (h: Header)
    requires i + 2 < |data|
    ensures h.Header? ==> i < h.start && h.start + h.valLen <= |data|
  {
    var second := HasSecondByte(data[i]);
    var tag := BigEndian(data[i..if second then i + 2 else i + 1]);
    var v := LengthAt(data, if second then i + 2 else i + 1);
    if v.Nothing? || v.start + v.len > |data| then Broken else Header(tag, data[i], v.start, v.len)
  }

  /** The value of the first image tag the walk meets from i on. */
  function Walk(data: seq<Byte>, i: nat): (r: Slice)
    ensures r.Slice? ==> i < r.start && r.start + r.len <= |data|
    decreases |data| - i
  {
    if i + 2 >= |data| then Nothing
    else
      var h := HeaderAt(data, i);
      if h.Broken? then Nothing
      else if IsImageTag(h.tag) then Slice(h.start, h.valLen)
      else if IsConstructed(h.first) then Walk(data, h.start)
      else Walk(data, h.start + h.valLen)
  }

  // Image signatures inside the value

  /** A JPEG or JPEG 2000 signature at k. */
  predicate SignatureAt(p: seq<Byte>, k: nat)
    requires k + 3 < |p|
  {
    || p[k..k + 3] == [0xFF, 0xD8, 0xFF]
    || (k + 7 < |p| && p[k..k + 6] == [0x00, 0x00, 0x00, 0x0C, 0x6A, 0x50])
    || p[k..k + 4] == [0xFF, 0x4F, 0xFF, 0x51]
  }

  /** k is where the image starts in p: the first signature, or 0 without one. */
  ghost predicate ImageStart(p: seq<Byte>, k: nat) {
    if exists j: nat :: j + 3 < |p| && SignatureAt(p, j)
    then k + 3 < |p| && SignatureAt(p, k) && forall j: nat :: j < k ==> !SignatureAt(p, j)
    else k == 0
  }

  /** The signatures byte by byte. */
  lemma SignatureBytes(p: seq<Byte>, j: nat)
    requires j + 3 < |p|
    ensures SignatureAt(p, j)
            <==> || (p[j] == 0xFF && p[j + 1] == 0xD8 && p[j + 2] == 0xFF)
                 || (p[j] == 0xFF && p[j + 1] == 0x4F && p[j + 2] == 0xFF && p[j + 3] == 0x51)
                 || (j + 7 < |p| && p[j] == p[j + 1] == p[j + 2] == 0 && p[j + 3] == 0x0C
                     && p[j + 4] == 0x6A && p[j + 5] == 0x50)
  {
    assert p[j..j + 3] == [p[j], p[j + 1], p[j + 2]];
    assert p[j..j + 4] == [p[j], p[j + 1], p[j + 2], p[j + 3]];
    if j + 7 < |p| {
      assert p[j..j + 6] == [p[j], p[j + 1], p[j + 2], p[j + 3], p[j + 4], p[j + 5]];
    }
  }

  /** The lowest place with one of the three signatures, or 0. */
  method FindSignature(p: seq<Byte>) returns (k: nat)
    ensures ImageStart(p, k) && k <= |p|
    ensures k > 0 ==> k + 3 < |p| && SignatureAt(p, k)
    ensures forall j: nat :: j + 3 < |p| && SignatureAt(p, j) ==> k <= j && k + 3 < |p| && SignatureAt(p, k)
    ensures forall j: nat {:trigger SignatureAt(p, j)} :: j + 3 < |p| ==>
              (SignatureAt(p, j)
               <==> || (p[j] == 0xFF && p[j + 1] == 0xD8 && p[j + 2] == 0xFF)
                    || (p[j] == 0xFF && p[j + 1] == 0x4F && p[j + 2] == 0xFF && p[j + 3] == 0x51)
                    || (j + 7 < |p| && p[j] == p[j + 1] == p[j + 2] == 0 && p[j + 3] == 0x0C
                        && p[j + 4] == 0x6A && p[j + 5] == 0x50))
  {
    hide SignatureAt;
    forall j: nat {:trigger SignatureAt(p, j)} | j + 3 < |p|
      ensures SignatureAt(p, j)
              <==> || (p[j] == 0xFF && p[j + 1] == 0xD8 && p[j + 2] == 0xFF)
                   || (p[j] == 0xFF && p[j + 1] == 0x4F && p[j + 2] == 0xFF && p[j + 3] == 0x51)
                   || (j + 7 < |p| && p[j] == p[j + 1] == p[j + 2] == 0 && p[j + 3] == 0x0C
                       && p[j + 4] == 0x6A && p[j + 5] == 0x50)
    {
      SignatureBytes(p, j);
    }
    k := 0;
    while k + 3 < |p|
      invariant forall j: nat :: j < k && j + 3 < |p| ==> !SignatureAt(p, j)
    {
      if SignatureAt(p, k) {
        return k;
      }
      k := k + 1;
    }
    return 0;
  }

  /** The loop with its cursor; what it returns is a slice of data, cut at the image signature. */
  method FindDG2ImagePayload(data: seq<Byte>) returns (r: Slice)
    ensures r.Nothing? <==> Walk(data, 0).Nothing?
    ensures r.Slice? ==> r.start + r.len <= |data|
    ensures r.Slice? ==>
              var v := Walk(data, 0);
              && v.start <= r.start && r.start + r.len == v.start + v.len
              && ImageStart(data[v.start..v.start + v.len], r.start - v.start)
    ensures r.Slice? ==>
              var v := Walk(data, 0);
              var p, k := data[v.start..v.start + v.len], r.start - v.start;
              && (k > 0 ==> k + 3 < |p| && SignatureAt(p, k))
              && forall j: nat :: j + 3 < |p| && SignatureAt(p, j) ==> k <= j && k + 3 < |p| && SignatureAt(p, k)
  {
    hide BigEndian, LengthAt, HeaderAt, ImageStart, SignatureAt, IsImageTag, IsConstructed;
    var i := 0;
    while i + 2 < |data|
      invariant Walk(data, i) == Walk(data, 0)
      decreases |data| - i
    {
      var h := HeaderAt(data, i);
      if h.Broken? {
        return Nothing;
      }
      i := h.start;
      if IsImageTag(h.tag) {
        var payload := data[i..i + h.valLen];
        var k := FindSignature(payload);
        return Slice(i + k, h.valLen - k);
      }
      if IsConstructed(h.first) {
        continue;
      }
      i := i + h.valLen;
    }
    return Nothing;
  }

  // The tree (sections 8.1.2 and 8.1.3 of ITU-T X.690)

  datatype LengthForm = Short | Long81 | Long82 | Long83

  datatype Node =
    | Primitive(tag: seq<Byte>, form: LengthForm, value: seq<Byte>)
    | Constructed(tag: seq<Byte>, form: LengthForm, children: seq<Node>)

  function LengthBytes(form: LengthForm, n: nat): (s: seq<Byte>)
    requires Fits(form, n)
    ensures 1 <= |s| <= 4
    ensures form.Short? ==> s == [n]
    ensures !form.Short? ==> s[0] == 0x80 + (|s| - 1)
  {
    match form
    case Short => [n]
    case Long81 => [0x81, n]
    case Long82 => [0x82, n / 0x100, n % 0x100]
    case Long83 => [0x83, n / 0x1_0000, n / 0x100 % 0x100, n % 0x100]
  }

  predicate Fits(form: LengthForm, n: nat) {
    match form
    case Short => n < 0x80
    case Long81 => n < 0x100
    case Long82 => n < 0x1_0000
    case Long83 => n < 0x100_0000
  }

  /** One byte, or two with the second the last of the tag. */
  predicate TagFormed(tag: seq<Byte>) {
    || (|tag| == 1 && !HasSecondByte(tag[0]))
    || (|tag| == 2 && HasSecondByte(tag[0]) && tag[1] < 0x80)
  }

  /** Tag and length form suit the node, and its children are formed. */
  predicate NodeFormed(t: Node)
    decreases t, 1
  {
    && TagFormed(t.tag)
    && IsConstructed(t.tag[0]) == t.Constructed?
    && (t.Constructed? ==> Formed(t.children))
    && Fits(t.form, |Content(t)|)
  }

  predicate Formed(ts: seq<Node>)
    decreases ts, 0
  {
    ts != [] ==> NodeFormed(ts[0]) && Formed(ts[1..])
  }

  /** The value octets: what a primitive node holds, or its children's encodings. */
  function Content(t: Node): seq<Byte>
    requires t.Constructed? ==> Formed(t.children)
    decreases t, 0
  {
    match t
    case Primitive(_, _, value) => value
    case Constructed(_, _, children) => EncodeAll(children)
  }

  function HeaderBytes(t: Node): (s: seq<Byte>)
    requires NodeFormed(t)
    ensures |s| >= 2
    decreases t, 2
  {
    t.tag + LengthBytes(t.form, |Content(t)|)
  }

  function EncodeAll(ts: seq<Node>): seq<Byte>
    requires Formed(ts)
    decreases ts, 1
  {
    if ts == [] then [] else HeaderBytes(ts[0]) + Content(ts[0]) + EncodeAll(ts[1..])
  }

  /** A node as preorder meets it: its tag, its value and where that lies. */
  datatype Located = Located(tag: seq<Byte>, start: nat, value: seq<Byte>)

  /** The nodes of a forest encoded at position at, parents before children, left to right. */
  ghost function Preorder(ts: seq<Node>, at: nat): seq<Located>
    requires Formed(ts)
    decreases ts, 0
  {
    if ts == [] then []
    else
      var t, start := ts[0], at + |HeaderBytes(ts[0])|;
      [Located(t.tag, start, Content(t))] + (Inner(t, start) + Preorder(ts[1..], start + |Content(t)|))
  }

  ghost function Inner(t: Node, start: nat): seq<Located>
    requires NodeFormed(t)
    decreases t, 0
  {
    if t.Constructed? then Preorder(t.children, start) else []
  }

  ghost function FirstImage(ls: seq<Located>): Slice {
    if ls == [] then Nothing
    else if IsImageTag(BigEndian(ls[0].tag)) then Slice(ls[0].start, |ls[0].value|)
    else FirstImage(ls[1..])
  }

  lemma {:induction false} EncodeAppend(a: seq<Node>, b: seq<Node>)
    requires Formed(a) && Formed(b)
    ensures Formed(a + b) && EncodeAll(a + b) == EncodeAll(a) + EncodeAll(b)
  {
    hide NodeFormed, Content, HeaderBytes;
    if a == [] {
      assert a + b == b;
    } else {
      EncodeAppend(a[1..], b);
      assert (a + b)[1..] == a[1..] + b && (a + b)[0] == a[0];
    }
  }

  lemma BigEndianShort(s: seq<Byte>)
    ensures |s| == 1 ==> BigEndian(s) == s[0]
    ensures |s| == 2 ==> BigEndian(s) == 0x100 * (s[0] as int) + s[1]
    ensures |s| == 3 ==> BigEndian(s) == 0x1_0000 * (s[0] as int) + 0x100 * (s[1] as int) + s[2]
  {
    if |s| == 3 {
      BigEndianShort(s[..2]);
    } else if |s| == 2 {
      BigEndianShort(s[..1]);
    } else if |s| == 1 {
      assert s[..0] == [];
    }
  }

  /** The length octets decode to what they encode. */
  lemma LengthDecodes(data: seq<Byte>, i: nat, form: LengthForm, n: nat)
    requires Fits(form, n) && i + |LengthBytes(form, n)| <= |data|
    requires data[i..i + |LengthBytes(form, n)|] == LengthBytes(form, n)
    ensures LengthAt(data, i) == Slice(i + |LengthBytes(form, n)|, n)
  {
    var b := LengthBytes(form, n);
    assert data[i] == b[0];
    if |b| > 1 {
      BigEndianShort(b[1..]);
      SliceOfSlice(data, i, i + |b|, 1, |b|);
      LengthFormDecodes(form, n);
    }
  }

  lemma LengthFormDecodes(form: LengthForm, n: nat)
    requires Fits(form, n) && !form.Short?
    ensures BigEndian(LengthBytes(form, n)[1..]) == n
  {
    var b := LengthBytes(form, n)[1..];
    BigEndianShort(b);
    assert n / 0x100 == 0x100 * (n / 0x1_0000) + n / 0x100 % 0x100;
    assert n == 0x100 * (n / 0x100) + n % 0x100;
    match form
    case Long81 => assert b == [n];
    case Long82 => assert b == [n / 0x100, n % 0x100];
    case Long83 => assert b == [n / 0x1_0000, n / 0x100 % 0x100, n % 0x100];
  }

  lemma SliceOfSlice<T>(s: seq<T>, a: nat, b: nat, c: nat, d: nat)
    requires a <= b <= |s| && c <= d <= b - a
    ensures s[a..b][c..d] == s[a + c..a + d]
  {
    var part := s[a..b];
    assert part == s[a..][..b - a];
    assert forall k :: 0 <= k < d - c ==> part[c..d][k] == part[c + k] == s[a + c + k] == s[a + c..a + d][k];
    assert part[c..d] == s[a + c..a + d];
  }

  lemma SliceOfJoin<T>(x: seq<T>, y: seq<T>, z: seq<T>)
    ensures (x + y + z)[..|x|] == x && (x + y + z)[|x|..|x| + |y|] == y && (x + y + z)[|x| + |y|..] == z
  {
  }

  /** A node's header decodes to its tag and its value's place, whatever follows the value. */
  lemma HeaderDecodes(data: seq<Byte>, i: nat, t: Node, rest: seq<Byte>)
    requires i + 2 < |data| && NodeFormed(t) && data[i..] == HeaderBytes(t) + Content(t) + rest
    ensures HeaderAt(data, i) == Header(BigEndian(t.tag), t.tag[0], i + |HeaderBytes(t)|, |Content(t)|)
  {
    hide Content, BigEndian, LengthAt, LengthBytes;
    var n, lb, all := |t.tag|, LengthBytes(t.form, |Content(t)|), data[i..];
    assert all == t.tag + lb + (Content(t) + rest);
    SliceOfJoin(t.tag, lb, Content(t) + rest);
    assert data[i..|data|] == all && all[0..n] == all[..n];
    SliceOfSlice(data, i, |data|, 0, n);
    SliceOfSlice(data, i, |data|, n, n + |lb|);
    var second := HasSecondByte(data[i]);
    assert data[i] == all[0] == t.tag[0] && second == (n == 2);
    assert data[i..if second then i + 2 else i + 1] == t.tag;
    LengthDecodes(data, i + n, t.form, |Content(t)|);
  }

  /** The tag bits the walk tests: bit 5 of the first byte for a constructed value, bits 0 to 4 for a
      second tag byte. */
  lemma TagBits(b: Byte)
    ensures IsConstructed(b) <==> Bit(b, 5)
    ensures HasSecondByte(b) <==> Bit(b, 0) && Bit(b, 1) && Bit(b, 2) && Bit(b, 3) && Bit(b, 4)
  {
    hide Pow;
    LowPowers();
    LowFive(b);
  }

  lemma LowFive(b: nat)
    ensures b % 32 == b % 2 + 2 * (b / 2 % 2) + 4 * (b / 4 % 2) + 8 * (b / 8 % 2) + 16 * (b / 16 % 2)
  {
    assert b / 4 == b / 2 / 2 && b / 8 == b / 4 / 2 && b / 16 == b / 8 / 2 && b / 32 == b / 16 / 2;
  }

  lemma LowPowers()
    ensures Pow(2, 0) == 1 && Pow(2, 1) == 2 && Pow(2, 2) == 4 && Pow(2, 3) == 8 && Pow(2, 4) == 16 && Pow(2, 5) == 32
  {
    assert Pow(2, 1) == 2 * Pow(2, 0) && Pow(2, 2) == 2 * Pow(2, 1) && Pow(2, 3) == 2 * Pow(2, 2);
    assert Pow(2, 4) == 2 * Pow(2, 3) && Pow(2, 5) == 2 * Pow(2, 4);
  }

  /** The tags and lengths the forests of the model may have, none left out. */
  lemma FormedTags(tag: seq<Byte>)
    ensures TagFormed(tag)
            <==> || (|tag| == 1 && tag[0] % 32 != 31)
                 || (|tag| == 2 && tag[0] % 32 == 31 && tag[1] < 128)
  {
  }

  lemma FittingLengths(form: LengthForm, n: nat)
    ensures Fits(form, n)
            <==> n < match form
                     case Short => 128
                     case Long81 => 256
                     case Long82 => 65536
                     case Long83 => 16777216
  {
  }

  /** A node is an image exactly when its tag is 5F 2E or 7F 2E. */
  lemma ImageTags(t: Node)
    requires NodeFormed(t)
    ensures IsImageNode(t) <==> t.tag == [0x5F, 0x2E] || t.tag == [0x7F, 0x2E]
  {
    hide Content;
    BigEndianShort(t.tag);
  }

  /** One step on arbitrary bytes, in terms of the bytes alone: where the length is read, when the walk
      stops, what it returns, where it goes on. */
  lemma WalkStep(data: seq<Byte>, i: nat)
    ensures i + 2 >= |data| ==> Walk(data, i) == Nothing
    ensures i + 2 < |data| ==>
              var v := LengthAt(data, if data[i] % 32 == 31 then i + 2 else i + 1);
              Walk(data, i)
              == if v.Nothing? || v.start + v.len > |data| then Nothing
                 else if (data[i] == 0x5F || data[i] == 0x7F) && data[i + 1] == 0x2E then v
                 else if data[i] / 32 % 2 == 1 then Walk(data, v.start)
                 else Walk(data, v.start + v.len)
  {
    hide LengthAt, BigEndian;
    if i + 2 < |data| {
      BigEndianShort(data[i..i + 1]);
      BigEndianShort(data[i..i + 2]);
    }
  }

  /** On arbitrary bytes: what the walk finds has the bytes 5F 2E or 7F 2E in front of its length. */
  lemma {:induction false} WalkFindsTag(data: seq<Byte>, i: nat)
    requires Walk(data, i).Slice?
    ensures exists j: nat :: i <= j && j + 2 < |data| && (data[j] == 0x5F || data[j] == 0x7F) && data[j + 1] == 0x2E
                             && LengthAt(data, j + 2) == Walk(data, i)
    decreases |data| - i
  {
    hide LengthAt;
    var h := HeaderAt(data, i);
    if IsImageTag(h.tag) {
      ImageHeader(data, i);
    } else {
      WalkFindsTag(data, if IsConstructed(h.first) then h.start else h.start + h.valLen);
    }
  }

  lemma ImageHeader(data: seq<Byte>, i: nat)
    requires i + 2 < |data| && HeaderAt(data, i).Header? && IsImageTag(HeaderAt(data, i).tag)
    ensures (data[i] == 0x5F || data[i] == 0x7F) && data[i + 1] == 0x2E
    ensures LengthAt(data, i + 2) == Slice(HeaderAt(data, i).start, HeaderAt(data, i).valLen)
  {
    hide LengthAt;
    BigEndianShort(data[i..i + 1]);
    BigEndianShort(data[i..i + 2]);
  }

  /** An image node inside a constructed one: 75 06 5F 2E 03 01 02 03. */
  lemma NestedImage()
    ensures Walk([0x75, 0x06, 0x5F, 0x2E, 0x03, 0x01, 0x02, 0x03], 0) == Slice(5, 3)
  {
    var data: seq<Byte> := [0x75, 0x06, 0x5F, 0x2E, 0x03, 0x01, 0x02, 0x03];
    BigEndianShort(data[0..1]);
    BigEndianShort(data[2..4]);
    assert HeaderAt(data, 0) == Header(0x75, 0x75, 2, 6);
    assert HeaderAt(data, 2) == Header(0x5F2E, 0x5F, 5, 3);
    assert Walk(data, 2) == Slice(5, 3);
  }

  /** From any cursor at the start of an encoded forest, whatever follows it: the flat walk finds the
      forest's preorder-first image node, and without one goes on behind the forest. Going on inside a
      constructed value is the same as searching children, then the rest. */
  lemma {:induction false} WalkRefines(data: seq<Byte>, i: nat, ts: seq<Node>, tail: seq<Byte>)
    requires i <= |data| && Formed(ts) && data[i..] == EncodeAll(ts) + tail
    ensures Walk(data, i) == var found := FirstImage(Preorder(ts, i));
                             if found.Slice? then found else Walk(data, i + |EncodeAll(ts)|)
    decreases |data| - i
  {
    hide Content, HeaderBytes, BigEndian, HeaderAt, Preorder, FirstImage, EncodeAll, NodeFormed, Walk, IsImageTag;
    if i + 2 >= |data| {
      WalkEnds(data, i);
      WalkEnds(data, i + |EncodeAll(ts)|);
      TooShort(ts, i);
    } else if ts == [] {
      EncodeNothing();
      PreorderNothing(i);
      FirstOfNothing();
    } else {
      var t, rest, start := ts[0], ts[1..], i + |HeaderBytes(ts[0])|;
      FormedParts(ts);
      NodeWalk(data, i, ts, tail);
      FirstOfPreorder(ts, i);
      EncodeLength(ts);
      if IsImageTag(BigEndian(t.tag)) {
      } else if t.Constructed? {
        EncodeAppend(t.children, rest);
        ChildrenAreContent(t);
        WalkRefines(data, start, t.children + rest, tail);
        PreorderAppend(t.children, rest, start);
      } else {
        var next := start + |Content(t)|;
        WalkRefines(data, next, rest, tail);
        assert Inner(t, start) + Preorder(rest, next) == Preorder(rest, next);
      }
    }
  }

  lemma EncodeLength(ts: seq<Node>)
    requires Formed(ts) && ts != []
    ensures NodeFormed(ts[0])
    ensures |EncodeAll(ts)| == |HeaderBytes(ts[0])| + |Content(ts[0])| + |EncodeAll(ts[1..])|
  {
    hide HeaderBytes, Content;
  }

  lemma WalkEnds(data: seq<Byte>, i: nat)
    requires i + 2 >= |data|
    ensures Walk(data, i) == Nothing
  {
  }

  lemma EncodeNothing()
    ensures EncodeAll([]) == []
  {
  }

  lemma FormedParts(ts: seq<Node>)
    requires Formed(ts) && ts != []
    ensures NodeFormed(ts[0]) && Formed(ts[1..]) && (ts[0].Constructed? ==> Formed(ts[0].children))
  {
  }

  lemma ChildrenAreContent(t: Node)
    requires NodeFormed(t) && t.Constructed?
    ensures Content(t) == EncodeAll(t.children)
  {
  }

  /** One step of the walk, at a node. */
  lemma NodeWalk(data: seq<Byte>, i: nat, ts: seq<Node>, tail: seq<Byte>)
    requires i + 2 < |data| && ts != [] && Formed(ts) && data[i..] == EncodeAll(ts) + tail
    ensures var t, start := ts[0], i + |HeaderBytes(ts[0])|;
            var next := start + |Content(t)|;
            && next <= |data|
            && data[start..] == Content(t) + EncodeAll(ts[1..]) + tail && data[next..] == EncodeAll(ts[1..]) + tail
            && Walk(data, i) == if IsImageTag(BigEndian(t.tag)) then Slice(start, |Content(t)|)
                                else if t.Constructed? then Walk(data, start) else Walk(data, next)
  {
    hide Content, HeaderBytes, HeaderAt, NodeFormed, EncodeAll, BigEndian, IsImageTag;
    FormedParts(ts);
    NodeBytes(data, i, ts, tail);
    HeaderDecodes(data, i, ts[0], EncodeAll(ts[1..]) + tail);
  }

  /** Where the parts of a forest's first node lie. */
  lemma NodeBytes(data: seq<Byte>, i: nat, ts: seq<Node>, tail: seq<Byte>)
    requires i <= |data| && ts != [] && Formed(ts) && data[i..] == EncodeAll(ts) + tail
    ensures NodeFormed(ts[0])
    ensures var t, start := ts[0], i + |HeaderBytes(ts[0])|;
            var next := start + |Content(t)|;
            && next <= |data| && data[i..] == HeaderBytes(t) + Content(t) + (EncodeAll(ts[1..]) + tail)
            && data[start..] == Content(t) + EncodeAll(ts[1..]) + tail && data[next..] == EncodeAll(ts[1..]) + tail
  {
    hide Content, HeaderBytes, NodeFormed;
    FormedParts(ts);
    var head, body, after := HeaderBytes(ts[0]), Content(ts[0]), EncodeAll(ts[1..]);
    JoinRight(head, body, after, tail);
    SuffixOfJoin(data, i, head, body + after + tail);
    SuffixOfJoin(data, i, head + body, after + tail);
  }

  lemma JoinRight<T>(x: seq<T>, y: seq<T>, z: seq<T>, w: seq<T>)
    ensures x + y + z + w == x + y + (z + w) == x + (y + z + w)
  {
  }

  lemma SuffixOfJoin<T>(s: seq<T>, i: nat, x: seq<T>, y: seq<T>)
    requires i <= |s| && s[i..] == x + y
    ensures i + |x| <= |s| && s[i + |x|..] == y
  {
    assert s[i + |x|..] == s[i..][|x|..];
  }

  lemma PreorderParts(ts: seq<Node>, at: nat)
    requires ts != [] && Formed(ts)
    ensures NodeFormed(ts[0])
    ensures var t, start := ts[0], at + |HeaderBytes(ts[0])|;
            Preorder(ts, at)
            == [Located(t.tag, start, Content(t))] + (Inner(t, start) + Preorder(ts[1..], start + |Content(t)|))
  {
    hide Content, HeaderBytes, Inner;
  }

  lemma {:induction false} PreorderAppend(a: seq<Node>, b: seq<Node>, at: nat)
    requires Formed(a) && Formed(b)
    ensures Formed(a + b)
    ensures Preorder(a + b, at) == Preorder(a, at) + Preorder(b, at + |EncodeAll(a)|)
  {
    hide Content, HeaderBytes, NodeFormed, Preorder, Inner;
    EncodeAppend(a, b);
    PreorderNothing(at);
    if a == [] {
      assert a + b == b;
    } else {
      FormedParts(a);
      assert (a + b)[1..] == a[1..] + b && (a + b)[0] == a[0];
      PreorderAppend(a[1..], b, at + |HeaderBytes(a[0])| + |Content(a[0])|);
      PreorderParts(a, at);
      PreorderParts(a + b, at);
    }
  }

  lemma FirstOfPreorder(ts: seq<Node>, at: nat)
    requires ts != [] && Formed(ts)
    ensures NodeFormed(ts[0])
    ensures var t, start := ts[0], at + |HeaderBytes(ts[0])|;
            FirstImage(Preorder(ts, at))
            == if IsImageTag(BigEndian(t.tag)) then Slice(start, |Content(t)|)
               else FirstImage(Inner(t, start) + Preorder(ts[1..], start + |Content(t)|))
  {
    hide Content, HeaderBytes, BigEndian, NodeFormed, Preorder, Inner, EncodeAll;
    FormedParts(ts);
    PreorderParts(ts, at);
    var t, start := ts[0], at + |HeaderBytes(ts[0])|;
    var tail := Inner(t, start) + Preorder(ts[1..], start + |Content(t)|);
    assert Preorder(ts, at)[1..] == tail;
  }

  /** Two bytes hold one node with a one-byte tag and no value: never an image. */
  lemma TooShort(ts: seq<Node>, at: nat)
    requires Formed(ts) && |EncodeAll(ts)| <= 2
    ensures FirstImage(Preorder(ts, at)) == Nothing
  {
    if ts != [] {
      var t := ts[0];
      assert |t.tag| == 1 && Content(t) == [] && EncodeAll(ts[1..]) == [];
      NoBytesNoNodes(ts[1..]);
      if t.Constructed? {
        NoBytesNoNodes(t.children);
      }
      BigEndianShort(t.tag);
      FirstOfPreorder(ts, at);
    }
  }

  lemma NoBytesNoNodes(ts: seq<Node>)
    requires Formed(ts) && EncodeAll(ts) == []
    ensures ts == []
  {
  }

  /** The places preorder gives are right: the bytes there are the node's value. */
  lemma {:induction false} PreorderPlaces(data: seq<Byte>, at: nat, ts: seq<Node>, k: nat)
    requires Formed(ts) && at + |EncodeAll(ts)| <= |data| && data[at..at + |EncodeAll(ts)|] == EncodeAll(ts)
    requires k < |Preorder(ts, at)|
    ensures var l := Preorder(ts, at)[k];
            l.start + |l.value| <= |data| && data[l.start..l.start + |l.value|] == l.value
    decreases ts
  {
    hide Content, HeaderBytes, NodeFormed, EncodeAll, Preorder;
    PreorderNothing(at);
    var t, rest, start := ts[0], ts[1..], at + |HeaderBytes(ts[0])|;
    FormedParts(ts);
    var next := start + |Content(t)|;
    EncodeParts(data, at, ts);
    PreorderParts(ts, at);
    var inner, after := Inner(t, start), Preorder(rest, next);
    assert inner == if t.Constructed? then Preorder(t.children, start) else [];
    if k > 0 && k - 1 < |inner| {
      ChildrenAreContent(t);
      PreorderPlaces(data, start, t.children, k - 1);
    } else if k > 0 {
      PreorderPlaces(data, next, rest, k - 1 - |inner|);
    }
  }

  lemma PreorderNothing(at: nat)
    ensures Preorder([], at) == []
  {
  }

  lemma EncodeHead(ts: seq<Node>)
    requires Formed(ts) && ts != []
    ensures NodeFormed(ts[0]) && EncodeAll(ts) == HeaderBytes(ts[0]) + Content(ts[0]) + EncodeAll(ts[1..])
  {
    hide HeaderBytes, Content;
  }

  lemma EncodeParts(data: seq<Byte>, at: nat, ts: seq<Node>)
    requires Formed(ts) && ts != []
    requires at + |EncodeAll(ts)| <= |data| && data[at..at + |EncodeAll(ts)|] == EncodeAll(ts)
    ensures var start := at + |HeaderBytes(ts[0])|;
            var next := start + |Content(ts[0])|;
            var end := next + |EncodeAll(ts[1..])|;
            && end <= |data| && data[start..next] == Content(ts[0]) && data[next..end] == EncodeAll(ts[1..])
  {
    hide Content, HeaderBytes, NodeFormed, EncodeAll;
    FormedParts(ts);
    EncodeHead(ts);
    var all, h := EncodeAll(ts), |HeaderBytes(ts[0])|;
    var n := h + |Content(ts[0])|;
    SliceOfJoin(HeaderBytes(ts[0]), Content(ts[0]), EncodeAll(ts[1..]));
    SliceOfSlice(data, at, at + |all|, h, n);
    SliceOfSlice(data, at, at + |all|, n, |all|);
    assert all[n..] == all[n..|all|];
  }

  /** For every forest, the walk over its encoding finds its preorder-first image node, or nothing. */
  lemma FlatWalkIsTreeSearch(ts: seq<Node>)
    requires Formed(ts)
    ensures Walk(EncodeAll(ts), 0) == FirstImage(Preorder(ts, 0))
  {
    var data := EncodeAll(ts);
    assert data[0..] == data + [];
    WalkRefines(data, 0, ts, []);
    WalkEnds(data, |data|);
  }

  /** Some node of the forest, at any depth, has an image tag. */
  ghost predicate AnyImage(ts: seq<Node>)
    decreases ts
  {
    ts != [] && (IsImageNode(ts[0]) || (ts[0].Constructed? && AnyImage(ts[0].children)) || AnyImage(ts[1..]))
  }

  ghost predicate IsImageNode(t: Node) {
    IsImageTag(BigEndian(t.tag))
  }

  /** The search finds nothing exactly when there is none. */
  lemma {:induction false} NothingIffNoImage(ts: seq<Node>, at: nat)
    requires Formed(ts)
    ensures FirstImage(Preorder(ts, at)).Nothing? <==> !AnyImage(ts)
    decreases ts
  {
    hide Content, HeaderBytes, NodeFormed, Preorder, FirstImage, BigEndian, IsImageTag;
    if ts == [] {
      PreorderNothing(at);
      FirstOfNothing();
    } else {
      var t, start := ts[0], at + |HeaderBytes(ts[0])|;
      FormedParts(ts);
      var next := start + |Content(t)|;
      FirstOfPreorder(ts, at);
      FirstImageAppend(Inner(t, start), Preorder(ts[1..], next));
      NothingIffNoImage(ts[1..], next);
      if t.Constructed? {
        NothingIffNoImage(t.children, start);
      } else {
        FirstOfNothing();
      }
    }
  }

  lemma FirstOfNothing()
    ensures FirstImage([]) == Nothing
  {
  }

  lemma {:induction false} FirstImageAppend(a: seq<Located>, b: seq<Located>)
    ensures FirstImage(a + b) == if FirstImage(a).Slice? then FirstImage(a) else FirstImage(b)
  {
    if a == [] {
      assert a + b == b;
    } else {
      assert (a + b)[1..] == a[1..] + b;
      FirstImageAppend(a[1..], b);
    }
  }

  /** On the encoding of a forest the walk finds nothing exactly when no node at any depth is an image. */
  lemma NothingFoundIffNoImage(ts: seq<Node>)
    requires Formed(ts)
    ensures Walk(EncodeAll(ts), 0).Nothing? <==> !AnyImage(ts)
  {
    FlatWalkIsTreeSearch(ts);
    NothingIffNoImage(ts, 0);
  }
}
