/** What the RLP functions promise: round trips, prefix-freeness, unique splitting. */
module RlpTheory {
  import opened Common
  import opened BigEndian
  import opened Rlp

  /** `part` stands in `buf` at `offset`. */
  predicate At(buf: Bytes, offset: nat, part: Bytes) {
    offset + |part| <= |buf| && buf[offset..offset + |part|] == part
  }

  lemma AtSplit(buf: Bytes, offset: nat, a: Bytes, b: Bytes)
    requires At(buf, offset, a + b)
    ensures At(buf, offset, a) && At(buf, offset + |a|, b)
  {
    var ab := buf[offset..offset + |a + b|];
    assert ab[..|a|] == a && ab[|a|..] == b;
    assert buf[offset..offset + |a|] == ab[..|a|];
    assert buf[offset + |a|..offset + |a| + |b|] == ab[|a|..];
  }

  lemma EncLengthLong(len: Uint64, base: Byte)
    requires base == STRING_BASE || base == LIST_BASE
    requires len >= 56
    ensures 1 <= |Be(len)| <= 8
    ensures EncLength(len, base) == [base + 55 + |Be(len)|] + Be(len)
  {
    Be64(len);
  }

  /** A length header is read back, in the short and in the long form. */
  lemma ReadLenOfEncLength(buf: Bytes, offset: nat, len: Uint64, base: Byte)
    requires base == STRING_BASE || base == LIST_BASE
    requires At(buf, offset, EncLength(len, base))
    ensures base <= buf[offset] < base + 64
    ensures ReadLen(buf, offset, buf[offset], base)
            == Ok(Parsed(len, offset + |EncLength(len, base)|))
  {
    if len < 56 {
      assert buf[offset] == buf[offset..offset + 1][0];
    } else {
      EncLengthLong(len, base);
      var digits := Be(len);
      AtSplit(buf, offset, [base + 55 + |digits|], digits);
      assert buf[offset] == buf[offset..offset + 1][0];
      BeAtSlice(buf, offset + 1, |digits|);
      FromBeOfBe(len);
    }
  }

  /** The header of a payload, in the numbers of the definition. */
  ghost predicate Framed(out: Bytes, short: nat, payload: Bytes)
    requires short == 0x80 || short == 0xC0
  {
    if |payload| <= 55 then out == [short + |payload|] + payload
    else exists digits: Bytes ::
      && 1 <= |digits| <= 8 && digits[0] != 0 && FromBe(digits) == |payload|
      && out == [short + 55 + |digits|] + digits + payload
  }

  /** A byte below 0x80 is itself; every other string and every list is its payload behind a header. */
  lemma EncodingIsFramed(x: Item)
    requires |Enc(x)| < TWO64
    ensures match x
            case Str(b) => if |b| == 1 && b[0] <= 0x7f then Enc(x) == b else Framed(Enc(x), 0x80, b)
            case List(xs) => Framed(Enc(x), 0xC0, EncAll(xs))
  {
    match x
    case Str(b) =>
      if !(|b| == 1 && b[0] <= 0x7f) {
        LengthIsFramed(b, STRING_BASE);
      }
    case List(xs) =>
      LengthIsFramed(EncAll(xs), LIST_BASE);
  }

  lemma LengthIsFramed(payload: Bytes, base: Byte)
    requires base == STRING_BASE || base == LIST_BASE
    requires |payload| < TWO64
    ensures Framed(EncLength(|payload|, base) + payload, base, payload)
  {
    var n := |payload|;
    if n >= 56 {
      EncLengthLong(n, base);
      BeLength(n, 8);
      FromBeOfBe(n);
      assert EncLength(n, base) + payload == [base + 55 + |Be(n)|] + Be(n) + payload;
    }
  }

  lemma EncNonEmpty(x: Item)
    ensures |Enc(x)| >= 1
  {
  }

  lemma HeadOfString(buf: Bytes, offset: nat, b: Bytes)
    requires |buf| <= MAX_SIZE
    requires At(buf, offset, EncBytes(b))
    ensures offset < |buf|
    ensures ReadHead(buf, offset) == Ok(Leaf(b, offset + |EncBytes(b)|))
  {
    if |b| == 1 && b[0] < 0x80 {
      assert buf[offset] == buf[offset..offset + 1][0] == b[0];
      assert b == [b[0]];
    } else {
      var head := EncLength(|b|, STRING_BASE);
      AtSplit(buf, offset, head, b);
      ReadLenOfEncLength(buf, offset, |b|, STRING_BASE);
    }
  }

  lemma HeadOfList(buf: Bytes, offset: nat, body: Bytes) returns (start: nat)
    requires |buf| <= MAX_SIZE
    requires At(buf, offset, EncLength(|body|, LIST_BASE) + body)
    ensures offset < start && start + |body| == offset + |EncLength(|body|, LIST_BASE) + body|
    ensures At(buf, start, body) && ReadHead(buf, offset) == Ok(Body(start, start + |body|))
  {
    var head := EncLength(|body|, LIST_BASE);
    AtSplit(buf, offset, head, body);
    ReadLenOfEncLength(buf, offset, |body|, LIST_BASE);
    start := offset + |head|;
  }

  lemma DecodeBodyStep(buf: Bytes, offset: nat, start: nat, end: nat, xs: seq<Item>)
    requires offset < start <= end <= |buf| <= MAX_SIZE
    requires ReadHead(buf, offset) == Ok(Body(start, end))
    requires DecAll(buf, start, end) == Ok(Parsed(xs, end))
    ensures Dec(buf, offset) == Ok(Parsed(List(xs), end))
  {
  }

  lemma DecodeConsStep(buf: Bytes, offset: nat, x: Item, next: nat, xs: seq<Item>, end: nat)
    requires |buf| <= MAX_SIZE && offset < next <= end <= |buf|
    requires Dec(buf, offset) == Ok(Parsed(x, next))
    requires DecAll(buf, next, end) == Ok(Parsed(xs, end))
    ensures DecAll(buf, offset, end) == Ok(Parsed([x] + xs, end))
  {
  }

  /**
   * Round trip in place: wherever an encoding stands in a buffer, decoding
   * there gives the item back and stops right behind it.
   */
  lemma {:induction false} DecodeInPlace(buf: Bytes, offset: nat, x: Item)
    requires |buf| <= MAX_SIZE
    requires At(buf, offset, Enc(x))
    ensures Dec(buf, offset) == Ok(Parsed(x, offset + |Enc(x)|))
    decreases x, 1
  {
    hide EncBytes, EncLength, ReadHead;
    match x
    case Str(b) =>
      HeadOfString(buf, offset, b);
    case List(xs) =>
      var body := EncAll(xs);
      var start := HeadOfList(buf, offset, body);
      DecodeAllInPlace(buf, start, xs, start + |body|);
      DecodeBodyStep(buf, offset, start, start + |body|, xs);
  }

  lemma {:induction false} DecodeAllInPlace(buf: Bytes, offset: nat, xs: seq<Item>, end: nat)
    requires |buf| <= MAX_SIZE
    requires At(buf, offset, EncAll(xs)) && end == offset + |EncAll(xs)|
    ensures DecAll(buf, offset, end) == Ok(Parsed(xs, end))
    decreases xs, 0
  {
    hide EncBytes, EncLength, ReadHead;
    if xs == [] {
      assert end == offset;
    } else {
      var next := offset + |Enc(xs[0])|;
      AtSplit(buf, offset, Enc(xs[0]), EncAll(xs[1..]));
      DecodeInPlace(buf, offset, xs[0]);
      DecodeAllInPlace(buf, next, xs[1..], end);
      EncNonEmpty(xs[0]);
      DecodeConsStep(buf, offset, xs[0], next, xs[1..], end);
      assert [xs[0]] + xs[1..] == xs;
    }
  }

  /** Round trip between any prefix and any suffix. */
  lemma RoundTripInContext(p: Bytes, x: Item, s: Bytes)
    requires |p + Enc(x) + s| <= MAX_SIZE
    ensures Dec(p + Enc(x) + s, |p|) == Ok(Parsed(x, |p| + |Enc(x)|))
  {
    var buf := p + Enc(x) + s;
    assert buf[|p|..|p| + |Enc(x)|] == Enc(x);
    DecodeInPlace(buf, |p|, x);
  }

  lemma RoundTrip(x: Item)
    requires |Enc(x)| <= MAX_SIZE
    ensures Decode(Enc(x)) == Ok(x)
  {
    RoundTripInContext([], x, []);
    assert [] + Enc(x) + [] == Enc(x);
  }

  /** No encoding is a proper prefix of another; equal encodings mean equal items. */
  lemma PrefixFree(x: Item, y: Item, s: Bytes, t: Bytes)
    requires Enc(x) + s == Enc(y) + t
    requires |Enc(x) + s| <= MAX_SIZE
    ensures x == y && s == t
  {
    var buf := Enc(x) + s;
    assert buf[0..|Enc(x)|] == Enc(x);
    assert (Enc(y) + t)[0..|Enc(y)|] == Enc(y);
    DecodeInPlace(buf, 0, x);
    DecodeInPlace(buf, 0, y);
    assert s == buf[|Enc(x)|..] && t == (Enc(y) + t)[|Enc(y)|..];
  }

  lemma EncInjective(x: Item, y: Item)
    requires Enc(x) == Enc(y)
    requires |Enc(x)| <= MAX_SIZE
    ensures x == y
  {
    assert Enc(x) + [] == Enc(y) + [];
    PrefixFree(x, y, [], []);
  }

  /** A list payload splits into items in one way only. */
  lemma {:induction false} PayloadSplitsUniquely(xs: seq<Item>, ys: seq<Item>)
    requires EncAll(xs) == EncAll(ys)
    requires |EncAll(xs)| <= MAX_SIZE
    ensures xs == ys
  {
    var body := EncAll(xs);
    assert body[0..|body|] == body;
    DecodeAllInPlace(body, 0, xs, |body|);
    DecodeAllInPlace(body, 0, ys, |body|);
  }

  /** `encodeList` over encoded items is the encoding of the list item. */
  lemma {:induction false} ConcatOfEnc(parts: seq<Bytes>, xs: seq<Item>)
    requires |parts| == |xs| && forall i :: 0 <= i < |xs| ==> parts[i] == Enc(xs[i])
    ensures Concat(parts) == EncAll(xs)
  {
    if xs != [] {
      ConcatOfEnc(parts[1..], xs[1..]);
    }
  }

  lemma EncListOfEnc(parts: seq<Bytes>, xs: seq<Item>)
    requires |parts| == |xs| && forall i :: 0 <= i < |xs| ==> parts[i] == Enc(xs[i])
    ensures EncList(parts) == Enc(List(xs))
  {
    ConcatOfEnc(parts, xs);
  }

  /** Encoded parts are shorter than the list that holds them. */
  lemma {:induction false} EncAllBound(xs: seq<Item>, i: nat)
    requires i < |xs|
    ensures |Enc(xs[i])| <= |EncAll(xs)|
  {
    if i != 0 {
      EncAllBound(xs[1..], i - 1);
    }
  }

  lemma EncListBound(xs: seq<Item>, i: nat)
    requires i < |xs|
    ensures |Enc(xs[i])| < |Enc(List(xs))|
    ensures xs[i].Str? ==> |xs[i].bytes| < |Enc(List(xs))|
  {
    EncAllBound(xs, i);
  }

  // ------------------------------------------------------ size of the result

  /** The number of items in a decoded tree, itself included. */
  function Nodes(x: Item): nat
    decreases x, 1
  {
    if x.Str? then 1 else 1 + NodesAll(x.items)
  }

  function NodesAll(xs: seq<Item>): nat
    decreases xs, 0
  {
    if xs == [] then 0 else Nodes(xs[0]) + NodesAll(xs[1..])
  }

  /**
   * On every buffer the decoder fails, or moves forward within the buffer and
   * builds no more items than the bytes it consumed.
   */
  lemma {:induction false} DecodedSize(buf: Bytes, offset: nat)
    requires |buf| <= MAX_SIZE && Dec(buf, offset).Ok?
    ensures var got := Dec(buf, offset).value;
            offset < got.next <= |buf| && Nodes(got.value) <= got.next - offset
    decreases |buf| - offset, 0
  {
    match ReadHead(buf, offset).value
    case Leaf(_, _) =>
    case Body(start, end) => DecodedAllSize(buf, start, end);
  }

  lemma {:induction false} DecodedAllSize(buf: Bytes, offset: nat, end: nat)
    requires |buf| <= MAX_SIZE && offset <= |buf| && end <= |buf|
    requires DecAll(buf, offset, end).Ok?
    ensures var got := DecAll(buf, offset, end).value;
            NodesAll(got.value) <= got.next - offset
    decreases |buf| - offset, 1
  {
    if offset < end {
      var first := Dec(buf, offset).value;
      DecodedSize(buf, offset);
      DecodedAllSize(buf, first.next, end);
      var rest := DecAll(buf, first.next, end).value;
      assert ([first.value] + rest.value)[1..] == rest.value;
    }
  }

  // ---------------------------------------------- more and fewer input bytes

  lemma {:induction false} BeAtExtends(buf: Bytes, s: Bytes, at: nat, count: nat)
    requires at + count <= |buf|
    ensures BeAt(buf + s, at, count) == BeAt(buf, at, count)
  {
    if count != 0 {
      BeAtExtends(buf, s, at, count - 1);
    }
  }

  lemma HeadExtends(buf: Bytes, s: Bytes, offset: nat)
    requires |buf + s| <= MAX_SIZE && offset < |buf| && ReadHead(buf, offset).Ok?
    ensures ReadHead(buf + s, offset) == ReadHead(buf, offset)
  {
    hide BeAt;
    var prefix := buf[offset];
    if prefix >= STRING_BASE {
      var base := if prefix < LIST_BASE then STRING_BASE else LIST_BASE;
      if prefix - base > 55 {
        BeAtExtends(buf, s, offset + 1, prefix - base - 55);
      }
      if prefix < LIST_BASE {
        var head, next := ReadLen(buf, offset, prefix, base).value, ReadHead(buf, offset).value.next;
        assert (buf + s)[head.next..next] == buf[head.next..next];
      }
    }
  }

  /** Bytes behind a decoded item never change it. */
  lemma {:induction false} DecodeExtends(buf: Bytes, s: Bytes, offset: nat)
    requires |buf + s| <= MAX_SIZE && Dec(buf, offset).Ok?
    ensures Dec(buf + s, offset) == Dec(buf, offset)
    decreases |buf| - offset, 0
  {
    hide ReadHead;
    HeadExtends(buf, s, offset);
    match ReadHead(buf, offset).value
    case Leaf(_, _) =>
    case Body(start, end) => DecodeAllExtends(buf, s, start, end);
  }

  lemma {:induction false} DecodeAllExtends(buf: Bytes, s: Bytes, offset: nat, end: nat)
    requires |buf + s| <= MAX_SIZE && offset <= |buf| && end <= |buf| && DecAll(buf, offset, end).Ok?
    ensures DecAll(buf + s, offset, end) == DecAll(buf, offset, end)
    decreases |buf| - offset, 1
  {
    hide ReadHead;
    if offset < end {
      DecodeExtends(buf, s, offset);
      DecodeAllExtends(buf, s, Dec(buf, offset).value.next, end);
    }
  }

  /** A truncated encoding is never accepted. */
  lemma TruncationDetected(x: Item, k: nat)
    requires k < |Enc(x)| <= MAX_SIZE
    ensures !Dec(Enc(x)[..k], 0).Ok?
  {
    hide Enc, Dec;
    var cut := Enc(x)[..k];
    assert cut + Enc(x)[k..] == Enc(x) == Enc(x)[0..|Enc(x)|];
    DecodeInPlace(Enc(x), 0, x);
    if Dec(cut, 0).Ok? {
      DecodeExtends(cut, Enc(x)[k..], 0);
    }
  }

  // ------------------------------------------------- what the decoder is not

  /** A list whose last item overruns the declared length is accepted. */
  lemma ListMayOverrun()
    ensures Dec([0xC1, 0x82, 1, 2], 0) == Ok(Parsed(List([Str([1, 2])]), 4))
  {
    var buf: Bytes := [0xC1, 0x82, 1, 2];
    var inner: Bytes := [1, 2];
    assert buf[2..4] == inner;
    assert EncBytes(inner) == [0x82, 1, 2] == buf[1..4];
    HeadOfString(buf, 1, inner);
    assert ReadHead(buf, 0) == Ok(Body(1, 2));
    assert DecAll(buf, 4, 2) == Ok(Parsed([], 4));
    assert DecAll(buf, 1, 2) == Ok(Parsed([Str(inner)] + [], 4));
    assert [Str(inner)] + [] == [Str(inner)];
  }
}
