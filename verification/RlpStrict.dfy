/**
 * The decoder also accepts encodings the encoder never writes. This module
 * says exactly which accepted byte ranges are the encoder's own output.
 */
module RlpStrict {
  import opened Common
  import opened BigEndian
  import opened Rlp
  import opened RlpTheory

  /** The header is the shortest one for its length. */
  predicate MinimalHeader(buf: Bytes, offset: nat, prefix: Byte, base: Byte)
    requires base <= prefix < base + 64 && offset < |buf|
    requires ReadLen(buf, offset, prefix, base).Ok?
  {
    prefix - base <= 55
    || (buf[offset + 1] != 0 && ReadLen(buf, offset, prefix, base).value.value >= 56)
  }

  /** The prefix and length digits are the ones the encoder would write. */
  predicate StrictHead(buf: Bytes, offset: nat)
    requires offset < |buf| <= MAX_SIZE && ReadHead(buf, offset).Ok?
  {
    var prefix := buf[offset];
    if prefix < STRING_BASE then true
    else if prefix < LIST_BASE then
      && MinimalHeader(buf, offset, prefix, STRING_BASE)
      && var b := ReadHead(buf, offset).value.bytes;
      !(|b| == 1 && b[0] < 0x80)
    else
      MinimalHeader(buf, offset, prefix, LIST_BASE)
  }

  /**
   * Headers are minimal, a byte below 0x80 stands alone, and the items of a
   * list fill its declared length, all the way down.
   */
  predicate Strict(buf: Bytes, offset: nat)
    requires |buf| <= MAX_SIZE && Dec(buf, offset).Ok?
    decreases |buf| - offset, 0
  {
    && StrictHead(buf, offset)
    && match ReadHead(buf, offset).value
       case Leaf(_, _) => true
       case Body(start, end) =>
         start <= end && Dec(buf, offset).value.next == end && StrictAll(buf, start, end)
  }

  predicate StrictAll(buf: Bytes, offset: nat, end: nat)
    requires |buf| <= MAX_SIZE && offset <= |buf| && end <= |buf|
    requires DecAll(buf, offset, end).Ok?
    decreases |buf| - offset, 1
  {
    offset < end ==> Strict(buf, offset) && StrictAll(buf, Dec(buf, offset).value.next, end)
  }

  /** Digits without a leading zero are the minimal digits of their number. */
  lemma {:induction false} BeOfFromBe(d: Bytes)
    requires d != [] ==> d[0] != 0
    ensures Be(FromBe(d)) == d
    ensures d != [] ==> FromBe(d) > 0
  {
    if d != [] {
      BeOfFromBe(d[..|d| - 1]);
      assert d == d[..|d| - 1] + [d[|d| - 1]];
    }
  }

  lemma LongDigits(buf: Bytes, at: nat, count: nat)
    requires at + count <= |buf| && 1 <= count <= 8 && buf[at] != 0
    ensures BeAt(buf, at, count) < TWO64
    ensures Be(BeAt(buf, at, count)) == buf[at..at + count]
  {
    BeAt64(buf, at, count);
    BeAtSlice(buf, at, count);
    BeOfFromBe(buf[at..at + count]);
  }

  lemma MinimalHeaderIsEncLength(buf: Bytes, offset: nat, base: Byte)
    requires base == STRING_BASE || base == LIST_BASE
    requires offset < |buf| && base <= buf[offset] < base + 64
    requires ReadLen(buf, offset, buf[offset], base).Ok?
    requires MinimalHeader(buf, offset, buf[offset], base)
    ensures var head := ReadLen(buf, offset, buf[offset], base).value;
            buf[offset..head.next] == EncLength(head.value, base)
  {
    var head := ReadLen(buf, offset, buf[offset], base).value;
    var n := buf[offset] - base;
    if n > 55 {
      LongDigits(buf, offset + 1, n - 55);
      EncLengthLong(head.value, base);
      assert buf[offset..head.next] == [buf[offset]] + buf[offset + 1..head.next];
    } else {
      assert buf[offset..offset + 1] == [buf[offset]];
    }
  }

  lemma EncLengthIsMinimal(buf: Bytes, offset: nat, len: Uint64, base: Byte)
    requires base == STRING_BASE || base == LIST_BASE
    requires At(buf, offset, EncLength(len, base))
    ensures base <= buf[offset] < base + 64
    ensures ReadLen(buf, offset, buf[offset], base) == Ok(Parsed(len, offset + |EncLength(len, base)|))
    ensures MinimalHeader(buf, offset, buf[offset], base)
  {
    ReadLenOfEncLength(buf, offset, len, base);
    var head := EncLength(len, base);
    assert buf[offset] == buf[offset..offset + |head|][0];
    if len >= 56 {
      BeLength(len, 0);
      AtSplit(buf, offset, [head[0]], Be(len));
      assert buf[offset + 1] == buf[offset + 1..offset + 1 + |Be(len)|][0];
    }
  }

  lemma StrictHeadOfString(buf: Bytes, offset: nat)
    requires offset < |buf| <= MAX_SIZE && ReadHead(buf, offset).Ok?
    requires ReadHead(buf, offset).value.Leaf? && StrictHead(buf, offset)
    ensures var head := ReadHead(buf, offset).value;
            buf[offset..head.next] == EncBytes(head.bytes)
  {
    if buf[offset] >= STRING_BASE {
      MinimalHeaderIsEncLength(buf, offset, STRING_BASE);
      var start := ReadLen(buf, offset, buf[offset], STRING_BASE).value.next;
      var next := ReadHead(buf, offset).value.next;
      assert buf[offset..next] == buf[offset..start] + buf[start..next];
    }
  }

  lemma StrictHeadOfList(buf: Bytes, offset: nat)
    requires offset < |buf| <= MAX_SIZE && ReadHead(buf, offset).Ok?
    requires ReadHead(buf, offset).value.Body? && StrictHead(buf, offset)
    ensures var head := ReadHead(buf, offset).value;
            head.start <= head.end ==>
              buf[offset..head.end] == EncLength(head.end - head.start, LIST_BASE) + buf[head.start..head.end]
  {
    MinimalHeaderIsEncLength(buf, offset, LIST_BASE);
    var head := ReadHead(buf, offset).value;
    if head.start <= head.end {
      assert buf[offset..head.end] == buf[offset..head.start] + buf[head.start..head.end];
    }
  }

  /** Strict input re-encodes to itself. */
  lemma {:induction false} StrictReencodes(buf: Bytes, offset: nat)
    requires |buf| <= MAX_SIZE && Dec(buf, offset).Ok?
    requires Strict(buf, offset)
    ensures buf[offset..Dec(buf, offset).value.next] == Enc(Dec(buf, offset).value.value)
    decreases |buf| - offset, 0
  {
    match ReadHead(buf, offset).value
    case Leaf(_, _) =>
      StrictHeadOfString(buf, offset);
    case Body(start, end) =>
      StrictHeadOfList(buf, offset);
      StrictAllReencodes(buf, start, end);
  }

  lemma {:induction false} StrictAllReencodes(buf: Bytes, offset: nat, end: nat)
    requires |buf| <= MAX_SIZE && offset <= |buf| && end <= |buf|
    requires DecAll(buf, offset, end).Ok? && StrictAll(buf, offset, end)
    ensures buf[offset..DecAll(buf, offset, end).value.next] == EncAll(DecAll(buf, offset, end).value.value)
    decreases |buf| - offset, 1
  {
    if offset < end {
      StrictReencodes(buf, offset);
      var first := Dec(buf, offset).value;
      StrictAllReencodes(buf, first.next, end);
      var rest := DecAll(buf, first.next, end).value;
      assert buf[offset..rest.next] == buf[offset..first.next] + buf[first.next..rest.next];
      assert ([first.value] + rest.value)[1..] == rest.value;
    }
  }

  lemma EncodedStringIsStrict(buf: Bytes, offset: nat, b: Bytes)
    requires |buf| <= MAX_SIZE && At(buf, offset, EncBytes(b))
    ensures offset < |buf| && ReadHead(buf, offset) == Ok(Leaf(b, offset + |EncBytes(b)|))
    ensures Strict(buf, offset)
  {
    HeadOfString(buf, offset, b);
    if |b| == 1 && b[0] < 0x80 {
      assert buf[offset] == buf[offset..offset + 1][0];
    } else {
      AtSplit(buf, offset, EncLength(|b|, STRING_BASE), b);
      EncLengthIsMinimal(buf, offset, |b|, STRING_BASE);
    }
  }

  lemma EncodedListHead(buf: Bytes, offset: nat, body: Bytes) returns (start: nat)
    requires |buf| <= MAX_SIZE && At(buf, offset, EncLength(|body|, LIST_BASE) + body)
    ensures offset < start && start + |body| == offset + |EncLength(|body|, LIST_BASE) + body|
    ensures At(buf, start, body)
    ensures ReadHead(buf, offset) == Ok(Body(start, start + |body|)) && StrictHead(buf, offset)
  {
    start := HeadOfList(buf, offset, body);
    AtSplit(buf, offset, EncLength(|body|, LIST_BASE), body);
    EncLengthIsMinimal(buf, offset, |body|, LIST_BASE);
  }

  lemma StrictBody(buf: Bytes, offset: nat, start: nat, end: nat)
    requires offset < start <= end <= |buf| <= MAX_SIZE
    requires ReadHead(buf, offset) == Ok(Body(start, end)) && StrictHead(buf, offset)
    requires Dec(buf, offset).Ok? && Dec(buf, offset).value.next == end
    requires DecAll(buf, start, end).Ok? && StrictAll(buf, start, end)
    ensures Strict(buf, offset)
  {
  }

  lemma StrictCons(buf: Bytes, offset: nat, next: nat, end: nat)
    requires |buf| <= MAX_SIZE && offset < next <= end <= |buf|
    requires Dec(buf, offset).Ok? && Dec(buf, offset).value.next == next && Strict(buf, offset)
    requires DecAll(buf, next, end).Ok? && StrictAll(buf, next, end)
    ensures DecAll(buf, offset, end).Ok? && StrictAll(buf, offset, end)
  {
  }

  /** The encoder's output is strict wherever it stands. */
  lemma {:induction false} EncodedIsStrict(buf: Bytes, offset: nat, x: Item)
    requires |buf| <= MAX_SIZE && At(buf, offset, Enc(x))
    requires Dec(buf, offset) == Ok(Parsed(x, offset + |Enc(x)|))
    ensures Strict(buf, offset)
    decreases x, 1
  {
    hide EncBytes, EncLength, ReadHead, StrictHead;
    match x
    case Str(b) =>
      EncodedStringIsStrict(buf, offset, b);
    case List(xs) =>
      var body := EncAll(xs);
      var start := EncodedListHead(buf, offset, body);
      var end := offset + |Enc(x)|;
      assert end == start + |body|;
      EncodedAllIsStrict(buf, start, xs, end);
      StrictBody(buf, offset, start, end);
  }

  lemma {:induction false} EncodedAllIsStrict(buf: Bytes, offset: nat, xs: seq<Item>, end: nat)
    requires |buf| <= MAX_SIZE && At(buf, offset, EncAll(xs)) && end == offset + |EncAll(xs)|
    ensures DecAll(buf, offset, end).Ok? && StrictAll(buf, offset, end)
    decreases xs, 0
  {
    hide EncBytes, EncLength, ReadHead, StrictHead;
    if xs == [] {
      assert end == offset;
    } else {
      var next := offset + |Enc(xs[0])|;
      AtSplit(buf, offset, Enc(xs[0]), EncAll(xs[1..]));
      DecodeInPlace(buf, offset, xs[0]);
      EncodedIsStrict(buf, offset, xs[0]);
      EncodedAllIsStrict(buf, next, xs[1..], end);
      EncNonEmpty(xs[0]);
      StrictCons(buf, offset, next, end);
    }
  }

  /** Decoding loses nothing exactly on strict input. */
  lemma ReencodesIffStrict(buf: Bytes, offset: nat)
    requires |buf| <= MAX_SIZE && Dec(buf, offset).Ok?
    ensures var got := Dec(buf, offset).value;
            buf[offset..got.next] == Enc(got.value) <==> Strict(buf, offset)
  {
    var got := Dec(buf, offset).value;
    if Strict(buf, offset) {
      StrictReencodes(buf, offset);
    }
    if buf[offset..got.next] == Enc(got.value) {
      DecodeInPlace(buf, offset, got.value);
      EncodedIsStrict(buf, offset, got.value);
    }
  }
}
