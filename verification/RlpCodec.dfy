/** The loops of src/rlp.cpp, each proved to compute its function in `Rlp`. */
module RlpCodec {
  import opened Common
  import opened BigEndian
  import opened Rlp

  /** A `size_t` length always fits 64 bits; the prefix is a `uint8_t` sum. */
  method EncodeLength(len: nat, base: Byte) returns (out: Bytes)
    requires base == STRING_BASE || base == LIST_BASE
    ensures out == EncLength(len, base)
  {
    if len < 56 {
      out := [base + len];
    } else {
      var lenBytes := ToBe(len);
      out := [(base + 55 + |lenBytes|) % 256] + lenBytes;
    }
  }

  method EncodeBytes(input: Bytes) returns (out: Bytes)
    ensures out == EncBytes(input)
  {
    if |input| == 1 && input[0] < 0x80 {
      return input;
    }
    out := EncodeLength(|input|, STRING_BASE);
    out := out + input;
  }

  method EncodeUint(value: Uint64) returns (out: Bytes)
    ensures out == EncUint(value)
  {
    if value == 0 {
      return [0x80];
    }
    var tmp := ToBe(value);
    out := EncodeBytes(tmp);
  }

  method EncodeList(items: seq<Bytes>) returns (out: Bytes)
    ensures out == EncList(items)
  {
    var payload: Bytes := [];
    for i := 0 to |items|
      invariant payload == Concat(items[..i])
    {
      assert items[..i + 1] == items[..i] + [items[i]];
      ConcatAppend(items[..i], items[i]);
      payload := payload + items[i];
    }
    assert items[..|items|] == items;
    out := EncodeLength(|payload|, LIST_BASE);
    out := out + payload;
  }

  method ReadLength(buf: Bytes, offset: nat, prefix: Byte, base: Byte) returns (r: Outcome<Parsed<nat>>)
    requires base <= prefix < base + 64
    requires offset < |buf| <= MAX_SIZE
    ensures r == ReadLen(buf, offset, prefix, base)
  {
    var len := prefix - base;
    var next := offset + 1;
    if len <= 55 {
      return Ok(Parsed(len, next));
    }
    var numBytes := len - 55;
    if next + numBytes > |buf| {
      return Throw("RLP long length overflow");
    }
    var out := 0;
    for i := 0 to numBytes
      invariant out == BeAt(buf, next, i)
    {
      BeAt64(buf, next, i + 1);
      out := (out * 256) % TWO64 + buf[next + i];
    }
    r := Ok(Parsed(out, next + numBytes));
  }

  /** The result of a loop that has already collected `done`. */
  function Collected(done: seq<Item>, rest: Outcome<Parsed<seq<Item>>>): Outcome<Parsed<seq<Item>>> {
    match rest
    case Ok(p) => Ok(Parsed(done + p.value, p.next))
    case _ => rest
  }

  lemma CollectedNothing(rest: Outcome<Parsed<seq<Item>>>)
    ensures Collected([], rest) == rest
  {
    assert rest.Ok? ==> [] + rest.value.value == rest.value.value;
  }

  lemma CollectedStep(buf: Bytes, offset: nat, end: nat, done: seq<Item>)
    requires |buf| <= MAX_SIZE && offset < end <= |buf|
    ensures match Dec(buf, offset)
            case Ok(p) => Collected(done, DecAll(buf, offset, end))
                          == Collected(done + [p.value], DecAll(buf, p.next, end))
            case failed => DecAll(buf, offset, end) == failed.PropagateFailure()
  {
    var first := Dec(buf, offset);
    if first.Ok? {
      var rest := DecAll(buf, first.value.next, end);
      if rest.Ok? {
        assert done + ([first.value.value] + rest.value.value)
            == done + [first.value.value] + rest.value.value;
      }
    }
  }

  /**
   * The recursive decoder with its item loop. `size - offset` shrinks on every
   * call and every turn of the loop, so it returns on every buffer.
   */
  method DecodeAt(buf: Bytes, offset: nat) returns (r: Outcome<Parsed<Item>>)
    requires |buf| <= MAX_SIZE
    ensures r == Dec(buf, offset)
    decreases |buf| - offset
  {
    if offset >= |buf| {
      return Throw("RLP decode overflow");
    }
    var prefix := buf[offset];
    if prefix < 0x80 {
      return Ok(Parsed(Str([prefix]), offset + 1));
    }
    if prefix < 0xC0 {
      var head := ReadLength(buf, offset, prefix, 0x80);
      if !head.Ok? { return head.PropagateFailure(); }
      var start, len := head.value.next, head.value.value;
      if Add64(start, len) > |buf| {
        return Throw("RLP string overflow");
      }
      if Add64(start, len) < start {
        return Undefined;
      }
      return Ok(Parsed(Str(buf[start..start + len]), start + len));
    }
    var head := ReadLength(buf, offset, prefix, 0xC0);
    if !head.Ok? { return head.PropagateFailure(); }
    var start := head.value.next;
    var end := Add64(start, head.value.value);
    if end > |buf| {
      return Throw("RLP list overflow");
    }
    var items := [];
    var at := start;
    CollectedNothing(DecAll(buf, start, end));
    while at < end
      invariant start <= at <= |buf|
      invariant DecAll(buf, start, end) == Collected(items, DecAll(buf, at, end))
      decreases |buf| - at
    {
      var item := DecodeAt(buf, at);
      CollectedStep(buf, at, end, items);
      if !item.Ok? { return item.PropagateFailure(); }
      items := items + [item.value.value];
      at := item.value.next;
    }
    assert items + [] == items;
    r := Ok(Parsed(List(items), at));
  }
}
