/**
 * Recursive Length Prefix coding, as defined in Appendix B of the Ethereum
 * Yellow Paper and implemented in src/rlp.cpp: what is computed, as functions.
 */
module Rlp {
  import opened Common
  import opened BigEndian

  /** A decoded value; `Str` and `List` are the two settings of `isList`. */
  datatype Item = Str(bytes: Bytes) | List(items: seq<Item>)
  {
    /** The `bytes` member of `Decoded`, which a list leaves empty. */
    function Payload(): Bytes {
      if Str? then bytes else []
    }
  }

  /** A value together with the offset the decoder stopped at. */
  datatype Parsed<+T> = Parsed(value: T, next: nat)

  const STRING_BASE: Byte := 0x80
  const LIST_BASE: Byte := 0xC0

  // ---------------------------------------------------------------- encoder

  function EncLength(len: nat, base: Byte): Bytes
    requires base == STRING_BASE || base == LIST_BASE
  {
    if len < 56 then [base + len]
    else [(base + 55 + |Be(len)|) % 256] + Be(len)
  }

  function EncBytes(b: Bytes): Bytes {
    if |b| == 1 && b[0] < 0x80 then b else EncLength(|b|, STRING_BASE) + b
  }

  function EncUint(n: Uint64): Bytes {
    EncBytes(Be(n))
  }

  function EncList(parts: seq<Bytes>): Bytes {
    EncLength(|Concat(parts)|, LIST_BASE) + Concat(parts)
  }

  function Enc(x: Item): Bytes
    decreases x, 1
  {
    match x
    case Str(b) => EncBytes(b)
    case List(xs) => EncLength(|EncAll(xs)|, LIST_BASE) + EncAll(xs)
  }

  function EncAll(xs: seq<Item>): Bytes
    decreases xs, 0
  {
    if xs == [] then [] else Enc(xs[0]) + EncAll(xs[1..])
  }

  // ---------------------------------------------------------------- decoder

  /** The declared length behind a prefix byte, and where the payload starts. */
  function ReadLen(buf: Bytes, offset: nat, prefix: Byte, base: Byte): (r: Outcome<Parsed<nat>>)
    requires base <= prefix < base + 64
    requires offset < |buf|
    ensures r.Ok? ==> offset < r.value.next <= |buf| && r.value.value < TWO64
    ensures !r.Undefined?
  {
    var len := prefix - base;
    if len <= 55 then Ok(Parsed(len, offset + 1))
    else if offset + 1 + (len - 55) > |buf| then Throw("RLP long length overflow")
    else
      BeAt64(buf, offset + 1, len - 55);
      Ok(Parsed(BeAt(buf, offset + 1, len - 55), offset + 1 + (len - 55)))
  }

  /** What a prefix announces: a whole string, or the range of a list's items. */
  datatype Head = Leaf(bytes: Bytes, next: nat) | Body(start: nat, end: nat)

  /**
   * The part of `decode` before its item loop. `Add64(next, len)` is the 64-bit
   * sum the code compares with the buffer size: a wrapped string length passes
   * that check and leaves the language, a wrapped list length ends before it
   * starts.
   */
  function ReadHead(buf: Bytes, offset: nat): (r: Outcome<Head>)
    requires offset < |buf| <= MAX_SIZE
    ensures r.Ok? && r.value.Leaf? ==> offset < r.value.next <= |buf|
    ensures r.Ok? && r.value.Body? ==> offset < r.value.start <= |buf| && r.value.end <= |buf|
  {
    var prefix := buf[offset];
    if prefix < STRING_BASE then Ok(Leaf([prefix], offset + 1))
    else if prefix < LIST_BASE then
      var head :- ReadLen(buf, offset, prefix, STRING_BASE);
      var stop := Add64(head.next, head.value);
      if stop > |buf| then Throw("RLP string overflow")
      else if stop < head.next then Undefined
      else Ok(Leaf(buf[head.next..stop], stop))
    else
      var head :- ReadLen(buf, offset, prefix, LIST_BASE);
      var stop := Add64(head.next, head.value);
      if stop > |buf| then Throw("RLP list overflow")
      else Ok(Body(head.next, stop))
  }

  /** One item at `offset`. */
  function Dec(buf: Bytes, offset: nat): (r: Outcome<Parsed<Item>>)
    requires |buf| <= MAX_SIZE
    ensures r.Ok? ==> offset < r.value.next <= |buf|
    decreases |buf| - offset, 0
  {
    if offset >= |buf| then Throw("RLP decode overflow")
    else
      var head :- ReadHead(buf, offset);
      match head
      case Leaf(b, next) => Ok(Parsed(Str(b), next))
      case Body(start, end) =>
        var body :- DecAll(buf, start, end);
        Ok(Parsed(List(body.value), body.next))
  }

  /** Items from `offset` until the offset reaches `end`, possibly passing it. */
  function DecAll(buf: Bytes, offset: nat, end: nat): (r: Outcome<Parsed<seq<Item>>>)
    requires |buf| <= MAX_SIZE && offset <= |buf| && end <= |buf|
    ensures r.Ok? ==> offset <= r.value.next <= |buf| && end <= r.value.next
    decreases |buf| - offset, 1
  {
    if offset >= end then Ok(Parsed([], offset))
    else
      var first :- Dec(buf, offset);
      var rest :- DecAll(buf, first.next, end);
      Ok(Parsed([first.value] + rest.value, rest.next))
  }

  /** The convenience overload that starts at offset zero. */
  function Decode(buf: Bytes): Outcome<Item>
    requires |buf| <= MAX_SIZE
  {
    var p :- Dec(buf, 0);
    Ok(p.value)
  }
}
