/**
 * The base64 helpers of src/wallet.cpp against section 4 of RFC 4648. Their
 * 32-bit accumulator is never reset, so high bits keep falling off its top.
 */
module Base64 {
  import opened Common
  import opened Arithmetic

  const UPPER: string := "ABCDEFGHIJKLMNOPQRSTUVWXYZ"
  const LOWER: string := "abcdefghijklmnopqrstuvwxyz"
  const DIGITS: string := "0123456789"

  /** `base64_chars`. */
  const ALPHABET: string := UPPER + LOWER + DIGITS + "+/"
  const PAD: Byte := '=' as int

  type SixBits = n: int | 0 <= n < 64

  // ------------------------------------------------------------ the alphabet

  function CharOf(n: SixBits): Byte {
    if n < 26 then 'A' as int + n
    else if n < 52 then 'a' as int + (n - 26)
    else if n < 62 then '0' as int + (n - 52)
    else if n == 62 then '+' as int
    else '/' as int
  }

  /** The six bits a character stands for, or -1. */
  function ValueOf(c: Byte): (v: int)
    ensures -1 <= v < 64
    ensures v >= 0 ==> CharOf(v) == c
  {
    if 'A' as int <= c <= 'Z' as int then c - 'A' as int
    else if 'a' as int <= c <= 'z' as int then c - 'a' as int + 26
    else if '0' as int <= c <= '9' as int then c - '0' as int + 52
    else if c == '+' as int then 62
    else if c == '/' as int then 63
    else -1
  }

  lemma ValueOfChar(n: SixBits)
    ensures ValueOf(CharOf(n)) == n
  {
  }

  lemma AlphabetAt(i: nat)
    requires i < 64
    ensures |ALPHABET| == 64 && ALPHABET[i] as int == CharOf(i)
  {
    if i < 26 {
      assert ALPHABET[i] == UPPER[i];
    } else if i < 52 {
      assert ALPHABET[i] == LOWER[i - 26];
    } else if i < 62 {
      assert ALPHABET[i] == DIGITS[i - 52];
    }
  }

  /** `base64_chars[n]`. */
  function Letter(n: SixBits): (c: Byte)
    ensures c == CharOf(n)
  {
    AlphabetAt(n);
    ALPHABET[n] as int
  }

  // --------------------------------------------------------------- encoding

  function ByteAt(d: Bytes, i: nat): Byte {
    if i < |d| then d[i] else 0
  }

  /** The j-th group of six bits, zero bits filling the last one. */
  function Sextet(d: Bytes, j: nat): SixBits {
    var g := j / 4 * 3;
    if j % 4 == 0 then ByteAt(d, g) / 4
    else if j % 4 == 1 then ByteAt(d, g) % 4 * 16 + ByteAt(d, g + 1) / 16
    else if j % 4 == 2 then ByteAt(d, g + 1) % 16 * 4 + ByteAt(d, g + 2) / 64
    else ByteAt(d, g + 2) % 64
  }

  /** How many characters carry data: 8 bits a byte, 6 bits a character, rounded up. */
  function DataChars(n: nat): nat {
    (8 * n + 5) / 6
  }

  /** Four characters for every three bytes begun. */
  function TextLength(n: nat): nat {
    (n + 2) / 3 * 4
  }

  function Encode(d: Bytes): (t: Text)
    ensures |t| == TextLength(|d|)
  {
    seq(TextLength(|d|), j requires 0 <= j < TextLength(|d|) =>
      if j < DataChars(|d|) then CharOf(Sextet(d, j)) else PAD)
  }

  // --------------------------------------------------------------- decoding

  /** The length of the leading run of alphabet characters. */
  function Leading(t: Text): (m: nat)
    ensures m <= |t|
  {
    if t == [] || ValueOf(t[0]) == -1 then 0 else 1 + Leading(t[1..])
  }

  function BitsAt(t: Text, j: nat): SixBits {
    if j < |t| && ValueOf(t[j]) >= 0 then ValueOf(t[j]) else 0
  }

  /** The k-th byte spelled by groups of six bits. */
  function Octet(t: Text, k: nat): Byte {
    var g := k / 3 * 4;
    if k % 3 == 0 then BitsAt(t, g) * 4 + BitsAt(t, g + 1) / 16
    else if k % 3 == 1 then BitsAt(t, g + 1) % 16 * 16 + BitsAt(t, g + 2) / 4
    else BitsAt(t, g + 2) % 4 * 64 + BitsAt(t, g + 3)
  }

  /** Whole bytes from the leading run; what is left over is dropped. */
  function Decode(t: Text): (d: Bytes)
    ensures |d| == 6 * Leading(t) / 8
  {
    seq(6 * Leading(t) / 8, k requires 0 <= k < 6 * Leading(t) / 8 => Octet(t, k))
  }

  // -------------------------------------------------------------- round trip

  lemma {:induction false} LeadingRun(t: Text, m: nat)
    requires m <= |t|
    requires forall i :: 0 <= i < m ==> ValueOf(t[i]) >= 0
    requires m < |t| ==> ValueOf(t[m]) == -1
    ensures Leading(t) == m
  {
    if m > 0 {
      assert forall i :: 0 <= i < m - 1 ==> t[1..][i] == t[i + 1];
      LeadingRun(t[1..], m - 1);
    }
  }

  lemma Counts(n: nat)
    ensures DataChars(n) <= TextLength(n) < DataChars(n) + 4
    ensures 6 * DataChars(n) / 8 == n
  {
    var g, r := n / 3, n % 3;
    assert n == 3 * g + r;
  }

  lemma EncodedBits(d: Bytes, j: nat)
    requires j < DataChars(|d|)
    ensures j < |Encode(d)| && BitsAt(Encode(d), j) == Sextet(d, j)
  {
    hide CharOf, ValueOf, Sextet, DataChars, TextLength;
    Counts(|d|);
    ValueOfChar(Sextet(d, j));
  }

  lemma LeadingOfEncode(d: Bytes)
    ensures Leading(Encode(d)) == DataChars(|d|)
  {
    hide CharOf, Sextet, DataChars, TextLength;
    Counts(|d|);
    var t, m := Encode(d), DataChars(|d|);
    forall i | 0 <= i < m ensures ValueOf(t[i]) >= 0 {
      ValueOfChar(Sextet(d, i));
    }
    LeadingRun(t, m);
  }

  lemma SextetsOfGroup(d: Bytes, q: nat)
    ensures Sextet(d, 4 * q) == ByteAt(d, 3 * q) / 4
    ensures Sextet(d, 4 * q + 1) == ByteAt(d, 3 * q) % 4 * 16 + ByteAt(d, 3 * q + 1) / 16
    ensures Sextet(d, 4 * q + 2) == ByteAt(d, 3 * q + 1) % 16 * 4 + ByteAt(d, 3 * q + 2) / 64
    ensures Sextet(d, 4 * q + 3) == ByteAt(d, 3 * q + 2) % 64
  {
    assert (4 * q) / 4 == q && (4 * q + 1) / 4 == q && (4 * q + 2) / 4 == q && (4 * q + 3) / 4 == q;
  }

  lemma Covered(n: nat, q: nat, r: nat)
    requires r < 3 && 3 * q + r < n
    ensures 4 * q + r + 1 < DataChars(n)
  {
  }

  /** Splitting three bytes into four groups of six bits and joining them again. */
  lemma SplitAndJoin(a: Byte, b: Byte, c: Byte)
    ensures a / 4 * 4 + (a % 4 * 16 + b / 16) / 16 == a
    ensures (a % 4 * 16 + b / 16) % 16 * 16 + (b % 16 * 4 + c / 64) / 4 == b
    ensures (b % 16 * 4 + c / 64) % 4 * 64 + c % 64 == c
  {
  }

  lemma OctetAt(t: Text, q: nat, r: nat)
    requires r < 3
    ensures Octet(t, 3 * q + r) ==
            if r == 0 then BitsAt(t, 4 * q) * 4 + BitsAt(t, 4 * q + 1) / 16
            else if r == 1 then BitsAt(t, 4 * q + 1) % 16 * 16 + BitsAt(t, 4 * q + 2) / 4
            else BitsAt(t, 4 * q + 2) % 4 * 64 + BitsAt(t, 4 * q + 3)
  {
    hide BitsAt;
    assert (3 * q + r) / 3 == q && (3 * q + r) % 3 == r;
  }

  lemma OctetOfEncode(d: Bytes, k: nat)
    requires k < |d|
    ensures Octet(Encode(d), k) == d[k]
  {
    hide Encode, Sextet, BitsAt, Octet, DataChars;
    var q, r := k / 3, k % 3;
    assert k == 3 * q + r;
    OctetAt(Encode(d), q, r);
    SextetsOfGroup(d, q);
    Covered(|d|, q, r);
    EncodedBits(d, 4 * q + r);
    EncodedBits(d, 4 * q + r + 1);
    SplitAndJoin(ByteAt(d, 3 * q), ByteAt(d, 3 * q + 1), ByteAt(d, 3 * q + 2));
  }

  /** Every byte vector survives, and takes four characters for every three bytes begun. */
  lemma RoundTrip(d: Bytes)
    ensures Decode(Encode(d)) == d
    ensures |Encode(d)| == 4 * ((|d| + 2) / 3)
  {
    hide Encode, Octet, Leading;
    LeadingOfEncode(d);
    Counts(|d|);
    forall k | 0 <= k < |d| ensures Decode(Encode(d))[k] == d[k] {
      OctetOfEncode(d, k);
    }
  }

  // --------------------------------------------------------- the 32-bit loops

  /** `int` arithmetic modulo 2^32, in two's complement. */
  function Wrap32(x: int): int {
    (x + 0x8000_0000) % 0x1_0000_0000 - 0x8000_0000
  }

  function Pow2(k: nat): (p: nat)
    ensures p > 0
  {
    if k == 0 then 1 else 2 * Pow2(k - 1)
  }

  /** `(x >> k) & (2^w - 1)`; the shift is arithmetic, rounding down. */
  function Field(x: int, k: nat, w: nat): nat {
    x / Pow2(k) % Pow2(w)
  }

  lemma Wrap32Low(x: int)
    ensures Wrap32(x) % 65536 == x % 65536
  {
    var q, w := (x + 0x8000_0000) / 0x1_0000_0000, Wrap32(x);
    var h, l := w / 65536, w % 65536;
    DivMod(x, 65536, h + q * 65536, l);
  }

  /** The low sixteen bits after shifting a byte in are the last two bytes. */
  lemma ShiftByte(val: int, prev: Byte, c: Byte)
    requires val % 256 == prev
    ensures (Wrap32(val * 256) + c) % 65536 == prev * 256 + c
    ensures (Wrap32(val * 256) + c) % 256 == c
  {
    hide Wrap32;
    DivMod(val * 256, 65536, val / 256, prev * 256);
    Wrap32Low(val * 256);
    var w := Wrap32(val * 256);
    DivMod(w + c, 65536, w / 65536, prev * 256 + c);
    DivMod(w + c, 256, w / 65536 * 256 + prev, c);
  }

  lemma ModMod(x: int)
    ensures x % 65536 % 64 == x % 64
  {
    var h, l := x / 65536, x % 65536;
    DivMod(x, 64, 1024 * h + l / 64, l % 64);
  }

  /** Cutting a window that lies in the low sixteen bits. */
  lemma Window(h: int, l: nat, p: nat, s: nat)
    requires p > 0 && s * 64 * p == 65536
    ensures (65536 * h + l) / p % 64 == l / p % 64
  {
    var a, b := l / p, l % p;
    assert l == a * p + b;
    assert 65536 * h + l == (s * 64 * h + a) * p + b;
    DivMod(65536 * h + l, p, s * 64 * h + a, b);
    var c, e := a / 64, a % 64;
    assert s * 64 * h + a == (s * h + c) * 64 + e;
    DivMod(s * 64 * h + a, 64, s * h + c, e);
  }

  lemma PowersOfTwo()
    ensures Pow2(2) == 4 && Pow2(4) == 16 && Pow2(6) == 64 && Pow2(8) == 256
  {
    assert Pow2(1) == 2 && Pow2(3) == 8 && Pow2(5) == 32 && Pow2(7) == 128;
  }

  lemma SixBitFields(val: int)
    ensures Field(val, 0, 6) == val % 65536 % 64
    ensures Field(val, 2, 6) == val % 65536 / 4 % 64
    ensures Field(val, 4, 6) == val % 65536 / 16 % 64
    ensures Field(val, 6, 6) == val % 65536 / 64 % 64
  {
    PowersOfTwo();
    ModMod(val);
    Window(val / 65536, val % 65536, 4, 256);
    Window(val / 65536, val % 65536, 16, 64);
    Window(val / 65536, val % 65536, 64, 16);
  }

  function Before(d: Bytes, i: nat): Byte
    requires i <= |d|
  {
    if i == 0 then 0 else d[i - 1]
  }

  lemma PairFields(a: Byte, b: Byte)
    ensures (a * 256 + b) / 4 % 64 == b / 4
    ensures (a * 256 + b) / 16 % 64 == a % 4 * 16 + b / 16
    ensures (a * 256 + b) / 64 % 64 == a % 16 * 4 + b / 64
    ensures (a * 256 + b) % 64 == b % 64
  {
    var x := a * 256 + b;
    DivMod(x, 4, a * 64 + b / 4, b % 4);
    DivMod(a * 64 + b / 4, 64, a, b / 4);
    DivMod(x, 16, a * 16 + b / 16, b % 16);
    DivMod(a * 16 + b / 16, 64, a / 4, a % 4 * 16 + b / 16);
    DivMod(x, 64, a * 4 + b / 64, b % 64);
    DivMod(a * 4 + b / 64, 64, a / 16, a % 16 * 4 + b / 64);
  }

  /** The character emitted with `k` bits left over is the right one. */
  lemma FieldIsSextet(d: Bytes, i: nat, j: nat, val: int, k: nat)
    requires i < |d| && val % 65536 == Before(d, i) * 256 + d[i]
    requires 6 * (j + 1) + k == 8 * (i + 1) && k <= 6
    ensures Field(val, k, 6) == Sextet(d, j)
  {
    hide Field, Sextet;
    var q, r := i / 3, i % 3;
    assert i == 3 * q + r;
    SextetsOfGroup(d, q);
    SixBitFields(val);
    PairFields(Before(d, i), d[i]);
    WhichSextet(q, r, j, k);
  }

  lemma WhichSextet(q: nat, r: nat, j: nat, k: nat)
    requires r < 3 && k <= 6 && 6 * (j + 1) + k == 8 * (3 * q + r + 1)
    ensures r == 0 ==> k == 2 && j == 4 * q
    ensures r == 1 ==> k == 4 && j == 4 * q + 1
    ensures r == 2 ==> (k == 6 && j == 4 * q + 2) || (k == 0 && j == 4 * q + 3)
  {
  }

  lemma LastSextet(d: Bytes, j: nat, val: int, k: nat)
    requires val % 256 == Before(d, |d|)
    requires 6 * j + k == 8 * |d| && (k == 2 || k == 4)
    ensures Field(Wrap32(val * Pow2(6 - k)), 0, 6) == Sextet(d, j)
    ensures DataChars(|d|) == j + 1
  {
    hide Field, Sextet, Wrap32;
    var n := |d|;
    var q, r := (n - 1) / 3, (n - 1) % 3;
    assert n == 3 * q + r + 1;
    SextetsOfGroup(d, q);
    PowersOfTwo();
    SixBitFields(Wrap32(val * Pow2(6 - k)));
    Wrap32Low(val * Pow2(6 - k));
    LowBits(val, d[n - 1]);
    assert k == 2 ==> r == 0 && j == 4 * q + 1;
    assert k == 4 ==> r == 1 && j == 4 * q + 2;
  }

  lemma LowBits(val: int, c: Byte)
    requires val % 256 == c
    ensures val * 16 % 65536 % 64 == c % 4 * 16
    ensures val * 4 % 65536 % 64 == c % 16 * 4
  {
    var h := val / 256;
    ModMod(val * 16);
    ModMod(val * 4);
    DivMod(val * 16, 64, 64 * h + c / 4, c % 4 * 16);
    DivMod(val * 4, 64, 16 * h + c / 16, c % 16 * 4);
  }

  /** The data characters, without the padding. */
  method EncodeData(data: Bytes) returns (ret: Text)
    ensures |ret| == DataChars(|data|)
    ensures forall j :: 0 <= j < |ret| ==> ret[j] == CharOf(Sextet(data, j))
  {
    hide Sextet, CharOf, Letter, Field, Wrap32, DataChars, Pow2;
    ret := [];
    var val, valb := 0, 0;
    for i := 0 to |data|
      invariant 0 <= valb < 6 && 6 * |ret| + valb == 8 * i
      invariant val % 256 == Before(data, i)
      invariant forall j :: 0 <= j < |ret| ==> ret[j] == CharOf(Sextet(data, j))
    {
      ShiftByte(val, Before(data, i), data[i]);
      val := Wrap32(val * 256) + data[i];
      valb := valb + 8;
      while valb >= 6
        invariant 0 <= valb <= 13 && 6 * |ret| + valb == 8 * (i + 1)
        invariant forall j :: 0 <= j < |ret| ==> ret[j] == CharOf(Sextet(data, j))
      {
        valb := valb - 6;
        EvenLeft(|ret| + 1, valb, i + 1);
        FieldIsSextet(data, i, |ret|, val, valb);
        ret := ret + [Letter(Field(val, valb, 6))];
      }
    }
    if valb > 0 {
      EvenLeft(|ret|, valb, |data|);
      LastSextet(data, |ret|, val, valb);
      ret := ret + [Letter(Field(Wrap32(val * Pow2(6 - valb)), 0, 6))];
    } else {
      NothingLeft(|ret|, |data|);
    }
  }

  method EncodeText(data: Bytes) returns (ret: Text)
    ensures ret == Encode(data)
  {
    hide Sextet, CharOf, DataChars, TextLength;
    ret := EncodeData(data);
    Counts(|data|);
    FullQuads(|data|);
    while |ret| % 4 != 0
      invariant DataChars(|data|) <= |ret| <= TextLength(|data|)
      invariant forall j :: 0 <= j < |ret| ==>
        ret[j] == if j < DataChars(|data|) then CharOf(Sextet(data, j)) else PAD
      decreases TextLength(|data|) - |ret|
    {
      ret := ret + [PAD];
    }
  }

  lemma EvenLeft(chars: nat, left: nat, n: nat)
    requires 6 * chars + left == 8 * n
    ensures left % 2 == 0
  {
    DivMod(left, 2, 4 * n - 3 * chars, 0);
  }

  lemma NothingLeft(chars: nat, n: nat)
    requires 6 * chars == 8 * n
    ensures DataChars(n) == chars
  {
  }

  lemma FullQuads(n: nat)
    ensures TextLength(n) % 4 == 0
  {
  }

  // ------------------------------------------------------- the decoding loop

  /** The table `T`: the value of every alphabet character, -1 elsewhere. */
  method BuildTable() returns (table: seq<int>)
    ensures |table| == 256
    ensures forall c: Byte :: table[c] == ValueOf(c)
  {
    hide ValueOf, CharOf, Letter;
    table := seq(256, _ => -1);
    for i := 0 to 64
      invariant |table| == 256
      invariant forall c: Byte :: table[c] == if ValueOf(c) < i then ValueOf(c) else -1
    {
      ValueOfChar(i);
      assert forall c: Byte :: ValueOf(c) == i ==> c == CharOf(i);
      table := table[Letter(i) := i];
    }
  }

  lemma {:induction false} LeadingSplit(t: Text, m: nat)
    requires m <= Leading(t)
    ensures m < |t| ==> (ValueOf(t[m]) == -1 <==> m == Leading(t))
    ensures forall i :: 0 <= i < m ==> ValueOf(t[i]) >= 0
  {
    hide ValueOf;
    if m > 0 {
      LeadingSplit(t[1..], m - 1);
      forall i | 0 <= i < m ensures ValueOf(t[i]) >= 0 {
        assert i > 0 ==> t[1..][i - 1] == t[i];
      }
    }
  }

  /** The low twelve bits after shifting six bits in are the last two groups. */
  lemma ShiftSix(val: int, prev: SixBits, c: SixBits)
    requires val % 64 == prev
    ensures (Wrap32(val * 64) + c) % 4096 == prev * 64 + c
    ensures (Wrap32(val * 64) + c) % 64 == c
  {
    hide Wrap32;
    var w, h := Wrap32(val * 64), val * 64 / 65536;
    Wrap32Low(val * 64);
    var l := val * 64 % 65536;
    assert val * 64 == 65536 * h + l;
    assert val * 64 == 4096 * (val / 64) + prev * 64;
    DivMod(l, 4096, val / 64 - 16 * h, prev * 64);
    DivMod(w + c, 4096, w / 65536 * 16 + l / 4096, prev * 64 + c);
    DivMod(w + c, 64, w / 65536 * 1024 + l / 4096 * 64 + prev, c);
  }

  lemma EightBitFields(val: int)
    ensures Field(val, 0, 8) == val % 4096 % 256
    ensures Field(val, 2, 8) == val % 4096 / 4 % 256
    ensures Field(val, 4, 8) == val % 4096 / 16
  {
    PowersOfTwo();
    var h, l := val / 4096, val % 4096;
    DivMod(val, 256, 16 * h + l / 256, l % 256);
    DivMod(val, 4, 1024 * h + l / 4, l % 4);
    DivMod(1024 * h + l / 4, 256, 4 * h + l / 4 / 256, l / 4 % 256);
    DivMod(val, 16, 256 * h + l / 16, l % 16);
    DivMod(256 * h + l / 16, 256, h, l / 16);
  }

  lemma PairOctets(a: SixBits, b: SixBits)
    ensures (a * 64 + b) / 16 == a * 4 + b / 16
    ensures (a * 64 + b) / 4 % 256 == a % 16 * 16 + b / 4
    ensures (a * 64 + b) % 256 == a % 4 * 64 + b
  {
    var x := a * 64 + b;
    DivMod(x, 16, a * 4 + b / 16, b % 16);
    DivMod(x, 4, a * 16 + b / 4, b % 4);
    DivMod(a * 16 + b / 4, 256, a / 16, a % 16 * 16 + b / 4);
    DivMod(x, 256, a / 4, a % 4 * 64 + b);
  }

  /** The byte pushed after character `m` is the right one. */
  lemma FieldIsOctet(t: Text, m: nat, k: nat, val: int, left: nat)
    requires val % 4096 == (if m == 0 then 0 else BitsAt(t, m - 1)) * 64 + BitsAt(t, m)
    requires 8 * (k + 1) + left == 6 * (m + 1) && left <= 4
    ensures Field(val, left, 8) == Octet(t, k)
  {
    hide Field, BitsAt, Octet;
    var q, r := k / 3, k % 3;
    assert k == 3 * q + r;
    WhichOctet(q, r, m, left);
    OctetAt(t, q, r);
    EightBitFields(val);
    PairOctets(BitsAt(t, m - 1), BitsAt(t, m));
  }

  lemma WhichOctet(q: nat, r: nat, m: nat, left: nat)
    requires r < 3 && left <= 4 && 8 * (3 * q + r + 1) + left == 6 * (m + 1)
    ensures m >= 1
    ensures r == 0 ==> left == 4 && m == 4 * q + 1
    ensures r == 1 ==> left == 2 && m == 4 * q + 2
    ensures r == 2 ==> left == 0 && m == 4 * q + 3
  {
  }

  method DecodeText(str: Text) returns (ret: Bytes)
    ensures ret == Decode(str)
  {
    hide ValueOf, Octet, Field, Wrap32, Leading;
    ret := [];
    var table := BuildTable();
    var val, valb := 0, 0;
    var m := 0;
    while m < |str|
      invariant 0 <= m <= |str| && m <= Leading(str)
      invariant 0 <= valb < 8 && 8 * |ret| + valb == 6 * m
      invariant val % 64 == if m == 0 then 0 else BitsAt(str, m - 1)
      invariant forall k :: 0 <= k < |ret| ==> ret[k] == Octet(str, k)
    {
      LeadingSplit(str, m);
      if table[str[m]] == -1 {
        break;
      }
      ShiftSix(val, if m == 0 then 0 else BitsAt(str, m - 1), table[str[m]]);
      val := Wrap32(val * 64) + table[str[m]];
      valb := valb + 6;
      if valb >= 8 {
        valb := valb - 8;
        EvenOver(|ret| + 1, valb, m + 1);
        FieldIsOctet(str, m, |ret|, val, valb);
        ret := ret + [Field(val, valb, 8)];
      }
      m := m + 1;
    }
    LeadingSplit(str, m);
    assert |ret| == 6 * m / 8;
  }

  lemma EvenOver(bytes: nat, left: nat, m: nat)
    requires 8 * bytes + left == 6 * m && left < 6
    ensures left <= 4
  {
    DivMod(left, 2, 3 * m - 4 * bytes, 0);
  }
}
