/** Hexadecimal text (src/hash.cpp) and the map keys made from addresses. */
module Hex {
  import opened Common

  const HEX_PREFIX: Text := ['0' as int, 'x' as int]

  /** Lower-case digit, as a stream with `std::hex` writes it. */
  function Digit(n: Nibble): Byte {
    if n < 10 then '0' as int + n else 'a' as int + (n - 10)
  }

  /** `hexCharToNibble`; `None` is the throw. */
  function NibbleOf(c: Byte): Option<Nibble> {
    if '0' as int <= c <= '9' as int then Some(c - '0' as int)
    else if 'a' as int <= c <= 'f' as int then Some(10 + (c - 'a' as int))
    else if 'A' as int <= c <= 'F' as int then Some(10 + (c - 'A' as int))
    else None
  }

  function Join(hi: Nibble, lo: Nibble): Byte {
    hi * 16 + lo
  }

  /** Two digits a byte, high nibble first. */
  function ToHex(b: Bytes): (t: Text)
    ensures |t| == 2 * |b|
  {
    seq(2 * |b|, i requires 0 <= i < 2 * |b| =>
      if i % 2 == 0 then Digit(b[i / 2] / 16) else Digit(b[i / 2] % 16))
  }

  /** Drop one leading `0x` or `0X`. */
  function Strip(s: Text): Text {
    if |s| >= 2 && s[0] == '0' as int && (s[1] == 'x' as int || s[1] == 'X' as int) then s[2..] else s
  }

  predicate AllDigits(s: Text) {
    forall i :: 0 <= i < |s| ==> NibbleOf(s[i]).Some?
  }

  /** The bytes an even run of digits spells. */
  function Pairs(s: Text): (b: Bytes)
    requires |s| % 2 == 0 && AllDigits(s)
    ensures |b| == |s| / 2
  {
    seq(|s| / 2, i requires 0 <= i < |s| / 2 =>
      Join(NibbleOf(s[2 * i]).value, NibbleOf(s[2 * i + 1]).value))
  }

  function FromHex(s: Text): Outcome<Bytes> {
    var t := Strip(s);
    if |t| % 2 != 0 then Throw("Hex string length must be even")
    else if !AllDigits(t) then Throw("Invalid hex char")
    else Ok(Pairs(t))
  }

  lemma DigitRoundTrip(n: Nibble)
    ensures NibbleOf(Digit(n)) == Some(n)
  {
  }

  lemma ToHexAt(b: Bytes, i: nat)
    requires i < |b|
    ensures NibbleOf(ToHex(b)[2 * i]) == Some(b[i] / 16)
    ensures NibbleOf(ToHex(b)[2 * i + 1]) == Some(b[i] % 16)
  {
    hide Digit, NibbleOf;
    DigitRoundTrip(b[i] / 16);
    DigitRoundTrip(b[i] % 16);
    assert (2 * i) / 2 == i && (2 * i + 1) / 2 == i;
  }

  lemma ToHexDigits(b: Bytes)
    ensures AllDigits(ToHex(b)) && Pairs(ToHex(b)) == b
  {
    hide Digit, NibbleOf;
    var t := ToHex(b);
    forall i | 0 <= i < |t| ensures NibbleOf(t[i]).Some? {
      ToHexAt(b, i / 2);
      assert i == 2 * (i / 2) || i == 2 * (i / 2) + 1;
    }
    forall i | 0 <= i < |b| ensures Pairs(t)[i] == b[i] {
      ToHexAt(b, i);
    }
  }

  /** Written bytes are read back, with or without the prefix. */
  lemma HexRoundTrip(b: Bytes)
    ensures Strip(HEX_PREFIX + ToHex(b)) == ToHex(b)
    ensures FromHex(ToHex(b)) == Ok(b)
    ensures FromHex(HEX_PREFIX + ToHex(b)) == Ok(b)
  {
    hide ToHex, Digit;
    ToHexDigits(b);
    var t := ToHex(b);
    assert |t| >= 2 ==> NibbleOf(t[1]).Some?;
    assert (HEX_PREFIX + t)[2..] == t;
  }

  /** Digits as the writer makes them, and nothing else. */
  predicate LowerDigits(t: Text) {
    forall i :: 0 <= i < |t| ==>
      '0' as int <= t[i] <= '9' as int || 'a' as int <= t[i] <= 'f' as int
  }

  /** Writing what was read gives the text back exactly when it has lower-case digits only. */
  lemma RewritesIffLower(t: Text)
    requires FromHex(t).Ok?
    ensures ToHex(FromHex(t).value) == t <==> LowerDigits(t)
  {
    hide Join;
    var b := FromHex(t).value;
    var w := ToHex(b);
    forall i | 0 <= i < |w| ensures '0' as int <= w[i] <= '9' as int || 'a' as int <= w[i] <= 'f' as int {
    }
    if LowerDigits(t) {
      assert Strip(t) == t;
      forall i | 0 <= i < |t| ensures w[i] == t[i] {
        var k := i / 2;
        ReadPair(t, k);
        LowerDigitRewrites(t[2 * k]);
        LowerDigitRewrites(t[2 * k + 1]);
        assert i == 2 * k || i == 2 * k + 1;
      }
    }
  }

  lemma ReadPair(t: Text, k: nat)
    requires |t| % 2 == 0 && AllDigits(t) && k < |t| / 2
    ensures Pairs(t)[k] / 16 == NibbleOf(t[2 * k]).value
    ensures Pairs(t)[k] % 16 == NibbleOf(t[2 * k + 1]).value
  {
    hide NibbleOf;
  }

  lemma LowerDigitRewrites(c: Byte)
    requires '0' as int <= c <= '9' as int || 'a' as int <= c <= 'f' as int
    ensures NibbleOf(c).Some? && Digit(NibbleOf(c).value) == c
  {
  }

  function Lower(c: Byte): Byte {
    if 'A' as int <= c <= 'F' as int then c + 32 else c
  }

  function Lowered(t: Text): (u: Text)
    ensures |u| == |t|
  {
    seq(|t|, i requires 0 <= i < |t| => Lower(t[i]))
  }

  /** What stands behind one `0x` or `0X`, if it starts with one. */
  predicate Behind(s: Text, t: Text) {
    s == ['0' as int, 'x' as int] + t || s == ['0' as int, 'X' as int] + t
  }

  /** The texts that are read as `b`: its hex in any case, with or without a prefix in any case. */
  lemma ReadsAsIff(s: Text, b: Bytes)
    ensures FromHex(s) == Ok(b) <==>
            Lowered(s) == ToHex(b) || exists t: Text :: Behind(s, t) && Lowered(t) == ToHex(b)
  {
    hide NibbleOf, ToHex, Join, Digit;
    var t := Strip(s);
    assert t == s || Behind(s, t);
    if FromHex(s) == Ok(b) {
      LoweredOfDigits(t);
    }
    if Lowered(s) == ToHex(b) {
      DigitsOfLowered(s, b);
      NoPrefix(s);
    }
    if u: Text :| Behind(s, u) && Lowered(u) == ToHex(b) {
      assert Strip(s) == u;
      DigitsOfLowered(u, b);
    }
  }

  lemma NoPrefix(s: Text)
    requires AllDigits(s)
    ensures Strip(s) == s
  {
    assert |s| >= 2 ==> NibbleOf(s[1]).Some?;
  }

  lemma LoweredOfDigits(t: Text)
    requires |t| % 2 == 0 && AllDigits(t)
    ensures Lowered(t) == ToHex(Pairs(t))
  {
    hide NibbleOf, Join, Lower, Digit;
    forall i | 0 <= i < |t| ensures Lowered(t)[i] == ToHex(Pairs(t))[i] {
      var k := i / 2;
      ReadPair(t, k);
      assert NibbleOf(t[2 * k]).Some? && NibbleOf(t[2 * k + 1]).Some?;
      LowerIsDigit(t[2 * k]);
      LowerIsDigit(t[2 * k + 1]);
      assert i == 2 * k || i == 2 * k + 1;
    }
  }

  lemma LowerIsDigit(c: Byte)
    requires NibbleOf(c).Some?
    ensures Lower(c) == Digit(NibbleOf(c).value)
  {
  }

  lemma DigitsOfLowered(t: Text, b: Bytes)
    requires Lowered(t) == ToHex(b)
    ensures |t| % 2 == 0 && AllDigits(t) && Pairs(t) == b
  {
    hide NibbleOf, Lower, Digit;
    ToHexDigits(b);
    forall i | 0 <= i < |t| ensures NibbleOf(t[i]) == NibbleOf(ToHex(b)[i]) && NibbleOf(t[i]).Some? {
      assert Lowered(t)[i] == Lower(t[i]);
      assert NibbleOf(ToHex(b)[i]).Some?;
      LowerReadsAlike(t[i]);
    }
    assert Pairs(t) == Pairs(ToHex(b));
  }

  lemma LowerReadsAlike(c: Byte)
    ensures NibbleOf(c) == NibbleOf(Lower(c))
  {
  }

  // -------------------------------------------------------------- the loops

  method WriteHex(data: Bytes) returns (out: Text)
    ensures out == ToHex(data)
  {
    out := [];
    for i := 0 to |data|
      invariant out == ToHex(data[..i])
    {
      out := out + [Digit(data[i] / 16), Digit(data[i] % 16)];
    }
    assert data[..|data|] == data;
  }

  method ReadHex(hex: Text) returns (r: Outcome<Bytes>)
    ensures r == FromHex(hex)
  {
    hide NibbleOf, Join;
    var s := hex;
    if |s| >= 2 && s[0] == '0' as int && (s[1] == 'x' as int || s[1] == 'X' as int) {
      s := s[2..];
    }
    if |s| % 2 != 0 {
      return Throw("Hex string length must be even");
    }
    var out: Bytes := [];
    var i := 0;
    while i < |s|
      invariant 0 <= i <= |s| && i % 2 == 0
      invariant AllDigits(s[..i]) && out == Pairs(s[..i])
    {
      var hi := NibbleOf(s[i]);
      var lo := NibbleOf(s[i + 1]);
      if hi.None? || lo.None? {
        return Throw("Invalid hex char");
      }
      out := out + [Join(hi.value, lo.value)];
      i := i + 2;
    }
    assert s[..i] == s;
    r := Ok(out);
  }

  // ----------------------------------------------------------- account keys

  /** `Address::toHex(false)`, the key of the account map. */
  function AddrKey(a: Address): Text {
    HEX_PREFIX + ToHex(a)
  }

  /** A key gives its address back, so the map may as well be keyed by addresses. */
  lemma AddrKeyInjective(a: Address, b: Address)
    ensures AddrKey(a) == AddrKey(b) <==> a == b
  {
    HexRoundTrip(a);
    HexRoundTrip(b);
  }
}
