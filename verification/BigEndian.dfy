/** Minimal big-endian byte strings, as the RLP encoder and `toUint` use them. */
module BigEndian {
  import opened Common
  import opened Arithmetic

  /** The big-endian digits of `n` in base 256, without leading zeros. */
  function Be(n: nat): Bytes {
    if n == 0 then [] else Be(n / 256) + [n % 256]
  }

  /** The number a big-endian byte string denotes; leading zeros are allowed. */
  function FromBe(b: Bytes): nat {
    if b == [] then 0 else FromBe(b[..|b| - 1]) * 256 + b[|b| - 1]
  }

  /** The number the `count` bytes of `buf` from `at` denote. */
  function BeAt(buf: Bytes, at: nat, count: nat): nat
    requires at + count <= |buf|
  {
    if count == 0 then 0 else BeAt(buf, at, count - 1) * 256 + buf[at + count - 1]
  }

  lemma {:induction false} BeAtSlice(buf: Bytes, at: nat, count: nat)
    requires at + count <= |buf|
    ensures BeAt(buf, at, count) == FromBe(buf[at..at + count])
  {
    if count != 0 {
      BeAtSlice(buf, at, count - 1);
      var d := buf[at..at + count];
      assert d[..count - 1] == buf[at..at + (count - 1)];
    }
  }

  function Pow256(k: nat): (p: nat)
    ensures p > 0
  {
    if k == 0 then 1 else 256 * Pow256(k - 1)
  }

  lemma {:induction false} FromBeOfBe(n: nat)
    ensures FromBe(Be(n)) == n
  {
    if n != 0 {
      FromBeOfBe(n / 256);
      var b := Be(n);
      assert b[..|b| - 1] == Be(n / 256);
    }
  }

  /** `Be(n)` has at most `k` digits exactly when `n` is below 256^k. */
  lemma {:induction false} BeLength(n: nat, k: nat)
    ensures |Be(n)| <= k <==> n < Pow256(k)
    ensures n > 0 ==> Be(n)[0] != 0
  {
    if n != 0 {
      if k != 0 {
        BeLength(n / 256, k - 1);
      } else {
        BeLength(n / 256, 0);
      }
    }
  }

  lemma {:induction false} BeAtBound(buf: Bytes, at: nat, count: nat)
    requires at + count <= |buf|
    ensures BeAt(buf, at, count) < Pow256(count)
  {
    if count != 0 {
      BeAtBound(buf, at, count - 1);
    }
  }

  lemma Pow256At8()
    ensures Pow256(8) == TWO64
  {
    assert Pow256(4) == 0x1_0000_0000;
    assert Pow256(8) == 256 * 256 * 256 * 256 * Pow256(4);
  }

  /** A non-zero 64-bit length takes one to eight digits. */
  lemma Be64(n: Uint64)
    ensures |Be(n)| <= 8
    ensures n > 0 ==> 1 <= |Be(n)|
  {
    BeLength(n, 8);
    Pow256At8();
  }

  lemma {:induction false} Pow256Grows(j: nat, k: nat)
    requires j <= k
    ensures Pow256(j) <= Pow256(k)
  {
    if j < k {
      Pow256Grows(j, k - 1);
    }
  }

  /** Eight bytes or fewer never exceed 64 bits. */
  lemma BeAt64(buf: Bytes, at: nat, count: nat)
    requires at + count <= |buf| && count <= 8
    ensures BeAt(buf, at, count) < TWO64
  {
    BeAtBound(buf, at, count);
    Pow256Grows(count, 8);
    Pow256At8();
  }

  lemma FromBeAppend(b: Bytes, c: Byte)
    ensures FromBe(b + [c]) == FromBe(b) * 256 + c
  {
    assert (b + [c])[..|b|] == b;
  }

  /** Shifting a wrapped accumulator gives the wrapped shift. */
  lemma ShiftIn(v: nat, c: Byte)
    ensures ((v % TWO64) * 256) % TWO64 + c == (v * 256 + c) % TWO64
  {
    var q, r := v / TWO64, v % TWO64;
    var q2, r2 := (r * 256) / TWO64, (r * 256) % TWO64;
    DivMod(r2, 256, r - q2 * 0x100_0000_0000_0000, 0);
    DivMod(v * 256 + c, TWO64, q * 256 + q2, r2 + c);
  }

  /**
   * The decoder's `toUint`: shift the bytes into a 64-bit accumulator.
   * Longer strings keep their low 64 bits.
   */
  method ToUint(b: Bytes) returns (v: Uint64)
    ensures v == FromBe(b) % TWO64
  {
    v := 0;
    for i := 0 to |b|
      invariant v == FromBe(b[..i]) % TWO64
    {
      assert b[..i + 1] == b[..i] + [b[i]];
      FromBeAppend(b[..i], b[i]);
      ShiftIn(FromBe(b[..i]), b[i]);
      v := (v * 256) % TWO64 + b[i];
    }
    assert b[..|b|] == b;
  }

  /** The encoder's loop: peel low bytes off `n` and insert them in front. */
  method ToBe(n: nat) returns (b: Bytes)
    ensures b == Be(n)
  {
    b := [];
    var tmp := n;
    while tmp > 0
      invariant Be(n) == Be(tmp) + b
    {
      b := [tmp % 256] + b;
      tmp := tmp / 256;
    }
  }

  /** Every encoded 64-bit number is read back. */
  lemma {:induction false} UintRoundTrip(n: Uint64)
    ensures FromBe(Be(n)) % TWO64 == n
  {
    FromBeOfBe(n);
  }
}
