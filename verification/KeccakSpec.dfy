/**
 * The Keccak-f[1600] step mappings and the sponge, as sections 3.2, 4 and 5.1
 * of FIPS 202 define them, on lanes: lane x + 5 * y is A[x, y].
 */
module KeccakSpec {

  type Lane = bv64
  type Lanes = s: seq<Lane> | |s| == 25 witness seq(25, _ => 0)

  function Rotl(x: Lane, y: bv64): Lane
    requires 0 < y < 64
  {
    (x << y) | (x >> (64 - y))
  }

  function Xor(a: Lane, b: Lane): Lane {
    a ^ b
  }

  function AndNot(a: Lane, b: Lane): Lane {
    (!a) & b
  }

  /** A rotation amount as a machine word. */
  function Amount(n: nat): (y: bv64)
    requires 0 < n < 64
    ensures 0 < y < 64
  {
    n as bv64
  }

  // ----------------------------------------------------------- step mappings

  function Column(a: Lanes, x: nat): Lane
    requires x < 5
  {
    Xor(Xor(Xor(Xor(a[x], a[x + 5]), a[x + 10]), a[x + 15]), a[x + 20])
  }

  /** What theta adds to every lane of column x. */
  function ThetaEffect(a: Lanes, x: nat): Lane
    requires x < 5
  {
    Xor(Column(a, (x + 4) % 5), Rotl(Column(a, (x + 1) % 5), 1))
  }

  function Theta(a: Lanes): Lanes {
    seq(25, i requires 0 <= i < 25 => Xor(a[i], ThetaEffect(a, i % 5)))
  }

  /** Rotation offsets of table 2, modulo 64. */
  const RHO_OFFSETS: seq<nat> := [
    0, 1, 62, 28, 27,
    36, 44, 6, 55, 20,
    3, 10, 43, 25, 39,
    41, 45, 15, 21, 8,
    18, 2, 61, 56, 14]

  function Offset(i: nat): (o: nat)
    requires i < 25
    ensures o < 64 && (i > 0 ==> o > 0)
  {
    RHO_OFFSETS[i]
  }

  function Rho(a: Lanes): Lanes {
    seq(25, i requires 0 <= i < 25 => if i == 0 then a[0] else Rotl(a[i], Amount(Offset(i))))
  }

  /** The lane pi reads for lane d: A'[x, y] is A[(x + 3 * y) mod 5, x]. */
  function PiSource(d: nat): (s: nat)
    requires d < 25
    ensures s < 25
  {
    (d % 5 + 3 * (d / 5)) % 5 + 5 * (d % 5)
  }

  function Pi(a: Lanes): Lanes {
    seq(25, d requires 0 <= d < 25 => a[PiSource(d)])
  }

  /** The lane of row `row` that stands `step` places to the right of lane i. */
  function RowLane(i: nat, step: nat): (k: nat)
    requires i < 25
    ensures k < 25
  {
    i / 5 * 5 + (i % 5 + step) % 5
  }

  function Chi(a: Lanes): Lanes {
    seq(25, i requires 0 <= i < 25 =>
      Xor(a[i], AndNot(a[RowLane(i, 1)], a[RowLane(i, 2)])))
  }

  /** One step of the feedback register of algorithm 5; bit i is R[i]. */
  function Advance(r: bv8): bv8 {
    (r << 1) ^ (if r & 0x80 == 0 then 0 else 0x71)
  }

  /** The register after t steps. The 24 rounds use fewer than its period of 255. */
  function Register(t: nat): bv8 {
    if t == 0 then 0x01 else Advance(Register(t - 1))
  }

  /** The bit rc(t), moved to the place given by `mask`. */
  function RcBit(register: bv8, mask: Lane): Lane {
    if register & 0x01 == 0 then 0 else mask
  }

  function Or(a: Lane, b: Lane): Lane {
    a | b
  }

  function Or7(a: Lane, b: Lane, c: Lane, d: Lane, e: Lane, f: Lane, g: Lane): Lane {
    Or(Or(Or(a, b), c), Or(Or(d, e), Or(f, g)))
  }

  /** Algorithm 6: bit 2^j - 1 of the constant of round r is rc(j + 7 * r), for j from 0 to 6. */
  function RoundConstant(r: nat): Lane {
    Or7(RcBit(Register(7 * r), 0x1),
        RcBit(Register(7 * r + 1), 0x2),
        RcBit(Register(7 * r + 2), 0x8),
        RcBit(Register(7 * r + 3), 0x80),
        RcBit(Register(7 * r + 4), 0x8000),
        RcBit(Register(7 * r + 5), 0x8000_0000),
        RcBit(Register(7 * r + 6), 0x8000_0000_0000_0000))
  }

  function Iota(a: Lanes, r: nat): Lanes
    requires r < 24
  {
    a[0 := Xor(a[0], RoundConstant(r))]
  }

  function Round(a: Lanes, r: nat): Lanes
    requires r < 24
  {
    Iota(Chi(Pi(Rho(Theta(a)))), r)
  }

  function Rounds(a: Lanes, n: nat): Lanes
    requires n <= 24
  {
    if n == 0 then a else Round(Rounds(a, n - 1), n - 1)
  }

  function KeccakF(a: Lanes): Lanes {
    Rounds(a, 24)
  }

  // ------------------------------------------------------------------ sponge

  const RATE: nat := 136

  /** pad10*1 on whole bytes, with the original Keccak domain (no suffix bits). */
  function Padding(n: nat): (p: seq<bv8>)
    requires n > 0
    ensures |p| == n
  {
    if n == 1 then [0x81] else [0x01] + seq(n - 2, _ => 0x00) + [0x80]
  }

  function Pad(m: seq<bv8>): (p: seq<bv8>)
    ensures |p| % RATE == 0 && |m| < |p| <= |m| + RATE
    ensures p[..|m|] == m
  {
    m + Padding(RATE - |m| % RATE)
  }

  /** Put a byte into position j of a lane. */
  function OrByte(x: Lane, b: bv8, j: nat): Lane
    requires j < 8
  {
    x | ((b as bv64) << (8 * j))
  }

  /** The first n of eight bytes as the low bits of a lane, little-endian. */
  function LowBytes(b: seq<bv8>, at: nat, n: nat): Lane
    requires n <= 8 && at + n <= |b|
  {
    if n == 0 then 0 else OrByte(LowBytes(b, at, n - 1), b[at + n - 1], n - 1)
  }

  function LaneAt(b: seq<bv8>, at: nat): Lane
    requires at + 8 <= |b|
  {
    LowBytes(b, at, 8)
  }

  /** XOR the 17 lanes of a rate-sized block into the state. */
  function XorBlock(a: Lanes, block: seq<bv8>): Lanes
    requires |block| == RATE
  {
    seq(25, i requires 0 <= i < 25 => if i < 17 then Xor(a[i], LaneAt(block, 8 * i)) else a[i])
  }

  function Absorb(a: Lanes, p: seq<bv8>): Lanes
    requires |p| % RATE == 0
  {
    if p == [] then a
    else KeccakF(XorBlock(Absorb(a, p[..|p| - RATE]), p[|p| - RATE..]))
  }

  function ByteOfLane(x: Lane, j: nat): bv8
    requires j < 8
  {
    ((x >> (8 * j)) & 0xFF) as bv8
  }

  function Squeeze(a: Lanes): seq<bv8> {
    seq(32, i requires 0 <= i < 32 => ByteOfLane(a[i / 8], i % 8))
  }

  const ZERO_LANES: seq<Lane> := [0, 0, 0, 0, 0, 0, 0, 0, 0, 0, 0, 0, 0, 0, 0, 0, 0, 0, 0, 0, 0, 0, 0, 0, 0]

  function Keccak256(m: seq<bv8>): seq<bv8> {
    Squeeze(Absorb(ZERO_LANES, Pad(m)))
  }

  // ------------------------------------------------------------- properties

  /** The padding can be taken off again in one way only. */
  lemma PadInjective(a: seq<bv8>, b: seq<bv8>)
    requires Pad(a) == Pad(b)
    ensures a == b
  {
    if |a| < |b| {
      PadLengthsApart(a, b);
    } else if |b| < |a| {
      PadLengthsApart(b, a);
    }
    assert a == Pad(a)[..|a|] && b == Pad(b)[..|b|];
  }

  lemma PadLengthsApart(a: seq<bv8>, b: seq<bv8>)
    requires |a| < |b|
    ensures Pad(a) != Pad(b)
  {
    PadAt(a);
    PadAt(b);
    if |Pad(a)| == |Pad(b)| {
      var n := |Pad(a)|;
      assert |b| < n - 1 ==> Pad(b)[|b|] != Pad(a)[|b|];
      assert |b| == n - 1 ==> Pad(b)[n - 1] != Pad(a)[n - 1];
    }
  }

  lemma PadAt(m: seq<bv8>)
    ensures var p := Pad(m);
            && (|m| == |p| - 1 ==> p[|m|] == 0x81)
            && (|m| < |p| - 1 ==> p[|m|] == 0x01 && p[|p| - 1] == 0x80)
            && (forall i :: |m| < i < |p| - 1 ==> p[i] == 0x00)
  {
  }
}
