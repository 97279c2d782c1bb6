/** The in-place permutation and the hash of external/tiny-keccak/keccak.cpp. */
module Keccak {
  import opened KeccakSpec

  const ROTC: seq<nat> := [
    1, 3, 6, 10, 15, 21, 28, 36, 45, 55, 2, 14,
    27, 41, 56, 8, 25, 43, 62, 18, 39, 61, 20, 44]

  const PILN: seq<nat> := [
    10, 7, 11, 17, 18, 3, 5, 16, 8, 21, 24, 4,
    15, 23, 19, 13, 12, 2, 20, 14, 22, 9, 6, 1]

  const RNDC: seq<Lane> := [
    0x0000000000000001, 0x0000000000008082, 0x800000000000808a, 0x8000000080008000,
    0x000000000000808b, 0x0000000080000001, 0x8000000080008081, 0x8000000000008009,
    0x000000000000008a, 0x0000000000000088, 0x0000000080008009, 0x000000008000000a,
    0x000000008000808b, 0x800000000000008b, 0x8000000000008089, 0x8000000000008003,
    0x8000000000008002, 0x8000000000000080, 0x000000000000800a, 0x800000008000000a,
    0x8000000080008081, 0x8000000000008080, 0x0000000080000001, 0x8000000080008008]

  // ---------------------------------------------------- the round constants

  /** The register seven steps on. */
  function Seven(s: bv8): bv8 {
    Advance(Advance(Advance(Advance(Advance(Advance(Advance(s)))))))
  }

  /** The constant of the round that starts with register `s`. */
  function ConstantFrom(s: bv8): Lane {
    var s1 := Advance(s);
    var s2 := Advance(s1);
    var s3 := Advance(s2);
    var s4 := Advance(s3);
    var s5 := Advance(s4);
    var s6 := Advance(s5);
    Or7(RcBit(s, 0x1), RcBit(s1, 0x2), RcBit(s2, 0x8), RcBit(s3, 0x80),
        RcBit(s4, 0x8000), RcBit(s5, 0x8000_0000), RcBit(s6, 0x8000_0000_0000_0000))
  }

  lemma RegisterMoves(t: nat)
    ensures Register(t + 1) == Advance(Register(t))
  {
  }

  lemma RegisterRound(r: nat)
    ensures Register(7 * r + 7) == Seven(Register(7 * r))
    ensures RoundConstant(r) == ConstantFrom(Register(7 * r))
  {
    hide Advance, Register, RcBit, Or7;
    RegisterMoves(7 * r);
    RegisterMoves(7 * r + 1);
    RegisterMoves(7 * r + 2);
    RegisterMoves(7 * r + 3);
    RegisterMoves(7 * r + 4);
    RegisterMoves(7 * r + 5);
    RegisterMoves(7 * r + 6);
  }

  /** The register at the start of every round. */
  lemma RegistersAre()
    ensures Register(0) == 0x01
    ensures Register(7) == 0x80
    ensures Register(14) == 0xd8
    ensures Register(21) == 0x1a
    ensures Register(28) == 0xdf
    ensures Register(35) == 0x09
    ensures Register(42) == 0x35
    ensures Register(49) == 0x4f
    ensures Register(56) == 0xca
    ensures Register(63) == 0x70
    ensures Register(70) == 0x41
    ensures Register(77) == 0xec
    ensures Register(84) == 0xd5
    ensures Register(91) == 0xcd
    ensures Register(98) == 0x63
    ensures Register(105) == 0xab
    ensures Register(112) == 0xaa
    ensures Register(119) == 0x2a
    ensures Register(126) == 0xf2
    ensures Register(133) == 0xe8
    ensures Register(140) == 0x37
    ensures Register(147) == 0x3e
    ensures Register(154) == 0x0b
    ensures Register(161) == 0x44
  {
    hide Register, Advance, Seven, RoundConstant, ConstantFrom;
    RegisterStarts();
    RegisterRound(0);
    RegisterRound(1);
    RegisterRound(2);
    RegisterRound(3);
    RegisterRound(4);
    RegisterRound(5);
    RegisterRound(6);
    RegisterRound(7);
    RegisterRound(8);
    RegisterRound(9);
    RegisterRound(10);
    RegisterRound(11);
    RegisterRound(12);
    RegisterRound(13);
    RegisterRound(14);
    RegisterRound(15);
    RegisterRound(16);
    RegisterRound(17);
    RegisterRound(18);
    RegisterRound(19);
    RegisterRound(20);
    RegisterRound(21);
    RegisterRound(22);
    SevenSteps();
  }

  lemma SevenSteps()
    ensures Seven(0x01) == 0x80
    ensures Seven(0x80) == 0xd8
    ensures Seven(0xd8) == 0x1a
    ensures Seven(0x1a) == 0xdf
    ensures Seven(0xdf) == 0x09
    ensures Seven(0x09) == 0x35
    ensures Seven(0x35) == 0x4f
    ensures Seven(0x4f) == 0xca
    ensures Seven(0xca) == 0x70
    ensures Seven(0x70) == 0x41
    ensures Seven(0x41) == 0xec
    ensures Seven(0xec) == 0xd5
    ensures Seven(0xd5) == 0xcd
    ensures Seven(0xcd) == 0x63
    ensures Seven(0x63) == 0xab
    ensures Seven(0xab) == 0xaa
    ensures Seven(0xaa) == 0x2a
    ensures Seven(0x2a) == 0xf2
    ensures Seven(0xf2) == 0xe8
    ensures Seven(0xe8) == 0x37
    ensures Seven(0x37) == 0x3e
    ensures Seven(0x3e) == 0x0b
    ensures Seven(0x0b) == 0x44
  {
  }

  lemma RegisterStarts()
    ensures Register(0) == 0x01
  {
  }

  /** The table of round constants is the standard's. */
  lemma ConstantsFollowTheStandard(r: nat)
    requires r < 24
    ensures RNDC[r] == RoundConstant(r)
  {
    hide Register, ConstantFrom, RoundConstant, Advance;
    RegistersAre();
    RegisterRound(r);
    FirstConstants();
    LastConstants();
  }

  lemma FirstConstants()
    ensures ConstantFrom(0x01) == 0x0000000000000001
    ensures ConstantFrom(0x80) == 0x0000000000008082
    ensures ConstantFrom(0xd8) == 0x800000000000808a
    ensures ConstantFrom(0x1a) == 0x8000000080008000
    ensures ConstantFrom(0xdf) == 0x000000000000808b
    ensures ConstantFrom(0x09) == 0x0000000080000001
    ensures ConstantFrom(0x35) == 0x8000000080008081
    ensures ConstantFrom(0x4f) == 0x8000000000008009
    ensures ConstantFrom(0xca) == 0x000000000000008a
    ensures ConstantFrom(0x70) == 0x0000000000000088
    ensures ConstantFrom(0x41) == 0x0000000080008009
    ensures ConstantFrom(0xec) == 0x000000008000000a
  {
  }

  lemma LastConstants()
    ensures ConstantFrom(0xd5) == 0x000000008000808b
    ensures ConstantFrom(0xcd) == 0x800000000000008b
    ensures ConstantFrom(0x63) == 0x8000000000008089
    ensures ConstantFrom(0xab) == 0x8000000000008003
    ensures ConstantFrom(0xaa) == 0x8000000000008002
    ensures ConstantFrom(0x2a) == 0x8000000000000080
    ensures ConstantFrom(0xf2) == 0x000000000000800a
    ensures ConstantFrom(0xe8) == 0x800000008000000a
    ensures ConstantFrom(0x37) == 0x8000000080008081
    ensures ConstantFrom(0x3e) == 0x8000000000008080
    ensures ConstantFrom(0x0b) == 0x0000000080000001
    ensures ConstantFrom(0x44) == 0x8000000080008008
  {
  }

  // ------------------------------------------------------ the rho and pi walk

  /** The lane written in step k. */
  function Target(k: nat): (d: nat)
    requires k < 24
    ensures 0 < d < 25
  {
    PILN[k]
  }

  /** The lane whose old value is written in step k. */
  function Source(k: nat): (s: nat)
    requires k < 24
    ensures 0 < s < 25
  {
    if k == 0 then 1 else Target(k - 1)
  }

  function Turn(k: nat): (y: nat)
    requires k < 24
    ensures 0 < y < 64
  {
    ROTC[k]
  }

  lemma WalkFollowsPi(k: nat)
    requires k < 24
    ensures PiSource(Target(k)) == Source(k)
  {
  }

  lemma WalkTurnsByRho(k: nat)
    requires k < 24
    ensures Offset(Source(k)) == Turn(k)
  {
  }

  lemma WalkNeverReturns(j: nat, k: nat)
    requires j < k < 24
    ensures Target(j) != Target(k)
  {
  }

  /** The step that writes lane d; the walk visits each of lanes 1 to 24 once. */
  lemma WalkReaches(d: nat) returns (k: nat)
    requires 0 < d < 25
    ensures k < 24 && Target(k) == d
  {
    k := [23, 17, 5, 11, 6, 22, 1, 8, 21, 0, 2, 16, 15, 19, 12, 7, 3, 4, 14, 18, 9, 20, 13, 10][d - 1];
  }

  /** The simultaneous map, lane by lane in the order of the walk. */
  lemma RhoPiAt(a: Lanes, d: nat) returns (k: nat)
    requires d < 25
    ensures d == 0 ==> Pi(Rho(a))[d] == a[0]
    ensures d > 0 ==> k < 24 && Target(k) == d
                      && Pi(Rho(a))[d] == Rotl(a[Source(k)], Amount(Turn(k)))
  {
    hide Rotl, Amount, Target, Turn, Offset;
    if d == 0 {
      k := 0;
    } else {
      k := WalkReaches(d);
      WalkFollowsPi(k);
      WalkTurnsByRho(k);
    }
  }

  /** No step before i writes lane d. */
  ghost predicate Untouched(i: nat, d: nat)
    requires i <= 24
  {
    forall k :: 0 <= k < i ==> Target(k) != d
  }

  lemma UntouchedNext(i: nat)
    requires i < 24
    ensures Untouched(i, Target(i))
    ensures forall d :: Untouched(i + 1, d) ==> Untouched(i, d) && d != Target(i)
    ensures forall k :: 0 <= k < i ==> Target(k) != Target(i)
  {
    hide Target;
    forall k | 0 <= k < i ensures Target(k) != Target(i) {
      WalkNeverReturns(k, i);
    }
  }

  lemma WalkDone(a: Lanes, s: Lanes)
    requires forall k :: 0 <= k < 24 ==> s[Target(k)] == Rotl(a[Source(k)], Amount(Turn(k)))
    requires s[0] == a[0]
    ensures s == Pi(Rho(a))
  {
    hide Rotl, Amount, Target, Turn, Pi, Rho;
    forall d | 0 <= d < 25 ensures s[d] == Pi(Rho(a))[d] {
      var k := RhoPiAt(a, d);
    }
  }

  /**
   * Although it works in place through a single saved lane, the loop computes
   * pi after rho.
   */
  method RhoPi(st: array<Lane>)
    requires st.Length == 25
    modifies st
    ensures st[..] == Pi(Rho(old(st[..])))
  {
    hide Rotl, Amount, Target, Turn, Pi, Rho, Untouched;
    ghost var a := st[..];
    var t := st[1];
    for i := 0 to 24
      invariant i < 24 ==> t == a[Source(i)]
      invariant forall k :: 0 <= k < i ==> st[Target(k)] == Rotl(a[Source(k)], Amount(Turn(k)))
      invariant st[0] == a[0] && forall d :: 0 <= d < 25 && Untouched(i, d) ==> st[d] == a[d]
    {
      UntouchedNext(i);
      var j := Target(i);
      var bc0 := st[j];
      st[j] := Rotl(t, Amount(Turn(i)));
      t := bc0;
    }
    WalkDone(a, st[..]);
  }

  // --------------------------------------------------------- theta, chi, iota

  method ColumnParities(st: array<Lane>) returns (bc: seq<Lane>)
    requires st.Length == 25
    ensures |bc| == 5 && forall x :: 0 <= x < 5 ==> bc[x] == Column(st[..], x)
  {
    hide Xor;
    bc := [0, 0, 0, 0, 0];
    for i := 0 to 5
      invariant |bc| == 5 && forall x :: 0 <= x < i ==> bc[x] == Column(st[..], x)
    {
      bc := bc[i := Xor(Xor(Xor(Xor(st[i], st[i + 5]), st[i + 10]), st[i + 15]), st[i + 20])];
    }
  }

  /** The inner loop of theta: one column. */
  method XorColumn(st: array<Lane>, i: nat, t: Lane)
    requires st.Length == 25 && i < 5
    modifies st
    ensures forall k :: 0 <= k < 25 ==> st[k] == if k % 5 == i then Xor(old(st[k]), t) else old(st[k])
  {
    hide Xor;
    var j := 0;
    while j < 25
      invariant 0 <= j <= 25 && j % 5 == 0
      invariant forall k :: 0 <= k < 25 ==>
        st[k] == if k % 5 == i && k < j then Xor(old(st[k]), t) else old(st[k])
    {
      assert (j + i) % 5 == i;
      st[j + i] := Xor(st[j + i], t);
      j := j + 5;
    }
  }

  method ThetaInPlace(st: array<Lane>)
    requires st.Length == 25
    modifies st
    ensures st[..] == Theta(old(st[..]))
  {
    hide Xor, Rotl, Column;
    ghost var a := st[..];
    var bc := ColumnParities(st);
    for i := 0 to 5
      invariant forall k :: 0 <= k < 25 ==> st[k] == if k % 5 < i then Xor(a[k], ThetaEffect(a, k % 5)) else a[k]
    {
      var t := Xor(bc[(i + 4) % 5], Rotl(bc[(i + 1) % 5], 1));
      assert t == ThetaEffect(a, i);
      XorColumn(st, i, t);
    }
  }

  /** Lane i of chi within the row that starts at lane j. */
  function ChiLane(a: Lanes, j: nat, i: nat): Lane
    requires i < 5 && j <= 20
  {
    Xor(a[j + i], AndNot(a[j + (i + 1) % 5], a[j + (i + 2) % 5]))
  }

  lemma ChiLaneIs(a: Lanes, j: nat, i: nat)
    requires i < 5 && j <= 20 && j % 5 == 0
    ensures Chi(a)[j + i] == ChiLane(a, j, i)
  {
    hide Xor, AndNot;
    assert (j + i) / 5 * 5 == j && (j + i) % 5 == i;
  }

  /** Chi of a lane needs only its row. */
  lemma ChiLaneOfRow(a: Lanes, j: nat, i: nat, row: seq<Lane>)
    requires i < 5 && j <= 20 && row == a[j..j + 5]
    ensures Xor(row[i], AndNot(row[(i + 1) % 5], row[(i + 2) % 5])) == ChiLane(a, j, i)
  {
    hide Xor, AndNot;
  }

  method ChiRow(st: array<Lane>, j: nat)
    requires st.Length == 25 && j <= 20
    modifies st
    ensures forall k :: 0 <= k < 25 ==>
              st[k] == if j <= k < j + 5 then ChiLane(old(st[..]), j, k - j) else old(st[k])
  {
    hide Xor, AndNot, ChiLane;
    var bc: seq<Lane> := [0, 0, 0, 0, 0];
    for i := 0 to 5
      invariant |bc| == 5 && forall x :: 0 <= x < i ==> bc[x] == old(st[j + x])
      invariant st[..] == old(st[..])
    {
      bc := bc[i := st[j + i]];
    }
    assert bc == old(st[..])[j..j + 5];
    for i := 0 to 5
      invariant forall k :: 0 <= k < 25 ==>
        st[k] == if j <= k < j + i then ChiLane(old(st[..]), j, k - j) else old(st[k])
    {
      ChiLaneOfRow(old(st[..]), j, i, bc);
      st[j + i] := Xor(st[j + i], AndNot(bc[(i + 1) % 5], bc[(i + 2) % 5]));
    }
  }

  lemma ChiLaneFrame(a: Lanes, b: Lanes, j: nat, i: nat)
    requires i < 5 && j <= 20 && j % 5 == 0 && a[j..j + 5] == b[j..j + 5]
    ensures ChiLane(b, j, i) == Chi(a)[j + i]
  {
    hide Xor, AndNot, ChiLane, Chi;
    ChiLaneOfRow(a, j, i, a[j..j + 5]);
    ChiLaneOfRow(b, j, i, b[j..j + 5]);
    ChiLaneIs(a, j, i);
  }

  method ChiInPlace(st: array<Lane>)
    requires st.Length == 25
    modifies st
    ensures st[..] == Chi(old(st[..]))
  {
    hide Chi, Xor, AndNot, ChiLane;
    ghost var a := st[..];
    var j := 0;
    while j < 25
      invariant 0 <= j <= 25 && j % 5 == 0
      invariant forall k :: 0 <= k < 25 ==> st[k] == if k < j then Chi(a)[k] else a[k]
    {
      ghost var before := st[..];
      assert a[j..j + 5] == before[j..j + 5];
      ChiRow(st, j);
      forall k | j <= k < j + 5 ensures st[k] == Chi(a)[k] {
        ChiLaneFrame(a, before, j, k - j);
      }
      j := j + 5;
    }
  }

  method Permute(st: array<Lane>)
    requires st.Length == 25
    modifies st
    ensures st[..] == KeccakF(old(st[..]))
  {
    hide Theta, Rho, Pi, Chi, Xor, RoundConstant;
    ghost var a := st[..];
    for r := 0 to 24
      invariant st[..] == Rounds(a, r)
    {
      ThetaInPlace(st);
      RhoPi(st);
      ChiInPlace(st);
      ghost var before := st[..];
      ConstantsFollowTheStandard(r);
      st[0] := Xor(st[0], RNDC[r]);
      assert st[..] == Iota(before, r);
    }
  }

  // ------------------------------------------------------------------ sponge

  /** Read eight bytes as a little-endian lane. */
  method LoadLane(b: seq<bv8>, at: nat) returns (t: Lane)
    requires at + 8 <= |b|
    ensures t == LaneAt(b, at)
  {
    hide OrByte;
    t := 0;
    for j := 0 to 8
      invariant t == LowBytes(b, at, j)
    {
      t := OrByte(t, b[at + j], j);
    }
  }

  method XorIn(st: array<Lane>, block: seq<bv8>)
    requires st.Length == 25 && |block| == RATE
    modifies st
    ensures st[..] == XorBlock(old(st[..]), block)
  {
    hide Xor, LaneAt;
    for i := 0 to 17
      invariant forall k :: 0 <= k < 25 ==>
        st[k] == if k < i then Xor(old(st[k]), LaneAt(block, 8 * k)) else old(st[k])
    {
      var t := LoadLane(block, 8 * i);
      st[i] := Xor(st[i], t);
    }
  }

  /** The last block: the rest of the input, then the padding, built in a zeroed buffer. */
  method LastBlock(rest: seq<bv8>) returns (block: seq<bv8>)
    requires |rest| < RATE
    ensures block == rest + Padding(RATE - |rest|)
  {
    var temp := new bv8[144](_ => 0);
    for i := 0 to |rest|
      invariant forall k :: 0 <= k < 144 ==> temp[k] == if k < i then rest[k] else 0
    {
      temp[i] := rest[i];
    }
    temp[|rest|] := 0x01;
    temp[RATE - 1] := temp[RATE - 1] | 0x80;
    block := temp[..RATE];
  }

  lemma AbsorbBlock(p: seq<bv8>, block: seq<bv8>)
    requires |p| % RATE == 0 && |block| == RATE
    ensures |p + block| % RATE == 0
    ensures Absorb(ZERO_LANES, p + block) == KeccakF(XorBlock(Absorb(ZERO_LANES, p), block))
  {
    hide KeccakF, XorBlock;
    assert (p + block)[..|p + block| - RATE] == p && (p + block)[|p + block| - RATE..] == block;
  }

  /** The whole hash, for every input length. */
  method Hash256(input: seq<bv8>, output: array<bv8>)
    requires output.Length == 32
    modifies output
    ensures output[..] == Keccak256(input)
  {
    hide KeccakF, XorBlock, Absorb, Padding, ByteOfLane;
    var st := new Lane[25](_ => 0);
    AbsorbNothing();
    assert st[..] == ZERO_LANES;
    var pos, inlen := 0, |input|;
    assert input[..0] == [];
    while inlen >= RATE
      invariant inlen == |input| - pos && 0 <= pos <= |input| && pos % RATE == 0
      invariant st[..] == Absorb(ZERO_LANES, input[..pos])
    {
      var block := input[pos..pos + RATE];
      assert input[..pos + RATE] == input[..pos] + block;
      AbsorbBlock(input[..pos], block);
      XorIn(st, block);
      Permute(st);
      pos := pos + RATE;
      inlen := inlen - RATE;
    }
    var last := LastBlock(input[pos..]);
    assert |input| % RATE == inlen;
    assert Pad(input) == input[..pos] + last;
    AbsorbBlock(input[..pos], last);
    XorIn(st, last);
    Permute(st);
    ghost var done := st[..];
    for i := 0 to 4
      invariant st[..] == done
      invariant forall k :: 0 <= k < 8 * i ==> output[k] == ByteOfLane(st[k / 8], k % 8)
    {
      for j := 0 to 8
        invariant st[..] == done
        invariant forall k :: 0 <= k < 8 * i + j ==> output[k] == ByteOfLane(st[k / 8], k % 8)
      {
        assert (8 * i + j) / 8 == i && (8 * i + j) % 8 == j;
        output[8 * i + j] := ByteOfLane(st[i], j);
      }
    }
  }

  lemma AbsorbNothing()
    ensures Absorb(ZERO_LANES, []) == ZERO_LANES
  {
  }
}
