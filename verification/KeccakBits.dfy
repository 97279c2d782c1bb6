/**
 * Keccak-f[1600] as FIPS 202 writes it, on single bits A[x, y, z], and the
 * proof that the lane arithmetic computes it: no operation on words appears in
 * the definitions here, so each of them is held against the standard's.
 */
module KeccakBits {
  import opened KeccakSpec
  import opened Keccak

  // ------------------------------------------------- the standard, bit by bit

  /** The state array of section 3.1; `bv6` counts z modulo 64. */
  type Cube = (nat, nat, bv6) -> bool

  /** The parity of a column. */
  function Parity(c: Cube, x: nat, z: bv6): bool {
    c(x, 0, z) != (c(x, 1, z) != (c(x, 2, z) != (c(x, 3, z) != c(x, 4, z))))
  }

  /** Algorithm 1. */
  function ThetaCube(c: Cube): Cube {
    (x: nat, y: nat, z: bv6) => c(x, y, z) != (Parity(c, (x + 4) % 5, z) != Parity(c, (x + 1) % 5, z - 1))
  }

  /** A number of places along z. */
  function Place(n: nat): bv6
    requires n < 64
  {
    n as bv6
  }

  /** Algorithm 2; `Offset` is the table the walk of the algorithm produces. */
  function RhoCube(c: Cube): Cube {
    (x: nat, y: nat, z: bv6) => if x < 5 && y < 5 then c(x, y, z - Place(Offset(x + 5 * y))) else false
  }

  /** The column pi reads. */
  function Skewed(x: nat, y: nat): nat {
    (x + 3 * y) % 5
  }

  /** Algorithm 3. */
  function PiCube(c: Cube): Cube {
    (x: nat, y: nat, z: bv6) => c(Skewed(x, y), x, z)
  }

  /** Algorithm 4. */
  function ChiCube(c: Cube): Cube {
    (x: nat, y: nat, z: bv6) => c(x, y, z) != (!c((x + 1) % 5, y, z) && c((x + 2) % 5, y, z))
  }

  /** rc(t) of algorithm 5. */
  function Rc(t: nat): bool {
    Register(t) & 0x01 == 0x01
  }

  /** The bits of the round constant: rc(j + 7 * r) at place 2^j - 1. */
  function RcAt(r: nat, z: bv6): bool {
    if z == 0 then Rc(7 * r)
    else if z == 1 then Rc(7 * r + 1)
    else if z == 3 then Rc(7 * r + 2)
    else if z == 7 then Rc(7 * r + 3)
    else if z == 15 then Rc(7 * r + 4)
    else if z == 31 then Rc(7 * r + 5)
    else if z == 63 then Rc(7 * r + 6)
    else false
  }

  /** Algorithm 6. */
  function IotaCube(c: Cube, r: nat): Cube {
    (x: nat, y: nat, z: bv6) => c(x, y, z) != (x == 0 && y == 0 && RcAt(r, z))
  }

  /** The first n rounds of algorithm 7. */
  function RoundsCube(c: Cube, n: nat): Cube {
    if n == 0 then c
    else IotaCube(ChiCube(PiCube(RhoCube(ThetaCube(RoundsCube(c, n - 1))))), n - 1)
  }

  // ------------------------------------------------------------- the sponge

  /** Bits of a byte, lowest first, as appendix B.1 orders them. */
  function ByteBit(b: bv8, i: bv3): bool {
    (b >> (i as bv8)) & 1 != 0
  }

  /** The byte of a lane that bit z lies in, and its place there. */
  function ByteNo(z: bv6): (j: nat)
    ensures j < 8
  {
    if z < 8 then 0 else if z < 16 then 1 else if z < 24 then 2 else if z < 32 then 3
    else if z < 40 then 4 else if z < 48 then 5 else if z < 56 then 6 else 7
  }

  function BitNo(z: bv6): bv3 {
    (z & 7) as bv3
  }

  /** Bit i of byte j of a lane. */
  function Spot(j: nat, i: bv3): bv6
    requires j < 8
  {
    Place(8 * j) + (i as bv6)
  }

  /** Add a block to the first 1088 bits, taken in the order of section 3.1.2. */
  function XorCube(c: Cube, block: seq<bv8>): Cube
    requires |block| == RATE
  {
    (x: nat, y: nat, z: bv6) =>
      if x + 5 * y < 17 then c(x, y, z) != ByteBit(block[8 * (x + 5 * y) + ByteNo(z)], BitNo(z))
      else c(x, y, z)
  }

  /** The state after absorbing whole blocks, from the zero state. */
  function AbsorbCube(p: seq<bv8>): Cube
    requires |p| % RATE == 0
  {
    if p == [] then (x: nat, y: nat, z: bv6) => false
    else RoundsCube(XorCube(AbsorbCube(p[..|p| - RATE]), p[|p| - RATE..]), 24)
  }

  // ------------------------------------------------------- lanes show a cube

  function LaneBit(a: Lane, z: bv6): bool {
    (a >> (z as bv64)) & 1 != 0
  }

  /** Lane x + 5 * y holds A[x, y, 0] to A[x, y, 63], lowest bit first. */
  ghost predicate Shows(a: Lanes, c: Cube) {
    forall x: nat, y: nat, z: bv6 :: x < 5 && y < 5 ==> c(x, y, z) == LaneBit(a[x + 5 * y], z)
  }

  lemma Shown(a: Lanes, c: Cube, x: nat, y: nat, z: bv6)
    requires Shows(a, c) && x < 5 && y < 5
    ensures c(x, y, z) == LaneBit(a[x + 5 * y], z)
  {
  }

  lemma XorAt(a: bv64, b: bv64, z: bv6)
    ensures LaneBit(a ^ b, z) == (LaneBit(a, z) != LaneBit(b, z))
  {
  }

  lemma AndNotAt(a: bv64, b: bv64, z: bv6)
    ensures LaneBit((!a) & b, z) == (!LaneBit(a, z) && LaneBit(b, z))
  {
  }

  lemma OrAt(a: bv64, b: bv64, z: bv6)
    ensures LaneBit(a | b, z) == (LaneBit(a, z) || LaneBit(b, z))
  {
  }

  lemma XorBit(a: Lane, b: Lane, z: bv6)
    ensures LaneBit(Xor(a, b), z) == (LaneBit(a, z) != LaneBit(b, z))
  {
    hide LaneBit;
    XorAt(a, b, z);
  }

  lemma AndNotBit(a: Lane, b: Lane, z: bv6)
    ensures LaneBit(AndNot(a, b), z) == (!LaneBit(a, z) && LaneBit(b, z))
  {
    hide LaneBit;
    AndNotAt(a, b, z);
  }

  lemma OrBit(a: Lane, b: Lane, z: bv6)
    ensures LaneBit(Or(a, b), z) == (LaneBit(a, z) || LaneBit(b, z))
  {
    hide LaneBit;
    OrAt(a, b, z);
  }

  /** Rotating by n moves bit z - n to bit z. */
  predicate Moves(a: Lane, n: nat, z: bv6)
    requires 0 < n < 64
  {
    LaneBit(Rotl(a, Amount(n)), z) == LaneBit(a, z - Place(n))
  }

  // One lemma an offset: the solver settles a fixed rotation at once.
  lemma Moved1(a: Lane, z: bv6) ensures Moves(a, 1, z) { assert Amount(1) == 1 && Place(1) == 1; }
  lemma Moved2(a: Lane, z: bv6) ensures Moves(a, 2, z) { assert Amount(2) == 2 && Place(2) == 2; }
  lemma Moved3(a: Lane, z: bv6) ensures Moves(a, 3, z) { assert Amount(3) == 3 && Place(3) == 3; }
  lemma Moved6(a: Lane, z: bv6) ensures Moves(a, 6, z) { assert Amount(6) == 6 && Place(6) == 6; }
  lemma Moved8(a: Lane, z: bv6) ensures Moves(a, 8, z) { assert Amount(8) == 8 && Place(8) == 8; }
  lemma Moved10(a: Lane, z: bv6) ensures Moves(a, 10, z) { assert Amount(10) == 10 && Place(10) == 10; }
  lemma Moved14(a: Lane, z: bv6) ensures Moves(a, 14, z) { assert Amount(14) == 14 && Place(14) == 14; }
  lemma Moved15(a: Lane, z: bv6) ensures Moves(a, 15, z) { assert Amount(15) == 15 && Place(15) == 15; }
  lemma Moved18(a: Lane, z: bv6) ensures Moves(a, 18, z) { assert Amount(18) == 18 && Place(18) == 18; }
  lemma Moved20(a: Lane, z: bv6) ensures Moves(a, 20, z) { assert Amount(20) == 20 && Place(20) == 20; }
  lemma Moved21(a: Lane, z: bv6) ensures Moves(a, 21, z) { assert Amount(21) == 21 && Place(21) == 21; }
  lemma Moved25(a: Lane, z: bv6) ensures Moves(a, 25, z) { assert Amount(25) == 25 && Place(25) == 25; }
  lemma Moved27(a: Lane, z: bv6) ensures Moves(a, 27, z) { assert Amount(27) == 27 && Place(27) == 27; }
  lemma Moved28(a: Lane, z: bv6) ensures Moves(a, 28, z) { assert Amount(28) == 28 && Place(28) == 28; }
  lemma Moved36(a: Lane, z: bv6) ensures Moves(a, 36, z) { assert Amount(36) == 36 && Place(36) == 36; }
  lemma Moved39(a: Lane, z: bv6) ensures Moves(a, 39, z) { assert Amount(39) == 39 && Place(39) == 39; }
  lemma Moved41(a: Lane, z: bv6) ensures Moves(a, 41, z) { assert Amount(41) == 41 && Place(41) == 41; }
  lemma Moved43(a: Lane, z: bv6) ensures Moves(a, 43, z) { assert Amount(43) == 43 && Place(43) == 43; }
  lemma Moved44(a: Lane, z: bv6) ensures Moves(a, 44, z) { assert Amount(44) == 44 && Place(44) == 44; }
  lemma Moved45(a: Lane, z: bv6) ensures Moves(a, 45, z) { assert Amount(45) == 45 && Place(45) == 45; }
  lemma Moved55(a: Lane, z: bv6) ensures Moves(a, 55, z) { assert Amount(55) == 55 && Place(55) == 55; }
  lemma Moved56(a: Lane, z: bv6) ensures Moves(a, 56, z) { assert Amount(56) == 56 && Place(56) == 56; }
  lemma Moved61(a: Lane, z: bv6) ensures Moves(a, 61, z) { assert Amount(61) == 61 && Place(61) == 61; }
  lemma Moved62(a: Lane, z: bv6) ensures Moves(a, 62, z) { assert Amount(62) == 62 && Place(62) == 62; }

  lemma RotlBit(a: Lane, i: nat, z: bv6)
    requires 0 < i < 25
    ensures Moves(a, Offset(i), z)
  {
    hide Moves;
    match Offset(i) {
      case 1 => Moved1(a, z);
      case 2 => Moved2(a, z);
      case 3 => Moved3(a, z);
      case 6 => Moved6(a, z);
      case 8 => Moved8(a, z);
      case 10 => Moved10(a, z);
      case 14 => Moved14(a, z);
      case 15 => Moved15(a, z);
      case 18 => Moved18(a, z);
      case 20 => Moved20(a, z);
      case 21 => Moved21(a, z);
      case 25 => Moved25(a, z);
      case 27 => Moved27(a, z);
      case 28 => Moved28(a, z);
      case 36 => Moved36(a, z);
      case 39 => Moved39(a, z);
      case 41 => Moved41(a, z);
      case 43 => Moved43(a, z);
      case 44 => Moved44(a, z);
      case 45 => Moved45(a, z);
      case 55 => Moved55(a, z);
      case 56 => Moved56(a, z);
      case 61 => Moved61(a, z);
      case 62 => Moved62(a, z);
    }
  }

  lemma RotlOneBit(a: Lane, z: bv6)
    ensures LaneBit(Rotl(a, 1), z) == LaneBit(a, z - 1)
  {
  }

  lemma ColumnBit(a: Lanes, c: Cube, x: nat, z: bv6)
    requires Shows(a, c) && x < 5
    ensures LaneBit(Column(a, x), z) == Parity(c, x, z)
  {
    hide LaneBit, Xor;
    XorBit(a[x], a[x + 5], z);
    XorBit(Xor(a[x], a[x + 5]), a[x + 10], z);
    XorBit(Xor(Xor(a[x], a[x + 5]), a[x + 10]), a[x + 15], z);
    XorBit(Xor(Xor(Xor(a[x], a[x + 5]), a[x + 10]), a[x + 15]), a[x + 20], z);
    assert c(x, 0, z) == LaneBit(a[x + 5 * 0], z) && c(x, 1, z) == LaneBit(a[x + 5 * 1], z)
        && c(x, 2, z) == LaneBit(a[x + 5 * 2], z) && c(x, 3, z) == LaneBit(a[x + 5 * 3], z)
        && c(x, 4, z) == LaneBit(a[x + 5 * 4], z);
  }

  lemma LaneIndex(x: nat, y: nat)
    requires x < 5 && y < 5
    ensures x + 5 * y < 25 && (x + 5 * y) % 5 == x && (x + 5 * y) / 5 == y
  {
  }

  lemma ThetaShows(a: Lanes, c: Cube)
    requires Shows(a, c)
    ensures Shows(Theta(a), ThetaCube(c))
  {
    hide LaneBit, Theta, ThetaCube;
    forall x: nat, y: nat, z: bv6 | x < 5 && y < 5
      ensures ThetaCube(c)(x, y, z) == LaneBit(Theta(a)[x + 5 * y], z)
    {
      ThetaBit(a, c, x, y, z);
    }
  }

  lemma ThetaBit(a: Lanes, c: Cube, x: nat, y: nat, z: bv6)
    requires Shows(a, c) && x < 5 && y < 5
    ensures ThetaCube(c)(x, y, z) == LaneBit(Theta(a)[x + 5 * y], z)
  {
    hide LaneBit, Xor, Parity, Theta, Shows, ThetaEffect;
    ThetaAt(a, x, y);
    Shown(a, c, x, y, z);
    EffectBit(a, c, x, z);
    XorBit(a[x + 5 * y], ThetaEffect(a, x), z);
  }

  lemma EffectBit(a: Lanes, c: Cube, x: nat, z: bv6)
    requires Shows(a, c) && x < 5
    ensures LaneBit(ThetaEffect(a, x), z) == (Parity(c, (x + 4) % 5, z) != Parity(c, (x + 1) % 5, z - 1))
  {
    hide LaneBit, Xor, Rotl, Column, Parity, Shows;
    var left, right := Column(a, (x + 4) % 5), Column(a, (x + 1) % 5);
    ColumnBit(a, c, (x + 4) % 5, z);
    ColumnBit(a, c, (x + 1) % 5, z - 1);
    RotlOneBit(right, z);
    XorBit(left, Rotl(right, 1), z);
  }

  lemma ThetaAt(a: Lanes, x: nat, y: nat)
    requires x < 5 && y < 5
    ensures Theta(a)[x + 5 * y] == Xor(a[x + 5 * y], ThetaEffect(a, x))
  {
    hide Xor, ThetaEffect;
    LaneIndex(x, y);
  }

  lemma RhoShows(a: Lanes, c: Cube)
    requires Shows(a, c)
    ensures Shows(Rho(a), RhoCube(c))
  {
    hide LaneBit, Rotl, Amount, Offset, Place;
    forall x: nat, y: nat, z: bv6 | x < 5 && y < 5
      ensures RhoCube(c)(x, y, z) == LaneBit(Rho(a)[x + 5 * y], z)
    {
      var i := x + 5 * y;
      if i > 0 {
        RotlBit(a[i], i, z);
      } else {
        FirstLaneRests(z);
      }
    }
  }

  lemma FirstLaneRests(z: bv6)
    ensures z - Place(Offset(0)) == z
  {
    assert Place(0) == 0;
  }

  lemma PiAt(a: Lanes, x: nat, y: nat)
    requires x < 5 && y < 5
    ensures Skewed(x, y) < 5 && Pi(a)[x + 5 * y] == a[Skewed(x, y) + 5 * x]
  {
    LaneIndex(x, y);
  }

  lemma PiBit(a: Lanes, c: Cube, x: nat, y: nat, z: bv6)
    requires Shows(a, c) && x < 5 && y < 5
    ensures PiCube(c)(x, y, z) == LaneBit(Pi(a)[x + 5 * y], z)
  {
    hide LaneBit, Pi, Shows, Skewed;
    PiAt(a, x, y);
    Shown(a, c, Skewed(x, y), x, z);
  }

  lemma PiShows(a: Lanes, c: Cube)
    requires Shows(a, c)
    ensures Shows(Pi(a), PiCube(c))
  {
    hide LaneBit, Pi, PiCube;
    forall x: nat, y: nat, z: bv6 | x < 5 && y < 5
      ensures PiCube(c)(x, y, z) == LaneBit(Pi(a)[x + 5 * y], z)
    {
      PiBit(a, c, x, y, z);
    }
  }

  lemma ChiAt(a: Lanes, x: nat, y: nat)
    requires x < 5 && y < 5
    ensures Chi(a)[x + 5 * y] ==
            Xor(a[x + 5 * y], AndNot(a[(x + 1) % 5 + 5 * y], a[(x + 2) % 5 + 5 * y]))
  {
    hide Xor, AndNot, Chi;
    ChiLaneIs(a, 5 * y, x);
  }

  lemma ChiBit(a: Lanes, c: Cube, x: nat, y: nat, z: bv6)
    requires Shows(a, c) && x < 5 && y < 5
    ensures ChiCube(c)(x, y, z) == LaneBit(Chi(a)[x + 5 * y], z)
  {
    hide LaneBit, Chi, Xor, AndNot, Shows;
    ChiAt(a, x, y);
    var right, next := a[(x + 1) % 5 + 5 * y], a[(x + 2) % 5 + 5 * y];
    Shown(a, c, x, y, z);
    Shown(a, c, (x + 1) % 5, y, z);
    Shown(a, c, (x + 2) % 5, y, z);
    AndNotBit(right, next, z);
    XorBit(a[x + 5 * y], AndNot(right, next), z);
  }

  lemma ChiShows(a: Lanes, c: Cube)
    requires Shows(a, c)
    ensures Shows(Chi(a), ChiCube(c))
  {
    hide LaneBit, Chi, ChiCube;
    forall x: nat, y: nat, z: bv6 | x < 5 && y < 5
      ensures ChiCube(c)(x, y, z) == LaneBit(Chi(a)[x + 5 * y], z)
    {
      ChiBit(a, c, x, y, z);
    }
  }

  /** One bit of a mask. */
  lemma RcBitAt(register: bv8, z: bv6)
    ensures LaneBit(RcBit(register, 0x1), z) == (z == 0 && register & 0x01 == 0x01)
    ensures LaneBit(RcBit(register, 0x2), z) == (z == 1 && register & 0x01 == 0x01)
    ensures LaneBit(RcBit(register, 0x8), z) == (z == 3 && register & 0x01 == 0x01)
    ensures LaneBit(RcBit(register, 0x80), z) == (z == 7 && register & 0x01 == 0x01)
    ensures LaneBit(RcBit(register, 0x8000), z) == (z == 15 && register & 0x01 == 0x01)
    ensures LaneBit(RcBit(register, 0x8000_0000), z) == (z == 31 && register & 0x01 == 0x01)
    ensures LaneBit(RcBit(register, 0x8000_0000_0000_0000), z) == (z == 63 && register & 0x01 == 0x01)
  {
  }

  lemma OrBits(a: Lane, b: Lane, c: Lane, d: Lane, e: Lane, f: Lane, g: Lane, z: bv6)
    ensures LaneBit(Or7(a, b, c, d, e, f, g), z) ==
            (LaneBit(a, z) || LaneBit(b, z) || LaneBit(c, z) || LaneBit(d, z)
             || LaneBit(e, z) || LaneBit(f, z) || LaneBit(g, z))
  {
    hide LaneBit, Or;
    OrBit(a, b, z);
    OrBit(Or(a, b), c, z);
    OrBit(d, e, z);
    OrBit(f, g, z);
    OrBit(Or(d, e), Or(f, g), z);
    OrBit(Or(Or(a, b), c), Or(Or(d, e), Or(f, g)), z);
  }

  lemma RoundConstantBit(r: nat, z: bv6)
    ensures LaneBit(RoundConstant(r), z) == RcAt(r, z)
  {
    hide LaneBit, RcBit, Register, Or7;
    RcBitAt(Register(7 * r), z);
    RcBitAt(Register(7 * r + 1), z);
    RcBitAt(Register(7 * r + 2), z);
    RcBitAt(Register(7 * r + 3), z);
    RcBitAt(Register(7 * r + 4), z);
    RcBitAt(Register(7 * r + 5), z);
    RcBitAt(Register(7 * r + 6), z);
    OrBits(RcBit(Register(7 * r), 0x1), RcBit(Register(7 * r + 1), 0x2), RcBit(Register(7 * r + 2), 0x8),
           RcBit(Register(7 * r + 3), 0x80), RcBit(Register(7 * r + 4), 0x8000),
           RcBit(Register(7 * r + 5), 0x8000_0000), RcBit(Register(7 * r + 6), 0x8000_0000_0000_0000), z);
  }

  lemma IotaShows(a: Lanes, c: Cube, r: nat)
    requires Shows(a, c) && r < 24
    ensures Shows(Iota(a, r), IotaCube(c, r))
  {
    hide LaneBit, Xor, RoundConstant, RcAt;
    forall x: nat, y: nat, z: bv6 | x < 5 && y < 5
      ensures IotaCube(c, r)(x, y, z) == LaneBit(Iota(a, r)[x + 5 * y], z)
    {
      RoundConstantBit(r, z);
      XorBit(a[0], RoundConstant(r), z);
    }
  }

  /** The rounds on lanes are the rounds on bits, from every state. */
  lemma {:induction false} RoundsShow(a: Lanes, c: Cube, n: nat)
    requires Shows(a, c) && n <= 24
    ensures Shows(Rounds(a, n), RoundsCube(c, n))
  {
    hide Theta, Rho, Pi, Chi, Iota, ThetaCube, RhoCube, PiCube, ChiCube, IotaCube, Shows;
    if n > 0 {
      RoundsShow(a, c, n - 1);
      var a0, c0 := Rounds(a, n - 1), RoundsCube(c, n - 1);
      ThetaShows(a0, c0);
      RhoShows(Theta(a0), ThetaCube(c0));
      PiShows(Rho(Theta(a0)), RhoCube(ThetaCube(c0)));
      ChiShows(Pi(Rho(Theta(a0))), PiCube(RhoCube(ThetaCube(c0))));
      IotaShows(Chi(Pi(Rho(Theta(a0)))), ChiCube(PiCube(RhoCube(ThetaCube(c0)))), n - 1);
    }
  }

  // ---------------------------------------------------- bytes in and out

  predicate ByteGoesTo(b: bv8, k: nat, z: bv6)
    requires k < 8
  {
    LaneBit((b as bv64) << (8 * k), z) == (ByteNo(z) == k && ByteBit(b, BitNo(z)))
  }

  lemma Goes0(b: bv8, z: bv6) ensures ByteGoesTo(b, 0, z) {}
  lemma Goes1(b: bv8, z: bv6) ensures ByteGoesTo(b, 1, z) {}
  lemma Goes2(b: bv8, z: bv6) ensures ByteGoesTo(b, 2, z) {}
  lemma Goes3(b: bv8, z: bv6) ensures ByteGoesTo(b, 3, z) {}
  lemma Goes4(b: bv8, z: bv6) ensures ByteGoesTo(b, 4, z) {}
  lemma Goes5(b: bv8, z: bv6) ensures ByteGoesTo(b, 5, z) {}
  lemma Goes6(b: bv8, z: bv6) ensures ByteGoesTo(b, 6, z) {}
  lemma Goes7(b: bv8, z: bv6) ensures ByteGoesTo(b, 7, z) {}

  lemma GoesTo(b: bv8, k: nat, z: bv6)
    requires k < 8
    ensures ByteGoesTo(b, k, z)
  {
    hide ByteGoesTo;
    match k {
      case 0 => Goes0(b, z);
      case 1 => Goes1(b, z);
      case 2 => Goes2(b, z);
      case 3 => Goes3(b, z);
      case 4 => Goes4(b, z);
      case 5 => Goes5(b, z);
      case 6 => Goes6(b, z);
      case 7 => Goes7(b, z);
    }
  }

  lemma OrByteBit(x: Lane, b: bv8, k: nat, z: bv6)
    requires k < 8
    ensures LaneBit(OrByte(x, b, k), z) == (LaneBit(x, z) || (ByteNo(z) == k && ByteBit(b, BitNo(z))))
  {
    hide LaneBit, ByteNo, ByteBit, BitNo;
    GoesTo(b, k, z);
    OrAt(x, (b as bv64) << (8 * k), z);
  }

  lemma ZeroBit(z: bv6)
    ensures !LaneBit(0, z)
  {
  }

  lemma {:induction false} LowBytesBit(b: seq<bv8>, at: nat, n: nat, z: bv6)
    requires n <= 8 && at + n <= |b|
    ensures LaneBit(LowBytes(b, at, n), z) == (ByteNo(z) < n && ByteBit(b[at + ByteNo(z)], BitNo(z)))
  {
    hide LaneBit, ByteNo, ByteBit, BitNo, OrByte;
    if n == 0 {
      ZeroBit(z);
    } else {
      LowBytesBit(b, at, n - 1, z);
      OrByteBit(LowBytes(b, at, n - 1), b[at + n - 1], n - 1, z);
    }
  }

  /** Byte j of a loaded lane is the j-th byte of the input. */
  lemma LoadedBit(b: seq<bv8>, at: nat, z: bv6)
    requires at + 8 <= |b|
    ensures LaneBit(LaneAt(b, at), z) == ByteBit(b[at + ByteNo(z)], BitNo(z))
  {
    hide LaneBit, ByteNo, ByteBit, BitNo, LowBytes;
    LowBytesBit(b, at, 8, z);
  }

  predicate ByteComesFrom(x: Lane, k: nat, i: bv3)
    requires k < 8
  {
    ByteBit(ByteOfLane(x, k), i) == LaneBit(x, Spot(k, i))
  }

  lemma Comes0(x: Lane, i: bv3) ensures ByteComesFrom(x, 0, i) { assert Place(0) == 0; }
  lemma Comes1(x: Lane, i: bv3) ensures ByteComesFrom(x, 1, i) { assert Place(8) == 8; }
  lemma Comes2(x: Lane, i: bv3) ensures ByteComesFrom(x, 2, i) { assert Place(16) == 16; }
  lemma Comes3(x: Lane, i: bv3) ensures ByteComesFrom(x, 3, i) { assert Place(24) == 24; }
  lemma Comes4(x: Lane, i: bv3) ensures ByteComesFrom(x, 4, i) { assert Place(32) == 32; }
  lemma Comes5(x: Lane, i: bv3) ensures ByteComesFrom(x, 5, i) { assert Place(40) == 40; }
  lemma Comes6(x: Lane, i: bv3) ensures ByteComesFrom(x, 6, i) { assert Place(48) == 48; }
  lemma Comes7(x: Lane, i: bv3) ensures ByteComesFrom(x, 7, i) { assert Place(56) == 56; }

  /** Byte k of a squeezed lane is its bits 8 * k to 8 * k + 7. */
  lemma SqueezedBit(x: Lane, k: nat, i: bv3)
    requires k < 8
    ensures ByteComesFrom(x, k, i)
  {
    hide ByteComesFrom;
    match k {
      case 0 => Comes0(x, i);
      case 1 => Comes1(x, i);
      case 2 => Comes2(x, i);
      case 3 => Comes3(x, i);
      case 4 => Comes4(x, i);
      case 5 => Comes5(x, i);
      case 6 => Comes6(x, i);
      case 7 => Comes7(x, i);
    }
  }

  lemma XorBlockShows(a: Lanes, c: Cube, block: seq<bv8>)
    requires Shows(a, c) && |block| == RATE
    ensures Shows(XorBlock(a, block), XorCube(c, block))
  {
    hide LaneBit, Xor, LaneAt, ByteNo, ByteBit, BitNo;
    forall x: nat, y: nat, z: bv6 | x < 5 && y < 5
      ensures XorCube(c, block)(x, y, z) == LaneBit(XorBlock(a, block)[x + 5 * y], z)
    {
      var i := x + 5 * y;
      if i < 17 {
        LoadedBit(block, 8 * i, z);
        XorBit(a[i], LaneAt(block, 8 * i), z);
      }
    }
  }

  lemma ZeroShows()
    ensures Shows(ZERO_LANES, AbsorbCube([]))
  {
    hide LaneBit;
    forall x: nat, y: nat, z: bv6 | x < 5 && y < 5
      ensures AbsorbCube([])(x, y, z) == LaneBit(ZERO_LANES[x + 5 * y], z)
    {
      ZeroLane(x + 5 * y);
      ZeroBit(z);
    }
  }

  lemma ZeroLane(i: nat)
    requires i < 25
    ensures ZERO_LANES[i] == 0
  {
  }

  lemma {:induction false} AbsorbShows(p: seq<bv8>)
    requires |p| % RATE == 0
    ensures Shows(Absorb(ZERO_LANES, p), AbsorbCube(p))
  {
    hide Rounds, RoundsCube, XorBlock, XorCube, Shows;
    if p == [] {
      ZeroShows();
    } else {
      var init, block := p[..|p| - RATE], p[|p| - RATE..];
      AbsorbShows(init);
      var a, c := Absorb(ZERO_LANES, init), AbsorbCube(init);
      XorBlockShows(a, c, block);
      RoundsShow(XorBlock(a, block), XorCube(c, block), 24);
    }
  }

  /** pad10*1 on bits: the message, a one, zeros, and a one that ends a block of 1088 bits. */
  lemma PadBits(m: seq<bv8>, n: nat, i: bv3)
    requires n < |Pad(m)|
    ensures |Pad(m)| % 136 == 0 && |m| < |Pad(m)| <= |m| + 136
    ensures ByteBit(Pad(m)[n], i) ==
            if n < |m| then ByteBit(m[n], i)
            else (n == |m| && i == 0) || (n == |Pad(m)| - 1 && i == 7)
  {
    hide ByteBit, Pad;
    PadAt(m);
    PaddingBits(i);
    assert n < |m| ==> Pad(m)[n] == Pad(m)[..|m|][n];
  }

  lemma PaddingBits(i: bv3)
    ensures ByteBit(0x01, i) == (i == 0) && ByteBit(0x80, i) == (i == 7)
    ensures ByteBit(0x81, i) == (i == 0 || i == 7) && !ByteBit(0x00, i)
  {
  }

  /**
   * Every bit of the hash is the standard's: output byte n is bits 8 * (n mod 8)
   * and up of A[n / 8, 0] after absorbing the padded message.
   */
  lemma HashBits(m: seq<bv8>, n: nat, i: bv3)
    requires n < 32
    ensures ByteBit(Keccak256(m)[n], i) == AbsorbCube(Pad(m))(n / 8, 0, Spot(n % 8, i))
  {
    hide ByteBit, LaneBit, ByteOfLane, Absorb, AbsorbCube, Pad, Spot, Shows;
    var a := Absorb(ZERO_LANES, Pad(m));
    AbsorbShows(Pad(m));
    Shown(a, AbsorbCube(Pad(m)), n / 8, 0, Spot(n % 8, i));
    SqueezedBit(a[n / 8], n % 8, i);
  }
}
