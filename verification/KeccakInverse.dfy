/** The rho and pi step can be undone, and its offsets are those of the standard's walk. */
module KeccakInverse {
  import opened Arithmetic
  import opened KeccakSpec
  import opened Keccak

  // ------------------------------------------------------------ the offsets

  /** The lane pi moves lane i to: A[x, y] becomes A'[y, (2 * x + 3 * y) mod 5]. */
  function PiTarget(i: nat): (d: nat)
    requires i < 25
    ensures d < 25
  {
    i / 5 + 5 * ((2 * (i % 5) + 3 * (i / 5)) % 5)
  }

  lemma PiTargetIs(i: nat)
    requires i < 25
    ensures PiSource(PiTarget(i)) == i
  {
    var x, y := i % 5, i / 5;
    var q, m := (2 * x + 3 * y) / 5, (2 * x + 3 * y) % 5;
    DivMod(y + 5 * m, 5, m, y);
    DivMod(y + 3 * m, 5, x + 2 * y - 3 * q, x);
  }

  /**
   * The loop's tables are the walk of algorithm 2 in FIPS 202: it starts at
   * A[1, 0], goes from (x, y) to (y, 2 * x + 3 * y), and step t rotates by the
   * triangular number (t + 1)(t + 2) / 2.
   */
  lemma TablesFollowTheStandard(t: nat)
    requires t < 24
    ensures Source(0) == 1
    ensures t < 23 ==> Source(t + 1) == PiTarget(Source(t))
    ensures Offset(Source(t)) == Turn(t)
    ensures Turn(t) == (t + 1) * (t + 2) / 2 % 64
  {
    WalkTurnsByRho(t);
    TriangularTurns(t);
    if t < 23 {
      WalkIsPi(t);
    }
  }

  lemma WalkIsPi(t: nat)
    requires t < 24
    ensures Target(t) == PiTarget(Source(t))
  {
  }

  lemma TriangularTurns(t: nat)
    requires t < 24
    ensures Turn(t) == (t + 1) * (t + 2) / 2 % 64
  {
  }

  // ------------------------------------------------------------- the inverse

  /** Rotating on to a full turn gives the lane back. */
  predicate TurnsBack(a: Lane, n: nat)
    requires 0 < n < 64
  {
    Rotl(Rotl(a, Amount(n)), Amount(64 - n)) == a
  }

  // One lemma an amount: the solver settles a fixed rotation at once.
  lemma Back1(a: Lane) ensures TurnsBack(a, 1) { assert Amount(1) == 1 && Amount(63) == 63; }
  lemma Back2(a: Lane) ensures TurnsBack(a, 2) { assert Amount(2) == 2 && Amount(62) == 62; }
  lemma Back3(a: Lane) ensures TurnsBack(a, 3) { assert Amount(3) == 3 && Amount(61) == 61; }
  lemma Back6(a: Lane) ensures TurnsBack(a, 6) { assert Amount(6) == 6 && Amount(58) == 58; }
  lemma Back8(a: Lane) ensures TurnsBack(a, 8) { assert Amount(8) == 8 && Amount(56) == 56; }
  lemma Back9(a: Lane) ensures TurnsBack(a, 9) { assert Amount(9) == 9 && Amount(55) == 55; }
  lemma Back10(a: Lane) ensures TurnsBack(a, 10) { assert Amount(10) == 10 && Amount(54) == 54; }
  lemma Back14(a: Lane) ensures TurnsBack(a, 14) { assert Amount(14) == 14 && Amount(50) == 50; }
  lemma Back15(a: Lane) ensures TurnsBack(a, 15) { assert Amount(15) == 15 && Amount(49) == 49; }
  lemma Back18(a: Lane) ensures TurnsBack(a, 18) { assert Amount(18) == 18 && Amount(46) == 46; }
  lemma Back19(a: Lane) ensures TurnsBack(a, 19) { assert Amount(19) == 19 && Amount(45) == 45; }
  lemma Back20(a: Lane) ensures TurnsBack(a, 20) { assert Amount(20) == 20 && Amount(44) == 44; }
  lemma Back21(a: Lane) ensures TurnsBack(a, 21) { assert Amount(21) == 21 && Amount(43) == 43; }
  lemma Back23(a: Lane) ensures TurnsBack(a, 23) { assert Amount(23) == 23 && Amount(41) == 41; }
  lemma Back25(a: Lane) ensures TurnsBack(a, 25) { assert Amount(25) == 25 && Amount(39) == 39; }
  lemma Back27(a: Lane) ensures TurnsBack(a, 27) { assert Amount(27) == 27 && Amount(37) == 37; }
  lemma Back28(a: Lane) ensures TurnsBack(a, 28) { assert Amount(28) == 28 && Amount(36) == 36; }
  lemma Back36(a: Lane) ensures TurnsBack(a, 36) { assert Amount(36) == 36 && Amount(28) == 28; }
  lemma Back37(a: Lane) ensures TurnsBack(a, 37) { assert Amount(37) == 37 && Amount(27) == 27; }
  lemma Back39(a: Lane) ensures TurnsBack(a, 39) { assert Amount(39) == 39 && Amount(25) == 25; }
  lemma Back41(a: Lane) ensures TurnsBack(a, 41) { assert Amount(41) == 41 && Amount(23) == 23; }
  lemma Back43(a: Lane) ensures TurnsBack(a, 43) { assert Amount(43) == 43 && Amount(21) == 21; }
  lemma Back44(a: Lane) ensures TurnsBack(a, 44) { assert Amount(44) == 44 && Amount(20) == 20; }
  lemma Back45(a: Lane) ensures TurnsBack(a, 45) { assert Amount(45) == 45 && Amount(19) == 19; }
  lemma Back46(a: Lane) ensures TurnsBack(a, 46) { assert Amount(46) == 46 && Amount(18) == 18; }
  lemma Back49(a: Lane) ensures TurnsBack(a, 49) { assert Amount(49) == 49 && Amount(15) == 15; }
  lemma Back50(a: Lane) ensures TurnsBack(a, 50) { assert Amount(50) == 50 && Amount(14) == 14; }
  lemma Back54(a: Lane) ensures TurnsBack(a, 54) { assert Amount(54) == 54 && Amount(10) == 10; }
  lemma Back55(a: Lane) ensures TurnsBack(a, 55) { assert Amount(55) == 55 && Amount(9) == 9; }
  lemma Back56(a: Lane) ensures TurnsBack(a, 56) { assert Amount(56) == 56 && Amount(8) == 8; }
  lemma Back58(a: Lane) ensures TurnsBack(a, 58) { assert Amount(58) == 58 && Amount(6) == 6; }
  lemma Back61(a: Lane) ensures TurnsBack(a, 61) { assert Amount(61) == 61 && Amount(3) == 3; }
  lemma Back62(a: Lane) ensures TurnsBack(a, 62) { assert Amount(62) == 62 && Amount(2) == 2; }
  lemma Back63(a: Lane) ensures TurnsBack(a, 63) { assert Amount(63) == 63 && Amount(1) == 1; }

  /** The offsets and what completes each of them to a full turn. */
  const AMOUNTS_IN_USE: set<nat> := {
    1, 2, 3, 6, 8, 9, 10, 14, 15, 18, 19, 20, 21, 23, 25, 27, 28,
    36, 37, 39, 41, 43, 44, 45, 46, 49, 50, 54, 55, 56, 58, 61, 62, 63}

  lemma OffsetInUse(i: nat)
    requires 0 < i < 25
    ensures Offset(i) in AMOUNTS_IN_USE && 64 - Offset(i) in AMOUNTS_IN_USE
  {
  }

  lemma EveryAmountTurnsBack(a: Lane, n: nat)
    requires 0 < n < 64 && n in AMOUNTS_IN_USE
    ensures TurnsBack(a, n)
  {
    hide TurnsBack;
    match n {
      case 1 => Back1(a);
      case 2 => Back2(a);
      case 3 => Back3(a);
      case 6 => Back6(a);
      case 8 => Back8(a);
      case 9 => Back9(a);
      case 10 => Back10(a);
      case 14 => Back14(a);
      case 15 => Back15(a);
      case 18 => Back18(a);
      case 19 => Back19(a);
      case 20 => Back20(a);
      case 21 => Back21(a);
      case 23 => Back23(a);
      case 25 => Back25(a);
      case 27 => Back27(a);
      case 28 => Back28(a);
      case 36 => Back36(a);
      case 37 => Back37(a);
      case 39 => Back39(a);
      case 41 => Back41(a);
      case 43 => Back43(a);
      case 44 => Back44(a);
      case 45 => Back45(a);
      case 46 => Back46(a);
      case 49 => Back49(a);
      case 50 => Back50(a);
      case 54 => Back54(a);
      case 55 => Back55(a);
      case 56 => Back56(a);
      case 58 => Back58(a);
      case 61 => Back61(a);
      case 62 => Back62(a);
      case 63 => Back63(a);
    }
  }

  /** Fetch every lane from where pi put it and finish its rotation. */
  function UndoRhoPi(b: Lanes): Lanes {
    seq(25, i requires 0 <= i < 25 =>
      if i == 0 then b[0] else Rotl(b[PiTarget(i)], Amount(64 - Offset(i))))
  }

  /** The rho and pi step is a bijection of the states. */
  lemma RhoPiInvertible(a: Lanes)
    ensures UndoRhoPi(Pi(Rho(a))) == a
    ensures Pi(Rho(UndoRhoPi(a))) == a
  {
    UndoneAfter(a);
    UndoneBefore(a);
  }

  lemma UndoneAfter(a: Lanes)
    ensures UndoRhoPi(Pi(Rho(a))) == a
  {
    hide Rotl, Amount, Offset, PiTarget, Rho, Pi, TurnsBack;
    forall i | 0 <= i < 25 ensures UndoRhoPi(Pi(Rho(a)))[i] == a[i] {
      MovedAndTurned(a, i);
    }
  }

  /** Where a lane ends up, and that finishing its rotation gives it back. */
  lemma MovedAndTurned(a: Lanes, i: nat)
    requires i < 25
    ensures i == 0 ==> Pi(Rho(a))[0] == a[0]
    ensures i > 0 ==> Rotl(Pi(Rho(a))[PiTarget(i)], Amount(64 - Offset(i))) == a[i]
  {
    hide Rotl, Amount, Offset, PiTarget, PiSource;
    if i > 0 {
      PiTargetIs(i);
      OffsetInUse(i);
      EveryAmountTurnsBack(a[i], Offset(i));
    } else {
      FirstLaneStays(a);
    }
  }

  lemma UndoneBefore(b: Lanes)
    ensures Pi(Rho(UndoRhoPi(b))) == b
  {
    hide Rotl, Amount, Offset, PiTarget, PiSource;
    forall d | 0 <= d < 25 ensures Pi(Rho(UndoRhoPi(b)))[d] == b[d] {
      var s := PiSource(d);
      PiSourceIs(d);
      if s > 0 {
        OffsetInUse(s);
        EveryAmountTurnsBack(b[d], 64 - Offset(s));
      } else {
        PiFixesZero();
      }
    }
  }

  lemma PiSourceIs(d: nat)
    requires d < 25
    ensures PiTarget(PiSource(d)) == d
  {
    var x, y := d % 5, d / 5;
    var q, m := (x + 3 * y) / 5, (x + 3 * y) % 5;
    DivMod(m + 5 * x, 5, x, m);
    DivMod(2 * m + 3 * x, 5, x + y - 2 * q, y);
  }

  lemma PiFixesZero()
    ensures PiTarget(0) == 0
  {
  }

  lemma FirstLaneStays(a: Lanes)
    ensures Pi(Rho(a))[0] == a[0]
  {
    hide Rotl, Amount, Offset;
  }
}
