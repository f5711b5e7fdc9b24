/** Keccak-f[1600] as section 3.2 of FIPS 202 gives it, the in-place form that walks one
    displacement cycle, and the triple SHA3-256 of an 80-byte header.
 */
module Keccak {
  import opened Digests

  type Lane = bv64

  function Xor(x: Lane, y: Lane): Lane { x ^ y }

  function Rol(x: Lane, n: nat): Lane
    requires 0 < n < 64
  {
    (x << n) | (x >> (64 - n))
  }

  function Chi3(a: Lane, b: Lane, c: Lane): Lane { a ^ (!b & c) }

  // ----- the step mappings of section 3.2; lane (x, y) is at index x + 5 y -----

  /** The parity of column x. */
  function Column(a: seq<Lane>, x: nat): Lane
    requires |a| == 25 && x < 5
  {
    Xor(Xor(Xor(Xor(a[x], a[x + 5]), a[x + 10]), a[x + 15]), a[x + 20])
  }

  function ThetaEffect(a: seq<Lane>, x: nat): Lane
    requires |a| == 25 && x < 5
  {
    Xor(Column(a, (x + 4) % 5), Rol(Column(a, (x + 1) % 5), 1))
  }

  function Theta(a: seq<Lane>): (r: seq<Lane>)
    requires |a| == 25
    ensures |r| == 25
  {
    seq(25, i requires 0 <= i < 25 => Xor(a[i], ThetaEffect(a, i % 5)))
  }

  /** Rotation offsets, table 2 reduced modulo 64. */
  function RhoOffset(i: nat): (n: nat)
    requires i < 25
    ensures n < 64
  {
    match i
    case 0 => 0 case 1 => 1 case 2 => 62 case 3 => 28 case 4 => 27 case 5 => 36
    case 6 => 44 case 7 => 6 case 8 => 55 case 9 => 20 case 10 => 3 case 11 => 10
    case 12 => 43 case 13 => 25 case 14 => 39 case 15 => 41 case 16 => 45 case 17 => 15
    case 18 => 21 case 19 => 8 case 20 => 18 case 21 => 2 case 22 => 61 case 23 => 56
    case _ => 14
  }

  function RhoLane(a: seq<Lane>, i: nat): Lane
    requires |a| == 25 && i < 25
  {
    if RhoOffset(i) == 0 then a[i] else Rol(a[i], RhoOffset(i))
  }

  function Rho(a: seq<Lane>): (r: seq<Lane>)
    requires |a| == 25
    ensures |r| == 25
  {
    seq(25, i requires 0 <= i < 25 => RhoLane(a, i))
  }

  /** Lane (x, y) after pi is lane (x + 3 y mod 5, x) before. */
  function PiSource(i: nat): (j: nat)
    requires i < 25
    ensures j < 25
  {
    (i % 5 + 3 * (i / 5)) % 5 + 5 * (i % 5)
  }

  function Pi(a: seq<Lane>): (r: seq<Lane>)
    requires |a| == 25
    ensures |r| == 25
  {
    seq(25, i requires 0 <= i < 25 => a[PiSource(i)])
  }

  function RowIndex(i: nat, k: nat): (j: nat)
    requires i < 25
    ensures j < 25
  {
    i - i % 5 + (i % 5 + k) % 5
  }

  function Chi(a: seq<Lane>): (r: seq<Lane>)
    requires |a| == 25
    ensures |r| == 25
  {
    seq(25, i requires 0 <= i < 25 => Chi3(a[i], a[RowIndex(i, 1)], a[RowIndex(i, 2)]))
  }

  /** The code's table. */
  function RoundConstant(r: nat): Lane
    requires r < 24
  {
    match r
    case 0 => 0x0000000000000001
    case 1 => 0x0000000000008082
    case 2 => 0x800000000000808a
    case 3 => 0x8000000080008000
    case 4 => 0x000000000000808b
    case 5 => 0x0000000080000001
    case 6 => 0x8000000080008081
    case 7 => 0x8000000000008009
    case 8 => 0x000000000000008a
    case 9 => 0x0000000000000088
    case 10 => 0x0000000080008009
    case 11 => 0x000000008000000a
    case 12 => 0x000000008000808b
    case 13 => 0x800000000000008b
    case 14 => 0x8000000000008089
    case 15 => 0x8000000000008003
    case 16 => 0x8000000000008002
    case 17 => 0x8000000000000080
    case 18 => 0x000000000000800a
    case 19 => 0x800000008000000a
    case 20 => 0x8000000080008081
    case 21 => 0x8000000000008080
    case 22 => 0x0000000080000001
    case _ => 0x8000000080008008
  }

  /** One step of the bit generator of section 3.2.5, bit i of the register in bit i of the byte. */
  function Shift(x: bv8): (y: bv8) {
    if x & 0x80 != 0 then (x << 1) ^ 0x71 else x << 1
  }

  /** The register after t steps from one; the generator's bit for t is its lowest. */
  function Register(t: nat): (x: bv8) {
    if t == 0 then 1 else Shift(Register(t - 1))
  }

  /** A generated bit at place 2^j - 1 of a lane. */
  function Placed(x: bv8, j: nat): Lane
    requires j < 7
  {
    var bit := (x & 1) as Lane;
    match j
    case 0 => bit
    case 1 => bit << 1
    case 2 => bit << 3
    case 3 => bit << 7
    case 4 => bit << 15
    case 5 => bit << 31
    case _ => bit << 63
  }

  /** The round constant of section 3.2.5: seven generated bits. */
  function Generated(r: nat): Lane {
    var t := 7 * r;
    Placed(Register(t), 0) | Placed(Register(t + 1), 1) | Placed(Register(t + 2), 2) | Placed(Register(t + 3), 3)
    | Placed(Register(t + 4), 4) | Placed(Register(t + 5), 5) | Placed(Register(t + 6), 6)
  }

  /** The register at the first bit of each round. */
  function RoundRegister(r: nat): (x: bv8)
    requires r <= 24
  {
    match r
    case 0 => 0x01 case 1 => 0x80 case 2 => 0xd8 case 3 => 0x1a case 4 => 0xdf case 5 => 0x09
    case 6 => 0x35 case 7 => 0x4f case 8 => 0xca case 9 => 0x70 case 10 => 0x41 case 11 => 0xec
    case 12 => 0xd5 case 13 => 0xcd case 14 => 0x63 case 15 => 0xab case 16 => 0xaa case 17 => 0x2a
    case 18 => 0xf2 case 19 => 0xe8 case 20 => 0x37 case 21 => 0x3e case 22 => 0x0b case 23 => 0x44
    case _ => 0x8e
  }

  function Shift7(x: bv8): (y: bv8) {
    Shift(Shift(Shift(Shift(Shift(Shift(Shift(x)))))))
  }

  lemma EarlyRegister(r: nat)
    requires r < 12
    ensures Shift7(RoundRegister(r)) == RoundRegister(r + 1)
  {
  }

  lemma LateRegister(r: nat)
    requires 12 <= r < 24
    ensures Shift7(RoundRegister(r)) == RoundRegister(r + 1)
  {
  }

  lemma NextRegister(r: nat)
    requires r < 24
    ensures Shift7(RoundRegister(r)) == RoundRegister(r + 1)
  {
    hide Shift7, RoundRegister;
    if r < 12 {
      EarlyRegister(r);
    } else {
      LateRegister(r);
    }
  }

  lemma SevenSteps(t: nat)
    ensures Register(t + 1) == Shift(Register(t)) && Register(t + 2) == Shift(Register(t + 1))
    ensures Register(t + 3) == Shift(Register(t + 2)) && Register(t + 4) == Shift(Register(t + 3))
    ensures Register(t + 5) == Shift(Register(t + 4)) && Register(t + 6) == Shift(Register(t + 5))
    ensures Register(t + 7) == Shift7(Register(t))
  {
    hide Shift;
  }

  lemma FirstRegister()
    ensures Register(0) == RoundRegister(0)
  {
  }

  lemma {:induction false} RegisterAt(r: nat)
    requires r <= 24
    ensures Register(7 * r) == RoundRegister(r)
  {
    hide *;
    if r > 0 {
      RegisterAt(r - 1);
      NextRegister(r - 1);
      SevenSteps(7 * (r - 1));
      assert 7 * (r - 1) + 7 == 7 * r;
    } else {
      FirstRegister();
    }
  }

  /** Seven bits of a round from its first register. */
  function FromRegister(x: bv8): Lane {
    var x1 := Shift(x);
    var x2 := Shift(x1);
    var x3 := Shift(x2);
    var x4 := Shift(x3);
    var x5 := Shift(x4);
    Placed(x, 0) | Placed(x1, 1) | Placed(x2, 2) | Placed(x3, 3) | Placed(x4, 4) | Placed(x5, 5) | Placed(Shift(x5), 6)
  }

  lemma TableBits(r: nat)
    requires r < 24
    ensures FromRegister(RoundRegister(r)) == RoundConstant(r)
  {
  }

  /** Every entry of the code's table is the generated constant. */
  lemma RoundConstantIsGenerated(r: nat)
    requires r < 24
    ensures RoundConstant(r) == Generated(r)
  {
    RegisterAt(r);
    SevenSteps(7 * r);
    TableBits(r);
    hide RoundConstant, RoundRegister, Register, Shift, Placed;
  }

  function Iota(a: seq<Lane>, r: nat): (b: seq<Lane>)
    requires |a| == 25 && r < 24
    ensures |b| == 25
  {
    a[0 := Xor(a[0], Generated(r))]
  }

  /** The first n rounds, and within round n the state after each step mapping. */
  function KeccakRounds(a: seq<Lane>, n: nat): (b: seq<Lane>)
    requires |a| == 25 && n <= 24
    ensures |b| == 25
    decreases n, 0, a
  {
    if n == 0 then a else AfterIota(a, n - 1)
  }

  function AfterTheta(a: seq<Lane>, n: nat): (b: seq<Lane>)
    requires |a| == 25 && n < 24
    ensures |b| == 25
    decreases n, 1, a
  {
    Theta(KeccakRounds(a, n))
  }

  function AfterPi(a: seq<Lane>, n: nat): (b: seq<Lane>)
    requires |a| == 25 && n < 24
    ensures |b| == 25
    decreases n, 2, a
  {
    Pi(Rho(AfterTheta(a, n)))
  }

  function AfterChi(a: seq<Lane>, n: nat): (b: seq<Lane>)
    requires |a| == 25 && n < 24
    ensures |b| == 25
    decreases n, 3, a
  {
    Chi(AfterPi(a, n))
  }

  function AfterIota(a: seq<Lane>, n: nat): (b: seq<Lane>)
    requires |a| == 25 && n < 24
    ensures |b| == 25
    decreases n, 4, a
  {
    Iota(AfterChi(a, n), n)
  }

  // ----- the displacement walk -----

  function WalkLane(t: nat): (j: nat)
    requires t < 24
    ensures j < 25
  {
    match t
    case 0 => 10 case 1 => 7 case 2 => 11 case 3 => 17 case 4 => 18 case 5 => 3
    case 6 => 5 case 7 => 16 case 8 => 8 case 9 => 21 case 10 => 24 case 11 => 4
    case 12 => 15 case 13 => 23 case 14 => 19 case 15 => 13 case 16 => 12 case 17 => 2
    case 18 => 20 case 19 => 14 case 20 => 22 case 21 => 9 case 22 => 6 case _ => 1
  }

  function WalkOffset(t: nat): (n: nat)
    requires t < 24
    ensures 0 < n < 64
  {
    match t
    case 0 => 1 case 1 => 3 case 2 => 6 case 3 => 10 case 4 => 15 case 5 => 21
    case 6 => 28 case 7 => 36 case 8 => 45 case 9 => 55 case 10 => 2 case 11 => 14
    case 12 => 27 case 13 => 41 case 14 => 56 case 15 => 8 case 16 => 25 case 17 => 43
    case 18 => 62 case 19 => 18 case 20 => 39 case 21 => 61 case 22 => 20 case _ => 44
  }

  /** The lane whose old value step t moves. */
  function WalkFrom(t: nat): (j: nat)
    requires t <= 24
    ensures j < 25
  {
    if t == 0 then 1 else WalkLane(t - 1)
  }

  /** The step at which the walk reaches lane j. */
  function WalkStep(j: nat): (t: nat)
    requires 0 < j < 25
    ensures t < 24
  {
    match j - 1
    case 0 => 23 case 1 => 17 case 2 => 5 case 3 => 11 case 4 => 6 case 5 => 22
    case 6 => 1 case 7 => 8 case 8 => 21 case 9 => 0 case 10 => 2 case 11 => 16
    case 12 => 15 case 13 => 19 case 14 => 12 case 15 => 7 case 16 => 3 case 17 => 4
    case 18 => 14 case 19 => 18 case 20 => 9 case 21 => 20 case 22 => 13 case _ => 10
  }

  /** The walk visits every lane but the first exactly once, and step t does to the lane it
      visits what rho and pi do. */
  lemma WalkFollowsRhoPi(t: nat)
    requires t < 24
    ensures 0 < WalkLane(t) && WalkStep(WalkLane(t)) == t
    ensures WalkFrom(t) == PiSource(WalkLane(t))
    ensures WalkOffset(t) == RhoOffset(WalkFrom(t))
  {
    WalkReturns(t);
    WalkIsPi(t);
    WalkIsRho(t);
    PiTableCorrect(WalkLane(t));
    hide *;
  }

  lemma WalkReturns(t: nat)
    requires t < 24
    ensures 0 < WalkLane(t) && WalkStep(WalkLane(t)) == t
  {
  }

  lemma WalkIsPi(t: nat)
    requires t < 24
    ensures WalkFrom(t) == PiTable(WalkLane(t))
  {
  }

  lemma WalkIsRho(t: nat)
    requires t < 24
    ensures WalkOffset(t) == RhoOffset(WalkFrom(t))
  {
  }

  /** Pi, tabulated. */
  function PiTable(i: nat): (j: nat)
    requires i < 25
  {
    match i
    case 0 => 0 case 1 => 6 case 2 => 12 case 3 => 18 case 4 => 24 case 5 => 3
    case 6 => 9 case 7 => 10 case 8 => 16 case 9 => 22 case 10 => 1 case 11 => 7
    case 12 => 13 case 13 => 19 case 14 => 20 case 15 => 4 case 16 => 5 case 17 => 11
    case 18 => 17 case 19 => 23 case 20 => 2 case 21 => 8 case 22 => 14 case 23 => 15
    case _ => 21
  }

  lemma PiTableCorrect(i: nat)
    requires i < 25
    ensures PiSource(i) == PiTable(i)
  {
    var x, y := i % 5, i / 5;
    assert i == x + 5 * y && x < 5 && y < 5;
    assert x == 0 || x == 1 || x == 2 || x == 3 || x == 4;
    assert y == 0 || y == 1 || y == 2 || y == 3 || y == 4;
  }

  lemma WalkCovers(j: nat)
    requires 0 < j < 25
    ensures WalkLane(WalkStep(j)) == j
  {
  }

  /** The walk's offsets are the triangular numbers of section 3.2.2. */
  lemma OffsetsAreTriangular(t: nat)
    requires t < 24
    ensures WalkOffset(t) == (t + 1) * (t + 2) / 2 % 64
  {
  }

  /** Before step t: the lanes already visited hold rho and pi of the old state, the rest are old. */
  ghost predicate Walked(a: seq<Lane>, start: seq<Lane>, t: nat)
    requires |a| == 25 && |start| == 25 && t <= 24
  {
    forall j | 0 <= j < 25 :: a[j] == if j > 0 && WalkStep(j) < t then Pi(Rho(start))[j] else start[j]
  }

  lemma WalkedNow(a: seq<Lane>, start: seq<Lane>, t: nat)
    requires |a| == 25 && |start| == 25 && t < 24 && Walked(a, start, t) && WalkStep(WalkLane(t)) == t
    ensures a[WalkLane(t)] == start[WalkLane(t)]
  {
    hide WalkLane, WalkStep, Pi, Rho;
  }

  lemma RhoPiAt(start: seq<Lane>, t: nat)
    requires |start| == 25 && t < 24 && WalkFrom(t) == PiSource(WalkLane(t)) && WalkOffset(t) == RhoOffset(WalkFrom(t))
    requires 0 < WalkLane(t)
    ensures Rol(start[WalkFrom(t)], WalkOffset(t)) == Pi(Rho(start))[WalkLane(t)]
  {
    OffsetPositive(t);
    hide WalkLane, WalkFrom, WalkOffset, PiSource, RhoOffset, Rol;
  }

  lemma OffsetPositive(t: nat)
    requires t < 24
    ensures WalkOffset(t) > 0
  {
  }

  lemma WalkedOn(a: seq<Lane>, b: seq<Lane>, start: seq<Lane>, t: nat)
    requires |a| == |b| == 25 && |start| == 25 && t < 24 && Walked(a, start, t)
    requires WalkStep(WalkLane(t)) == t && b == a[WalkLane(t) := Pi(Rho(start))[WalkLane(t)]] && 0 < WalkLane(t)
    ensures Walked(b, start, t + 1)
  {
    hide WalkLane, WalkStep, Pi, Rho;
    forall j | 0 <= j < 25
      ensures b[j] == if j > 0 && WalkStep(j) < t + 1 then Pi(Rho(start))[j] else start[j]
    {
      if j > 0 && WalkStep(j) == t {
        WalkCovers(j);
      }
    }
  }

  lemma WalkedStep(a: seq<Lane>, start: seq<Lane>, t: nat)
    requires |a| == 25 && |start| == 25 && t < 24 && Walked(a, start, t)
    ensures a[WalkLane(t)] == start[WalkLane(t)]
    ensures Rol(start[WalkFrom(t)], WalkOffset(t)) == Pi(Rho(start))[WalkLane(t)]
    ensures Walked(a[WalkLane(t) := Rol(start[WalkFrom(t)], WalkOffset(t))], start, t + 1)
  {
    hide *;
    WalkFollowsRhoPi(t);
    WalkedNow(a, start, t);
    RhoPiAt(start, t);
    var b := a[WalkLane(t) := Rol(start[WalkFrom(t)], WalkOffset(t))];
    WalkedOn(a, b, start, t);
  }

  lemma WalkedEnds(a: seq<Lane>, start: seq<Lane>)
    requires |a| == 25 && |start| == 25
    ensures Walked(start, start, 0)
    ensures Walked(a, start, 24) ==> a == Pi(Rho(start))
  {
    hide WalkStep, Rol;
    assert Pi(Rho(start))[0] == start[0];
  }

  /** The serial walk, each hop reading the lane the previous hop overwrote, is the simultaneous
      rho and pi move. */
  method RhoPiInPlace(a: array<Lane>)
    requires a.Length == 25
    modifies a
    ensures a[..] == Pi(Rho(old(a[..])))
  {
    hide *;
    ghost var start := a[..];
    WalkedEnds(start, start);
    WalkStart();
    var last := a[1];
    for t := 0 to 24
      invariant Walked(a[..], start, t)
      invariant last == start[WalkFrom(t)]
    {
      WalkedStep(a[..], start, t);
      WalkNext(t);
      ghost var before := a[..];
      var j := WalkLane(t);
      var tmp := a[j];
      a[j] := Rol(last, WalkOffset(t));
      last := tmp;
      assert a[..] == before[j := Rol(start[WalkFrom(t)], WalkOffset(t))];
    }
    WalkedEnds(a[..], start);
  }

  lemma WalkStart()
    ensures WalkFrom(0) == 1
  {
  }

  lemma WalkNext(t: nat)
    requires t < 24
    ensures WalkFrom(t + 1) == WalkLane(t)
  {
  }

  method ThetaEffects(a: array<Lane>) returns (d0: Lane, d1: Lane, d2: Lane, d3: Lane, d4: Lane)
    requires a.Length == 25
    ensures var s := a[..];
      && d0 == ThetaEffect(s, 0) && d1 == ThetaEffect(s, 1) && d2 == ThetaEffect(s, 2)
      && d3 == ThetaEffect(s, 3) && d4 == ThetaEffect(s, 4)
  {
    hide Xor, Rol;
    var c0 := Xor(Xor(Xor(Xor(a[0], a[5]), a[10]), a[15]), a[20]);
    var c1 := Xor(Xor(Xor(Xor(a[1], a[6]), a[11]), a[16]), a[21]);
    var c2 := Xor(Xor(Xor(Xor(a[2], a[7]), a[12]), a[17]), a[22]);
    var c3 := Xor(Xor(Xor(Xor(a[3], a[8]), a[13]), a[18]), a[23]);
    var c4 := Xor(Xor(Xor(Xor(a[4], a[9]), a[14]), a[19]), a[24]);
    d0, d1, d2 := Xor(c4, Rol(c1, 1)), Xor(c0, Rol(c2, 1)), Xor(c1, Rol(c3, 1));
    d3, d4 := Xor(c2, Rol(c4, 1)), Xor(c3, Rol(c0, 1));
  }

  /** Row `row` of a state after the lanes before it are replaced by the new ones. */
  ghost predicate RowsDone(a: seq<Lane>, start: seq<Lane>, new_: seq<Lane>, row: nat)
    requires |a| == |start| == |new_| == 25 && row <= 5
  {
    forall j | 0 <= j < 25 :: a[j] == if j < 5 * row then new_[j] else start[j]
  }

  lemma RowDone(a: seq<Lane>, b: seq<Lane>, start: seq<Lane>, new_: seq<Lane>, row: nat)
    requires |a| == |b| == |start| == |new_| == 25 && row < 5 && RowsDone(a, start, new_, row)
    requires forall j | 0 <= j < 25 && !(5 * row <= j < 5 * row + 5) :: b[j] == a[j]
    requires var i := 5 * row;
      && b[i] == new_[i] && b[i + 1] == new_[i + 1] && b[i + 2] == new_[i + 2]
      && b[i + 3] == new_[i + 3] && b[i + 4] == new_[i + 4]
    ensures RowsDone(b, start, new_, row + 1)
  {
    forall j | 5 * row <= j < 5 * row + 5 ensures b[j] == new_[j] {
      var i := 5 * row;
      assert j == i || j == i + 1 || j == i + 2 || j == i + 3 || j == i + 4;
    }
  }

  lemma RowsEnds(a: seq<Lane>, start: seq<Lane>, new_: seq<Lane>)
    requires |a| == |start| == |new_| == 25
    ensures RowsDone(start, start, new_, 0)
    ensures RowsDone(a, start, new_, 5) ==> a == new_
  {
  }

  lemma RowStill(a: seq<Lane>, start: seq<Lane>, new_: seq<Lane>, row: nat)
    requires |a| == |start| == |new_| == 25 && row < 5 && RowsDone(a, start, new_, row)
    ensures var i := 5 * row;
      && a[i] == start[i] && a[i + 1] == start[i + 1] && a[i + 2] == start[i + 2]
      && a[i + 3] == start[i + 3] && a[i + 4] == start[i + 4]
  {
  }

  lemma ThetaRow(s: seq<Lane>, row: nat, k: nat)
    requires |s| == 25 && row < 5 && k < 5
    ensures Theta(s)[5 * row + k] == Xor(s[5 * row + k], ThetaEffect(s, k))
  {
    hide Xor, ThetaEffect;
    assert (5 * row + k) % 5 == k;
  }

  lemma ChiRow(s: seq<Lane>, row: nat, k: nat)
    requires |s| == 25 && row < 5 && k < 5
    ensures Chi(s)[5 * row + k] ==
      Chi3(s[5 * row + k], s[5 * row + if k < 4 then k + 1 else 0], s[5 * row + if k < 3 then k + 2 else k - 3])
  {
    hide Chi3, RowIndex;
    RowIndexAt(row, k, 1);
    RowIndexAt(row, k, 2);
  }

  method XorRow(a: array<Lane>, row: nat, d0: Lane, d1: Lane, d2: Lane, d3: Lane, d4: Lane)
    requires a.Length == 25 && row < 5
    modifies a
    ensures XoredRow(old(a[..]), a[..], row, d0, d1, d2, d3, d4)
  {
    hide Xor;
    var i := 5 * row;
    a[i] := Xor(a[i], d0);
    a[i + 1] := Xor(a[i + 1], d1);
    a[i + 2] := Xor(a[i + 2], d2);
    a[i + 3] := Xor(a[i + 3], d3);
    a[i + 4] := Xor(a[i + 4], d4);
  }

  ghost predicate XoredRow(a: seq<Lane>, b: seq<Lane>, row: nat, d0: Lane, d1: Lane, d2: Lane, d3: Lane, d4: Lane)
    requires |a| == |b| == 25 && row < 5
  {
    var i := 5 * row;
    && (forall j | 0 <= j < 25 && !(i <= j < i + 5) :: b[j] == a[j])
    && b[i] == Xor(a[i], d0) && b[i + 1] == Xor(a[i + 1], d1) && b[i + 2] == Xor(a[i + 2], d2)
    && b[i + 3] == Xor(a[i + 3], d3) && b[i + 4] == Xor(a[i + 4], d4)
  }

  lemma ThetaRowDone(a: seq<Lane>, b: seq<Lane>, start: seq<Lane>, row: nat)
    requires |a| == |b| == |start| == 25 && row < 5 && RowsDone(a, start, Theta(start), row)
    requires XoredRow(a, b, row, ThetaEffect(start, 0), ThetaEffect(start, 1), ThetaEffect(start, 2),
                      ThetaEffect(start, 3), ThetaEffect(start, 4))
    ensures RowsDone(b, start, Theta(start), row + 1)
  {
    hide Theta, ThetaEffect, Xor, RowsDone;
    RowStill(a, start, Theta(start), row);
    ThetaRow(start, row, 0);
    ThetaRow(start, row, 1);
    ThetaRow(start, row, 2);
    ThetaRow(start, row, 3);
    ThetaRow(start, row, 4);
    RowDone(a, b, start, Theta(start), row);
  }

  method ThetaInPlace(a: array<Lane>)
    requires a.Length == 25
    modifies a
    ensures a[..] == Theta(old(a[..]))
  {
    hide *;
    ghost var start, next := a[..], Theta(a[..]);
    var d0, d1, d2, d3, d4 := ThetaEffects(a);
    RowsEnds(start, start, next);
    for row := 0 to 5
      invariant RowsDone(a[..], start, next, row)
    {
      ghost var before := a[..];
      XorRow(a, row, d0, d1, d2, d3, d4);
      ThetaRowDone(before, a[..], start, row);
    }
    RowsEnds(a[..], start, next);
  }

  lemma RowIndexAt(row: nat, k: nat, n: nat)
    requires row < 5 && k < 5 && n < 5
    ensures RowIndex(5 * row + k, n) == 5 * row + if k + n < 5 then k + n else k + n - 5
  {
    assert (5 * row + k) % 5 == k;
  }

  method ChiOneRow(a: array<Lane>, y: nat)
    requires a.Length == 25 && y <= 20
    modifies a
    ensures a[y] == Chi3(old(a[y]), old(a[y + 1]), old(a[y + 2]))
    ensures a[y + 1] == Chi3(old(a[y + 1]), old(a[y + 2]), old(a[y + 3]))
    ensures a[y + 2] == Chi3(old(a[y + 2]), old(a[y + 3]), old(a[y + 4]))
    ensures a[y + 3] == Chi3(old(a[y + 3]), old(a[y + 4]), old(a[y]))
    ensures a[y + 4] == Chi3(old(a[y + 4]), old(a[y]), old(a[y + 1]))
    ensures forall j | 0 <= j < 25 && !(y <= j < y + 5) :: a[j] == old(a[j])
  {
    hide Chi3;
    var b0, b1, b2, b3, b4 := a[y], a[y + 1], a[y + 2], a[y + 3], a[y + 4];
    a[y] := Chi3(b0, b1, b2);
    a[y + 1] := Chi3(b1, b2, b3);
    a[y + 2] := Chi3(b2, b3, b4);
    a[y + 3] := Chi3(b3, b4, b0);
    a[y + 4] := Chi3(b4, b0, b1);
  }

  lemma ChiRowDone(a: seq<Lane>, b: seq<Lane>, start: seq<Lane>, row: nat)
    requires |a| == |b| == |start| == 25 && row < 5 && RowsDone(a, start, Chi(start), row)
    requires forall j | 0 <= j < 25 && !(5 * row <= j < 5 * row + 5) :: b[j] == a[j]
    requires var y := 5 * row;
      && b[y] == Chi3(a[y], a[y + 1], a[y + 2]) && b[y + 1] == Chi3(a[y + 1], a[y + 2], a[y + 3])
      && b[y + 2] == Chi3(a[y + 2], a[y + 3], a[y + 4]) && b[y + 3] == Chi3(a[y + 3], a[y + 4], a[y])
      && b[y + 4] == Chi3(a[y + 4], a[y], a[y + 1])
    ensures RowsDone(b, start, Chi(start), row + 1)
  {
    hide *;
    RowStill(a, start, Chi(start), row);
    ChiRow(start, row, 0);
    ChiRow(start, row, 1);
    ChiRow(start, row, 2);
    ChiRow(start, row, 3);
    ChiRow(start, row, 4);
    RowDone(a, b, start, Chi(start), row);
  }

  method ChiInPlace(a: array<Lane>)
    requires a.Length == 25
    modifies a
    ensures a[..] == Chi(old(a[..]))
  {
    hide *;
    ghost var start, next := a[..], Chi(a[..]);
    RowsEnds(start, start, next);
    for row := 0 to 5
      invariant RowsDone(a[..], start, next, row)
    {
      ghost var before := a[..];
      var y := 5 * row;
      ChiOneRow(a, y);
      ChiRowDone(before, a[..], start, row);
    }
    RowsEnds(a[..], start, next);
  }

  /** The permutation in place. */
  method KeccakF(a: array<Lane>)
    requires a.Length == 25
    modifies a
    ensures a[..] == KeccakRounds(old(a[..]), 24)
  {
    hide Theta, Rho, Pi, Chi, RoundConstant, Generated, Xor;
    ghost var start := a[..];
    for r := 0 to 24
      invariant a[..] == KeccakRounds(start, r)
    {
      ThetaInPlace(a);
      assert a[..] == AfterTheta(start, r);
      RhoPiInPlace(a);
      assert a[..] == AfterPi(start, r);
      ChiInPlace(a);
      assert a[..] == AfterChi(start, r);
      RoundConstantIsGenerated(r);
      a[0] := Xor(a[0], RoundConstant(r));
      assert a[..] == AfterIota(start, r);
    }
  }

  // ----- SHA3-256 -----

  function LaneOf(b: seq<Byte>): (l: Lane)
    requires |b| == 8
  {
    (b[0] as Lane) | ((b[1] as Lane) << 8) | ((b[2] as Lane) << 16) | ((b[3] as Lane) << 24)
    | ((b[4] as Lane) << 32) | ((b[5] as Lane) << 40) | ((b[6] as Lane) << 48) | ((b[7] as Lane) << 56)
  }

  function LaneByte(l: Lane, k: nat): Byte
    requires k < 8
  {
    match k
    case 0 => (l & 0xFF) as Byte
    case 1 => ((l >> 8) & 0xFF) as Byte
    case 2 => ((l >> 16) & 0xFF) as Byte
    case 3 => ((l >> 24) & 0xFF) as Byte
    case 4 => ((l >> 32) & 0xFF) as Byte
    case 5 => ((l >> 40) & 0xFF) as Byte
    case 6 => ((l >> 48) & 0xFF) as Byte
    case _ => ((l >> 56) & 0xFF) as Byte
  }

  /** Lanes as bytes, each little-endian. */
  function BytesOf(lanes: seq<Lane>): (b: seq<Byte>)
    ensures |b| == 8 * |lanes|
  {
    seq(8 * |lanes|, i requires 0 <= i < 8 * |lanes| => LaneByte(lanes[i / 8], i % 8))
  }

  /** The padding of sections 5.1 and 6.1: the suffix, then zeros, then the end-of-rate bit. */
  function Sha3Pad(m: seq<Byte>): (p: seq<Byte>)
    ensures |p| % 136 == 0 && |p| > |m|
  {
    var q := 136 - |m| % 136;
    m + if q == 1 then [0x86] else [0x06] + Zeros(q - 2) + [0x80]
  }

  /** The state with a 136-byte block added to it. */
  function AbsorbBlock(a: seq<Lane>, block: seq<Byte>): (r: seq<Lane>)
    requires |a| == 25 && |block| == 136
    ensures |r| == 25
  {
    seq(25, i requires 0 <= i < 25 => if i < 17 then Xor(a[i], LaneOf(block[8 * i .. 8 * i + 8])) else a[i])
  }

  /** The state after absorbing n blocks. */
  function Absorb(a: seq<Lane>, p: seq<Byte>, n: nat): (r: seq<Lane>)
    requires |a| == 25 && |p| == 136 * n
    ensures |r| == 25
    decreases n
  {
    hide KeccakRounds, AbsorbBlock;
    if n == 0 then a else Absorb(KeccakRounds(AbsorbBlock(a, p[..136]), 24), p[136..], n - 1)
  }

  function ZeroState(): (a: seq<Lane>)
    ensures |a| == 25
  {
    seq(25, _ => 0)
  }

  function Sha3(m: seq<Byte>): (digest: seq<Byte>)
    ensures |digest| == 32
  {
    var p := Sha3Pad(m);
    BytesOf(Absorb(ZeroState(), p, |p| / 136)[..4])
  }

  // ----- the triple hash of a header -----

  /** The one block of a message of k lanes, k < 17: the lanes, the suffix lane, the end-of-rate bit. */
  function OneBlock(lanes: seq<Lane>): (a: seq<Lane>)
    requires |lanes| < 16
    ensures |a| == 25
  {
    seq(25, i requires 0 <= i < 25 =>
      if i < |lanes| then lanes[i] else if i == |lanes| then 0x06 else if i == 16 then 0x8000000000000000 else 0)
  }

  /** The eight bytes of a lane, low byte first. */
  function EightOf(l: Lane): (b: seq<Byte>)
    ensures |b| == 8
  {
    [LaneByte(l, 0), LaneByte(l, 1), LaneByte(l, 2), LaneByte(l, 3),
     LaneByte(l, 4), LaneByte(l, 5), LaneByte(l, 6), LaneByte(l, 7)]
  }

  lemma EightAt(l: Lane, k: nat)
    requires k < 8
    ensures EightOf(l)[k] == LaneByte(l, k)
  {
    hide LaneByte;
  }

  lemma LaneRoundTrip(l: Lane)
    ensures LaneOf(EightOf(l)) == l
  {
  }

  lemma FixedLanes()
    ensures LaneOf([0x06, 0, 0, 0, 0, 0, 0, 0]) == 0x06
    ensures LaneOf([0, 0, 0, 0, 0, 0, 0, 0x80]) == 0x8000000000000000
    ensures LaneOf([0, 0, 0, 0, 0, 0, 0, 0]) == 0
  {
  }

  lemma XorZero(l: Lane)
    ensures Xor(0, l) == l
  {
  }

  /** Byte j of the padding of a message of k lanes. */
  lemma PadAt(lanes: seq<Lane>, j: nat)
    requires |lanes| < 16 && j < 136
    ensures |Sha3Pad(BytesOf(lanes))| == 136
    ensures Sha3Pad(BytesOf(lanes))[j] ==
      if j < 8 * |lanes| then LaneByte(lanes[j / 8], j % 8)
      else if j == 8 * |lanes| then 0x06 else if j == 135 then 0x80 else 0
  {
    hide LaneByte;
    assert |BytesOf(lanes)| % 136 == 8 * |lanes|;
  }

  /** Byte k of lane i of the padded block. */
  ghost function PaddedByte(lanes: seq<Lane>, i: nat, k: nat): Byte
    requires k < 8
  {
    if i < |lanes| then LaneByte(lanes[i], k)
    else if i == |lanes| && k == 0 then 0x06 else if i == 16 && k == 7 then 0x80 else 0
  }

  lemma PadByte(lanes: seq<Lane>, i: nat, k: nat)
    requires |lanes| < 16 && i < 17 && k < 8
    ensures |Sha3Pad(BytesOf(lanes))| == 136 && Sha3Pad(BytesOf(lanes))[8 * i + k] == PaddedByte(lanes, i, k)
  {
    hide LaneByte, Sha3Pad, BytesOf;
    PadAt(lanes, 8 * i + k);
    assert (8 * i + k) / 8 == i && (8 * i + k) % 8 == k;
  }

  /** The eight bytes of lane i of the padded block. */
  lemma PaddedEight(lanes: seq<Lane>, i: nat)
    requires |lanes| < 16 && i < 17
    ensures |Sha3Pad(BytesOf(lanes))| == 136
    ensures forall k | 0 <= k < 8 :: Sha3Pad(BytesOf(lanes))[8 * i .. 8 * i + 8][k] == PaddedByte(lanes, i, k)
  {
    hide *;
    PadByte(lanes, i, 0);
    forall k | 0 <= k < 8 ensures Sha3Pad(BytesOf(lanes))[8 * i .. 8 * i + 8][k] == PaddedByte(lanes, i, k) {
      PadByte(lanes, i, k);
    }
  }

  lemma DataLane(lanes: seq<Lane>, i: nat, eight: seq<Byte>)
    requires i < |lanes| < 16 && |eight| == 8 && forall k | 0 <= k < 8 :: eight[k] == PaddedByte(lanes, i, k)
    ensures LaneOf(eight) == OneBlock(lanes)[i]
  {
    LaneRoundTrip(lanes[i]);
    hide LaneOf, LaneByte, EightOf;
    forall k | 0 <= k < 8 ensures eight[k] == EightOf(lanes[i])[k] {
      EightAt(lanes[i], k);
    }
    assert eight == EightOf(lanes[i]);
  }

  lemma FixedLane(lanes: seq<Lane>, i: nat, eight: seq<Byte>)
    requires |lanes| < 16 && |lanes| <= i < 17 && |eight| == 8
    requires forall k | 0 <= k < 8 :: eight[k] == PaddedByte(lanes, i, k)
    ensures LaneOf(eight) == OneBlock(lanes)[i]
  {
    FixedLanes();
    hide LaneOf, LaneByte;
    assert i == |lanes| ==> eight == [0x06, 0, 0, 0, 0, 0, 0, 0];
    assert |lanes| < i < 16 ==> eight == [0, 0, 0, 0, 0, 0, 0, 0];
    assert i == 16 ==> eight == [0, 0, 0, 0, 0, 0, 0, 0x80];
  }

  lemma PaddedLane(lanes: seq<Lane>, i: nat)
    requires |lanes| < 16 && i < 17
    ensures |Sha3Pad(BytesOf(lanes))| == 136
    ensures LaneOf(Sha3Pad(BytesOf(lanes))[8 * i .. 8 * i + 8]) == OneBlock(lanes)[i]
  {
    hide *;
    PaddedEight(lanes, i);
    var eight := Sha3Pad(BytesOf(lanes))[8 * i .. 8 * i + 8];
    if i < |lanes| {
      DataLane(lanes, i, eight);
    } else {
      FixedLane(lanes, i, eight);
    }
  }

  /** Absorbing the padding of fewer than sixteen lanes into the zero state gives their block. */
  lemma PaddingIsOneBlock(lanes: seq<Lane>)
    requires |lanes| < 16
    ensures |Sha3Pad(BytesOf(lanes))| == 136
    ensures AbsorbBlock(ZeroState(), Sha3Pad(BytesOf(lanes))) == OneBlock(lanes)
  {
    PaddedLane(lanes, 0);
    forall i | 0 <= i < 25
      ensures AbsorbBlock(ZeroState(), Sha3Pad(BytesOf(lanes)))[i] == OneBlock(lanes)[i]
    {
      if i < 17 {
        PaddedLane(lanes, i);
        XorZero(OneBlock(lanes)[i]);
      }
      hide LaneOf, Sha3Pad, BytesOf, Xor;
    }
  }

  /** SHA3-256 of fewer than sixteen whole lanes is one permutation of their block. */
  lemma ShortSha3(lanes: seq<Lane>)
    requires |lanes| < 16
    ensures Sha3(BytesOf(lanes)) == BytesOf(KeccakRounds(OneBlock(lanes), 24)[..4])
  {
    PaddingIsOneBlock(lanes);
    hide Sha3Pad, BytesOf, AbsorbBlock, KeccakRounds, OneBlock;
    var p := Sha3Pad(BytesOf(lanes));
    assert p[..136] == p && p[136..] == [];
    var next := KeccakRounds(AbsorbBlock(ZeroState(), p), 24);
    assert Absorb(next, p[136..], 0) == next;
  }

  function NonceLane(bits: Lane, nonce: bv32): Lane { (bits & 0x00000000ffffffff) | ((nonce as Lane) << 32) }

  /** The header's ten lanes with the nonce in the high half of the last. */
  function Patched(hdr: seq<Lane>, nonce: bv32): (lanes: seq<Lane>)
    requires |hdr| == 10
    ensures |lanes| == 10
  {
    hdr[..9] + [NonceLane(hdr[9], nonce)]
  }

  /** The kernel's three passes: each digest is re-absorbed where it already lies. */
  method Sha3tHash(hdr: seq<Lane>, nonce: bv32) returns (digest: seq<Lane>)
    requires |hdr| == 10
    ensures |digest| == 4
    ensures BytesOf(digest) == Sha3(Sha3(Sha3(BytesOf(Patched(hdr, nonce)))))
  {
    var a := FirstPass(hdr, nonce);
    ShortSha3(Patched(hdr, nonce));
    hide *;
    KeccakF(a);
    for pass := 0 to 2
      invariant a.Length == 25
      invariant pass == 0 ==> BytesOf(a[..4]) == Sha3(BytesOf(Patched(hdr, nonce)))
      invariant pass == 1 ==> BytesOf(a[..4]) == Sha3(Sha3(BytesOf(Patched(hdr, nonce))))
      invariant pass == 2 ==> BytesOf(a[..4]) == Sha3(Sha3(Sha3(BytesOf(Patched(hdr, nonce)))))
    {
      ShortSha3(a[..4]);
      ResetTail(a);
      KeccakF(a);
    }
    digest := a[..4];
  }

  method FirstPass(hdr: seq<Lane>, nonce: bv32) returns (a: array<Lane>)
    requires |hdr| == 10
    ensures fresh(a) && a.Length == 25 && a[..] == OneBlock(Patched(hdr, nonce))
  {
    hide NonceLane;
    a := new Lane[25](_ => 0);
    for i := 0 to 9
      invariant forall j | 0 <= j < 25 :: a[j] == if j < i then hdr[j] else 0
    {
      a[i] := hdr[i];
    }
    a[9] := NonceLane(hdr[9], nonce);
    a[10] := 0x06;
    a[16] := 0x8000000000000000;
  }

  /** Everything past the digest is reset to padding. */
  method ResetTail(a: array<Lane>)
    requires a.Length == 25
    modifies a
    ensures a[..] == OneBlock(old(a[..4]))
  {
    a[4] := 0x06;
    for i := 5 to 25
      invariant forall j | 0 <= j < 25 :: a[j] == if j == 4 then 0x06 else if 5 <= j < i then 0 else old(a[j])
    {
      a[i] := 0;
    }
    a[16] := 0x8000000000000000;
  }

  lemma BytesAt(lanes: seq<Lane>, i: nat)
    requires i < 8 * |lanes|
    ensures BytesOf(lanes)[i] == LaneByte(lanes[i / 8], i % 8)
  {
    hide LaneByte;
  }

  lemma PatchedLane(hdr: seq<Lane>, nonce: bv32, j: nat)
    requires |hdr| == 10 && j < 10
    ensures Patched(hdr, nonce)[j] == if j == 9 then NonceLane(hdr[9], nonce) else hdr[j]
  {
    hide NonceLane;
  }

  /** The patched header keeps bytes 0 to 75 and ends in the nonce, least significant byte first. */
  lemma PatchedBytes(hdr: seq<Lane>, nonce: bv32, i: nat)
    requires |hdr| == 10 && i < 80
    ensures BytesOf(Patched(hdr, nonce))[i] ==
      if i < 76 then BytesOf(hdr)[i] else LaneByte(nonce as Lane, i - 76)
  {
    hide *;
    BytesAt(hdr, i);
    BytesAt(Patched(hdr, nonce), i);
    PatchedLane(hdr, nonce, i / 8);
    if i >= 72 {
      assert i / 8 == 9 && i % 8 == i - 72;
      NonceBytes(hdr[9], nonce, i - 72);
    }
  }

  lemma NonceBytes(bits: Lane, nonce: bv32, k: nat)
    requires k < 8
    ensures LaneByte(NonceLane(bits, nonce), k) == if k < 4 then LaneByte(bits, k) else LaneByte(nonce as Lane, k - 4)
  {
  }

  // ----- the target test -----

  const LANE: nat := 0x1_0000_0000_0000_0000

  function Value(l: Lane): (n: nat)
    ensures n < LANE
  {
    l as nat
  }

  function Join(a: nat, b: nat, c: nat, d: nat): (n: nat) {
    a + LANE * (b + LANE * (c + LANE * d))
  }

  /** Four lanes as one little-endian number. */
  function Number(lanes: seq<Lane>): (n: nat)
    requires |lanes| == 4
  {
    Join(Value(lanes[0]), Value(lanes[1]), Value(lanes[2]), Value(lanes[3]))
  }

  lemma JoinCompares(a: nat, b: nat, c: nat, d: nat, a': nat, b': nat, c': nat, d': nat)
    requires a < LANE && b < LANE && c < LANE && a' < LANE && b' < LANE && c' < LANE
    ensures Join(a, b, c, d) <= Join(a', b', c', d') <==>
      if d != d' then d < d' else if c != c' then c < c' else if b != b' then b < b' else a <= a'
  {
    PairCompares(c, d, c', d');
    PairCompares(b, c + LANE * d, b', c' + LANE * d');
    PairCompares(a, b + LANE * (c + LANE * d), a', b' + LANE * (c' + LANE * d'));
  }

  lemma PairCompares(a: nat, b: nat, a': nat, b': nat)
    requires a < LANE && a' < LANE
    ensures a + LANE * b <= a' + LANE * b' <==> b < b' || (b == b' && a <= a')
    ensures a + LANE * b == a' + LANE * b' <==> b == b' && a == a'
  {
  }

  lemma NumberCompares(h: seq<Lane>, t: seq<Lane>)
    requires |h| == |t| == 4
    ensures Number(h) <= Number(t) <==>
      if Value(h[3]) != Value(t[3]) then Value(h[3]) < Value(t[3])
      else if Value(h[2]) != Value(t[2]) then Value(h[2]) < Value(t[2])
      else if Value(h[1]) != Value(t[1]) then Value(h[1]) < Value(t[1])
      else Value(h[0]) <= Value(t[0])
  {
    hide Value, Join;
    JoinCompares(Value(h[0]), Value(h[1]), Value(h[2]), Value(h[3]), Value(t[0]), Value(t[1]), Value(t[2]),
      Value(t[3]));
  }

  /** The lane-by-lane comparison, most significant first, is the comparison of 256-bit numbers. */
  method LeTarget(h: seq<Lane>, t: seq<Lane>) returns (ok: bool)
    requires |h| == |t| == 4
    ensures ok <==> Number(h) <= Number(t)
  {
    hide *;
    NumberCompares(h, t);
    if Value(h[3]) != Value(t[3]) {
      return Value(h[3]) < Value(t[3]);
    }
    if Value(h[2]) != Value(t[2]) {
      return Value(h[2]) < Value(t[2]);
    }
    if Value(h[1]) != Value(t[1]) {
      return Value(h[1]) < Value(t[1]);
    }
    ok := Value(h[0]) <= Value(t[0]);
  }
}
