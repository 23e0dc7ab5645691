/** hashes.rs: the Keccak-f[1600] permutation, against the step mappings of sections 3.2.1 to
    3.2.5 of FIPS 202, with an explicit inverse. */
module Keccak {
  import opened Arithmetic

  /** Lane (x, y) of the state array is element x + 5 y. */
  type State = s: seq<bv64> | |s| == 25 witness seq(25, _ => 0)

  type Plane = c: seq<bv64> | |c| == 5 witness seq(5, _ => 0)

  function Xor(a: bv64, b: bv64): bv64 { a ^ b }

  function Xor5(a: bv64, b: bv64, c: bv64, d: bv64, e: bv64): bv64 {
    Xor(Xor(Xor(Xor(a, b), c), d), e)
  }

  function Rotl(v: bv64, n: nat): bv64
    requires n < 64
  {
    v.RotateLeft(n)
  }

  function Rotr(v: bv64, n: nat): bv64
    requires n < 64
  {
    v.RotateRight(n)
  }

  /** x + k and x - k modulo 5. */
  function Up(x: nat, k: nat): (y: nat)
    requires x < 5 && k < 5
    ensures y < 5
  {
    if x + k < 5 then x + k else x + k - 5
  }

  function Down(x: nat, k: nat): (y: nat)
    requires x < 5 && k < 5
    ensures y < 5
  {
    if x >= k then x - k else x + 5 - k
  }

  // ----- the step mappings ---------------------------------------------------------------

  function Parity(s: State, x: nat): bv64
    requires x < 5
  {
    Xor5(s[x], s[x + 5], s[x + 10], s[x + 15], s[x + 20])
  }

  /** The column parities C of section 3.2.1. */
  function Parities(s: State): Plane {
    [Parity(s, 0), Parity(s, 1), Parity(s, 2), Parity(s, 3), Parity(s, 4)]
  }

  function Column(i: nat): (x: nat)
    ensures x < 5
  {
    i % 5
  }

  /** The plane D of section 3.2.1. */
  function ThetaEffect(c: Plane, x: nat): bv64
    requires x < 5
  {
    Xor(c[(x + 4) % 5], Rotl(c[(x + 1) % 5], 1))
  }

  function Theta(s: State): State {
    seq(25, i requires 0 <= i < 25 => Xor(s[i], ThetaEffect(Parities(s), Column(i))))
  }

  /** The walk over the lanes of section 3.2.2, step 3. */
  function Walk(t: nat): (nat, nat) {
    if t == 0 then (1, 0) else var (x, y) := Walk(t - 1); (y, (2 * x + 3 * y) % 5)
  }

  /** Offsets of Table 2 of FIPS 202, modulo 64. */
  function RhoOffset(i: nat): (n: nat)
    requires i < 25
    ensures n < 64
  {
    match i
    case 0 => 0 case 1 => 1 case 2 => 62 case 3 => 28 case 4 => 27
    case 5 => 36 case 6 => 44 case 7 => 6 case 8 => 55 case 9 => 20
    case 10 => 3 case 11 => 10 case 12 => 43 case 13 => 25 case 14 => 39
    case 15 => 41 case 16 => 45 case 17 => 15 case 18 => 21 case 19 => 8
    case 20 => 18 case 21 => 2 case 22 => 61 case 23 => 56 case _ => 14
  }

  function Rho(s: State): State {
    seq(25, i requires 0 <= i < 25 => Rotl(s[i], RhoOffset(i)))
  }

  /** Where lane i = x + 5 y of the result of pi comes from: lane (x + 3 y, x). */
  function PiSource(i: nat): (j: nat)
    requires i < 25
    ensures j < 25
  {
    (i % 5 + 3 * (i / 5)) % 5 + 5 * (i % 5)
  }

  function Pi(s: State): State {
    seq(25, i requires 0 <= i < 25 => s[PiSource(i)])
  }

  function ChiLane(a: bv64, b: bv64, c: bv64): bv64 { a ^ (!b & c) }

  /** Lane (x + k, y) for lane i = (x, y). */
  function InRow(i: nat, k: nat): (j: nat)
    requires i < 25 && k < 5
    ensures j < 25
  {
    Up(i % 5, k) + 5 * (i / 5)
  }

  function ChiAt(s: State, i: nat): bv64
    requires i < 25
  {
    ChiLane(s[i], s[InRow(i, 1)], s[InRow(i, 2)])
  }

  function Chi(s: State): State {
    seq(25, i requires 0 <= i < 25 => ChiAt(s, i))
  }

  /** The constants the source tabulates. */
  function RoundConstant(round: nat): bv64
    requires round < 24
  {
    match round
    case 0 => 0x0000000000000001
    case 1 => 0x0000000000008082
    case 2 => 0x800000000000808a
    case 3 => 0x8000000080008000
    case 4 => 0x000000000000808b
    case 5 => 0x0000000080000001
    case 6 => 0x8000000080008081
    case 7 => 0x8000000000008009
    case 8 => 0x000000000000008a
    case 9 => 0x0000000000000088
    case 10 => 0x0000000080008009
    case 11 => 0x000000008000000a
    case 12 => 0x000000008000808b
    case 13 => 0x800000000000008b
    case 14 => 0x8000000000008089
    case 15 => 0x8000000000008003
    case 16 => 0x8000000000008002
    case 17 => 0x8000000000000080
    case 18 => 0x000000000000800a
    case 19 => 0x800000008000000a
    case 20 => 0x8000000080008081
    case 21 => 0x8000000000008080
    case 22 => 0x0000000080000001
    case _ => 0x8000000080008008
  }

  function Iota(s: State, round: nat): State
    requires round < 24
  {
    s[0 := Xor(s[0], RoundConstant(round))]
  }

  function Round(s: State, round: nat): State
    requires round < 24
  {
    Iota(Chi(Pi(Rho(Theta(s)))), round)
  }

  /** Rounds first, first + 1, ..., 23. */
  function Rounds(s: State, first: nat): State
    requires first <= 24
    decreases 24 - first
  {
    if first == 24 then s else Rounds(Round(s, first), first + 1)
  }

  function KeccakF(s: State): State { Rounds(s, 0) }

  /** The permutation as a chain of 25 states, one round of the five step mappings from each to the
      next, numbered 0 to 23 (section 3.3 of FIPS 202). */
  ghost predicate IsKeccakF(s: State, r: State) {
    exists st: seq<State> :: IsRoundChain(st, 0) && |st| == 25 && st[0] == s && st[24] == r
  }

  ghost predicate IsRoundChain(st: seq<State>, first: nat) {
    first + |st| <= 25 && forall i: nat :: i + 1 < |st| ==> st[i + 1] == Iota(Chi(Pi(Rho(Theta(st[i])))), first + i)
  }

  /** KeccakF is 24 rounds, from round 0 on. */
  lemma KeccakFIs24Rounds(s: State)
    ensures IsKeccakF(s, KeccakF(s))
  {
    hide Rounds, Theta, Rho, Pi, Chi, Iota;
    var st := RoundChain(s, 0);
  }

  lemma {:induction false} RoundChain(s: State, first: nat) returns (st: seq<State>)
    requires first <= 24
    ensures IsRoundChain(st, first) && |st| == 25 - first && st[0] == s && st[24 - first] == Rounds(s, first)
    decreases 24 - first
  {
    hide Theta, Rho, Pi, Chi, Iota;
    if first == 24 {
      st := [s];
    } else {
      var rest := RoundChain(Round(s, first), first + 1);
      st := [s] + rest;
      forall i: nat | i + 1 < |st| ensures st[i + 1] == Iota(Chi(Pi(Rho(Theta(st[i])))), first + i) {
        if i > 0 { assert st[i + 1] == rest[i] && st[i] == rest[i - 1]; }
      }
    }
  }

  // ----- the constants are those of the standard --------------------------------------------

  /** The walk stays off the lane (0, 0), and the offset of the lane met at t is (t+1)(t+2)/2. */
  lemma OffsetsFromWalk(t: nat)
    requires t < 24
    ensures var (x, y) := Walk(t);
      x < 5 && y < 5 && (x, y) != (0, 0) && RhoOffset(x + 5 * y) == (t + 1) * (t + 2) / 2 % 64
  {
    hide Walk;
    WalkTable();
    match t
    case 0 => case 1 => case 2 => case 3 => case 4 => case 5 => case 6 => case 7 =>
    case 8 => case 9 => case 10 => case 11 => case 12 => case 13 => case 14 => case 15 =>
    case 16 => case 17 => case 18 => case 19 => case 20 => case 21 => case 22 => case _ =>
  }

  lemma WalkTable()
    ensures Walk(0) == (1, 0) && Walk(1) == (0, 2) && Walk(2) == (2, 1) && Walk(3) == (1, 2)
    ensures Walk(4) == (2, 3) && Walk(5) == (3, 3) && Walk(6) == (3, 0) && Walk(7) == (0, 1)
    ensures Walk(8) == (1, 3) && Walk(9) == (3, 1) && Walk(10) == (1, 4) && Walk(11) == (4, 4)
    ensures Walk(12) == (4, 0) && Walk(13) == (0, 3) && Walk(14) == (3, 4) && Walk(15) == (4, 3)
    ensures Walk(16) == (3, 2) && Walk(17) == (2, 2) && Walk(18) == (2, 0) && Walk(19) == (0, 4)
    ensures Walk(20) == (4, 2) && Walk(21) == (2, 4) && Walk(22) == (4, 1) && Walk(23) == (1, 1)
  {
    WalkStart();
    hide Walk;
    WalkNext(0, 1, 0); WalkNext(1, 0, 2); WalkNext(2, 2, 1); WalkNext(3, 1, 2);
    WalkNext(4, 2, 3); WalkNext(5, 3, 3); WalkNext(6, 3, 0); WalkNext(7, 0, 1);
    WalkNext(8, 1, 3); WalkNext(9, 3, 1); WalkNext(10, 1, 4); WalkNext(11, 4, 4);
    WalkNext(12, 4, 0); WalkNext(13, 0, 3); WalkNext(14, 3, 4); WalkNext(15, 4, 3);
    WalkNext(16, 3, 2); WalkNext(17, 2, 2); WalkNext(18, 2, 0); WalkNext(19, 0, 4);
    WalkNext(20, 4, 2); WalkNext(21, 2, 4); WalkNext(22, 4, 1);
  }

  lemma WalkStart()
    ensures Walk(0) == (1, 0)
  {}

  lemma WalkNext(t: nat, x: nat, y: nat)
    requires Walk(t) == (x, y)
    ensures Walk(t + 1) == (y, (2 * x + 3 * y) % 5)
  {}

  /** One step of the shift register of Algorithm 5 of FIPS 202; bit i is R[i]. */
  function LfsrStep(r: bv8): bv8 { (r << 1) ^ (if r & 0x80 != 0 then 0x71 else 0) }

  function LfsrSteps7(r: bv8): bv8 {
    LfsrStep(LfsrStep(LfsrStep(LfsrStep(LfsrStep(LfsrStep(LfsrStep(r)))))))
  }

  /** The register after 7 * round steps. */
  function LfsrBlock(round: nat): bv8 {
    if round == 0 then 1 else LfsrSteps7(LfsrBlock(round - 1))
  }

  function Low(r: bv8, mask: bv64): bv64 { if r & 1 == 1 then mask else 0 }

  /** RC of Algorithm 6 of FIPS 202: bit 2^j - 1 is rc(j + 7 round), for j = 0..6. */
  function ConstantFrom(r0: bv8): bv64 {
    var r1 := LfsrStep(r0); var r2 := LfsrStep(r1); var r3 := LfsrStep(r2);
    var r4 := LfsrStep(r3); var r5 := LfsrStep(r4); var r6 := LfsrStep(r5);
    Low(r0, 0x1) ^ Low(r1, 0x2) ^ Low(r2, 0x8) ^ Low(r3, 0x80) ^ Low(r4, 0x8000)
    ^ Low(r5, 0x8000_0000) ^ Low(r6, 0x8000_0000_0000_0000)
  }

  lemma LfsrTable()
    ensures LfsrBlock(0) == 0x01 && LfsrBlock(1) == 0x80 && LfsrBlock(2) == 0xd8 && LfsrBlock(3) == 0x1a
         && LfsrBlock(4) == 0xdf && LfsrBlock(5) == 0x09 && LfsrBlock(6) == 0x35 && LfsrBlock(7) == 0x4f
         && LfsrBlock(8) == 0xca && LfsrBlock(9) == 0x70 && LfsrBlock(10) == 0x41 && LfsrBlock(11) == 0xec
         && LfsrBlock(12) == 0xd5 && LfsrBlock(13) == 0xcd && LfsrBlock(14) == 0x63 && LfsrBlock(15) == 0xab
         && LfsrBlock(16) == 0xaa && LfsrBlock(17) == 0x2a && LfsrBlock(18) == 0xf2 && LfsrBlock(19) == 0xe8
         && LfsrBlock(20) == 0x37 && LfsrBlock(21) == 0x3e && LfsrBlock(22) == 0x0b && LfsrBlock(23) == 0x44
  {
    assert LfsrBlock(0) == 0x01;
    assert LfsrBlock(2) == 0xd8;
    assert LfsrBlock(4) == 0xdf;
    assert LfsrBlock(6) == 0x35;
    assert LfsrBlock(8) == 0xca;
    assert LfsrBlock(10) == 0x41;
    assert LfsrBlock(12) == 0xd5;
    assert LfsrBlock(14) == 0x63;
    assert LfsrBlock(16) == 0xaa;
    assert LfsrBlock(18) == 0xf2;
    assert LfsrBlock(20) == 0x37;
    assert LfsrBlock(22) == 0x0b;
  }

  lemma Constants0()
    ensures ConstantFrom(0x01) == 0x0000000000000001
         && ConstantFrom(0x80) == 0x0000000000008082
         && ConstantFrom(0xd8) == 0x800000000000808a
         && ConstantFrom(0x1a) == 0x8000000080008000
         && ConstantFrom(0xdf) == 0x000000000000808b
         && ConstantFrom(0x09) == 0x0000000080000001
  {}

  lemma Constants6()
    ensures ConstantFrom(0x35) == 0x8000000080008081
         && ConstantFrom(0x4f) == 0x8000000000008009
         && ConstantFrom(0xca) == 0x000000000000008a
         && ConstantFrom(0x70) == 0x0000000000000088
         && ConstantFrom(0x41) == 0x0000000080008009
         && ConstantFrom(0xec) == 0x000000008000000a
  {}

  lemma Constants12()
    ensures ConstantFrom(0xd5) == 0x000000008000808b
         && ConstantFrom(0xcd) == 0x800000000000008b
         && ConstantFrom(0x63) == 0x8000000000008089
         && ConstantFrom(0xab) == 0x8000000000008003
         && ConstantFrom(0xaa) == 0x8000000000008002
         && ConstantFrom(0x2a) == 0x8000000000000080
  {}

  lemma Constants18()
    ensures ConstantFrom(0xf2) == 0x000000000000800a
         && ConstantFrom(0xe8) == 0x800000008000000a
         && ConstantFrom(0x37) == 0x8000000080008081
         && ConstantFrom(0x3e) == 0x8000000000008080
         && ConstantFrom(0x0b) == 0x0000000080000001
         && ConstantFrom(0x44) == 0x8000000080008008
  {}

  /** The tabulated round constants are those of section 3.2.5. */
  lemma RoundConstantsAreStandard(round: nat)
    requires round < 24
    ensures RoundConstant(round) == ConstantFrom(LfsrBlock(round))
  {
    hide ConstantFrom, LfsrBlock;
    LfsrTable();
    Constants0();
    Constants6();
    Constants12();
    Constants18();
  }

  // ----- the permutation in place -----------------------------------------------------------

  /** The lanes before (x, y) when x is the outer loop. */
  predicate ColumnsDone(i: nat, x: nat, y: nat) { i % 5 < x || (i % 5 == x && i / 5 < y) }

  lemma ColumnsStepAt(i: nat, x: nat, y: nat)
    requires i < 25 && x < 5 && y < 5
    ensures ColumnsDone(i, x, y + 1) <==> ColumnsDone(i, x, y) || i == x + 5 * y
  {
    var a, b := i % 5, i / 5;
    assert i == a + 5 * b;
    assert i == x + 5 * y <==> a == x && b == y;
  }

  lemma ColumnsStep(x: nat, y: nat)
    requires x < 5 && y < 5
    ensures forall i: nat :: i < 25 ==> (ColumnsDone(i, x, y + 1) <==> ColumnsDone(i, x, y) || i == x + 5 * y)
    ensures !ColumnsDone(x + 5 * y, x, y) && Column(x + 5 * y) == x
  {
    LaneCoordinates(x, y);
    forall i: nat | i < 25 ensures ColumnsDone(i, x, y + 1) <==> ColumnsDone(i, x, y) || i == x + 5 * y {
      ColumnsStepAt(i, x, y);
    }
  }

  lemma ColumnsNext(x: nat)
    requires x < 5
    ensures forall i: nat :: i < 25 ==> (ColumnsDone(i, x, 5) <==> ColumnsDone(i, x + 1, 0))
  {}

  lemma ColumnsEnds()
    ensures forall i: nat :: i < 25 ==> ColumnsDone(i, 5, 0) && !ColumnsDone(i, 0, 0)
  {}

  method ApplyEffect(s: array<bv64>, d: array<bv64>)
    requires s.Length == 25 && d.Length == 5 && s != d
    modifies s
    ensures forall i: nat :: i < 25 ==> s[i] == Xor(old(s[i]), d[Column(i)])
  {
    hide ColumnsDone, Xor, Column;
    ColumnsEnds();
    for x := 0 to 5
      invariant forall i: nat :: i < 25 && ColumnsDone(i, x, 0) ==> s[i] == Xor(old(s[i]), d[Column(i)])
      invariant forall i: nat :: i < 25 && !ColumnsDone(i, x, 0) ==> s[i] == old(s[i])
    {
      for y := 0 to 5
        invariant forall i: nat :: i < 25 && ColumnsDone(i, x, y) ==> s[i] == Xor(old(s[i]), d[Column(i)])
        invariant forall i: nat :: i < 25 && !ColumnsDone(i, x, y) ==> s[i] == old(s[i])
      {
        ColumnsStep(x, y);
        s[x + 5 * y] := Xor(s[x + 5 * y], d[x]);
      }
      ColumnsNext(x);
    }
  }

  method ColumnParities(s: array<bv64>) returns (c: array<bv64>)
    requires s.Length == 25
    ensures fresh(c) && c.Length == 5 && c[..] == Parities(s[..])
  {
    hide Xor5;
    c := new bv64[5];
    for x := 0 to 5
      invariant forall k: nat :: k < x ==> c[k] == Parity(s[..], k)
    {
      c[x] := Xor5(s[x], s[x + 5], s[x + 10], s[x + 15], s[x + 20]);
    }
  }

  method ThetaInPlace(s: array<bv64>)
    requires s.Length == 25
    modifies s
    ensures s[..] == Theta(old(s[..]))
  {
    hide Parities, Xor, Rotl, Column;
    ghost var s0: State := s[..];
    ghost var p := Parities(s0);
    var c := ColumnParities(s);
    var d := new bv64[5];
    for x := 0 to 5
      invariant c[..] == p && s[..] == s0
      invariant forall k: nat :: k < x ==> d[k] == ThetaEffect(p, k)
    {
      d[x] := Xor(c[(x + 4) % 5], Rotl(c[(x + 1) % 5], 1));
    }
    ApplyEffect(s, d);
    forall i: nat | i < 25 ensures s[i] == Theta(s0)[i] {
      assert d[Column(i)] == ThetaEffect(p, Column(i));
    }
  }

  /** PIL and ROTC of the source. */
  function Pil(i: nat): (j: nat)
    requires i < 24
    ensures 1 <= j < 25
  {
    match i
    case 0 => 10 case 1 => 7 case 2 => 11 case 3 => 17 case 4 => 18 case 5 => 3 case 6 => 5 case 7 => 16
    case 8 => 8 case 9 => 21 case 10 => 24 case 11 => 4 case 12 => 15 case 13 => 23 case 14 => 19 case 15 => 13
    case 16 => 12 case 17 => 2 case 18 => 20 case 19 => 14 case 20 => 22 case 21 => 9 case 22 => 6 case _ => 1
  }

  function Rotc(i: nat): (n: nat)
    requires i < 24
    ensures n < 64
  {
    match i
    case 0 => 1 case 1 => 3 case 2 => 6 case 3 => 10 case 4 => 15 case 5 => 21 case 6 => 28 case 7 => 36
    case 8 => 45 case 9 => 55 case 10 => 2 case 11 => 14 case 12 => 27 case 13 => 41 case 14 => 56 case 15 => 8
    case 16 => 25 case 17 => 43 case 18 => 62 case 19 => 18 case 20 => 39 case 21 => 61 case 22 => 20 case _ => 44
  }

  /** The lane the walk holds in t before step i. */
  function Held(i: nat): (j: nat)
    requires i <= 24
    ensures 1 <= j < 25
  {
    if i == 0 then 1 else Pil(i - 1)
  }

  /** Step i moves lane Held(i) to Pil(i), exactly as pi asks, rotated as rho asks. */
  lemma WalkIsRhoPi(i: nat)
    requires i < 24
    ensures PiSource(Pil(i)) == Held(i) && RhoOffset(Held(i)) == Rotc(i)
  {
    hide PiSource, RhoOffset;
    WalkSource(i);
    WalkOffset(i);
  }

  lemma WalkSource(i: nat)
    requires i < 24
    ensures PiSource(Pil(i)) == Held(i)
  {
    hide PiSource;
    PiSources();
    match i
    case 0 => case 1 => case 2 => case 3 => case 4 => case 5 => case 6 => case 7 =>
    case 8 => case 9 => case 10 => case 11 => case 12 => case 13 => case 14 => case 15 =>
    case 16 => case 17 => case 18 => case 19 => case 20 => case 21 => case 22 => case _ =>
  }

  lemma PiSources()
    ensures PiSource(0) == 0 && PiSource(1) == 6 && PiSource(2) == 12 && PiSource(3) == 18 && PiSource(4) == 24
    ensures PiSource(5) == 3 && PiSource(6) == 9 && PiSource(7) == 10 && PiSource(8) == 16 && PiSource(9) == 22
    ensures PiSource(10) == 1 && PiSource(11) == 7 && PiSource(12) == 13 && PiSource(13) == 19 && PiSource(14) == 20
    ensures PiSource(15) == 4 && PiSource(16) == 5 && PiSource(17) == 11 && PiSource(18) == 17 && PiSource(19) == 23
    ensures PiSource(20) == 2 && PiSource(21) == 8 && PiSource(22) == 14 && PiSource(23) == 15 && PiSource(24) == 21
  {}

  lemma WalkOffset(i: nat)
    requires i < 24
    ensures RhoOffset(Held(i)) == Rotc(i)
  {
    match i
    case 0 => case 1 => case 2 => case 3 => case 4 => case 5 => case 6 => case 7 =>
    case 8 => case 9 => case 10 => case 11 => case 12 => case 13 => case 14 => case 15 =>
    case 16 => case 17 => case 18 => case 19 => case 20 => case 21 => case 22 => case _ =>
  }

  lemma PilInjective(i: nat, k: nat)
    requires i < 24 && k < 24 && i != k
    ensures Pil(i) != Pil(k)
  {}

  /** The step that fills lane j. */
  function PilIndex(j: nat): (i: nat)
    requires 1 <= j < 25
    ensures i < 24 && Pil(i) == j
  {
    match j
    case 1 => 23 case 2 => 17 case 3 => 5 case 4 => 11 case 5 => 6 case 6 => 22 case 7 => 1 case 8 => 8
    case 9 => 21 case 10 => 0 case 11 => 2 case 12 => 16 case 13 => 15 case 14 => 19 case 15 => 12 case 16 => 7
    case 17 => 3 case 18 => 4 case 19 => 14 case 20 => 18 case 21 => 9 case 22 => 20 case 23 => 13 case _ => 10
  }

  /** The tabulated walk is the standard's: before step t it holds the lane Walk(t). */
  lemma WalkIsHeld(t: nat)
    requires t < 24
    ensures var (x, y) := Walk(t); x + 5 * y == Held(t)
  {
    hide Walk;
    WalkTable();
    match t
    case 0 => case 1 => case 2 => case 3 => case 4 => case 5 => case 6 => case 7 =>
    case 8 => case 9 => case 10 => case 11 => case 12 => case 13 => case 14 => case 15 =>
    case 16 => case 17 => case 18 => case 19 => case 20 => case 21 => case 22 => case _ =>
  }

  /** It meets every lane but (0, 0), each once: 24 lanes off the origin, all different. */
  lemma WalkVisitsOnce(t: nat, u: nat)
    requires t < u < 24
    ensures Walk(t) != Walk(u)
  {
    hide Walk, Pil;
    WalkIsHeld(t);
    WalkIsHeld(u);
    if t > 0 { PilInjective(t - 1, u - 1); } else { LastReturns(u); }
  }

  lemma LastReturns(u: nat)
    requires 0 < u < 24
    ensures Held(u) != Held(0)
  {
    hide Pil;
    assert Pil(23) == 1 by { PilLast(); }
    PilInjective(u - 1, 23);
  }

  lemma PilLast()
    ensures Pil(23) == 1
  {}

  method RhoPiInPlace(s: array<bv64>)
    requires s.Length == 25
    modifies s
    ensures s[..] == Pi(Rho(old(s[..])))
  {
    hide Rotl, Pil, Rotc, Rho, Pi;
    ghost var s0: State := s[..];
    var t := s[1];
    for i := 0 to 24
      invariant t == s0[Held(i)]
      invariant s[0] == s0[0]
      invariant forall k: nat :: k < i ==> s[Pil(k)] == Rotl(s0[Held(k)], Rotc(k))
      invariant forall k: nat :: i <= k < 24 ==> s[Pil(k)] == s0[Pil(k)]
    {
      var j := Pil(i);
      var tmp := s[j];
      forall k: nat | k < 24 && k != i ensures Pil(k) != j { PilInjective(i, k); }
      s[j] := Rotl(t, Rotc(i));
      t := tmp;
    }
    RhoPiDone(s0, s[..]);
  }

  lemma RhoPiDone(s0: State, s: State)
    requires s[0] == s0[0]
    requires forall k: nat :: k < 24 ==> s[Pil(k)] == Rotl(s0[Held(k)], Rotc(k))
    ensures s == Pi(Rho(s0))
  {
    hide Rotl, Pil, Rotc, PiSource, RhoOffset, PilIndex, Held, Rho, Pi;
    forall j: nat | j < 25 ensures s[j] == Pi(Rho(s0))[j] {
      RhoPiLane(s0, j);
      if j == 0 {
        OriginStays(s0);
      } else {
        WalkIsRhoPi(PilIndex(j));
      }
    }
  }

  lemma RhoPiLane(s: State, j: nat)
    requires j < 25
    ensures Pi(Rho(s))[j] == Rotl(s[PiSource(j)], RhoOffset(PiSource(j)))
  {}

  lemma OriginStays(s: State)
    ensures PiSource(0) == 0 && Rotl(s[0], RhoOffset(0)) == s[0]
  {}

  lemma RowIndices(x: nat, y: nat)
    requires x < 5 && y < 5
    ensures InRow(x + 5 * y, 1) == (x + 1) % 5 + 5 * y && InRow(x + 5 * y, 2) == (x + 2) % 5 + 5 * y
  {}

  lemma ChiFromRow(s: State, row: Plane, x: nat, y: nat)
    requires x < 5 && y < 5 && forall k: nat :: k < 5 ==> row[k] == s[k + 5 * y]
    ensures ChiLane(row[x], row[(x + 1) % 5], row[(x + 2) % 5]) == ChiAt(s, x + 5 * y)
  {
    hide ChiLane, InRow;
    RowIndices(x, y);
    var x1, x2 := (x + 1) % 5, (x + 2) % 5;
    assert row[x1] == s[x1 + 5 * y] && row[x2] == s[x2 + 5 * y];
  }

  method ChiInPlace(s: array<bv64>)
    requires s.Length == 25
    modifies s
    ensures s[..] == Chi(old(s[..]))
  {
    hide ChiLane, ChiAt;
    ghost var s0: State := s[..];
    for y := 0 to 5
      invariant forall i: nat :: i < 5 * y ==> s[i] == ChiAt(s0, i)
      invariant forall i: nat :: 5 * y <= i < 25 ==> s[i] == s0[i]
    {
      var row := new bv64[5];
      for x := 0 to 5
        invariant forall k: nat :: k < x ==> row[k] == s0[k + 5 * y]
        invariant forall i: nat :: i < 5 * y ==> s[i] == ChiAt(s0, i)
        invariant forall i: nat :: 5 * y <= i < 25 ==> s[i] == s0[i]
      {
        row[x] := s[x + 5 * y];
      }
      for x := 0 to 5
        invariant forall k: nat :: k < 5 ==> row[k] == s0[k + 5 * y]
        invariant forall i: nat :: i < 5 * y + x ==> s[i] == ChiAt(s0, i)
        invariant forall i: nat :: 5 * y + x <= i < 25 ==> s[i] == s0[i]
      {
        ChiFromRow(s0, row[..], x, y);
        s[x + 5 * y] := ChiLane(row[x], row[(x + 1) % 5], row[(x + 2) % 5]);
      }
    }
  }

  /** The in-place permutation of the source is the 24 rounds of the standard. */
  method KeccakF1600(s: array<bv64>)
    requires s.Length == 25
    modifies s
    ensures s[..] == KeccakF(old(s[..])) && IsKeccakF(old(s[..]), s[..])
  {
    hide Theta, Rho, Pi, Chi, Xor, RoundConstant, IsKeccakF;
    KeccakFIs24Rounds(s[..]);
    for round := 0 to 24
      invariant Rounds(s[..], round) == KeccakF(old(s[..]))
    {
      ghost var s0: State := s[..];
      ThetaInPlace(s);
      RhoPiInPlace(s);
      ChiInPlace(s);
      s[0] := Xor(s[0], RoundConstant(round));
      assert s[..] == Round(s0, round);
    }
  }

  // ----- xor and rotation, once and for all ---------------------------------------------------

  lemma XorLeft(a: bv64, b: bv64, c: bv64)
    ensures Xor(Xor(a, b), c) == a ^ b ^ c
  {}

  lemma XorRight(a: bv64, b: bv64, c: bv64)
    ensures Xor(a, Xor(b, c)) == a ^ b ^ c
  {}

  lemma XorAssoc(a: bv64, b: bv64, c: bv64)
    ensures Xor(Xor(a, b), c) == Xor(a, Xor(b, c))
  {
    hide Xor;
    XorLeft(a, b, c);
    XorRight(a, b, c);
  }

  lemma XorComm(a: bv64, b: bv64)
    ensures Xor(a, b) == Xor(b, a)
  {}

  lemma XorCancel(a: bv64, b: bv64)
    ensures Xor(a, Xor(a, b)) == b && Xor(Xor(b, a), a) == b
  {}

  /** (a + d) + (b + d) = a + b. */
  lemma XorShared(a: bv64, b: bv64, d: bv64)
    ensures Xor(Xor(a, d), Xor(b, d)) == Xor(a, b)
  {
    hide Xor;
    XorComm(b, d);
    XorAssoc(a, d, Xor(d, b));
    XorCancel(d, b);
  }

  ghost predicate LinearLaw(n: nat, a: bv64, b: bv64)
    requires n < 64
  {
    Rotl(Xor(a, b), n) == Xor(Rotl(a, n), Rotl(b, n))
  }

  ghost predicate DoubleLaw(n: nat, m: nat, a: bv64)
    requires n < 64 && m < 64
  {
    Rotl(Rotl(a, n), n) == Rotl(a, m)
  }

  /** Rotation by n distributes over xor. */
  ghost predicate RotationLinear(n: nat)
    requires n < 64
  {
    forall a: bv64, b: bv64 :: LinearLaw(n, a, b)
  }

  /** Rotating by n twice is rotating by m. */
  ghost predicate RotationDoubles(n: nat, m: nat)
    requires n < 64 && m < 64
  {
    forall a: bv64 :: DoubleLaw(n, m, a)
  }

  lemma Rotation1()
    ensures RotationLinear(1)
  {}

  lemma LinearDoubles(n: nat, m: nat)
    requires n < 64 && m < 64 && RotationLinear(n) && RotationDoubles(n, m)
    ensures RotationLinear(m)
  {
    hide Xor, Rotl;
    forall a: bv64, b: bv64 ensures LinearLaw(m, a, b) {
      assert DoubleLaw(n, m, Xor(a, b)) && DoubleLaw(n, m, a) && DoubleLaw(n, m, b);
      assert LinearLaw(n, a, b) && LinearLaw(n, Rotl(a, n), Rotl(b, n));
    }
  }

  lemma Doubling1()
    ensures RotationDoubles(1, 2)
  {}

  lemma Doubling2()
    ensures RotationDoubles(2, 4)
  {}

  lemma Doubling4()
    ensures RotationDoubles(4, 8)
  {}

  lemma Doubling8()
    ensures RotationDoubles(8, 16)
  {}

  lemma Doubling16()
    ensures RotationDoubles(16, 32)
  {}

  lemma Doubling32()
    ensures RotationDoubles(32, 0)
  {}

  // ----- theta on the column parities ----------------------------------------------------------

  /** Lane x becomes c[x] + c[x - k] + rot(c[x + k], r): the plane, as a polynomial over GF(2)
      with X^5 = 1 and Y^64 = 1, times 1 + X^k + X^-k Y^r. */
  function MixWord(a: bv64, b: bv64, c: bv64, r: nat): bv64
    requires r < 64
  {
    Xor(a, Xor(b, Rotl(c, r)))
  }

  function MixLane(c: Plane, x: nat, k: nat, r: nat): bv64
    requires x < 5 && k < 5 && r < 64
  {
    MixWord(c[x], c[Down(x, k)], c[Up(x, k)], r)
  }

  function Mix(c: Plane, k: nat, r: nat): (m: Plane)
    requires k < 5 && r < 64
  {
    [MixLane(c, 0, k, r), MixLane(c, 1, k, r), MixLane(c, 2, k, r), MixLane(c, 3, k, r), MixLane(c, 4, k, r)]
  }

  lemma Xor5Shared(a: bv64, b: bv64, c: bv64, d: bv64, e: bv64, t: bv64)
    ensures Xor5(Xor(a, t), Xor(b, t), Xor(c, t), Xor(d, t), Xor(e, t)) == Xor(Xor5(a, b, c, d, e), t)
  {
    hide Xor;
    XorShared(a, b, t);
    var ab := Xor(a, b);
    XorAssoc(ab, c, t);
    var abc := Xor(ab, c);
    XorShared(abc, d, t);
    XorAssoc(Xor(abc, d), e, t);
  }

  /** An odd number of equal terms survives in each column sum. */
  lemma ParityOfTheta(s: State, x: nat)
    requires x < 5
    ensures Parity(Theta(s), x) == MixLane(Parities(s), x, 1, 1)
  {
    hide Xor, Rotl, Xor5, Parities, ThetaEffect, Theta;
    var c := Parities(s);
    var t := ThetaEffect(c, x);
    ThetaAt(s, x); ThetaAt(s, x + 5); ThetaAt(s, x + 10); ThetaAt(s, x + 15); ThetaAt(s, x + 20);
    Xor5Shared(s[x], s[x + 5], s[x + 10], s[x + 15], s[x + 20], t);
    ParitiesAt(s, x);
    EffectIsMix(c, x);
  }

  lemma ThetaAt(s: State, i: nat)
    requires i < 25
    ensures Theta(s)[i] == Xor(s[i], ThetaEffect(Parities(s), Column(i)))
  {
    hide Xor, ThetaEffect, Parities;
  }

  lemma EffectIsMix(c: Plane, x: nat)
    requires x < 5
    ensures Xor(c[x], ThetaEffect(c, x)) == MixLane(c, x, 1, 1)
  {
    hide Xor, Rotl;
    assert (x + 4) % 5 == Down(x, 1) && (x + 1) % 5 == Up(x, 1);
  }

  lemma ParitiesAt(s: State, x: nat)
    requires x < 5
    ensures Parities(s)[x] == Parity(s, x)
  {}

  lemma ParitiesOfTheta(s: State)
    ensures Parities(Theta(s)) == Mix(Parities(s), 1, 1)
  {
    hide Xor, Rotl, Parity, Theta, MixLane;
    ParityOfTheta(s, 0);
    ParityOfTheta(s, 1);
    ParityOfTheta(s, 2);
    ParityOfTheta(s, 3);
    ParityOfTheta(s, 4);
  }

  /** Squaring the polynomial: the three cross terms appear twice and cancel. */
  lemma CrossTerms(c0: bv64, c4: bv64, p: bv64, c3: bv64, q: bv64, t: bv64)
    ensures Xor(Xor(c0, Xor(c4, p)), Xor(Xor(c4, Xor(c3, q)), Xor(p, Xor(q, t)))) == Xor(c0, Xor(c3, t))
  {
    hide Xor;
    // (c4 + (c3 + q)) + (p + (q + t)) = (c4 + p) + (c3 + t)
    XorAssoc(c4, Xor(c3, q), Xor(p, Xor(q, t)));
    XorComm(p, Xor(q, t));
    XorAssoc(Xor(c3, q), Xor(q, t), p);
    XorAssoc(c3, q, Xor(q, t));
    XorCancel(q, t);
    XorComm(Xor(c3, t), p);
    XorAssoc(c4, p, Xor(c3, t));
    // (c0 + (c4 + p)) + ((c4 + p) + (c3 + t)) = c0 + (c3 + t)
    XorAssoc(c0, Xor(c4, p), Xor(Xor(c4, p), Xor(c3, t)));
    XorCancel(Xor(c4, p), Xor(c3, t));
  }

  lemma MixWordSquared(c0: bv64, c4: bv64, c1: bv64, c3: bv64, c2: bv64, r: nat, r2: nat)
    requires r < 64 && r2 < 64 && RotationLinear(r) && RotationDoubles(r, r2)
    ensures MixWord(MixWord(c0, c4, c1, r), MixWord(c4, c3, c0, r), MixWord(c1, c0, c2, r), r) == MixWord(c0, c3, c2, r2)
  {
    hide Xor, Rotl;
    assert LinearLaw(r, c1, Xor(c0, Rotl(c2, r))) && LinearLaw(r, c0, Rotl(c2, r)) && DoubleLaw(r, r2, c2);
    CrossTerms(c0, c4, Rotl(c1, r), c3, Rotl(c0, r), Rotl(c2, r2));
  }

  lemma MixLaneSquared(c: Plane, x: nat, k: nat, r: nat, k2: nat, r2: nat)
    requires x < 5 && 1 <= k < 5 && r < 64 && k2 == Up(k, k) && r2 < 64
    requires RotationLinear(r) && RotationDoubles(r, r2)
    ensures MixLane(Mix(c, k, r), x, k, r) == MixLane(c, x, k2, r2)
  {
    hide *;
    var up, down, x1, x2 := Up(x, k), Down(x, k), Down(x, k2), Up(x, k2);
    LaneIndices(x, k);
    var m := Mix(c, k, r);
    MixAt(c, x, k, r);
    MixAt(c, up, k, r);
    MixAt(c, down, k, r);
    MixWordSquared(c[x], c[down], c[up], c[x1], c[x2], r, r2);
    LaneIs(m, x, k, r);
    LaneIs(c, x, k2, r2);
    LaneIs(c, x, k, r);
    LaneIs(c, up, k, r);
    LaneIs(c, down, k, r);
  }

  lemma LaneIndices(x: nat, k: nat)
    requires x < 5 && k < 5
    ensures Down(Up(x, k), k) == x && Up(Down(x, k), k) == x
    ensures Up(Up(x, k), k) == Up(x, Up(k, k)) && Down(Down(x, k), k) == Down(x, Up(k, k))
  {}

  lemma LaneIs(c: Plane, x: nat, k: nat, r: nat)
    requires x < 5 && k < 5 && r < 64
    ensures MixLane(c, x, k, r) == MixWord(c[x], c[Down(x, k)], c[Up(x, k)], r)
  {}

  lemma MixAt(c: Plane, x: nat, k: nat, r: nat)
    requires x < 5 && k < 5 && r < 64
    ensures Mix(c, k, r)[x] == MixLane(c, x, k, r)
  {
    hide MixLane;
  }

  lemma MixSquared(c: Plane, k: nat, r: nat, k2: nat, r2: nat)
    requires 1 <= k < 5 && r < 64 && k2 == Up(k, k) && r2 < 64
    requires RotationLinear(r) && RotationDoubles(r, r2)
    ensures Mix(Mix(c, k, r), k, r) == Mix(c, k2, r2)
  {
    hide MixLane, RotationLinear, RotationDoubles;
    forall x: nat | x < 5 ensures MixLane(Mix(c, k, r), x, k, r) == MixLane(c, x, k2, r2) {
      MixLaneSquared(c, x, k, r, k2, r2);
    }
  }

  /** (1 + X + X^-1)^3 = 1 when X^5 = 1. */
  lemma CubeTerms(c0: bv64, c1: bv64, c2: bv64, c3: bv64, c4: bv64)
    ensures Xor(Xor(c0, Xor(c1, c4)), Xor(Xor(c2, Xor(c3, c1)), Xor(c3, Xor(c4, c2)))) == c0
  {
    hide Xor;
    XorComm(c2, Xor(c3, c1));
    XorAssoc(c3, c4, c2);
    XorShared(Xor(c3, c1), Xor(c3, c4), c2);
    XorComm(c3, c1);
    XorComm(c3, c4);
    XorShared(c1, c4, c3);
    XorCancel(Xor(c1, c4), c0);
  }

  lemma Rotl0(a: bv64)
    ensures Rotl(a, 0) == a
  {}

  lemma MixWordCubed(c0: bv64, c1: bv64, c2: bv64, c3: bv64, c4: bv64)
    ensures MixWord(MixWord(c0, c1, c4, 0), MixWord(c2, c3, c1, 0), MixWord(c3, c4, c2, 0), 0) == c0
  {
    hide Xor, Rotl;
    Rotl0(c4);
    Rotl0(c1);
    Rotl0(c2);
    Rotl0(MixWord(c3, c4, c2, 0));
    CubeTerms(c0, c1, c2, c3, c4);
  }

  lemma MixCubed(c: Plane)
    ensures Mix(Mix(c, 4, 0), 3, 0) == c
  {
    hide MixWord;
    MixWordCubed(c[0], c[1], c[2], c[3], c[4]);
    MixWordCubed(c[1], c[2], c[3], c[4], c[0]);
    MixWordCubed(c[2], c[3], c[4], c[0], c[1]);
    MixWordCubed(c[3], c[4], c[0], c[1], c[2]);
    MixWordCubed(c[4], c[0], c[1], c[2], c[3]);
  }

  /** The inverse of theta on column parities: with E the polynomial 1 + X + X^-1 Y, E^64 is
      1 + X^-1 + X and E^192 is 1, so the inverse is E^191. */
  function Unmix(c: Plane): Plane {
    Mix(Mix(Mix(Mix(Mix(Mix(Mix(c, 1, 1), 2, 2), 4, 4), 3, 8), 1, 16), 2, 32), 3, 0)
  }

  lemma Rotations()
    ensures RotationLinear(1) && RotationDoubles(1, 2)
    ensures RotationLinear(2) && RotationDoubles(2, 4)
    ensures RotationLinear(4) && RotationDoubles(4, 8)
    ensures RotationLinear(8) && RotationDoubles(8, 16)
    ensures RotationLinear(16) && RotationDoubles(16, 32)
    ensures RotationLinear(32) && RotationDoubles(32, 0)
  {
    hide RotationLinear, RotationDoubles;
    Rotation1();
    Doubling1();
    LinearDoubles(1, 2);
    Doubling2();
    LinearDoubles(2, 4);
    Doubling4();
    LinearDoubles(4, 8);
    Doubling8();
    LinearDoubles(8, 16);
    Doubling16();
    LinearDoubles(16, 32);
    Doubling32();
  }

  lemma UnmixMix(c: Plane)
    ensures Unmix(Mix(c, 1, 1)) == c
  {
    hide Mix, RotationLinear, RotationDoubles;
    Rotations();
    MixSquared(c, 1, 1, 2, 2);
    MixSquared(c, 2, 2, 4, 4);
    MixSquared(c, 4, 4, 3, 8);
    MixSquared(c, 3, 8, 1, 16);
    MixSquared(c, 1, 16, 2, 32);
    MixSquared(c, 2, 32, 4, 0);
    MixCubed(c);
  }

  // ----- the inverse of each step mapping ---------------------------------------------------------

  function InverseTheta(s: State): State {
    seq(25, i requires 0 <= i < 25 => Xor(s[i], ThetaEffect(Unmix(Parities(s)), Column(i))))
  }

  lemma InverseThetaWorks(s: State)
    ensures InverseTheta(Theta(s)) == s
  {
    hide Xor, ThetaEffect, Parities, Unmix, Mix;
    ParitiesOfTheta(s);
    UnmixMix(Parities(s));
    forall i: nat | i < 25 ensures InverseTheta(Theta(s))[i] == s[i] {
      XorCancel(ThetaEffect(Parities(s), Column(i)), s[i]);
    }
  }

  function InverseRho(s: State): State {
    seq(25, i requires 0 <= i < 25 => Rotr(s[i], RhoOffset(i)))
  }

  lemma RotatedBack(v: bv64, n: nat)
    requires n < 64
    ensures Rotr(v.RotateLeft(n), n) == v
  {}

  lemma RotlBack(v: bv64, n: nat)
    requires n < 64
    ensures Rotr(Rotl(v, n), n) == v
  {
    hide Rotr;
    RotatedBack(v, n);
  }

  lemma InverseRhoWorks(s: State)
    ensures InverseRho(Rho(s)) == s
  {
    hide Rotl, Rotr, RhoOffset;
    forall i: nat | i < 25 ensures InverseRho(Rho(s))[i] == s[i] {
      RotlBack(s[i], RhoOffset(i));
    }
  }

  function PiTarget(i: nat): (j: nat)
    requires i < 25
    ensures j < 25
  {
    i / 5 + 5 * ((2 * (i % 5) + 3 * (i / 5)) % 5)
  }

  function InversePi(s: State): State {
    seq(25, i requires 0 <= i < 25 => s[PiTarget(i)])
  }

  lemma LaneCoordinates(x: nat, y: nat)
    requires x < 5
    ensures (x + 5 * y) % 5 == x && (x + 5 * y) / 5 == y
  {
    DivModUnique(x + 5 * y, 5, y, x);
  }

  lemma PiAxis(x: nat, y: nat)
    requires x < 5
    ensures (y + 3 * ((2 * x + 3 * y) % 5)) % 5 == x
  {
    var z, q := (2 * x + 3 * y) % 5, (2 * x + 3 * y) / 5;
    DivModUnique(y + 3 * z, 5, x + 2 * y - 3 * q, x);
  }

  lemma PiIndices(i: nat)
    requires i < 25
    ensures PiSource(PiTarget(i)) == i
  {
    var x, y := i % 5, i / 5;
    LaneCoordinates(y, (2 * x + 3 * y) % 5);
    PiAxis(x, y);
  }

  lemma InversePiWorks(s: State)
    ensures InversePi(Pi(s)) == s
  {
    hide PiSource, PiTarget;
    forall i: nat | i < 25 ensures InversePi(Pi(s))[i] == s[i] {
      PiIndices(i);
    }
  }

  function ChiBackLane(b0: bv64, b1: bv64, b2: bv64, b3: bv64, b4: bv64): bv64 {
    b0 ^ (!b1 & (b2 ^ (!b3 & b4)))
  }

  lemma ChiWordsBack(a0: bv64, a1: bv64, a2: bv64, a3: bv64, a4: bv64)
    ensures ChiBackLane(a0 ^ (!a1 & a2), a1 ^ (!a2 & a3), a2 ^ (!a3 & a4), a3 ^ (!a4 & a0), a4 ^ (!a0 & a1)) == a0
  {}

  lemma ChiBack(a0: bv64, a1: bv64, a2: bv64, a3: bv64, a4: bv64)
    ensures ChiBackLane(ChiLane(a0, a1, a2), ChiLane(a1, a2, a3), ChiLane(a2, a3, a4),
                        ChiLane(a3, a4, a0), ChiLane(a4, a0, a1)) == a0
  {
    hide ChiBackLane;
    ChiWordsBack(a0, a1, a2, a3, a4);
  }

  function InverseChi(s: State): State {
    seq(25, i requires 0 <= i < 25 =>
      ChiBackLane(s[i], s[InRow(i, 1)], s[InRow(i, 2)], s[InRow(i, 3)], s[InRow(i, 4)]))
  }

  lemma RowOfRow(i: nat, k: nat, l: nat)
    requires i < 25 && k < 5 && l < 5
    ensures InRow(InRow(i, k), l) == InRow(i, Up(k, l)) && InRow(i, 0) == i
  {
    LaneCoordinates(Up(i % 5, k), i / 5);
  }

  lemma InverseChiWorks(s: State)
    ensures InverseChi(Chi(s)) == s
  {
    hide ChiLane, ChiBackLane, InRow;
    forall i: nat | i < 25 ensures InverseChi(Chi(s))[i] == s[i] {
      RowOfRow(i, 1, 1); RowOfRow(i, 1, 2); RowOfRow(i, 2, 1); RowOfRow(i, 2, 2);
      RowOfRow(i, 3, 1); RowOfRow(i, 3, 2); RowOfRow(i, 4, 1); RowOfRow(i, 4, 2);
      ChiBack(s[i], s[InRow(i, 1)], s[InRow(i, 2)], s[InRow(i, 3)], s[InRow(i, 4)]);
    }
  }

  lemma IotaTwice(s: State, round: nat)
    requires round < 24
    ensures Iota(Iota(s, round), round) == s
  {
    hide Xor;
    XorCancel(RoundConstant(round), s[0]);
  }

  function InverseRound(s: State, round: nat): State
    requires round < 24
  {
    InverseTheta(InverseRho(InversePi(InverseChi(Iota(s, round)))))
  }

  lemma InverseRoundWorks(s: State, round: nat)
    requires round < 24
    ensures InverseRound(Round(s, round), round) == s
  {
    hide Theta, Rho, Pi, Chi, Iota, InverseTheta, InverseRho, InversePi, InverseChi;
    IotaTwice(Chi(Pi(Rho(Theta(s)))), round);
    InverseChiWorks(Pi(Rho(Theta(s))));
    InversePiWorks(Rho(Theta(s)));
    InverseRhoWorks(Theta(s));
    InverseThetaWorks(s);
  }

  function InverseRounds(s: State, first: nat): State
    requires first <= 24
    decreases 24 - first
  {
    if first == 24 then s else InverseRound(InverseRounds(s, first + 1), first)
  }

  /** Undoing the rounds from the last to the first. */
  lemma {:induction false} InverseRoundsWork(s: State, first: nat)
    requires first <= 24
    ensures InverseRounds(Rounds(s, first), first) == s
    decreases 24 - first
  {
    hide Round, InverseRound;
    if first != 24 {
      InverseRoundsWork(Round(s, first), first + 1);
      InverseRoundWorks(s, first);
    }
  }

  /** The permutation is injective on all states. */
  lemma KeccakInjective(s: State, t: State)
    requires KeccakF(s) == KeccakF(t)
    ensures s == t
  {
    hide Rounds, InverseRounds;
    InverseRoundsWork(s, 0);
    InverseRoundsWork(t, 0);
  }
}
