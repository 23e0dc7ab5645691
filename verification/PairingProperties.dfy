/** The whole pairing instruction: what the guest finds in the hint stream is a residue witness. */
module PairingProperties {
  import opened Wrappers
  import opened Bytes
  import opened FlatMemory
  import opened Decode
  import opened State
  import opened Groups
  import opened PairingConstants
  import opened Precompiles
  import opened Machine
  import InstructionProperties
  import Bn254
  import Bls12

  /** For BN254: u is the power of the 27th root of unity that makes f u a cube; c is the first cube
      root the loops come to of the r-th and m-th root of f u; c^lambda = f u whenever
      f^(N/r) = 1, and in general exactly when f^(r rInv m mInv - 1) = 1. */
  ghost predicate IsBn254Witness<B>(t: Target<B>, omega: B, f: B, c: B, u: B) {
    var g, k, n := t.group, BnConstants(omega), BnNumbers();
    && Bn254.CubeShift(g, k, f, u)
    && (exists m: nat :: m <= 8 && Bn254.IsFirstRoot(g, k, GPow(g, GPow(g, g.mul(f, u), k.rInv), k.mInv), c, m))
    && (GPow(g, c, n.Lambda()) == g.mul(f, u) <==> GPow(g, f, n.Rest(k)) == g.one)
    && (GPow(g, f, n.cofactor) == g.one ==> GPow(g, c, n.Lambda()) == g.mul(f, u))
  }

  /** For BLS12-381: the one witness there is whenever f^(27 P poly) = 1; for any f the pair has the
      shape of Bls12.HintShape, and c^lambda = f s exactly when (f s)^(lambda l - 1) = 1. */
  ghost predicate IsBls12Witness<S>(t: Target<S>, f: S, c: S, s: S) {
    var g, k := t.group, BlsFactors();
    && (GPow(g, c, k.lambda) == g.mul(f, s) <==> GPow(g, g.mul(f, s), Bls12.Excess(k)) == g.one)
    && (GPow(g, f, Bls12.Order(k)) == g.one ==> Bls12.IsWitness(g, k, f, c, s))
    && (exists x: nat, l: nat :: HasShape(g, k, f, c, s, x, l))
  }

  /** s cancels a power of f, and c is an inverse lambda-th power of f s. */
  ghost predicate HasShape<S>(g: Group<S>, k: Bls12.Factors, f: S, c: S, s: S, t: nat, l: nat)
    requires k.p > 0 && k.poly > 0
  {
    && t < k.poly && (27 * k.p * t) % k.poly == 1 && l < k.p && (k.lambda * l) % k.p == 1
    && c == GPow(g, g.mul(f, s), l)
    && g.mul(GPow(g, f, Bls12.Removed(k, t, GPow(g, f, Bls12.Order(k)) == g.one)), s) == g.one
  }

  /** The bytes are those of c and then u of a witness for the pairing loop's value on the points,
      which is 1 without points. */
  ghost predicate ServesWitness<B(!new), S(!new)>(
    env: Env<B, S>, curve: PairingCurve, g1: seq<seq<byte>>, g2: seq<seq<byte>>, bs: seq<byte>)
  {
    match curve
    case Bn254 => (
      var t := env.bn254;
      var f := if |g1| == 0 then t.group.one else t.miller(g1, g2);
      exists c: B, u: B :: IsBn254Witness(t, env.omega, f, c, u) && bs == t.bytes(c) + t.bytes(u))
    case Bls12_381 => (
      var t := env.bls12;
      var f := if |g1| == 0 then t.group.one else t.miller(g1, g2);
      exists c: S, s: S :: IsBls12Witness(t, f, c, s) && bs == t.bytes(c) + t.bytes(s))
  }

  /** An array of points as a descriptor names it: address and count, a word each. */
  ghost predicate IsPointArray(ps: seq<seq<byte>>, m: Flat, desc: u32, size: nat) {
    && |ps| == WordAt(m, WrappingAdd(desc, 4))
    && forall i :: 0 <= i < |ps| ==> ps[i] == Read(m, WrappingAdd(WordAt(m, desc), i * size), size)
  }

  lemma Bn254WitnessExists<B(!new)>(t: Target<B>, omega: B, f: B)
    requires Bn254.RootOfUnity(t.group, omega, BnNumbers().s)
    ensures var pair := Bn254.PairOf(t.group, BnConstants(omega), f);
      pair.Some? && IsBn254Witness(t, omega, f, pair.value.0, pair.value.1)
  {
    hide GPow, Bn254.PairOf, Bn254.RootOfUnity, Bn254.Exponents;
    Bn254Exponents(omega);
    Bn254.PairIsWitness(t.group, BnConstants(omega), BnNumbers(), f);
  }

  lemma Bls12WitnessExists<S(!new)>(t: Target<S>, f: S)
    requires IsCommGroup(t.group)
    ensures var pair := Bls12.FinalExpHint(t.group, BlsFactors(), f);
      pair.Some? && IsBls12Witness(t, f, pair.value.0, pair.value.1)
  {
    hide GPow, Bls12.FinalExpHint, Bls12.Relations, Bls12.Order, Bls12.Excess, Bls12.Removed, Bls12.IsWitness, IsCommGroup;
    Bls12Relations();
    var g, k := t.group, BlsFactors();
    Bls12.HintWitnessIff(g, k, f);
    if GPow(g, f, Bls12.Order(k)) == g.one { Bls12.HintIsWitness(g, k, f); }
    var x, l := Bls12.HintShape(g, k, f);
    var (c, s) := Bls12.FinalExpHint(g, k, f).value;
    assert HasShape(g, k, f, c, s, x, l);
  }

  /** Without points f, c and u are all 1. */
  lemma OneIsBn254Witness<B(!new)>(t: Target<B>, omega: B)
    requires Bn254.RootOfUnity(t.group, omega, BnNumbers().s)
    ensures IsBn254Witness(t, omega, t.group.one, t.group.one, t.group.one)
  {
    hide GPow, IsBn254Witness, Bn254.PairOf;
    Bn254.PairOfOne(t.group, BnConstants(omega));
    Bn254WitnessExists(t, omega, t.group.one);
  }

  lemma OneIsBls12Witness<S(!new)>(t: Target<S>)
    requires IsCommGroup(t.group)
    ensures IsBls12Witness(t, t.group.one, t.group.one, t.group.one)
  {
    hide GPow, IsBls12Witness, Bls12.FinalExpHint;
    Bls12Relations();
    Bls12.HintOfOne(t.group, BlsFactors());
    Bls12WitnessExists(t, t.group.one);
  }

  /** The serialised bytes are always those of a witness: no search runs on, no `expect` fails. */
  lemma WitnessBytesServe<B(!new), S(!new)>(env: Env<B, S>, curve: PairingCurve, g1: seq<seq<byte>>, g2: seq<seq<byte>>)
    requires TargetsAreGroups(env)
    ensures var r := WitnessBytes(env, curve, g1, g2);
      r.Ok? && ServesWitness(env, curve, g1, g2, r.value)
  {
    hide IsBn254Witness, IsBls12Witness, Bn254.PairOf, Bn254.RootOfUnity, Bls12.FinalExpHint, IsCommGroup;
    match curve
    case Bn254 =>
      OneIsBn254Witness(env.bn254, env.omega);
      Bn254WitnessExists(env.bn254, env.omega, Miller(env.bn254, g1, g2));
    case Bls12_381 =>
      OneIsBls12Witness(env.bls12);
      Bls12WitnessExists(env.bls12, Miller(env.bls12, g1, g2));
  }

  /** A fetched pairing instruction fails exactly when the two point counts differ. Otherwise the
      bytes it appends to the hint stream are those of a residue witness for the points that the
      two descriptors name, and nothing but the program counter changes beside. */
  lemma PairingInstruction<B(!new), S(!new)>(env: Env<B, S>, s: State, insn: u32)
    requires WellFormed(env) && InstructionProperties.Fetches(s, insn, 0x2b, 3)
    requires Funct7(insn) % 16 == 0 && Funct7(insn) / 16 < |env.pairings|
    ensures var m, p, q := s.cpu.mem, RegRs1(s.cpu, insn), RegRs2(s.cpu, insn);
      var curve := env.pairings[Funct7(insn) / 16];
      if WordAt(m, WrappingAdd(p, 4)) != WordAt(m, WrappingAdd(q, 4)) then Step(env, s) == Err(CustomOp)
      else
        exists g1, g2: seq<seq<byte>>, bs: seq<byte> ::
          && IsPointArray(g1, m, p, if curve == Bn254 then 64 else 96)
          && IsPointArray(g2, m, q, if curve == Bn254 then 128 else 192)
          && ServesWitness(env, curve, g1, g2, bs)
          && Step(env, s) == Ok(Stepped(Continue, State(Advance(s.cpu), s.io.(hints := s.io.hints + bs))))
  {
    hide WordAt, Step, PairingInput, WitnessBytes, ServesWitness, TargetsAreGroups, IsPointArray;
    InstructionProperties.StepCustom1(env, s, insn);
    var curve, p, q := env.pairings[Funct7(insn) / 16], RegRs1(s.cpu, insn), RegRs2(s.cpu, insn);
    PairingInputLayout(curve, s.cpu.mem, p, q);
    match PairingInput(curve, s.cpu.mem, p, q)
    case None =>
    case Some((g1, g2)) =>
      WitnessBytesServe(env, curve, g1, g2);
      var bs := WitnessBytes(env, curve, g1, g2).value;
      assert ServesWitness(env, curve, g1, g2, bs);
  }

  /** Points of G1 are 64 and 96 bytes long on the two curves, points of G2 twice that. */
  lemma PairingInputLayout(curve: PairingCurve, m: Flat, p: u32, q: u32)
    ensures match PairingInput(curve, m, p, q)
      case None => WordAt(m, WrappingAdd(p, 4)) != WordAt(m, WrappingAdd(q, 4))
      case Some((g1, g2)) =>
        && WordAt(m, WrappingAdd(p, 4)) == WordAt(m, WrappingAdd(q, 4))
        && IsPointArray(g1, m, p, if curve == Bn254 then 64 else 96)
        && IsPointArray(g2, m, q, if curve == Bn254 then 128 else 192)
  {
    hide WordAt, Read;
  }
}
