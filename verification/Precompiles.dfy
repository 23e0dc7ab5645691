/** The custom instructions of the precompiles crate, as functions of the machine state. */
module Precompiles {
  import opened Wrappers
  import opened Arithmetic
  import opened Bytes
  import opened PrimeField
  import opened FlatMemory
  import opened Decode
  import opened State
  import opened HintIo
  import opened Curve
  import opened Groups
  import opened PairingConstants
  import Bn254
  import Bls12
  import Bits
  import Instructions
  import Keccak
  import Int256
  import Int256Shifts
  import Modular
  import SquareRoots
  import CurveRoots

  datatype ModulusEntry = ModulusEntry(limbBytes: nat, modulus: nat)

  datatype PairingCurve = Bn254 | Bls12_381

  type Words8 = s: seq<u32> | |s| == 8 witness seq(8, _ => 0)

  /** What the handlers take from the pairing library for one curve: the multiplicative group
      of its target field, the pairing loop on serialised points, and the serialiser. */
  datatype Target<!T> = Target(
    group: Group<T>,
    miller: (seq<seq<byte>>, seq<seq<byte>>) -> T,
    bytes: T -> seq<byte>)

  /** A handler's configuration, and the computations that belong to other libraries: the
      buffers its generator draws for a modulus, the SHA-256 compression, and the two pairing
      targets, of element types B and S, with the 27th root of unity of the first. */
  datatype Env<!B, !S> = Env(
    moduli: seq<ModulusEntry>,
    curves: seq<CurveEntry>,
    complex: seq<ModulusEntry>,
    pairings: seq<PairingCurve>,
    draws: nat -> seq<seq<byte>>,
    compress: (Words8, seq<byte>) -> Words8,
    bn254: Target<B>,
    omega: B,
    bls12: Target<S>)

  /** The moduli are odd primes, the generator comes up with a non-residue, and the pairing
      targets are groups as their hints assume. */
  ghost predicate WellFormed<B(!new), S(!new)>(env: Env<B, S>) {
    && (forall e :: e in env.moduli ==> IsOddPrime(e.modulus) && Drawn(env, e.modulus))
    && (forall c :: c in env.curves ==> IsOddPrime(c.modulus))
    && (forall e :: e in env.complex ==> IsOddPrime(e.modulus))
    && TargetsAreGroups(env)
  }

  ghost predicate TargetsAreGroups<B(!new), S(!new)>(env: Env<B, S>) {
    && Bn254.RootOfUnity(env.bn254.group, env.omega, BnNumbers().s)
    && IsCommGroup(env.bls12.group)
  }

  predicate Drawn<B, S>(env: Env<B, S>, p: nat) { p >= 3 && SquareRoots.FindNonQr(env.draws(p), p).Some? }

  // ----- operands in memory --------------------------------------------------------------------

  ghost function ReadLe(m: Flat, ptr: u32, n: nat): nat { LeValue(Read(m, ptr, n)) }

  ghost function WriteLe(m: Flat, ptr: u32, v: nat, n: nat): Flat { Write(m, ptr, ToLe(v, n)) }

  ghost function ReadPoint(m: Flat, ptr: u32, n: nat): Point {
    Point(ReadLe(m, ptr, n), ReadLe(m, WrappingAdd(ptr, n), n))
  }

  ghost function WritePoint(m: Flat, ptr: u32, q: Point, n: nat): Flat {
    WriteLe(WriteLe(m, ptr, q.x, n), WrappingAdd(ptr, n), q.y, n)
  }

  ghost function ReadFp2(m: Flat, ptr: u32, n: nat): Modular.Fp2 {
    Modular.Fp2(ReadLe(m, ptr, n), ReadLe(m, WrappingAdd(ptr, n), n))
  }

  ghost function WriteFp2(m: Flat, ptr: u32, v: Modular.Fp2, n: nat): Flat {
    WriteLe(WriteLe(m, ptr, v.c0, n), WrappingAdd(ptr, n), v.c1, n)
  }

  function RegRd(c: CpuState, insn: u32): u32 { ReadReg(c, Rd(insn)) }
  function RegRs1(c: CpuState, insn: u32): u32 { ReadReg(c, Rs1(insn)) }
  function RegRs2(c: CpuState, insn: u32): u32 { ReadReg(c, Rs2(insn)) }

  // ----- modular.rs --------------------------------------------------------------------------------

  function AsError(f: Modular.Failure): CpuError {
    match f
    case NoInverse => CustomOp
    case Underflow => Panic
  }

  /** A value to be written to [rd], or a flag for the register rd, or nothing. */
  datatype Effect<T> = Value(v: T) | Flag(b: bool) | NoEffect

  function FromResult<T>(r: Result<T, Modular.Failure>): Result<Effect<T>, CpuError> {
    match r
    case Ok(v) => Ok(Value(v))
    case Err(f) => Err(AsError(f))
  }

  function ModOp(op: nat, a: nat, b: nat, p: nat): Result<Effect<nat>, CpuError>
    requires p > 0
  {
    match op
    case 0 => Ok(Value(Modular.AddMod(a, b, p)))
    case 1 => FromResult(Modular.SubMod(a, b, p))
    case 2 => Ok(Value(MulMod(a, b, p)))
    case 3 => FromResult(Modular.DivMod(a, b, p))
    case 4 => Ok(Flag(a % p == b % p))
    case 5 => Ok(NoEffect)
    case _ => Err(CustomOp)
  }

  ghost function ExecModOp(c: CpuState, insn: u32, e: ModulusEntry, op: nat): Result<CpuState, CpuError>
    requires e.modulus > 0
  {
    var n := e.limbBytes;
    match ModOp(op, ReadLe(c.mem, RegRs1(c, insn), n), ReadLe(c.mem, RegRs2(c, insn), n), e.modulus)
    case Err(err) => Err(err)
    case Ok(effect) => Ok(AfterMod(c, insn, RegRd(c, insn), effect, n))
  }

  ghost function AfterMod(c: CpuState, insn: u32, out: u32, effect: Effect<nat>, n: nat): CpuState {
    match effect
    case Value(v) => c.(mem := WriteLe(c.mem, out, v, n))
    case Flag(b) => WriteReg(c, Rd(insn), Instructions.FromBool(b))
    case NoEffect => c
  }

  /** The hints of one modulus: a non-residue, or a square root. */
  ghost function ModHint<B(!new), S(!new)>(env: Env<B, S>, c: CpuState, insn: u32, e: ModulusEntry, op: nat):
    Result<seq<byte>, CpuError>
    requires Drawn(env, e.modulus)
  {
    var nonQr := SquareRoots.FindNonQr(env.draws(e.modulus), e.modulus).value;
    if op == 6 then
      Ok(ToLe(nonQr, e.limbBytes))
    else
      match SquareRoots.HintSqrt(ReadLe(c.mem, RegRs1(c, insn), e.limbBytes), e.modulus, nonQr)
      case None => Err(Panic)
      case Some(hint) => Ok(SquareRoots.SqrtHintBytes(hint, e.limbBytes))
  }

  ghost function ExecModular<B(!new), S(!new)>(env: Env<B, S>, s: State, insn: u32): Result<State, CpuError>
    requires WellFormed(env)
  {
    var idx, op := Funct7(insn) / 8, Funct7(insn) % 8;
    if idx >= |env.moduli| then Err(CustomOp)
    else
      var e := env.moduli[idx];
      assert e in env.moduli;
      if op == 6 || op == 7 then
        match ModHint(env, s.cpu, insn, e, op)
        case Err(err) => Err(err)
        case Ok(bs) => Ok(s.(io := s.io.(hints := bs)))
      else
        OnCpu(s, ExecModOp(s.cpu, insn, e, op))
  }

  function OnCpu(s: State, r: Result<CpuState, CpuError>): Result<State, CpuError> {
    match r
    case Ok(c) => Ok(s.(cpu := c))
    case Err(e) => Err(e)
  }

  function ComplexOp(op: nat, a: Modular.Fp2, b: Modular.Fp2, p: nat): Result<Effect<Modular.Fp2>, CpuError>
    requires p > 0
  {
    match op
    case 0 => Ok(Value(Modular.Fp2Add(a, b, p)))
    case 1 => FromResult(Modular.Fp2Sub(a, b, p))
    case 2 => Ok(Value(Modular.Fp2Mul(a, b, p)))
    case 3 => FromResult(Modular.Fp2Div(a, b, p))
    case 4 => Ok(Flag(a.c0 % p == b.c0 % p && a.c1 % p == b.c1 % p))
    case 5 => Ok(NoEffect)
    case _ => Err(CustomOp)
  }

  ghost function ExecComplex<B(!new), S(!new)>(env: Env<B, S>, c: CpuState, insn: u32): Result<CpuState, CpuError>
    requires WellFormed(env)
  {
    var idx, op := Funct7(insn) / 8, Funct7(insn) % 8;
    if idx >= |env.complex| then Err(CustomOp)
    else
      var e := env.complex[idx];
      assert e in env.complex;
      var n := e.limbBytes;
      match ComplexOp(op, ReadFp2(c.mem, RegRs1(c, insn), n), ReadFp2(c.mem, RegRs2(c, insn), n), e.modulus)
      case Err(err) => Err(err)
      case Ok(effect) => Ok(AfterFp2(c, insn, RegRd(c, insn), effect, n))
  }

  ghost function AfterFp2(c: CpuState, insn: u32, out: u32, effect: Effect<Modular.Fp2>, n: nat): CpuState {
    match effect
    case Value(v) => c.(mem := WriteFp2(c.mem, out, v, n))
    case Flag(b) => WriteReg(c, Rd(insn), Instructions.FromBool(b))
    case NoEffect => c
  }

  // ----- ecc.rs ------------------------------------------------------------------------------------

  /** What a curve instruction writes to [rd]. */
  datatype SwResult = WritesPoint(q: Point) | WritesCoordinate(v: nat) | WritesNothing

  ghost function SwOp(e: CurveEntry, op: nat, p1: Point, p2: Point, parity: nat): Result<SwResult, CpuError>
    requires IsOddPrime(e.modulus)
  {
    CurveRoots.SearchTerminates(e.modulus);
    CurveRoots.TonelliShanksSound(0, e.modulus);
    match op
    case 0 => (match AddNe(e, p1, p2) case Some(q) => Ok(WritesPoint(q)) case None => Err(Panic))
    case 1 => (match Double(e, p1) case Some(q) => Ok(WritesPoint(q)) case None => Err(Panic))
    case 2 => Ok(WritesNothing)
    case 3 => (match Decompress(e, p1.x, parity) case Some(y) => Ok(WritesCoordinate(y)) case None => Err(CustomOp))
    case 4 => Ok(WritesCoordinate(CurveRoots.LeastNonResidue(2, e.modulus)))
    case _ => Err(CustomOp)
  }

  ghost function ExecSw<B(!new), S(!new)>(env: Env<B, S>, c: CpuState, insn: u32): Result<CpuState, CpuError>
    requires WellFormed(env)
  {
    var idx, op := Funct7(insn) / 8, Funct7(insn) % 8;
    if idx >= |env.curves| then Err(CustomOp)
    else
      var e := env.curves[idx];
      assert e in env.curves;
      var n, out, b := e.coordBytes, RegRd(c, insn), RegRs2(c, insn);
      match SwOp(e, op, ReadPoint(c.mem, RegRs1(c, insn), n), ReadPoint(c.mem, b, n), b % 2)
      case Err(err) => Err(err)
      case Ok(r) => Ok(c.(mem := WriteSw(c.mem, out, r, n)))
  }

  ghost function WriteSw(m: Flat, out: u32, r: SwResult, n: nat): Flat {
    match r
    case WritesPoint(q) => WritePoint(m, out, q, n)
    case WritesCoordinate(v) => WriteLe(m, out, v, n)
    case WritesNothing => m
  }

  // ----- pairing.rs, bn254_hint.rs, bls12_381_hint.rs -----------------------------------------

  /** The byte width of one base field element. */
  function FieldBytes(curve: PairingCurve): nat {
    match curve
    case Bn254 => 32
    case Bls12_381 => 48
  }

  /** The serialised points of an array in memory. */
  ghost function Points(m: Flat, base: u32, count: nat, size: nat): seq<seq<byte>> {
    seq(count, i requires 0 <= i < count => Read(m, WrappingAdd(base, i * size), size))
  }

  /** `multi_miller_loop`; without points the source takes 1 for it. */
  function Miller<T>(t: Target<T>, g1: seq<seq<byte>>, g2: seq<seq<byte>>): T {
    if |g1| == 0 then t.group.one else t.miller(g1, g2)
  }

  /** The two elements pushed, one after the other. */
  function Serialised<T>(t: Target<T>, pair: (T, T)): seq<byte> { t.bytes(pair.0) + t.bytes(pair.1) }

  /** The witness of one curve, serialised; Panic stands for a search without end and for the
      failing `expect`. Without points it is (1, 1). */
  ghost function WitnessBytes<B, S>(env: Env<B, S>, curve: PairingCurve, g1: seq<seq<byte>>, g2: seq<seq<byte>>):
    Result<seq<byte>, CpuError>
  {
    match curve
    case Bn254 => (
      var t := env.bn254;
      if |g1| == 0 then Ok(Serialised(t, (t.group.one, t.group.one)))
      else match Bn254.PairOf(t.group, BnConstants(env.omega), Miller(t, g1, g2))
        case Some(pair) => Ok(Serialised(t, pair))
        case None => Err(Panic))
    case Bls12_381 => (
      var t := env.bls12;
      if |g1| == 0 then Ok(Serialised(t, (t.group.one, t.group.one)))
      else match Bls12.FinalExpHint(t.group, BlsFactors(), Miller(t, g1, g2))
        case Some(pair) => Ok(Serialised(t, pair))
        case None => Err(Panic))
  }

  /** The points the two descriptors name; None when their numbers differ. */
  ghost function PairingInput(curve: PairingCurve, m: Flat, descP: u32, descQ: u32):
    Option<(seq<seq<byte>>, seq<seq<byte>>)>
  {
    var p, pLen := WordAt(m, descP), WordAt(m, WrappingAdd(descP, 4));
    var q, qLen := WordAt(m, descQ), WordAt(m, WrappingAdd(descQ, 4));
    var w := FieldBytes(curve);
    if pLen != qLen then None else Some((Points(m, p, pLen, 2 * w), Points(m, q, qLen, 4 * w)))
  }

  ghost function PairingHint<B, S>(env: Env<B, S>, curve: PairingCurve, m: Flat, descP: u32, descQ: u32):
    Result<seq<byte>, CpuError>
  {
    match PairingInput(curve, m, descP, descQ)
    case None => Err(CustomOp)
    case Some((g1, g2)) => WitnessBytes(env, curve, g1, g2)
  }

  ghost function ExecPairing<B(!new), S(!new)>(env: Env<B, S>, s: State, insn: u32): Result<State, CpuError> {
    var idx, op := Funct7(insn) / 16, Funct7(insn) % 16;
    if op != 0 || idx >= |env.pairings| then Err(CustomOp)
    else
      match PairingHint(env, env.pairings[idx], s.cpu.mem, RegRs1(s.cpu, insn), RegRs2(s.cpu, insn))
      case Err(e) => Err(e)
      case Ok(bs) => Ok(s.(io := s.io.(hints := s.io.hints + bs)))
  }

  // ----- hashes.rs -----------------------------------------------------------------------------------

  function Lane(bs: seq<byte>): bv64
    requires |bs| == 8
  {
    LeBound(bs);
    assert Pow(256, 8) == 0x1_0000_0000_0000_0000;
    LeValue(bs) as bv64
  }

  function LaneBytes(lane: bv64): (bs: seq<byte>)
    ensures |bs| == 8
  {
    ToLe(lane as nat, 8)
  }

  ghost function ReadLanes(m: Flat, ptr: u32): Keccak.State {
    seq(25, i requires 0 <= i < 25 => Lane(Read(m, WrappingAdd(ptr, 8 * i), 8)))
  }

  function LanesToBytes(s: seq<bv64>): (bs: seq<byte>)
    ensures |bs| == 8 * |s|
  {
    if |s| == 0 then [] else LaneBytes(s[0]) + LanesToBytes(s[1..])
  }

  /** XORIN works upward byte by byte, so an overlapping source sees what was written. */
  ghost function XorIn(m: Flat, dst: u32, src: u32, len: nat): Flat
    decreases len
  {
    if len == 0 then m
    else
      var m' := XorIn(m, dst, src, len - 1);
      var d, s := WrappingAdd(dst, len - 1), WrappingAdd(src, len - 1);
      m'[d := XorByte(m'[d], m'[s])]
  }

  function BitByte(op: Bits.BitOp, x: byte, y: byte): byte {
    Bits.Pow2Values();
    Bits.Bitwise(op, 8, x, y)
  }

  function XorByte(x: byte, y: byte): byte { BitByte(Bits.Differ, x, y) }

  ghost function ReadWords(m: Flat, ptr: u32): Words8 {
    seq(8, i requires 0 <= i < 8 => WordOf(Read(m, WrappingAdd(ptr, 4 * i), 4)))
  }

  function WordOf(bs: seq<byte>): u32
    requires |bs| == 4
  {
    LeBound(bs);
    assert Pow(256, 4) == 0x1_0000_0000;
    LeValue(bs)
  }

  function WordsToBytes(s: seq<u32>): seq<byte> {
    if |s| == 0 then [] else ToLe(s[0], 4) + WordsToBytes(s[1..])
  }

  ghost function HashOp<B(!new), S(!new)>(env: Env<B, S>, c: CpuState, insn: u32): Option<Flat> {
    match Funct7(insn)
    case 0 => Some(Write(c.mem, RegRd(c, insn), LanesToBytes(Keccak.KeccakF(ReadLanes(c.mem, RegRd(c, insn))))))
    case 1 => Some(XorIn(c.mem, RegRd(c, insn), RegRs1(c, insn), RegRs2(c, insn)))
    case 2 =>
      var state := env.compress(ReadWords(c.mem, RegRs1(c, insn)), Read(c.mem, RegRs2(c, insn), 64));
      Some(Write(c.mem, RegRd(c, insn), WordsToBytes(state)))
    case _ => None
  }

  ghost function ExecHash<B(!new), S(!new)>(env: Env<B, S>, c: CpuState, insn: u32): Result<CpuState, CpuError> {
    match HashOp(env, c, insn)
    case None => Err(CustomOp)
    case Some(m) => Ok(c.(mem := m))
  }

  // ----- int256.rs -----------------------------------------------------------------------------------

  function Bytewise(op: Bits.BitOp, a: seq<byte>, b: seq<byte>): (r: seq<byte>)
    requires |a| == |b|
    ensures |r| == |a|
  {
    seq(|a|, i requires 0 <= i < |a| => BitByte(op, a[i], b[i]))
  }

  /** Byte by byte is bit by bit on the values. */
  lemma {:induction false} BytewiseValue(op: Bits.BitOp, a: seq<byte>, b: seq<byte>)
    requires |a| == |b|
    ensures LeValue(Bytewise(op, a, b)) == Bits.Bitwise(op, 8 * |a|, LeValue(a), LeValue(b))
  {
    if |a| > 0 {
      var r := Bytewise(op, a, b);
      FirstDigit(a);
      FirstDigit(b);
      FirstDigit(r);
      assert Pow2(8) == 256;
      hide Bits.Bitwise, Bits.Above, Pow, LeValue;
      assert r[1..] == Bytewise(op, a[1..], b[1..]);
      BytewiseValue(op, a[1..], b[1..]);
      Bits.BitwiseSplit(op, 8, 8 * (|a| - 1), a[0], b[0], LeValue(a[1..]), LeValue(b[1..]));
    }
  }

  lemma FirstDigit(s: seq<byte>)
    requires |s| > 0
    ensures LeValue(s) == Bits.Above(8, s[0], LeValue(s[1..]))
  {
    assert Pow2(8) == 256;
  }

  /** The result of an operation on 256-bit values, reduced modulo 2^256; the shift amount is
      the low byte. */
  function Int256Op(op: nat, a: Int256.Word, b: Int256.Word): Option<Int256.Word> {
    var x, y := LeValue(a), LeValue(b);
    PowPositive(2, b[0]);
    match op
    case 0 => Some(Encoded(x + y))
    case 1 => Some(Encoded(x - y))
    case 2 => Some(Bytewise(Bits.Differ, a, b))
    case 3 => Some(Bytewise(Bits.Either, a, b))
    case 4 => Some(Bytewise(Bits.Both, a, b))
    case 5 => Some(Encoded(x * Pow2(b[0])))
    case 6 => Some(Encoded(x / Pow2(b[0])))
    case 7 => Some(Encoded(Int256Shifts.Signed(x) / Pow2(b[0])))
    case 8 => Some(Encoded(Instructions.FromBool(Int256Shifts.Signed(x) < Int256Shifts.Signed(y))))
    case 9 => Some(Encoded(Instructions.FromBool(x < y)))
    case 10 => Some(Encoded(x * y))
    case _ => None
  }

  /** An integer modulo 2^256 in 32 little-endian bytes. */
  function Encoded(v: int): Int256.Word { ToLe(v % Int256.Modulus(), 32) }

  lemma EncodedValue(v: int)
    ensures LeValue(Encoded(v)) == v % Int256.Modulus()
  {
    LeOfToLe(v % Int256.Modulus(), 32);
    SmallMod(v % Int256.Modulus(), Int256.Modulus());
  }

  ghost function ExecInt256(c: CpuState, insn: u32): Result<CpuState, CpuError> {
    match Int256Op(Funct7(insn), Read(c.mem, RegRs1(c, insn), 32), Read(c.mem, RegRs2(c, insn), 32))
    case None => Err(CustomOp)
    case Some(word) => Ok(c.(mem := Write(c.mem, RegRd(c, insn), word)))
  }

  ghost function ExecBeq256(c: CpuState, insn: u32): CpuState {
    var equal := Read(c.mem, RegRs1(c, insn), 32) == Read(c.mem, RegRs2(c, insn), 32);
    c.(pc := WrappingAdd(c.pc, if equal then ImmB(insn) else 4))
  }

  // ----- lib.rs ------------------------------------------------------------------------------------

  /** How many bytes HINT_STOREW and HINT_BUFFER move. */
  function HintSize(c: CpuState, insn: u32): nat { if Imm12(insn) == 0 then 4 else 4 * RegRs1(c, insn) }

  ghost function ExecHint(s: State, insn: u32): Result<State, CpuError> {
    var n := HintSize(s.cpu, insn);
    if Imm12(insn) > 1 then Err(CustomOp)
    else Ok(State(
      s.cpu.(mem := Write(s.cpu.mem, RegRd(s.cpu, insn), Popped(s.io.hints, n))),
      s.io.(hints := Left(s.io.hints, n))))
  }

  function ExecReveal(s: State, insn: u32): State {
    var offset := WrappingAdd(RegRd(s.cpu, insn), Imm12(insn));
    s.(io := s.io.(output := Revealed(s.io.output, offset, ToLe(RegRs1(s.cpu, insn), 4))))
  }

  /** Every phantom but HintInput leaves the state as it is. */
  function ExecPhantom(s: State, insn: u32): Result<State, CpuError> {
    if Imm12(insn) != 0 then Ok(s)
    else
      match HintInput(s.io)
      case None => Err(CustomOp)
      case Some(io) => Ok(s.(io := io))
  }

  ghost function Custom0<B(!new), S(!new)>(env: Env<B, S>, s: State, insn: u32): Result<State, CpuError>
    requires Funct3(insn) != 0
  {
    match Funct3(insn)
    case 1 => ExecHint(s, insn)
    case 2 => Ok(ExecReveal(s, insn))
    case 3 => ExecPhantom(s, insn)
    case 4 => OnCpu(s, ExecHash(env, s.cpu, insn))
    case 5 => OnCpu(s, ExecInt256(s.cpu, insn))
    case 6 => Ok(s.(cpu := ExecBeq256(s.cpu, insn)))
    case _ => Ok(s)
  }

  ghost function Custom1<B(!new), S(!new)>(env: Env<B, S>, s: State, insn: u32): Result<State, CpuError>
    requires WellFormed(env)
  {
    match Funct3(insn)
    case 0 => ExecModular(env, s, insn)
    case 1 => OnCpu(s, ExecSw(env, s.cpu, insn))
    case 2 => OnCpu(s, ExecComplex(env, s.cpu, insn))
    case 3 => ExecPairing(env, s, insn)
    case _ => Err(CustomOp)
  }

  const CUSTOM_0: nat := 0x0b
  const CUSTOM_1: nat := 0x2b

  predicate IsCustom(insn: u32) { Opcode(insn) == CUSTOM_0 || Opcode(insn) == CUSTOM_1 }

  /** `handle`: the program counter moves on by 4 unless the operation already changed it. */
  ghost function Handle<B(!new), S(!new)>(env: Env<B, S>, s: State, insn: u32): Result<Stepped, CpuError>
    requires WellFormed(env)
  {
    if Opcode(insn) == CUSTOM_0 then
      if Funct3(insn) == 0 then Ok(Stepped(Terminated(RegRs1(s.cpu, insn)), s))
      else Moved(s.cpu.pc, Custom0(env, s, insn))
    else if Opcode(insn) == CUSTOM_1 then Moved(s.cpu.pc, Custom1(env, s, insn))
    else Err(IllegalInstruction(s.cpu.pc, insn))
  }

  function Moved(pc: u32, r: Result<State, CpuError>): Result<Stepped, CpuError> {
    match r
    case Err(e) => Err(e)
    case Ok(s) => Ok(Stepped(Continue, if s.cpu.pc == pc then s.(cpu := Advance(s.cpu)) else s))
  }
}
