/** The precompile handlers as they act on a processor object: each method refines the
    function of Precompiles it implements. */
module Handlers {
  import opened Wrappers
  import opened Arithmetic
  import opened Bytes
  import opened PrimeField
  import opened FlatMemory
  import opened Decode
  import opened State
  import opened HintIo
  import opened Curve
  import opened Precompiles
  import opened Processor
  import opened Groups
  import opened PairingConstants
  import Bn254
  import Bls12
  import Bits
  import Keccak
  import Int256
  import Int256Shifts
  import Instructions
  import Modular
  import SquareRoots
  import CurveRoots

  // ----- operands ------------------------------------------------------------------------------

  method ReadValue(cpu: Cpu, ptr: u32, n: nat) returns (v: nat)
    requires cpu.Valid()
    ensures v == ReadLe(cpu.Value().mem, ptr, n)
  {
    var bs := cpu.mem.ReadVec(ptr, n);
    v := LeValue(bs);
  }

  /** Storing bytes upward from ptr: `write_le`, `write32` and the other store loops. */
  method Store(cpu: Cpu, ptr: u32, bs: seq<byte>)
    requires cpu.Valid()
    modifies cpu.mem.Repr
    ensures cpu.Valid() && fresh(cpu.Repr() - old(cpu.Repr()))
    ensures cpu.Value() == old(cpu.Value()).(mem := Write(old(cpu.Value()).mem, ptr, bs))
  {
    cpu.mem.WriteSlice(ptr, bs);
  }

  /** The two values side by side that a register points to. */
  method ReadPair(cpu: Cpu, r: Reg, n: nat) returns (v: nat, w: nat)
    requires cpu.Valid()
    ensures v == ReadLe(cpu.Value().mem, ReadReg(cpu.Value(), r), n)
    ensures w == ReadLe(cpu.Value().mem, WrappingAdd(ReadReg(cpu.Value(), r), n), n)
  {
    var ptr := cpu.ReadRegister(r);
    v := ReadValue(cpu, ptr, n);
    w := ReadValue(cpu, WrappingAdd(ptr, n), n);
  }

  method StorePair(cpu: Cpu, ptr: u32, v: nat, w: nat, n: nat)
    requires cpu.Valid()
    modifies cpu.mem.Repr
    ensures cpu.Valid() && fresh(cpu.Repr() - old(cpu.Repr()))
    ensures cpu.Value() == old(cpu.Value()).(mem :=
      WriteLe(WriteLe(old(cpu.Value()).mem, ptr, v, n), WrappingAdd(ptr, n), w, n))
  {
    Store(cpu, ptr, ToLe(v, n));
    Store(cpu, WrappingAdd(ptr, n), ToLe(w, n));
  }

  // ----- int256.rs -----------------------------------------------------------------------------

  /** `xor`, `or` and `and`: byte by byte. */
  method Combine(op: Bits.BitOp, a: Int256.Word, b: Int256.Word) returns (r: Int256.Word)
    ensures r == Bytewise(op, a, b)
  {
    hide BitByte;
    var bs: seq<byte> := [];
    for i := 0 to 32
      invariant |bs| == i && forall j :: 0 <= j < i ==> bs[j] == BitByte(op, a[j], b[j])
    {
      bs := bs + [BitByte(op, a[i], b[i])];
    }
    r := bs;
  }

  lemma EncodedUnique(r: Int256.Word, v: int)
    requires LeValue(r) == v % Int256.Modulus()
    ensures r == Encoded(v)
  {
    EncodedValue(v);
    LeInjective(r, Encoded(v));
  }

  lemma EncodedSmall(r: Int256.Word)
    ensures r == Encoded(LeValue(r)) && r == Encoded(Int256Shifts.Signed(LeValue(r)))
  {
    LeBound(r);
    var v: int, m: int := LeValue(r), Int256.Modulus();
    SmallMod(v, m);
    EncodedUnique(r, v);
    if 2 * v >= m { DivModUnique(v - m, m, -1, v); }
    EncodedUnique(r, Int256Shifts.Signed(v));
  }

  /** `bool_to_u256`. */
  method BoolToU256(flag: bool) returns (r: Int256.Word)
    ensures r == Encoded(Instructions.FromBool(flag))
  {
    hide LeValue, Pow, Encoded;
    var d: byte := if flag then 1 else 0;
    r := [d] + Zeros(31);
    OneDigit(d);
    EncodedSmall(r);
  }

  lemma OneDigit(d: byte)
    ensures LeValue([d] + Zeros(31)) == d
  {
    hide Pow;
    LeAppend([d], Zeros(31));
    LeZeros(31);
    assert [d][1..] == [];
  }

  method Int256Compute(op: nat, a: Int256.Word, b: Int256.Word) returns (r: Option<Int256.Word>)
    ensures r == Int256Op(op, a, b)
  {
    hide LeValue, Pow, Encoded, Bytewise, Int256Shifts.Signed;
    PowPositive(2, b[0]);
    var w: Int256.Word;
    match op {
      case 0 =>
        w := Int256.Add(a, b);
        EncodedUnique(w, LeValue(a) + LeValue(b));
      case 1 =>
        w := Int256.Sub(a, b);
        EncodedUnique(w, LeValue(a) as int - LeValue(b) as int);
      case 2 => w := Combine(Bits.Differ, a, b);
      case 3 => w := Combine(Bits.Either, a, b);
      case 4 => w := Combine(Bits.Both, a, b);
      case 5 =>
        w := Int256Shifts.ShlMethod(a, b[0]);
        EncodedUnique(w, LeValue(a) * Pow2(b[0]));
      case 6 =>
        w := Int256Shifts.ShrLogical(a, b[0]);
        EncodedSmall(w);
      case 7 =>
        w := Int256Shifts.ShrArith(a, b[0]);
        EncodedSmall(w);
      case 8 =>
        var o := Int256Shifts.CmpSigned(a, b);
        w := BoolToU256(o == Int256Shifts.Less);
      case 9 =>
        var o := Int256Shifts.CmpUnsigned(a, b);
        w := BoolToU256(o == Int256Shifts.Less);
      case 10 =>
        w := Int256.Mul(a, b);
        EncodedUnique(w, LeValue(a) * LeValue(b));
      case _ => return None;
    }
    r := Some(w);
  }

  /** `read32`. */
  method Read32(cpu: Cpu, r: Reg) returns (w: Int256.Word)
    requires cpu.Valid()
    ensures w == Read(cpu.Value().mem, ReadReg(cpu.Value(), r), 32)
  {
    var ptr := cpu.ReadRegister(r);
    w := cpu.mem.ReadVec(ptr, 32);
  }

  method HandleInt256(cpu: Cpu, insn: u32) returns (e: Option<CpuError>)
    requires cpu.Valid()
    modifies cpu.Repr()
    ensures cpu.Valid() && fresh(cpu.Repr() - old(cpu.Repr())) && cpu.steps == old(cpu.steps)
    ensures Refines(e, old(cpu.Value()), cpu.Value(), ExecInt256(old(cpu.Value()), insn))
  {
    hide Int256Op, Write, Read;
    var out := cpu.ReadRegister(Rd(insn));
    var a := Read32(cpu, Rs1(insn));
    var b := Read32(cpu, Rs2(insn));
    var result := Int256Compute(Funct7(insn), a, b);
    if result == None { return Some(CustomOp); }
    Store(cpu, out, result.value);
    e := None;
  }

  method HandleBeq256(cpu: Cpu, insn: u32)
    requires cpu.Valid()
    modifies cpu`pc
    ensures cpu.Valid() && cpu.Value() == ExecBeq256(old(cpu.Value()), insn)
  {
    var a := Read32(cpu, Rs1(insn));
    var b := Read32(cpu, Rs2(insn));
    cpu.pc := WrappingAdd(cpu.pc, if a == b then ImmB(insn) else 4);
  }

  // ----- hashes.rs -----------------------------------------------------------------------------

  lemma {:induction false} LanesSnoc(s: seq<bv64>, lane: bv64)
    ensures LanesToBytes(s + [lane]) == LanesToBytes(s) + LaneBytes(lane)
  {
    if |s| == 0 {
      assert [lane][1..] == [];
    } else {
      assert (s + [lane])[1..] == s[1..] + [lane];
      LanesSnoc(s[1..], lane);
    }
  }

  lemma {:induction false} WordsSnoc(s: seq<u32>, word: u32)
    ensures WordsToBytes(s + [word]) == WordsToBytes(s) + ToLe(word, 4)
    ensures |WordsToBytes(s)| == 4 * |s|
  {
    if |s| == 0 {
      assert [word][1..] == [];
    } else {
      assert (s + [word])[1..] == s[1..] + [word];
      WordsSnoc(s[1..], word);
    }
  }

  method DoKeccakf(cpu: Cpu, insn: u32)
    requires cpu.Valid()
    modifies cpu.Repr()
    ensures cpu.Valid() && fresh(cpu.Repr() - old(cpu.Repr())) && cpu.steps == old(cpu.steps)
    ensures cpu.Value() == var c := old(cpu.Value());
      c.(mem := Write(c.mem, RegRd(c, insn), LanesToBytes(Keccak.KeccakF(ReadLanes(c.mem, RegRd(c, insn))))))
  {
    hide Keccak.KeccakF, Write, Lane, LaneBytes;
    var ptr := cpu.ReadRegister(Rd(insn));
    var state := LoadLanes(cpu, ptr);
    Keccak.KeccakF1600(state);
    StoreLanes(cpu, ptr, state);
  }

  method LoadLanes(cpu: Cpu, ptr: u32) returns (state: array<bv64>)
    requires cpu.Valid()
    ensures fresh(state) && state.Length == 25 && state[..] == ReadLanes(cpu.Value().mem, ptr)
  {
    hide Lane;
    state := new bv64[25];
    for i := 0 to 25
      invariant forall j :: 0 <= j < i ==> state[j] == Lane(Read(cpu.Value().mem, WrappingAdd(ptr, 8 * j), 8))
    {
      var bs := cpu.mem.ReadVec(WrappingAdd(ptr, 8 * i), 8);
      state[i] := Lane(bs);
    }
  }

  method StoreLanes(cpu: Cpu, ptr: u32, state: array<bv64>)
    requires cpu.Valid() && state.Length == 25 && state !in cpu.Repr()
    modifies cpu.mem.Repr
    ensures cpu.Valid() && fresh(cpu.Repr() - old(cpu.Repr()))
    ensures cpu.Value() == old(cpu.Value()).(mem := Write(old(cpu.Value()).mem, ptr, LanesToBytes(state[..])))
  {
    hide Write, LaneBytes;
    ghost var m := cpu.Value().mem;
    WriteNothing(m, ptr);
    for i := 0 to 25
      invariant cpu.Valid() && fresh(cpu.Repr() - old(cpu.Repr())) && state[..] == old(state[..])
      invariant cpu.Value() == old(cpu.Value()).(mem := Write(m, ptr, LanesToBytes(state[..i])))
    {
      LanesSnoc(state[..i], state[i]);
      assert state[..i + 1] == state[..i] + [state[i]];
      WriteConcat(m, ptr, LanesToBytes(state[..i]), LaneBytes(state[i]));
      Store(cpu, WrappingAdd(ptr, 8 * i), LaneBytes(state[i]));
    }
    assert state[..25] == state[..];
  }

  method DoXorin(cpu: Cpu, insn: u32)
    requires cpu.Valid()
    modifies cpu.Repr()
    ensures cpu.Valid() && fresh(cpu.Repr() - old(cpu.Repr())) && cpu.steps == old(cpu.steps)
    ensures cpu.Value() == old(cpu.Value()).(mem := XorIn(old(cpu.Value()).mem, RegRd(old(cpu.Value()), insn),
      RegRs1(old(cpu.Value()), insn), RegRs2(old(cpu.Value()), insn)))
  {
    hide XorByte;
    var dst := cpu.ReadRegister(Rd(insn));
    var src := cpu.ReadRegister(Rs1(insn));
    var len := cpu.ReadRegister(Rs2(insn));
    ghost var m := cpu.Value().mem;
    for i := 0 to len
      invariant cpu.Valid() && fresh(cpu.Repr() - old(cpu.Repr())) && cpu.steps == old(cpu.steps)
      invariant cpu.Value() == old(cpu.Value()).(mem := XorIn(m, dst, src, i))
    {
      var s := cpu.mem.ReadU8(WrappingAdd(src, i));
      var d := cpu.mem.ReadU8(WrappingAdd(dst, i));
      cpu.mem.WriteU8(WrappingAdd(dst, i), XorByte(d, s));
    }
  }

  method LoadWords(cpu: Cpu, ptr: u32) returns (state: Words8)
    requires cpu.Valid()
    ensures state == ReadWords(cpu.Value().mem, ptr)
  {
    var words: seq<u32> := [];
    for i := 0 to 8
      invariant |words| == i
      invariant forall j :: 0 <= j < i ==> words[j] == WordOf(Read(cpu.Value().mem, WrappingAdd(ptr, 4 * j), 4))
    {
      var bs := cpu.mem.ReadVec(WrappingAdd(ptr, 4 * i), 4);
      words := words + [WordOf(bs)];
    }
    state := words;
  }

  method StoreWords(cpu: Cpu, ptr: u32, state: Words8)
    requires cpu.Valid()
    modifies cpu.mem.Repr
    ensures cpu.Valid() && fresh(cpu.Repr() - old(cpu.Repr()))
    ensures cpu.Value() == old(cpu.Value()).(mem := Write(old(cpu.Value()).mem, ptr, WordsToBytes(state)))
  {
    hide Write, ToLe;
    ghost var m := cpu.Value().mem;
    WriteNothing(m, ptr);
    for i := 0 to 8
      invariant cpu.Valid() && fresh(cpu.Repr() - old(cpu.Repr()))
      invariant cpu.Value() == old(cpu.Value()).(mem := Write(m, ptr, WordsToBytes(state[..i])))
    {
      WordsSnoc(state[..i], state[i]);
      assert state[..i + 1] == state[..i] + [state[i]];
      WriteConcat(m, ptr, WordsToBytes(state[..i]), ToLe(state[i], 4));
      Store(cpu, WrappingAdd(ptr, 4 * i), ToLe(state[i], 4));
    }
    assert state[..8] == state;
  }

  method DoSha256Compress<B(!new,==), S(!new,==)>(env: Env<B, S>, cpu: Cpu, insn: u32)
    requires cpu.Valid()
    modifies cpu.Repr()
    ensures cpu.Valid() && fresh(cpu.Repr() - old(cpu.Repr())) && cpu.steps == old(cpu.steps)
    ensures cpu.Value() == var c := old(cpu.Value());
      c.(mem := Write(c.mem, RegRd(c, insn),
        WordsToBytes(env.compress(ReadWords(c.mem, RegRs1(c, insn)), Read(c.mem, RegRs2(c, insn), 64)))))
  {
    hide Write, Read, ReadWords, WordsToBytes;
    var out := cpu.ReadRegister(Rd(insn));
    var prev := cpu.ReadRegister(Rs1(insn));
    var blockPtr := cpu.ReadRegister(Rs2(insn));
    var state := LoadWords(cpu, prev);
    var block := cpu.mem.ReadVec(blockPtr, 64);
    StoreWords(cpu, out, env.compress(state, block));
  }

  method HandleHash<B(!new,==), S(!new,==)>(env: Env<B, S>, cpu: Cpu, insn: u32) returns (e: Option<CpuError>)
    requires cpu.Valid()
    modifies cpu.Repr()
    ensures cpu.Valid() && fresh(cpu.Repr() - old(cpu.Repr())) && cpu.steps == old(cpu.steps)
    ensures Refines(e, old(cpu.Value()), cpu.Value(), ExecHash(env, old(cpu.Value()), insn))
  {
    hide Keccak.KeccakF, Write, XorIn, LanesToBytes, WordsToBytes;
    match Funct7(insn) {
      case 0 => DoKeccakf(cpu, insn);
      case 1 => DoXorin(cpu, insn);
      case 2 => DoSha256Compress(env, cpu, insn);
      case _ => return Some(CustomOp);
    }
    e := None;
  }

  // ----- modular.rs ----------------------------------------------------------------------------

  method DoModOp(cpu: Cpu, insn: u32, entry: ModulusEntry, op: nat) returns (e: Option<CpuError>)
    requires cpu.Valid() && entry.modulus > 0
    modifies cpu.Repr()
    ensures cpu.Valid() && fresh(cpu.Repr() - old(cpu.Repr())) && cpu.steps == old(cpu.steps)
    ensures Refines(e, old(cpu.Value()), cpu.Value(), ExecModOp(old(cpu.Value()), insn, entry, op))
  {
    hide ModOp, AfterMod, ReadLe;
    var out := cpu.ReadRegister(Rd(insn));
    var aPtr := cpu.ReadRegister(Rs1(insn));
    var bPtr := cpu.ReadRegister(Rs2(insn));
    var n, p := entry.limbBytes, entry.modulus;
    var a: nat := ReadValue(cpu, aPtr, n);
    var b: nat := ReadValue(cpu, bPtr, n);
    var r := ModOp(op, a, b, p);
    if r.Err? { return Some(r.error); }
    ApplyMod(cpu, insn, out, r.value, n);
    e := None;
  }

  method ApplyMod(cpu: Cpu, insn: u32, out: u32, effect: Effect<nat>, n: nat)
    requires cpu.Valid()
    modifies cpu.Repr()
    ensures cpu.Valid() && fresh(cpu.Repr() - old(cpu.Repr())) && cpu.steps == old(cpu.steps)
    ensures cpu.Value() == AfterMod(old(cpu.Value()), insn, out, effect, n)
  {
    match effect {
      case Value(v) => Store(cpu, out, ToLe(v, n));
      case Flag(flag) => cpu.WriteRegister(Rd(insn), Instructions.FromBool(flag));
      case NoEffect =>
    }
  }

  /** The bytes of the two hints, computed by the search and square-root methods. */
  method ComputeModHint<B(!new,==), S(!new,==)>(env: Env<B, S>, cpu: Cpu, insn: u32, entry: ModulusEntry, op: nat)
    returns (r: Result<seq<byte>, CpuError>)
    requires cpu.Valid() && Drawn(env, entry.modulus)
    ensures r == ModHint(env, cpu.Value(), insn, entry, op)
  {
    hide SquareRoots.FindNonQr, SquareRoots.ModSqrt;
    var p := entry.modulus;
    var drawn := SquareRoots.FindNonQrOpenvm(p, env.draws(p));
    var nonQr: nat := drawn.value;
    if op == 6 { return Ok(ToLe(nonQr, entry.limbBytes)); }
    var xPtr := cpu.ReadRegister(Rs1(insn));
    var x: nat := ReadValue(cpu, xPtr, entry.limbBytes);
    var root := SquareRoots.ModSqrtOpenvm(x, p, nonQr);
    var hint: SquareRoots.SqrtHint;
    match root {
      case Some(s) => hint := SquareRoots.SqrtHint(true, s);
      case None =>
        var prod: nat := MulMod(x, nonQr, p);
        var other := SquareRoots.ModSqrtOpenvm(prod, p, nonQr);
        if other == None { return Err(Panic); }
        hint := SquareRoots.SqrtHint(false, other.value);
    }
    r := Ok(SquareRoots.SqrtHintBytes(hint, entry.limbBytes));
  }

  method HandleComplex<B(!new,==), S(!new,==)>(env: Env<B, S>, cpu: Cpu, insn: u32) returns (e: Option<CpuError>)
    requires cpu.Valid() && WellFormed(env)
    modifies cpu.Repr()
    ensures cpu.Valid() && fresh(cpu.Repr() - old(cpu.Repr())) && cpu.steps == old(cpu.steps)
    ensures Refines(e, old(cpu.Value()), cpu.Value(), ExecComplex(env, old(cpu.Value()), insn))
  {
    hide ComplexOp, AfterFp2, ReadLe;
    var idx, op := Funct7(insn) / 8, Funct7(insn) % 8;
    if idx >= |env.complex| { return Some(CustomOp); }
    var entry := env.complex[idx];
    assert entry in env.complex;
    var n, p := entry.limbBytes, entry.modulus;
    var out := cpu.ReadRegister(Rd(insn));
    var a0: nat, a1: nat := ReadPair(cpu, Rs1(insn), n);
    var b0: nat, b1: nat := ReadPair(cpu, Rs2(insn), n);
    var r := ComplexOp(op, Modular.Fp2(a0, a1), Modular.Fp2(b0, b1), p);
    if r.Err? { return Some(r.error); }
    ApplyFp2(cpu, insn, out, r.value, n);
    e := None;
  }

  method ApplyFp2(cpu: Cpu, insn: u32, out: u32, effect: Effect<Modular.Fp2>, n: nat)
    requires cpu.Valid()
    modifies cpu.Repr()
    ensures cpu.Valid() && fresh(cpu.Repr() - old(cpu.Repr())) && cpu.steps == old(cpu.steps)
    ensures cpu.Value() == AfterFp2(old(cpu.Value()), insn, out, effect, n)
  {
    match effect {
      case Value(v) => StorePair(cpu, out, v.c0, v.c1, n);
      case Flag(flag) => cpu.WriteRegister(Rd(insn), Instructions.FromBool(flag));
      case NoEffect =>
    }
  }

  // ----- ecc.rs ----------------------------------------------------------------------------------

  method ComputeSw(c: CurveEntry, op: nat, p1: Point, p2: Point, parity: nat) returns (r: Result<SwResult, CpuError>)
    requires IsOddPrime(c.modulus)
    ensures r == SwOp(c, op, p1, p2, parity)
  {
    hide AddNe, Double, CurveRoots.TonelliShanksRoot, CurveRoots.LeastNonResidue, CurveRoots.NonResidueAhead;
    match op {
      case 0 =>
        match AddNe(c, p1, p2) {
          case Some(q) => return Ok(WritesPoint(q));
          case None => return Err(Panic);
        }
      case 1 =>
        match Double(c, p1) {
          case Some(q) => return Ok(WritesPoint(q));
          case None => return Err(Panic);
        }
      case 2 => return Ok(WritesNothing);
      case 3 =>
        var root := CurveRoots.TonelliShanksMethod(CurveRhs(c, p1.x), c.modulus);
        match root {
          case None => return Err(CustomOp);
          case Some(y) => return Ok(WritesCoordinate(FitParity(y, parity, c.modulus)));
        }
      case 4 =>
        var z: nat := CurveRoots.SearchNonResidue(c.modulus);
        return Ok(WritesCoordinate(z));
      case _ => return Err(CustomOp);
    }
  }

  method HandleSw<B(!new,==), S(!new,==)>(env: Env<B, S>, cpu: Cpu, insn: u32) returns (e: Option<CpuError>)
    requires cpu.Valid() && WellFormed(env)
    modifies cpu.Repr()
    ensures cpu.Valid() && fresh(cpu.Repr() - old(cpu.Repr())) && cpu.steps == old(cpu.steps)
    ensures Refines(e, old(cpu.Value()), cpu.Value(), ExecSw(env, old(cpu.Value()), insn))
  {
    hide SwOp, WriteSw, ReadLe;
    var idx, op := Funct7(insn) / 8, Funct7(insn) % 8;
    if idx >= |env.curves| { return Some(CustomOp); }
    var curve := env.curves[idx];
    assert curve in env.curves;
    var n := curve.coordBytes;
    var out := cpu.ReadRegister(Rd(insn));
    var b := cpu.ReadRegister(Rs2(insn));
    var x1: nat, y1: nat := ReadPair(cpu, Rs1(insn), n);
    var x2: nat, y2: nat := ReadPair(cpu, Rs2(insn), n);
    var r := ComputeSw(curve, op, Point(x1, y1), Point(x2, y2), b % 2);
    if r.Err? { return Some(r.error); }
    StoreSwResult(cpu, out, r.value, n);
    e := None;
  }

  method StoreSwResult(cpu: Cpu, out: u32, r: SwResult, n: nat)
    requires cpu.Valid()
    modifies cpu.mem.Repr
    ensures cpu.Valid() && fresh(cpu.Repr() - old(cpu.Repr()))
    ensures cpu.Value() == old(cpu.Value()).(mem := WriteSw(old(cpu.Value()).mem, out, r, n))
  {
    match r {
      case WritesPoint(q) => StorePair(cpu, out, q.x, q.y, n);
      case WritesCoordinate(v) => Store(cpu, out, ToLe(v, n));
      case WritesNothing =>
    }
  }

  // ----- the hint data of a pairing ----------------------------------------------------------------

  method LoadPoints(cpu: Cpu, base: u32, count: nat, size: nat) returns (points: seq<seq<byte>>)
    requires cpu.Valid()
    ensures points == Points(cpu.Value().mem, base, count, size)
  {
    points := [];
    for i := 0 to count
      invariant |points| == i
      invariant forall j :: 0 <= j < i ==> points[j] == Read(cpu.Value().mem, WrappingAdd(base, j * size), size)
    {
      var bs := cpu.mem.ReadVec(WrappingAdd(base, i * size), size);
      points := points + [bs];
    }
  }

  method ComputePairingHint<B(!new,==), S(!new,==)>(env: Env<B, S>, curve: PairingCurve, cpu: Cpu, insn: u32)
    returns (r: Result<seq<byte>, CpuError>)
    requires cpu.Valid() && TargetsAreGroups(env)
    ensures r == PairingHint(env, curve, cpu.Value().mem, RegRs1(cpu.Value(), insn), RegRs2(cpu.Value(), insn))
  {
    hide PairingInput, WitnessBytes, TargetsAreGroups;
    var descP := cpu.ReadRegister(Rs1(insn));
    var descQ := cpu.ReadRegister(Rs2(insn));
    var input := LoadPairingInput(curve, cpu, descP, descQ);
    match input {
      case None => return Err(CustomOp);
      case Some((g1, g2)) => r := ComputeWitness(env, curve, g1, g2);
    }
  }

  method LoadPairingInput(curve: PairingCurve, cpu: Cpu, descP: u32, descQ: u32)
    returns (r: Option<(seq<seq<byte>>, seq<seq<byte>>)>)
    requires cpu.Valid()
    ensures r == PairingInput(curve, cpu.Value().mem, descP, descQ)
  {
    hide Points, WordAt;
    var p := cpu.mem.ReadU32(descP);
    var pLen := cpu.mem.ReadU32(WrappingAdd(descP, 4));
    var q := cpu.mem.ReadU32(descQ);
    var qLen := cpu.mem.ReadU32(WrappingAdd(descQ, 4));
    if pLen != qLen { return None; }
    var w := FieldBytes(curve);
    var g1 := LoadPoints(cpu, p, pLen, 2 * w);
    var g2 := LoadPoints(cpu, q, qLen, 4 * w);
    r := Some((g1, g2));
  }

  /** The serialised pair of `final_exp_hint`, through its loops for BN254. */
  method ComputeWitness<B(!new,==), S(!new,==)>(env: Env<B, S>, curve: PairingCurve, g1: seq<seq<byte>>, g2: seq<seq<byte>>)
    returns (r: Result<seq<byte>, CpuError>)
    requires TargetsAreGroups(env)
    ensures r == WitnessBytes(env, curve, g1, g2)
  {
    hide Bn254.PairOf, Bn254.RootOfUnity, Bn254.Exponents, Bls12.FinalExpHint, IsCommGroup, Serialised;
    match curve {
      case Bn254 =>
        var t := env.bn254;
        if |g1| == 0 { return Ok(Serialised(t, (t.group.one, t.group.one))); }
        Bn254Exponents(env.omega);
        var c, u := Bn254.FinalExpHint(t.group, BnConstants(env.omega), Miller(t, g1, g2), BnNumbers());
        return Ok(Serialised(t, (c, u)));
      case Bls12_381 =>
        var t := env.bls12;
        if |g1| == 0 { return Ok(Serialised(t, (t.group.one, t.group.one))); }
        match Bls12.FinalExpHint(t.group, BlsFactors(), Miller(t, g1, g2)) {
          case Some(pair) => return Ok(Serialised(t, pair));
          case None => return Err(Panic);
        }
    }
  }
}
