/** Whole custom instructions: fetched from memory, operands read, result written. */
module InstructionProperties {
  import opened Wrappers
  import opened Arithmetic
  import opened Bytes
  import opened PrimeField
  import opened QuadraticResidues
  import opened RootChoice
  import opened FlatMemory
  import opened Decode
  import opened State
  import opened HintIo
  import opened Curve
  import opened Precompiles
  import opened Machine
  import Int256
  import Int256Shifts
  import Modular
  import Euclid
  import Keccak
  import Bits
  import SquareRoots
  import CurveRoots
  import TonelliShanks

  /** The next instruction is a custom one of the given slot and funct3. */
  ghost predicate Fetches(s: State, insn: u32, opcode: nat, funct3: nat) {
    insn == WordAt(s.cpu.mem, s.cpu.pc) && Opcode(insn) == opcode && Funct3(insn) == funct3
  }

  /** The step is completed and moves on to pc + 4; memory may differ in n bytes from out,
      nothing else changes. */
  ghost predicate WritesOnly(s: State, r: Result<Stepped, CpuError>, out: u32, n: nat) {
    && r.Ok? && r.value.outcome == Continue
    && var c := r.value.state.cpu;
       && r.value.state == s.(cpu := CpuState(WrappingAdd(s.cpu.pc, 4), s.cpu.x, c.mem))
       && forall a: u32 :: Offset(out, a) >= n ==> c.mem[a] == s.cpu.mem[a]
  }

  /** A word assembled from its fields names the registers and the operation that went in. */
  lemma AssembledWord(c: CpuState, insn: u32, op: nat, rd: Reg, f3: nat, rs1: Reg, rs2: Reg, f7: nat)
    requires op < 128 && f3 < 8 && f7 < 128
    requires insn == op + 0x80 * rd + 0x1000 * f3 + 0x8000 * rs1 + 0x10_0000 * rs2 + 0x200_0000 * f7
    ensures Opcode(insn) == op && Funct3(insn) == f3 && Funct7(insn) == f7
    ensures Rd(insn) == rd && Rs1(insn) == rs1 && Rs2(insn) == rs2
    ensures RegRd(c, insn) == if rd == 0 then 0 else c.x[rd]
    ensures RegRs1(c, insn) == if rs1 == 0 then 0 else c.x[rs1]
    ensures RegRs2(c, insn) == if rs2 == 0 then 0 else c.x[rs2]
  {
    var e := rs2 + 32 * f7;
    var d := rs1 + 32 * e;
    var b := f3 + 8 * d;
    var a := rd + 32 * b;
    assert insn == op + 128 * a;
    DivModUnique(insn, 0x80, a, op);
    DivModUnique(a, 32, b, rd);
    DivModUnique(insn, 0x1000, b, op + 0x80 * rd);
    DivModUnique(b, 8, d, f3);
    DivModUnique(insn, 0x8000, d, op + 0x80 * rd + 0x1000 * f3);
    DivModUnique(d, 32, e, rs1);
    DivModUnique(insn, 0x10_0000, e, op + 0x80 * rd + 0x1000 * f3 + 0x8000 * rs1);
    DivModUnique(e, 32, f7, rs2);
    DivModUnique(insn, 0x200_0000, f7, op + 0x80 * rd + 0x1000 * f3 + 0x8000 * rs1 + 0x10_0000 * rs2);
  }

  lemma StepCustom0<B(!new), S(!new)>(env: Env<B, S>, s: State, insn: u32)
    requires WellFormed(env) && insn == WordAt(s.cpu.mem, s.cpu.pc) && Opcode(insn) == 0x0b && Funct3(insn) != 0
    ensures Step(env, s) == Moved(s.cpu.pc, Custom0(env, s, insn))
  {
    hide WordAt, Custom0, Moved;
  }

  lemma StepCustom1<B(!new), S(!new)>(env: Env<B, S>, s: State, insn: u32)
    requires WellFormed(env) && insn == WordAt(s.cpu.mem, s.cpu.pc) && Opcode(insn) == 0x2b
    ensures Step(env, s) == Moved(s.cpu.pc, Custom1(env, s, insn))
  {
    hide WordAt, Custom1, Moved;
  }

  // ----- values written and read back -------------------------------------------------------------

  lemma WriteReadLe(m: Flat, ptr: u32, v: nat, n: nat)
    requires v < Pow(256, n) && n <= 0x1_0000_0000
    ensures ReadLe(WriteLe(m, ptr, v, n), ptr, n) == v
    ensures forall a: u32 :: Offset(ptr, a) >= n ==> WriteLe(m, ptr, v, n)[a] == m[a]
  {
    WriteThenRead(m, ptr, ToLe(v, n));
    LeRoundTrip(v, n);
  }

  /** Two values side by side, as points and Fp2 elements are stored. */
  lemma WriteReadPair(m: Flat, ptr: u32, v: nat, w: nat, n: nat)
    requires v < Pow(256, n) && w < Pow(256, n) && 2 * n <= 0x1_0000_0000
    ensures var m' := WriteLe(WriteLe(m, ptr, v, n), WrappingAdd(ptr, n), w, n);
      && ReadLe(m', ptr, n) == v && ReadLe(m', WrappingAdd(ptr, n), n) == w
      && forall a: u32 :: Offset(ptr, a) >= 2 * n ==> m'[a] == m[a]
  {
    hide Write, LeValue, Pow, Offset;
    var m0, next := WriteLe(m, ptr, v, n), WrappingAdd(ptr, n);
    var m' := WriteLe(m0, next, w, n);
    WriteReadLe(m, ptr, v, n);
    WriteReadLe(m0, next, w, n);
    UntouchedBelow(m0, m', ptr, n);
    forall a: u32 | Offset(ptr, a) >= 2 * n ensures m'[a] == m[a] {
      OffsetFromNext(ptr, a, n);
    }
  }

  lemma UntouchedBelow(m: Flat, m': Flat, ptr: u32, n: nat)
    requires n <= 0x8000_0000
    requires forall a: u32 :: Offset(WrappingAdd(ptr, n), a) >= n ==> m'[a] == m[a]
    ensures Read(m', ptr, n) == Read(m, ptr, n)
  {
    hide Offset, WrappingAdd;
    forall i: nat | i < n ensures Read(m', ptr, n)[i] == Read(m, ptr, n)[i] {
      OffsetOfSum(ptr, 0, i);
      OffsetFromNext(ptr, WrappingAdd(ptr, i), n);
    }
  }

  lemma OffsetFromNext(ptr: u32, a: u32, n: nat)
    requires n <= 0x8000_0000
    ensures Offset(ptr, a) < n ==> Offset(WrappingAdd(ptr, n), a) >= n
    ensures Offset(ptr, a) >= n ==> Offset(WrappingAdd(ptr, n), a) == Offset(ptr, a) - n
  {}

  // ----- INT256 and BEQ256 ---------------------------------------------------------------------------

  /** What the operations mean on the integers x and y modulo 2^256. */
  ghost predicate Int256Means(op: nat, x: nat, y: nat, r: nat) {
    var k, m := y % 256, Int256.Modulus();
    && (op == 0 ==> r == (x + y) % m)
    && (op == 1 ==> r == (x - y) % m)
    && (op == 2 ==> r == Bits.Xor(256, x, y))
    && (op == 3 ==> r == Bits.Or(256, x, y))
    && (op == 4 ==> r == Bits.And(256, x, y))
    && (op == 5 ==> r == (x * Pow2(k)) % m)
    && (op == 6 ==> Pow2(k) > 0 && r == x / Pow2(k))
    && (op == 7 ==> Pow2(k) > 0 && Int256Shifts.Signed(r) == Int256Shifts.Signed(x) / Pow2(k))
    && (op == 8 ==> r == if Int256Shifts.Signed(x) < Int256Shifts.Signed(y) then 1 else 0)
    && (op == 9 ==> r == if x < y then 1 else 0)
    && (op == 10 ==> r == (x * y) % m)
  }

  lemma Int256OpMeaning(op: nat, a: Int256.Word, b: Int256.Word)
    requires op <= 10
    ensures Int256Op(op, a, b).Some? && Int256Means(op, LeValue(a), LeValue(b), LeValue(Int256Op(op, a, b).value))
  {
    hide LeValue, Pow, Encoded, Int256Shifts.Signed, Bits.Bitwise, Bytewise;
    var x, y, k := LeValue(a), LeValue(b), b[0];
    LowByte(b);
    PowPositive(2, k);
    LeBound(a);
    Int256Shifts.FillIsSmall();
    match op
    case 0 => EncodedValue(x + y);
    case 1 => EncodedValue(x - y);
    case 2 => BytewiseValue(Bits.Differ, a, b);
    case 3 => BytewiseValue(Bits.Either, a, b);
    case 4 => BytewiseValue(Bits.Both, a, b);
    case 5 => EncodedValue(x * Pow2(k));
    case 6 =>
      EncodedValue(x / Pow2(k));
      Instructions.ShrAtMost(x, Pow2(k));
      BelowModulus(a, x / Pow2(k));
    case 7 =>
      EncodedValue(Int256Shifts.Signed(x) / Pow2(k));
      SignedOfShift(a, k);
    case 8 =>
      EncodedValue(Instructions.FromBool(Int256Shifts.Signed(x) < Int256Shifts.Signed(y)));
      SmallMod(1, Int256.Modulus());
      SmallMod(0, Int256.Modulus());
    case 9 =>
      EncodedValue(Instructions.FromBool(x < y));
      SmallMod(1, Int256.Modulus());
      SmallMod(0, Int256.Modulus());
    case _ => EncodedValue(x * y);
  }

  lemma LowByte(b: Int256.Word)
    ensures LeValue(b) % 256 == b[0]
  {
    assert LeValue(b) == b[0] + 256 * LeValue(b[1..]);
  }

  lemma BelowModulus(a: Int256.Word, v: nat)
    requires v <= LeValue(a)
    ensures v % Int256.Modulus() == v
  {
    LeBound(a);
    SmallMod(v, Int256.Modulus());
  }

  /** The quotient of a signed 256-bit value is one again. */
  lemma SignedOfShift(a: Int256.Word, k: nat)
    ensures Pow2(k) > 0
    ensures var q := Int256Shifts.Signed(LeValue(a)) / Pow2(k);
      Int256Shifts.Signed(q % Int256.Modulus()) == q
  {
    hide Pow, LeValue;
    PowPositive(2, k);
    LeBound(a);
    var m, v := Int256.Modulus(), Int256Shifts.Signed(LeValue(a));
    var q := v / Pow2(k);
    Int256Shifts.FloorBetween(v, Pow2(k), q);
    if q < 0 { DivModUnique(q, m, -1, q + m); } else { SmallMod(q, m); }
  }

  /** One INT256 instruction, wherever its operands and result lie, overlapping or wrapping:
      the 32 bytes at [rd] hold the operation on the values read before, nothing else changes. */
  lemma Int256Instruction<B(!new), S(!new)>(env: Env<B, S>, s: State, insn: u32)
    requires WellFormed(env) && Fetches(s, insn, 0x0b, 5) && Funct7(insn) <= 10
    ensures var out, a, b := RegRd(s.cpu, insn), RegRs1(s.cpu, insn), RegRs2(s.cpu, insn);
      && WritesOnly(s, Step(env, s), out, 32)
      && Int256Means(Funct7(insn), ReadLe(s.cpu.mem, a, 32), ReadLe(s.cpu.mem, b, 32),
           ReadLe(Step(env, s).value.state.cpu.mem, out, 32))
  {
    hide Int256Op, Int256Means, WordAt, Step;
    StepCustom0(env, s, insn);
    var out, a, b := RegRd(s.cpu, insn), RegRs1(s.cpu, insn), RegRs2(s.cpu, insn);
    var x: Int256.Word, y: Int256.Word := Read(s.cpu.mem, a, 32), Read(s.cpu.mem, b, 32);
    Int256OpMeaning(Funct7(insn), x, y);
    var word := Int256Op(Funct7(insn), x, y).value;
    WriteThenRead(s.cpu.mem, out, word);
  }

  /** BEQ256 compares values; a taken branch with offset 0 goes to pc + 4, because the
      dispatcher moves on whenever the program counter is where it was. */
  lemma Beq256Target<B(!new), S(!new)>(env: Env<B, S>, s: State, insn: u32)
    requires WellFormed(env) && Fetches(s, insn, 0x0b, 6)
    ensures var equal := ReadLe(s.cpu.mem, RegRs1(s.cpu, insn), 32) == ReadLe(s.cpu.mem, RegRs2(s.cpu, insn), 32);
      Step(env, s) == Ok(Stepped(Continue, s.(cpu := s.cpu.(pc :=
        WrappingAdd(s.cpu.pc, if equal && ImmB(insn) != 0 then ImmB(insn) else 4)))))
  {
    hide WordAt, ImmB, Step;
    StepCustom0(env, s, insn);
    var a, b := Read(s.cpu.mem, RegRs1(s.cpu, insn), 32), Read(s.cpu.mem, RegRs2(s.cpu, insn), 32);
    if LeValue(a) == LeValue(b) { LeInjective(a, b); }
    BranchMoves(s.cpu.pc, ImmB(insn));
    BranchMoves(s.cpu.pc, 4);
  }

  lemma BranchMoves(pc: u32, offset: u32)
    ensures WrappingAdd(pc, offset) == pc <==> offset == 0
  {}

  // ----- modular.rs ------------------------------------------------------------------------------------

  /** The modulus selected by the upper bits of funct7. */
  ghost predicate Selects<B(!new), S(!new)>(env: Env<B, S>, insn: u32, e: ModulusEntry) {
    Funct7(insn) / 8 < |env.moduli| && e == env.moduli[Funct7(insn) / 8]
  }

  /** The field operation on operands of any size, by what it satisfies. */
  ghost predicate FieldMeans(op: nat, a: nat, b: nat, r: nat, p: nat)
    requires p > 0
  {
    && r < p
    && (op == 0 ==> Cong(r, a + b, p))
    && (op == 1 ==> Cong(r, a - b, p))
    && (op == 2 ==> Cong(r, a * b, p))
    && (op == 3 ==> Cong(r * b, a, p))
  }

  /** When an operation of the field stops instead. */
  function FieldFailure(op: nat, a: nat, b: nat, p: nat): Option<CpuError>
    requires p > 0
  {
    if op == 1 && b > a + p then Some(Panic)
    else if op == 3 && b % p == 0 then Some(CustomOp)
    else None
  }

  lemma ModOpMeaning(op: nat, a: nat, b: nat, p: nat)
    requires IsPrime(p) && op <= 3
    ensures match FieldFailure(op, a, b, p)
      case Some(err) => ModOp(op, a, b, p) == Err(err)
      case None =>
        && ModOp(op, a, b, p).Ok? && ModOp(op, a, b, p).value.Value?
        && FieldMeans(op, a, b, ModOp(op, a, b, p).value.v, p)
  {
    CongMod(a + b, p);
    CongMod(a - b, p);
    CongMod(a * b, p);
    Modular.SubModExact(a, b, p);
    Modular.DivThenMul(a, b, p);
    InvertibleUnlessZero(b, p);
    if op == 3 && ModOp(op, a, b, p).Ok? {
      var q := Modular.DivMod(a, b, p).value;
      CongMod(q * b, p);
    }
  }

  /** One modular ADD, SUB, MUL or DIV instruction, on operands that need not be reduced: it
      fails exactly as FieldFailure says, and otherwise stores the canonical result. */
  lemma ModularInstruction<B(!new), S(!new)>(env: Env<B, S>, s: State, insn: u32, e: ModulusEntry)
    requires WellFormed(env) && Fetches(s, insn, 0x2b, 0) && Selects(env, insn, e)
    requires Funct7(insn) % 8 <= 3 && e.modulus <= Pow(256, e.limbBytes) && e.limbBytes <= 0x1_0000_0000
    ensures e.modulus > 0
    ensures var op, n, out := Funct7(insn) % 8, e.limbBytes, RegRd(s.cpu, insn);
      var a, b := ReadLe(s.cpu.mem, RegRs1(s.cpu, insn), n), ReadLe(s.cpu.mem, RegRs2(s.cpu, insn), n);
      match FieldFailure(op, a, b, e.modulus)
      case Some(err) => Step(env, s) == Err(err)
      case None =>
        && WritesOnly(s, Step(env, s), out, n)
        && FieldMeans(op, a, b, ReadLe(Step(env, s).value.state.cpu.mem, out, n), e.modulus)
  {
    hide ModOp, FieldFailure, FieldMeans, WordAt, Write, Pow, LeValue, Step;
    StepCustom1(env, s, insn);
    assert e in env.moduli;
    var op, n, out := Funct7(insn) % 8, e.limbBytes, RegRd(s.cpu, insn);
    var a, b := ReadLe(s.cpu.mem, RegRs1(s.cpu, insn), n), ReadLe(s.cpu.mem, RegRs2(s.cpu, insn), n);
    ModOpMeaning(op, a, b, e.modulus);
    if FieldFailure(op, a, b, e.modulus) == None {
      var v := ModOp(op, a, b, e.modulus).value.v;
      MeaningIsReduced(op, a, b, v, e.modulus);
      WriteReadLe(s.cpu.mem, out, v, n);
    }
  }

  lemma MeaningIsReduced(op: nat, a: nat, b: nat, r: nat, p: nat)
    requires p > 0 && FieldMeans(op, a, b, r, p)
    ensures r < p
  {}

  /** IsEq leaves memory alone and says in register rd whether the operands are congruent. */
  lemma IsEqInstruction<B(!new), S(!new)>(env: Env<B, S>, s: State, insn: u32, e: ModulusEntry)
    requires WellFormed(env) && Fetches(s, insn, 0x2b, 0) && Selects(env, insn, e) && Funct7(insn) % 8 == 4
    ensures e.modulus > 0
    ensures var n := e.limbBytes;
      var a, b := ReadLe(s.cpu.mem, RegRs1(s.cpu, insn), n), ReadLe(s.cpu.mem, RegRs2(s.cpu, insn), n);
      Step(env, s) == Ok(Stepped(Continue,
        s.(cpu := Advance(WriteReg(s.cpu, Rd(insn), if Cong(a, b, e.modulus) then 1 else 0)))))
  {
    hide WordAt, LeValue, Step;
    StepCustom1(env, s, insn);
    assert e in env.moduli;
  }

  /** The non-residue hint replaces the hint stream by a value of the field without a root: p - 1
      or 2 by the residue of the modulus, or else the first that the generator comes up with. */
  lemma NonResidueHintInstruction<B(!new), S(!new)>(env: Env<B, S>, s: State, insn: u32, e: ModulusEntry)
    requires WellFormed(env) && Fetches(s, insn, 0x2b, 0) && Selects(env, insn, e)
    requires Funct7(insn) % 8 == 6 && e.modulus <= Pow(256, e.limbBytes)
    ensures e.modulus >= 3 && Step(env, s).Ok?
    ensures var hints := Step(env, s).value.state.io.hints;
      && Step(env, s).value == Stepped(Continue, State(Advance(s.cpu), s.io.(hints := hints)))
      && |hints| == e.limbBytes && LeValue(hints) < e.modulus && !IsSquare(LeValue(hints), e.modulus)
      && (e.modulus % 4 == 3 ==> LeValue(hints) == e.modulus - 1)
      && (e.modulus % 8 == 5 ==> LeValue(hints) == 2)
      && (e.modulus % 8 == 1 ==> SquareRoots.IsFirstDraw(LeValue(hints), env.draws(e.modulus), e.modulus))
  {
    hide WordAt, Pow, LeValue, Step, SquareRoots.FindNonQr, SquareRoots.IsFirstDraw;
    StepCustom1(env, s, insn);
    assert e in env.moduli;
    var draws := env.draws(e.modulus);
    SquareRoots.FindNonQrIsNonResidue(draws, e.modulus);
    SquareRoots.FindNonQrValue(draws, e.modulus);
    LeRoundTrip(SquareRoots.FindNonQr(draws, e.modulus).value, e.limbBytes);
  }

  /** The square-root hint never panics. The flag says whether the operand is a square, the
      root is one of the operand or of the operand times the modulus' non-residue, the one of
      the two that ChosenRoot fixes, and the guest finds it whole in the hint stream; earlier
      hints are gone. */
  lemma SquareRootHintInstruction<B(!new), S(!new)>(env: Env<B, S>, s: State, insn: u32, e: ModulusEntry)
    requires WellFormed(env) && Fetches(s, insn, 0x2b, 0) && Selects(env, insn, e)
    requires Funct7(insn) % 8 == 7 && e.modulus <= Pow(256, e.limbBytes)
    ensures Drawn(env, e.modulus) && Step(env, s).Ok?
    ensures var x := ReadLe(s.cpu.mem, RegRs1(s.cpu, insn), e.limbBytes);
      var z := SquareRoots.FindNonQr(env.draws(e.modulus), e.modulus).value;
      var hints := Step(env, s).value.state.io.hints;
      && Step(env, s).value == Stepped(Continue, State(Advance(s.cpu), s.io.(hints := hints)))
      && !IsSquare(z, e.modulus)
      && |hints| == 4 + e.limbBytes
      && LeValue(hints[..4]) == (if IsSquare(x, e.modulus) then 1 else 0)
      && var root := LeValue(hints[4..]);
         && root < e.modulus && Cong(root * root, if IsSquare(x, e.modulus) then x else x * z, e.modulus)
         && ChosenRoot(root, if IsSquare(x, e.modulus) then x else MulMod(x, z, e.modulus), z, e.modulus)
  {
    hide WordAt, Pow, LeValue, Step, ChosenRoot, SquareRoots.HintSqrt, SquareRoots.FindNonQr, SquareRoots.SqrtHintBytes;
    StepCustom1(env, s, insn);
    assert e in env.moduli;
    var p, draws := e.modulus, env.draws(e.modulus);
    var x := ReadLe(s.cpu.mem, RegRs1(s.cpu, insn), e.limbBytes);
    SquareRoots.FindNonQrIsNonResidue(draws, p);
    SquareRoots.HintSqrtTotalAndExact(x, p, draws);
    var z := SquareRoots.FindNonQr(draws, p).value;
    SquareRoots.SqrtHintBytesDecode(SquareRoots.HintSqrt(x, p, z).value, e.limbBytes);
  }

  // ----- Fp2 --------------------------------------------------------------------------------------------

  ghost predicate SelectsComplex<B(!new), S(!new)>(env: Env<B, S>, insn: u32, e: ModulusEntry) {
    Funct7(insn) / 8 < |env.complex| && e == env.complex[Funct7(insn) / 8]
  }

  ghost predicate Fp2Means(op: nat, a: Modular.Fp2, b: Modular.Fp2, r: Modular.Fp2, p: nat)
    requires p > 0
  {
    && r.c0 < p && r.c1 < p
    && (op == 0 ==> Cong(r.c0, a.c0 + b.c0, p) && Cong(r.c1, a.c1 + b.c1, p))
    && (op == 1 ==> Cong(r.c0, a.c0 - b.c0, p) && Cong(r.c1, a.c1 - b.c1, p))
    && (op == 2 ==> Cong(r.c0, a.c0 * b.c0 - a.c1 * b.c1, p) && Cong(r.c1, a.c0 * b.c1 + a.c1 * b.c0, p))
    && (op == 3 ==> Cong(r.c0 * b.c0 - r.c1 * b.c1, a.c0, p) && Cong(r.c0 * b.c1 + r.c1 * b.c0, a.c1, p))
  }

  function Fp2Failure(op: nat, a: Modular.Fp2, b: Modular.Fp2, p: nat): Option<CpuError>
    requires p > 0
  {
    if op == 1 && (b.c0 > a.c0 + p || b.c1 > a.c1 + p) then Some(Panic)
    else if op == 3 && (b.c0 * b.c0 + b.c1 * b.c1) % p == 0 then Some(CustomOp)
    else if op == 3 && b.c1 > p then Some(Panic)
    else None
  }

  lemma ComplexOpMeaning(op: nat, a: Modular.Fp2, b: Modular.Fp2, p: nat)
    requires IsPrime(p) && op <= 3
    ensures match Fp2Failure(op, a, b, p)
      case Some(err) => ComplexOp(op, a, b, p) == Err(err)
      case None =>
        && ComplexOp(op, a, b, p).Ok? && ComplexOp(op, a, b, p).value.Value?
        && Fp2Means(op, a, b, ComplexOp(op, a, b, p).value.v, p)
  {
    match op
    case 0 =>
      CongMod(a.c0 + b.c0, p);
      CongMod(a.c1 + b.c1, p);
    case 1 =>
      Modular.Fp2SubExact(a, b, p);
      CongMod(a.c0 - b.c0, p);
      CongMod(a.c1 - b.c1, p);
    case 2 => Modular.Fp2MulIsProduct(a, b, p);
    case _ =>
      SmallMod(0, p);
      InvertibleUnlessZero(Modular.Norm(b, p), p);
      SmallMod(Modular.Norm(b, p), p);
      if Modular.Fp2Div(a, b, p).Ok? {
        QuotientMeaning(a, b, p);
      }
  }

  lemma QuotientMeaning(a: Modular.Fp2, b: Modular.Fp2, p: nat)
    requires p > 1 && Modular.Fp2Div(a, b, p).Ok?
    ensures Fp2Means(3, a, b, Modular.Fp2Div(a, b, p).value, p)
  {
    var q := Modular.Fp2Div(a, b, p).value;
    Modular.Fp2DivThenMul(a, b, p);
    Modular.Fp2MulIsProduct(q, b, p);
    Modular.Fp2MulIsProduct(a, Modular.Fp2Inverse(b, Euclid.ModInv(Modular.Norm(b, p), p).value, p), p);
    CongMod(a.c0, p);
    CongMod(a.c1, p);
  }

  /** One Fp2 ADD, SUB, MUL or DIV instruction: DIV has no inverse exactly where the norm of the
      divisor vanishes, which for p = 3 mod 4 is at zero only. */
  lemma ComplexInstruction<B(!new), S(!new)>(env: Env<B, S>, s: State, insn: u32, e: ModulusEntry)
    requires WellFormed(env) && Fetches(s, insn, 0x2b, 2) && SelectsComplex(env, insn, e)
    requires Funct7(insn) % 8 <= 3 && e.modulus <= Pow(256, e.limbBytes) && e.limbBytes <= 0x8000_0000
    ensures e.modulus > 0
    ensures var op, n, out := Funct7(insn) % 8, e.limbBytes, RegRd(s.cpu, insn);
      var m, p, q := s.cpu.mem, RegRs1(s.cpu, insn), RegRs2(s.cpu, insn);
      var a := Modular.Fp2(ReadLe(m, p, n), ReadLe(m, WrappingAdd(p, n), n));
      var b := Modular.Fp2(ReadLe(m, q, n), ReadLe(m, WrappingAdd(q, n), n));
      match Fp2Failure(op, a, b, e.modulus)
      case Some(err) => Step(env, s) == Err(err)
      case None =>
        && WritesOnly(s, Step(env, s), out, 2 * n)
        && var m' := Step(env, s).value.state.cpu.mem;
           Fp2Means(op, a, b, Modular.Fp2(ReadLe(m', out, n), ReadLe(m', WrappingAdd(out, n), n)), e.modulus)
  {
    hide ComplexOp, Fp2Failure, Fp2Means, WordAt, Write, Pow, LeValue, Step;
    StepCustom1(env, s, insn);
    assert e in env.complex;
    var op, n, out := Funct7(insn) % 8, e.limbBytes, RegRd(s.cpu, insn);
    var a, b := ReadFp2(s.cpu.mem, RegRs1(s.cpu, insn), n), ReadFp2(s.cpu.mem, RegRs2(s.cpu, insn), n);
    ComplexOpMeaning(op, a, b, e.modulus);
    if Fp2Failure(op, a, b, e.modulus) == None {
      var v := ComplexOp(op, a, b, e.modulus).value.v;
      Fp2MeaningIsReduced(op, a, b, v, e.modulus);
      WriteReadPair(s.cpu.mem, out, v.c0, v.c1, n);
    }
  }

  /** IsEq of the extension compares both coordinates. */
  lemma ComplexIsEqInstruction<B(!new), S(!new)>(env: Env<B, S>, s: State, insn: u32, e: ModulusEntry)
    requires WellFormed(env) && Fetches(s, insn, 0x2b, 2) && SelectsComplex(env, insn, e) && Funct7(insn) % 8 == 4
    ensures e.modulus > 0
    ensures var n := e.limbBytes;
      var m, p, q := s.cpu.mem, RegRs1(s.cpu, insn), RegRs2(s.cpu, insn);
      var equal := Cong(ReadLe(m, p, n), ReadLe(m, q, n), e.modulus)
        && Cong(ReadLe(m, WrappingAdd(p, n), n), ReadLe(m, WrappingAdd(q, n), n), e.modulus);
      Step(env, s) == Ok(Stepped(Continue, s.(cpu := Advance(WriteReg(s.cpu, Rd(insn), if equal then 1 else 0)))))
  {
    hide WordAt, LeValue, Step;
    StepCustom1(env, s, insn);
    assert e in env.complex;
  }

  lemma Fp2MeaningIsReduced(op: nat, a: Modular.Fp2, b: Modular.Fp2, r: Modular.Fp2, p: nat)
    requires p > 0 && Fp2Means(op, a, b, r, p)
    ensures r.c0 < p && r.c1 < p
  {}

  // ----- ecc.rs ----------------------------------------------------------------------------------------

  ghost predicate SelectsCurve<B(!new), S(!new)>(env: Env<B, S>, insn: u32, c: CurveEntry) {
    && Funct7(insn) / 8 < |env.curves| && c == env.curves[Funct7(insn) / 8]
    && c.modulus <= Pow(256, c.coordBytes) && c.coordBytes <= 0x8000_0000
  }

  /** The condition under which ADD_NE and DOUBLE have a slope. */
  ghost predicate HasSlope(op: nat, p1: Point, p2: Point, p: nat)
    requires p > 0
  {
    if op == 0 then !Cong(p1.x, p2.x, p) else (2 * p1.y) % p != 0
  }

  /** The third point of the chord or tangent of that slope, reflected. */
  ghost predicate ByChordOrTangent(op: nat, c: CurveEntry, p1: Point, p2: Point, q: Point)
    requires c.modulus > 0
  {
    exists lam: nat :: HasSlopeOf(op, c, p1, p2, lam) && FromSlope(q, lam, p1, if op == 0 then p2.x else p1.x, c.modulus)
  }

  ghost predicate HasSlopeOf(op: nat, c: CurveEntry, p1: Point, p2: Point, lam: nat)
    requires c.modulus > 0
  {
    if op == 0 then Cong(lam * (p2.x - p1.x), p2.y - p1.y, c.modulus)
    else Cong(lam * (2 * p1.y), 3 * (p1.x * p1.x) + c.a, c.modulus)
  }

  function CurveSum(op: nat, c: CurveEntry, p1: Point, p2: Point): Option<Point>
    requires c.modulus > 0
  {
    if op == 0 then AddNe(c, p1, p2) else Double(c, p1)
  }

  lemma CurveSumMeaning(op: nat, c: CurveEntry, p1: Point, p2: Point)
    requires IsOddPrime(c.modulus) && op <= 1
    ensures CurveSum(op, c, p1, p2).Some? <==> HasSlope(op, p1, p2, c.modulus)
    ensures var q := CurveSum(op, c, p1, p2);
      q.Some? ==>
        && q.value.x < c.modulus && q.value.y < c.modulus
        && ByChordOrTangent(op, c, p1, p2, q.value)
        && (OnCurve(p1, c) && (op == 0 ==> OnCurve(p2, c)) ==> OnCurve(q.value, c))
  {
    hide AddNe, Double, OnCurve;
    if op == 0 {
      var lam := AddNeIsChord(c, p1, p2);
      assert CurveSum(op, c, p1, p2).Some? ==> HasSlopeOf(op, c, p1, p2, lam);
      if HasSlope(op, p1, p2, c.modulus) && OnCurve(p1, c) && OnCurve(p2, c) { AddNeOnCurve(c, p1, p2); }
    } else {
      var lam := DoubleIsTangent(c, p1);
      assert CurveSum(op, c, p1, p2).Some? ==> HasSlopeOf(op, c, p1, p2, lam);
      if HasSlope(op, p1, p2, c.modulus) && OnCurve(p1, c) { DoubleOnCurve(c, p1); }
    }
  }

  /** ADD_NE and DOUBLE panic exactly where the slope does not exist. Elsewhere [rd] holds the
      canonical point that the slope determines, whatever the operands; and points of the curve
      give a point of the curve. */
  lemma CurveInstruction<B(!new), S(!new)>(env: Env<B, S>, s: State, insn: u32, c: CurveEntry)
    requires WellFormed(env) && Fetches(s, insn, 0x2b, 1) && SelectsCurve(env, insn, c) && Funct7(insn) % 8 <= 1
    ensures c.modulus > 0
    ensures var op, n, out := Funct7(insn) % 8, c.coordBytes, RegRd(s.cpu, insn);
      var m, a, b := s.cpu.mem, RegRs1(s.cpu, insn), RegRs2(s.cpu, insn);
      var p1 := Point(ReadLe(m, a, n), ReadLe(m, WrappingAdd(a, n), n));
      var p2 := Point(ReadLe(m, b, n), ReadLe(m, WrappingAdd(b, n), n));
      if !HasSlope(op, p1, p2, c.modulus) then Step(env, s) == Err(Panic)
      else
        && WritesOnly(s, Step(env, s), out, 2 * n)
        && var m' := Step(env, s).value.state.cpu.mem;
           var q := Point(ReadLe(m', out, n), ReadLe(m', WrappingAdd(out, n), n));
           && Canonical(q, c.modulus) && ByChordOrTangent(op, c, p1, p2, q)
           && (OnCurve(p1, c) && (op == 0 ==> OnCurve(p2, c)) ==> OnCurve(q, c))
  {
    hide AddNe, Double, Decompress, OnCurve, ByChordOrTangent, HasSlope, WordAt, Write, Pow, LeValue, Step;
    StepCustom1(env, s, insn);
    assert c in env.curves;
    var op, n, out := Funct7(insn) % 8, c.coordBytes, RegRd(s.cpu, insn);
    var p1, p2 := ReadPoint(s.cpu.mem, RegRs1(s.cpu, insn), n), ReadPoint(s.cpu.mem, RegRs2(s.cpu, insn), n);
    CurveSumMeaning(op, c, p1, p2);
    var r := CurveSum(op, c, p1, p2);
    if r.Some? { WriteReadPair(s.cpu.mem, out, r.value.x, r.value.y, n); }
  }

  /** The curve's non-residue hint stores the least value from 2 upward without a root. */
  lemma CurveNonResidueInstruction<B(!new), S(!new)>(env: Env<B, S>, s: State, insn: u32, c: CurveEntry)
    requires WellFormed(env) && Fetches(s, insn, 0x2b, 1) && SelectsCurve(env, insn, c) && Funct7(insn) % 8 == 4
    ensures c.modulus > 0
    ensures var n, out := c.coordBytes, RegRd(s.cpu, insn);
      && WritesOnly(s, Step(env, s), out, n)
      && var z := ReadLe(Step(env, s).value.state.cpu.mem, out, n);
         2 <= z < c.modulus && !IsSquare(z, c.modulus) && forall v :: 2 <= v < z ==> IsSquare(v, c.modulus)
  {
    hide AddNe, Double, Decompress, WordAt, Write, Pow, LeValue, CurveRoots.LeastNonResidue, Step;
    StepCustom1(env, s, insn);
    assert c in env.curves;
    CurveRoots.LeastNonResidueIsLeast(c.modulus);
    WriteReadLe(s.cpu.mem, RegRd(s.cpu, insn), CurveRoots.LeastNonResidue(2, c.modulus), c.coordBytes);
  }

  /** HintDecompress fails exactly when the cubic has no root. Otherwise n bytes at [rd] hold a y
      of the requested parity on the curve, canonical but for the root 0 with parity 1, for
      which they hold the modulus. */
  lemma DecompressInstruction<B(!new), S(!new)>(env: Env<B, S>, s: State, insn: u32, c: CurveEntry)
    requires WellFormed(env) && Fetches(s, insn, 0x2b, 1) && SelectsCurve(env, insn, c) && Funct7(insn) % 8 == 3
    requires IsOddPrime(c.modulus) && TonelliShanks.TwoAdicity(c.modulus - 1) <= 33 && c.modulus < Pow(256, c.coordBytes)
    ensures var n, out := c.coordBytes, RegRd(s.cpu, insn);
      var x, parity := ReadLe(s.cpu.mem, RegRs1(s.cpu, insn), n), RegRs2(s.cpu, insn) % 2;
      if !IsSquare(x * x * x + c.a * x + c.b, c.modulus) then Step(env, s) == Err(CustomOp)
      else
        && WritesOnly(s, Step(env, s), out, n)
        && var y := ReadLe(Step(env, s).value.state.cpu.mem, out, n);
           && y % 2 == parity && OnCurve(Point(x, y), c)
           && (y < c.modulus || (y == c.modulus && Cong(x * x * x + c.a * x + c.b, 0, c.modulus)))
  {
    hide AddNe, Double, Decompress, OnCurve, CurveRhs, WordAt, Write, Pow, LeValue, Step;
    StepCustom1(env, s, insn);
    assert c in env.curves;
    var n, out := c.coordBytes, RegRd(s.cpu, insn);
    var x, parity := ReadLe(s.cpu.mem, RegRs1(s.cpu, insn), n), RegRs2(s.cpu, insn) % 2;
    DecompressFailsIffNonResidue(c, x, parity);
    DecompressedPointOnCurve(c, x, parity);
    CurveRhsIsCubic(c, x);
    var y := Decompress(c, x, parity);
    if y.Some? { WriteReadLe(s.cpu.mem, out, y.value, n); }
  }

  // ----- Keccak ------------------------------------------------------------------------------------------

  lemma LaneRoundTrip(lane: bv64)
    ensures Lane(LaneBytes(lane)) == lane
  {
    hide LeValue, Pow;
    assert Pow(256, 8) == 0x1_0000_0000_0000_0000 by { EightBytes(); }
    LaneFits(lane);
    LeRoundTrip(lane as nat, 8);
  }

  lemma EightBytes()
    ensures Pow(256, 8) == 0x1_0000_0000_0000_0000
  {}

  lemma LaneFits(lane: bv64)
    ensures lane as nat < 0x1_0000_0000_0000_0000
  {}

  lemma {:induction false} LaneSlice(s: seq<bv64>, i: nat)
    requires i < |s|
    ensures LanesToBytes(s)[8 * i..8 * i + 8] == LaneBytes(s[i])
  {
    hide LaneBytes;
    if i > 0 {
      var rest := LanesToBytes(s[1..]);
      LaneSlice(s[1..], i - 1);
      DropFirst(LaneBytes(s[0]), rest, 8 * (i - 1));
    }
  }

  lemma DropFirst(first: seq<byte>, rest: seq<byte>, k: nat)
    requires |first| == 8 && k + 8 <= |rest|
    ensures (first + rest)[8 + k..8 + k + 8] == rest[k..k + 8]
  {
  }

  /** Lanes stored one after the other are read back. */
  lemma LanesReadBack(m: Flat, ptr: u32, state: Keccak.State)
    requires Read(m, ptr, 200) == LanesToBytes(state)
    ensures ReadLanes(m, ptr) == state
  {
    hide Lane, LaneBytes;
    forall i: nat | i < 25 ensures ReadLanes(m, ptr)[i] == state[i] {
      LaneSlice(state, i);
      LaneRoundTrip(state[i]);
      SliceOfRead(m, ptr, 200, 8 * i, 8);
    }
  }

  lemma SliceOfRead(m: Flat, ptr: u32, total: nat, from: nat, n: nat)
    requires from + n <= total
    ensures Read(m, WrappingAdd(ptr, from), n) == Read(m, ptr, total)[from..from + n]
  {
    hide WrappingAdd;
    forall i: nat | i < n ensures Read(m, WrappingAdd(ptr, from), n)[i] == Read(m, ptr, total)[from + i] {
      WrapTwice(ptr, from, i);
    }
  }

  /** Lane i is the little-endian value of the eight bytes from ptr + 8 i. */
  ghost predicate LanesAt(m: Flat, ptr: u32, state: Keccak.State) {
    forall i :: 0 <= i < 25 ==> ReadLe(m, WrappingAdd(ptr, 8 * i), 8) == state[i] as nat
  }

  lemma LanesStored(m: Flat, ptr: u32, state: Keccak.State)
    requires Read(m, ptr, 200) == LanesToBytes(state)
    ensures LanesAt(m, ptr, state)
  {
    hide Read, LanesToBytes, LaneBytes;
    forall i: nat | i < 25 ensures ReadLe(m, WrappingAdd(ptr, 8 * i), 8) == state[i] as nat {
      LaneSlice(state, i);
      SliceOfRead(m, ptr, 200, 8 * i, 8);
      LaneValue(state[i]);
    }
  }

  lemma LaneValue(lane: bv64)
    ensures LeValue(LaneBytes(lane)) == lane as nat
  {
    hide LeValue, Pow;
    EightBytes();
    LaneFits(lane);
    LeRoundTrip(lane as nat, 8);
  }

  /** One KECCAKF instruction takes the 25 lanes at [rd] through the 24 rounds, and nothing else
      changes. */
  lemma KeccakfInstruction<B(!new), S(!new)>(env: Env<B, S>, s: State, insn: u32)
    requires WellFormed(env) && Fetches(s, insn, 0x0b, 4) && Funct7(insn) == 0
    ensures var ptr := RegRd(s.cpu, insn);
      && WritesOnly(s, Step(env, s), ptr, 200)
      && Keccak.IsKeccakF(ReadLanes(s.cpu.mem, ptr), ReadLanes(Step(env, s).value.state.cpu.mem, ptr))
      && ReadLanes(Step(env, s).value.state.cpu.mem, ptr) == Keccak.KeccakF(ReadLanes(s.cpu.mem, ptr))
      && LanesAt(Step(env, s).value.state.cpu.mem, ptr, Keccak.KeccakF(ReadLanes(s.cpu.mem, ptr)))
  {
    hide Keccak.KeccakF, Keccak.IsKeccakF, LanesAt, WordAt, Write, Read, ReadLanes, LanesToBytes, Step;
    StepCustom0(env, s, insn);
    var ptr, m := RegRd(s.cpu, insn), s.cpu.mem;
    var state := Keccak.KeccakF(ReadLanes(m, ptr));
    WriteThenRead(m, ptr, LanesToBytes(state));
    Keccak.KeccakFIs24Rounds(ReadLanes(m, ptr));
    LanesReadBack(Write(m, ptr, LanesToBytes(state)), ptr, state);
    LanesStored(Write(m, ptr, LanesToBytes(state)), ptr, state);
  }

  // ----- XORIN -------------------------------------------------------------------------------------------

  /** The source bytes are none of the bytes written. */
  ghost predicate Apart(dst: u32, src: u32, len: nat) {
    forall i: nat :: i < len ==> Offset(dst, WrappingAdd(src, i)) >= len
  }

  lemma {:induction false} XorInAt(m: Flat, dst: u32, src: u32, len: nat, n: nat, a: u32)
    requires n <= len <= 0x1_0000_0000 && Apart(dst, src, len)
    ensures XorIn(m, dst, src, n)[a] ==
      if Offset(dst, a) < n then XorByte(m[a], m[WrappingAdd(src, Offset(dst, a))]) else m[a]
    decreases n
  {
    hide XorByte, Offset, WrappingAdd;
    if n > 0 {
      var d, from := WrappingAdd(dst, n - 1), WrappingAdd(src, n - 1);
      OffsetOfSum(dst, a, n - 1);
      XorInAt(m, dst, src, len, n - 1, a);
      XorInAt(m, dst, src, len, n - 1, d);
      XorInAt(m, dst, src, len, n - 1, from);
    }
  }

  lemma OffsetOfSum(ptr: u32, a: u32, k: u32)
    ensures Offset(ptr, WrappingAdd(ptr, k)) == k
    ensures a == WrappingAdd(ptr, k) <==> Offset(ptr, a) == k
  {}

  /** Absorbing the same bytes a second time restores the memory, when source and destination
      do not overlap. */
  lemma XorInTwice(m: Flat, dst: u32, src: u32, len: nat)
    requires len <= 0x1_0000_0000 && Apart(dst, src, len)
    ensures XorIn(XorIn(m, dst, src, len), dst, src, len) == m
  {
    var m' := XorIn(m, dst, src, len);
    forall a: u32 ensures XorIn(m', dst, src, len)[a] == m[a] {
      XorInAt(m', dst, src, len, len, a);
      XorInAt(m, dst, src, len, len, a);
      if Offset(dst, a) < len {
        var from := WrappingAdd(src, Offset(dst, a));
        XorInAt(m, dst, src, len, len, from);
        Bits.Pow2Values();
        Bits.XorTwice(8, m[a], m[from]);
      }
    }
  }

  // ----- input -----------------------------------------------------------------------------------------

  /** HINT_STOREW moves the next four bytes of the hint stream to [rd], HINT_BUFFER four times as
      many as register rs1 says, and both leave the rest of the stream. More than 2^32
      of them wrap around, and each address keeps the last byte that reaches it. */
  lemma HintInstruction<B(!new), S(!new)>(env: Env<B, S>, s: State, insn: u32)
    requires WellFormed(env) && Fetches(s, insn, 0x0b, 1) && Imm12(insn) <= 1
    ensures var out, n := RegRd(s.cpu, insn), if Imm12(insn) == 0 then 4 else 4 * RegRs1(s.cpu, insn);
      && Step(env, s).Ok?
      && var s' := Step(env, s).value.state;
         && Step(env, s).value.outcome == Continue
         && s' == State(Advance(s.cpu.(mem := s'.cpu.mem)), s.io.(hints := Left(s.io.hints, n)))
         && (n <= 0x1_0000_0000 ==> Read(s'.cpu.mem, out, n) == Popped(s.io.hints, n))
         && forall a: u32 :: s'.cpu.mem[a] ==
              if Offset(out, a) < n then Popped(s.io.hints, n)[LastIndex(n, Offset(out, a))] else s.cpu.mem[a]
  {
    hide WordAt, Write, Popped, Left, LastIndex, Step;
    StepCustom0(env, s, insn);
    var out, n := RegRd(s.cpu, insn), HintSize(s.cpu, insn);
    var bs := Popped(s.io.hints, n);
    WriteThenRead(s.cpu.mem, out, bs);
    forall a: u32 ensures Write(s.cpu.mem, out, bs)[a] ==
      if Offset(out, a) < n then bs[LastIndex(n, Offset(out, a))] else s.cpu.mem[a]
    {
      WriteAt(s.cpu.mem, out, bs, a);
    }
  }

  /** HintInput followed by HINT_BUFFER with enough words brings the whole queued entry into
      memory behind its length, whatever was in the hint stream. */
  lemma InputReachesMemory<B(!new), S(!new)>(env: Env<B, S>, s: State, first: u32, second: u32, steps: nat)
    requires WellFormed(env) && Fetches(s, first, 0x0b, 3) && Imm12(first) == 0
    requires |s.io.inputs| > 0
    requires Fetches(s.(cpu := Advance(s.cpu)), second, 0x0b, 1) && Imm12(second) == 1
    requires RegRs1(s.cpu, second) <= 0x4000_0000 && 4 + |s.io.inputs[0]| <= 4 * RegRs1(s.cpu, second)
    ensures var e := Run(env, s, steps, steps + 2);
      var entry, out, n := s.io.inputs[0], RegRd(s.cpu, second), 4 * RegRs1(s.cpu, second);
      var bs := Read(e.state.cpu.mem, out, n);
      && e.result == Err(StepLimitExceeded(WrappingAdd(s.cpu.pc, 8)))
      && LeValue(bs[..4]) == |entry| && bs[4..4 + |entry|] == entry
      && (forall i :: 4 + |entry| <= i < n ==> bs[i] == 0)
      && e.state.io.inputs == s.io.inputs[1..]
      && forall a: u32 :: Offset(out, a) >= n ==> e.state.cpu.mem[a] == s.cpu.mem[a]
  {
    hide WordAt, Frame, LeValue, Left, Popped, Step, Read, Run;
    var entry, n := s.io.inputs[0], 4 * RegRs1(s.cpu, second);
    var s1 := State(Advance(s.cpu), HintInput(s.io).value);
    AfterHintInput(env, s, first);
    HintInstruction(env, s1, second);
    var s2 := Step(env, s1).value.state;
    assert WrappingAdd(s1.cpu.pc, 4) == WrappingAdd(s.cpu.pc, 8);
    TwoSteps(env, s, s1, s2, steps);
    FrameInBuffer(s.io, n);
  }

  lemma AfterHintInput<B(!new), S(!new)>(env: Env<B, S>, s: State, insn: u32)
    requires WellFormed(env) && Fetches(s, insn, 0x0b, 3) && Imm12(insn) == 0 && |s.io.inputs| > 0
    ensures Step(env, s) == Ok(Stepped(Continue, State(Advance(s.cpu), HintInput(s.io).value)))
  {
    hide WordAt, Frame;
  }

  lemma TwoSteps<B(!new), S(!new)>(env: Env<B, S>, s: State, s1: State, s2: State, steps: nat)
    requires WellFormed(env) && Step(env, s) == Ok(Stepped(Continue, s1)) && Step(env, s1) == Ok(Stepped(Continue, s2))
    ensures Run(env, s, steps, steps + 2) == Ended(Err(StepLimitExceeded(s2.cpu.pc)), s2, steps + 2)
  {
    hide Step;
    assert Run(env, s2, steps + 2, steps + 2) == Ended(Err(StepLimitExceeded(s2.cpu.pc)), s2, steps + 2);
    assert Run(env, s1, steps + 1, steps + 2) == Run(env, s2, steps + 2, steps + 2);
  }

  lemma FrameInBuffer(io: Io, n: nat)
    requires |io.inputs| > 0 && 4 + |io.inputs[0]| <= n <= 0x1_0000_0000 && HintInput(io).Some?
    ensures var entry, bs := io.inputs[0], Popped(HintInput(io).value.hints, n);
      && LeValue(bs[..4]) == |entry| && bs[4..4 + |entry|] == entry
      && forall i :: 4 + |entry| <= i < n ==> bs[i] == 0
  {
    var entry, h := io.inputs[0], HintInput(io).value.hints;
    InputIsDelivered(io, [n]);
    ReadsDeliverInOrder(h, [n]);
    assert Total([n]) == n by { assert Total([]) == 0; }
    var bs := Popped(h, n);
    assert bs[4..4 + |entry|] == entry;
  }
}
