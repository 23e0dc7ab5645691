/** Whole RV32IM instructions: fetched from memory, and what they leave in registers, memory and
    program counter. */
module BaseInstructions {
  import opened Wrappers
  import opened Arithmetic
  import opened Bytes
  import opened Bits
  import opened FlatMemory
  import opened Decode
  import opened State
  import opened Instructions
  import opened Precompiles
  import opened Machine
  import Euclid
  import Int256Shifts

  const TWO32: nat := 0x1_0000_0000

  // ----- what the operations of the arithmetic unit mean -----------------------------------------

  /** The table of the two RV32IM function fields. */
  predicate IsAluOp(f7: nat, f3: nat) { f7 == 0 || f7 == 1 || (f7 == 0x20 && (f3 == 0 || f3 == 5)) }

  /** The base operations: r is determined by the congruence, the bits or the quotient. */
  ghost predicate BaseMeans(f7: nat, f3: nat, a: u32, b: u32, r: u32) {
    var x, y, k := ToSigned(a), ToSigned(b), b % 32;
    && (f7 == 0 && f3 == 0 ==> Cong(r, a + b, TWO32))
    && (f7 == 0x20 && f3 == 0 ==> Cong(r, a - b, TWO32))
    && (f7 == 0 && f3 == 1 ==> Cong(r, a * Pow2(k), TWO32))
    && (f7 == 0 && f3 == 2 ==> r == if x < y then 1 else 0)
    && (f7 == 0 && f3 == 3 ==> r == if a < b then 1 else 0)
    && (f7 == 0 && f3 == 4 ==> forall i: nat :: i < 32 ==> (Digit(r, i) == 1 <==> Digit(a, i) != Digit(b, i)))
    && (f7 == 0 && f3 == 5 ==> Pow2(k) > 0 && r == a / Pow2(k))
    && (f7 == 0x20 && f3 == 5 ==> Pow2(k) > 0 && ToSigned(r) == x / Pow2(k))
    && (f7 == 0 && f3 == 6 ==> forall i: nat :: i < 32 ==> (Digit(r, i) == 1 <==> Digit(a, i) == 1 || Digit(b, i) == 1))
    && (f7 == 0 && f3 == 7 ==> forall i: nat :: i < 32 ==> (Digit(r, i) == 1 <==> Digit(a, i) == 1 && Digit(b, i) == 1))
  }

  /** x = y q + m with the remainder smaller than the divisor and of the sign of x. */
  predicate IsTruncatedDivision(x: int, y: int, q: int, m: int) {
    && x == y * q + m && Euclid.Abs(m) < Euclid.Abs(y)
    && (m < 0 ==> x < 0) && (m > 0 ==> x > 0)
  }

  /** The multiply and divide operations. */
  ghost predicate MulDivMeans(f3: nat, a: u32, b: u32, r: u32) {
    var x, y := ToSigned(a), ToSigned(b);
    && (f3 == 0 ==> Cong(r, a * b, TWO32))
    && (f3 == 1 ==> ToSigned(r) == x * y / TWO32)
    && (f3 == 2 ==> ToSigned(r) == x * b / TWO32)
    && (f3 == 3 ==> r == a * b / TWO32)
    && (f3 == 4 ==>
        if b == 0 then ToSigned(r) == -1
        else if x == -0x8000_0000 && y == -1 then r == a
        else exists m :: IsTruncatedDivision(x, y, ToSigned(r), m))
    && (f3 == 5 ==> if b == 0 then r == 0xFFFF_FFFF else r == a / b)
    && (f3 == 6 ==>
        if b == 0 then r == a
        else if x == -0x8000_0000 && y == -1 then r == 0
        else exists q :: IsTruncatedDivision(x, y, q, ToSigned(r)))
    && (f3 == 7 ==> if b == 0 then r == a else r == a % b)
  }

  ghost predicate AluMeans(f7: nat, f3: nat, a: u32, b: u32, r: u32) {
    if f7 == 1 then MulDivMeans(f3, a, b, r) else BaseMeans(f7, f3, a, b, r)
  }

  lemma AluMeaning(f7: nat, f3: nat, a: u32, b: u32)
    requires f3 < 8
    ensures match Alu(f7, f3, a, b)
      case None => !IsAluOp(f7, f3)
      case Some(r) => IsAluOp(f7, f3) && AluMeans(f7, f3, a, b, r)
  {
    hide BaseMeans, MulDivMeans;
    if f7 == 1 { MulDivMeaning(f3, a, b); } else if IsAluOp(f7, f3) { BaseMeaning(f7, f3, a, b); }
  }

  lemma BaseMeaning(f7: nat, f3: nat, a: u32, b: u32)
    requires f3 < 8 && IsAluOp(f7, f3) && f7 != 1
    ensures Alu(f7, f3, a, b).Some? && BaseMeans(f7, f3, a, b, Alu(f7, f3, a, b).value)
  {
    hide Pow, Bitwise, Digit;
    var k := b % 32;
    PowPositive(2, k);
    Bits.Widths();
    CongMod(a + b, TWO32);
    CongMod(a - b, TWO32);
    CongMod(a * Pow2(k), TWO32);
    if f7 == 0x20 { SignedQuotient(ToSigned(a), Pow2(k)); SignedRoundTrip(a); }
    forall i: nat | i < 32
      ensures Digit(Xor32(a, b), i) == 1 <==> Digit(a, i) != Digit(b, i)
      ensures Digit(Or32(a, b), i) == 1 <==> Digit(a, i) == 1 || Digit(b, i) == 1
      ensures Digit(And32(a, b), i) == 1 <==> Digit(a, i) == 1 && Digit(b, i) == 1
    {
      DigitOfBitwise(Differ, 32, a, b, i);
      DigitOfBitwise(Either, 32, a, b, i);
      DigitOfBitwise(Both, 32, a, b, i);
    }
  }

  /** A signed 32-bit value divided stays one. */
  lemma SignedQuotient(x: int, m: nat)
    requires -0x8000_0000 <= x < 0x8000_0000 && m > 0
    ensures ToSigned(ToUnsigned(x / m)) == x / m
  {
    Int256Shifts.FloorBetween(x, m, x / m);
    BackToSigned(x / m);
  }

  lemma MulDivMeaning(f3: nat, a: u32, b: u32)
    requires f3 < 8
    ensures Alu(1, f3, a, b).Some? && MulDivMeans(f3, a, b, Alu(1, f3, a, b).value)
  {
    hide IsTruncatedDivision;
    var x, y := ToSigned(a), ToSigned(b);
    CongMod(a * b, TWO32);
    SignedRoundTrip(a);
    SignedRoundTrip(b);
    UpperMeaning(a, b);
    if b != 0 && !(x == -0x8000_0000 && y == -1) { SignedDivisionMeaning(a, b); }
  }

  lemma UpperMeaning(a: u32, b: u32)
    ensures var x, y := ToSigned(a), ToSigned(b);
      && ToSigned(UpperHalf(x * y)) == x * y / TWO32 && ToSigned(UpperHalf(x * b)) == x * b / TWO32
      && UpperHalf(a * b) == a * b / TWO32
  {
    var x, y := ToSigned(a), ToSigned(b);
    SignedRoundTrip(a);
    SignedRoundTrip(b);
    ProductBounds(x, y);
    ProductBounds(x, b);
    UnsignedBounds(a, b);
    UpperOf(x * y);
    UpperOf(x * b);
    UpperOfUnsigned(a * b);
  }

  lemma UpperOf(s: int)
    requires -0x8000_0000_0000_0000 <= s < 0x8000_0000_0000_0000
    ensures ToSigned(UpperHalf(s)) == s / TWO32
  {
    BackToSigned(s / TWO32);
  }

  lemma UpperOfUnsigned(s: nat)
    requires s < 0x1_0000_0000 * 0x1_0000_0000
    ensures UpperHalf(s) == s / TWO32
  {
    SmallMod(s / TWO32, TWO32);
  }

  lemma SignedDivisionMeaning(a: u32, b: u32)
    requires b != 0 && !(ToSigned(a) == -0x8000_0000 && ToSigned(b) == -1)
    ensures IsTruncatedDivision(ToSigned(a), ToSigned(b), ToSigned(DivSigned(a, b)), ToSigned(RemSigned(a, b)))
  {
    var x, y := ToSigned(a), ToSigned(b);
    SignedRoundTrip(a);
    TruncatedDivision(x, y);
    QuotientFits(x, y);
    BackToSigned(Euclid.TruncDiv(x, y));
    BackToSigned(Euclid.TruncRem(x, y));
  }

  /** The immediate operations are the register operations on the immediate; the shifts take their
      amount from the rs2 field, and only SRLI and SRAI look at funct7. */
  lemma ImmediateOperation(f3: nat, f7: nat, a: u32, imm: u32, shamt: nat)
    requires f3 < 8 && shamt < 32
    ensures AluImm(f3, f7, a, imm, shamt) ==
      if f3 == 1 then Alu(0, 1, a, shamt)
      else if f3 == 5 then (if f7 == 0 || f7 == 0x20 then Alu(f7, 5, a, shamt) else None)
      else Alu(0, f3, a, imm)
  {
    hide ShiftLeft, ShiftRight, ShiftSigned, Xor32, Or32, And32;
    SmallMod(shamt, 32);
  }

  // ----- whole instructions -------------------------------------------------------------------------

  ghost predicate Fetches(s: State, insn: u32, opcode: nat) {
    insn == WordAt(s.cpu.mem, s.cpu.pc) && Opcode(insn) == opcode
  }

  /** The step is completed with this processor state, and the streams are as before. */
  ghost predicate Becomes(s: State, r: Result<Stepped, CpuError>, pc: u32, x: Regs, m: Flat) {
    r == Ok(Stepped(Continue, State(CpuState(pc, x, m), s.io)))
  }

  function SetReg(x: Regs, rd: Reg, v: u32): Regs { if rd == 0 then x else x[rd := v] }

  lemma StepBase<B(!new), S(!new)>(env: Env<B, S>, s: State, insn: u32)
    requires WellFormed(env) && insn == WordAt(s.cpu.mem, s.cpu.pc) && Opcode(insn) != 0x0b && Opcode(insn) != 0x2b
    ensures Step(env, s) == Plain(s, ExecBase(s.cpu, insn))
  {
    hide WordAt, ExecBase, Handle;
  }

  /** The register operations: [rd] = rs1 op rs2. */
  lemma AluInstruction<B(!new), S(!new)>(env: Env<B, S>, s: State, insn: u32)
    requires WellFormed(env) && Fetches(s, insn, 0x33)
    ensures if !IsAluOp(Funct7(insn), Funct3(insn)) then Step(env, s) == Err(IllegalInstruction(s.cpu.pc, insn))
      else exists r: u32 ::
        && AluMeans(Funct7(insn), Funct3(insn), RegRs1(s.cpu, insn), RegRs2(s.cpu, insn), r)
        && Becomes(s, Step(env, s), WrappingAdd(s.cpu.pc, 4), SetReg(s.cpu.x, Rd(insn), r), s.cpu.mem)
  {
    hide WordAt, Alu, AluMeans, IsAluOp, Step;
    StepBase(env, s, insn);
    AluMeaning(Funct7(insn), Funct3(insn), RegRs1(s.cpu, insn), RegRs2(s.cpu, insn));
  }

  /** The immediate operations: [rd] = rs1 op immediate, or rs1 shifted by the rs2 field. */
  lemma ImmediateInstruction<B(!new), S(!new)>(env: Env<B, S>, s: State, insn: u32)
    requires WellFormed(env) && Fetches(s, insn, 0x13)
    ensures var f3, f7 := Funct3(insn), if Funct3(insn) == 5 then Funct7(insn) else 0;
      if f7 != 0 && f7 != 0x20 then Step(env, s) == Err(IllegalInstruction(s.cpu.pc, insn))
      else exists r: u32 ::
        && AluMeans(f7, f3, RegRs1(s.cpu, insn), if f3 == 1 || f3 == 5 then Rs2(insn) else ImmI(insn), r)
        && Becomes(s, Step(env, s), WrappingAdd(s.cpu.pc, 4), SetReg(s.cpu.x, Rd(insn), r), s.cpu.mem)
  {
    hide WordAt, Alu, AluImm, AluMeans, Step, ImmI;
    StepBase(env, s, insn);
    var f3, f7 := Funct3(insn), if Funct3(insn) == 5 then Funct7(insn) else 0;
    var a, b := RegRs1(s.cpu, insn), if f3 == 1 || f3 == 5 then Rs2(insn) else ImmI(insn);
    ImmediateOperation(f3, Funct7(insn), a, ImmI(insn), Rs2(insn));
    AluMeaning(f7, f3, a, b);
    if f7 == 0 || f7 == 0x20 {
      var r := Alu(f7, f3, a, b).value;
      assert AluMeans(f7, f3, a, b, r);
      assert Becomes(s, Step(env, s), WrappingAdd(s.cpu.pc, 4), SetReg(s.cpu.x, Rd(insn), r), s.cpu.mem);
    }
  }

  /** Which comparison each branch makes. */
  ghost predicate Condition(f3: nat, a: u32, b: u32) {
    var x, y := ToSigned(a), ToSigned(b);
    (f3 == 0 && a == b) || (f3 == 1 && a != b) || (f3 == 4 && x < y) || (f3 == 5 && x >= y)
    || (f3 == 6 && a < b) || (f3 == 7 && a >= b)
  }

  lemma BranchInstruction<B(!new), S(!new)>(env: Env<B, S>, s: State, insn: u32)
    requires WellFormed(env) && Fetches(s, insn, 0x63)
    ensures if Funct3(insn) == 2 || Funct3(insn) == 3 then Step(env, s) == Err(IllegalInstruction(s.cpu.pc, insn))
      else
        var taken := Condition(Funct3(insn), RegRs1(s.cpu, insn), RegRs2(s.cpu, insn));
        Becomes(s, Step(env, s), WrappingAdd(s.cpu.pc, if taken then ImmB(insn) else 4), s.cpu.x, s.cpu.mem)
  {
    hide WordAt, ImmB, ToSigned, Step;
    StepBase(env, s, insn);
  }

  /** Loads: one, two or four bytes from rs1 + immediate, as a signed or unsigned value. */
  lemma LoadInstruction<B(!new), S(!new)>(env: Env<B, S>, s: State, insn: u32)
    requires WellFormed(env) && Fetches(s, insn, 0x03)
    ensures var f3, addr := Funct3(insn), WrappingAdd(RegRs1(s.cpu, insn), ImmI(insn));
      var m, n := s.cpu.mem, if f3 % 4 == 0 then 1 else if f3 % 4 == 1 then 2 else 4;
      if f3 == 3 || f3 >= 6 then Step(env, s) == Err(IllegalInstruction(s.cpu.pc, insn))
      else exists v: u32 ::
        && (if f3 <= 1 then ToSigned(v) == SignedValue(ReadLe(m, addr, n), if f3 == 0 then 0x100 else 0x1_0000)
            else v == ReadLe(m, addr, n))
        && Becomes(s, Step(env, s), WrappingAdd(s.cpu.pc, 4), SetReg(s.cpu.x, Rd(insn), v), m)
  {
    hide WordAt, ImmI, Step, Read, LeValue;
    StepBase(env, s, insn);
    var f3, addr := Funct3(insn), WrappingAdd(RegRs1(s.cpu, insn), ImmI(insn));
    LoadedValue(s.cpu.mem, addr);
    if f3 != 3 && f3 < 6 {
      var v := Loaded(s.cpu.mem, addr, f3).value;
      assert Becomes(s, Step(env, s), WrappingAdd(s.cpu.pc, 4), SetReg(s.cpu.x, Rd(insn), v), s.cpu.mem);
    }
  }

  lemma LoadedValue(m: Flat, addr: u32)
    ensures m[addr] == ReadLe(m, addr, 1) && HalfAt(m, addr) == ReadLe(m, addr, 2) && WordAt(m, addr) == ReadLe(m, addr, 4)
    ensures ToSigned(SignExtend8(m[addr])) == SignedValue(m[addr], 0x100)
    ensures ToSigned(SignExtend16(HalfAt(m, addr))) == SignedValue(HalfAt(m, addr), 0x1_0000)
  {
    OneByte(m, addr);
  }

  /** Stores: the low one, two or four bytes of rs2 to rs1 + immediate; no other byte changes. */
  lemma StoreInstruction<B(!new), S(!new)>(env: Env<B, S>, s: State, insn: u32)
    requires WellFormed(env) && Fetches(s, insn, 0x23)
    ensures var f3, addr := Funct3(insn), WrappingAdd(RegRs1(s.cpu, insn), ImmS(insn));
      var n := if f3 == 0 then 1 else if f3 == 1 then 2 else 4;
      var bound := if f3 == 0 then 0x100 else if f3 == 1 then 0x1_0000 else TWO32;
      if f3 > 2 then Step(env, s) == Err(IllegalInstruction(s.cpu.pc, insn))
      else exists m: Flat ::
        && ReadLe(m, addr, n) == RegRs2(s.cpu, insn) % bound
        && (forall a: u32 :: Offset(addr, a) >= n ==> m[a] == s.cpu.mem[a])
        && Becomes(s, Step(env, s), WrappingAdd(s.cpu.pc, 4), s.cpu.x, m)
  {
    hide WordAt, ImmS, Step, Read, Write, ToLe, LeValue;
    StepBase(env, s, insn);
    var f3, addr, v := Funct3(insn), WrappingAdd(RegRs1(s.cpu, insn), ImmS(insn)), RegRs2(s.cpu, insn);
    if f3 <= 2 {
      var n := if f3 == 0 then 1 else if f3 == 1 then 2 else 4;
      var bound := if f3 == 0 then 0x100 else if f3 == 1 then 0x1_0000 else TWO32;
      ReadBack(s.cpu.mem, addr, v, n, bound);
      WriteThenRead(s.cpu.mem, addr, ToLe(v, n));
      var m := Write(s.cpu.mem, addr, ToLe(v, n));
      assert Becomes(s, Step(env, s), WrappingAdd(s.cpu.pc, 4), s.cpu.x, m);
    }
  }

  /** JAL and JALR: [rd] = pc + 4; JALR reads rs1 before that, and clears the last bit. */
  lemma JumpInstruction<B(!new), S(!new)>(env: Env<B, S>, s: State, insn: u32, target: u32)
    requires WellFormed(env) && (Fetches(s, insn, 0x6f) || Fetches(s, insn, 0x67))
    requires if Opcode(insn) == 0x6f then target == WrappingAdd(s.cpu.pc, ImmJ(insn))
      else var sum := WrappingAdd(RegRs1(s.cpu, insn), ImmI(insn)); target % 2 == 0 && target <= sum <= target + 1
    ensures Becomes(s, Step(env, s), target, SetReg(s.cpu.x, Rd(insn), WrappingAdd(s.cpu.pc, 4)), s.cpu.mem)
  {
    hide WordAt, ImmI, ImmJ, Step, WrappingAdd, Even;
    StepBase(env, s, insn);
    EvenBelow(WrappingAdd(RegRs1(s.cpu, insn), ImmI(insn)), target);
  }

  lemma EvenBelow(sum: u32, target: u32)
    ensures target % 2 == 0 && target <= sum <= target + 1 ==> target == Even(sum)
  {}

  /** LUI and AUIPC: [rd] = the upper twenty bits, from 0 or from pc. */
  lemma UpperInstruction<B(!new), S(!new)>(env: Env<B, S>, s: State, insn: u32)
    requires WellFormed(env) && (Fetches(s, insn, 0x37) || Fetches(s, insn, 0x17))
    ensures var v := WrappingAdd(if Opcode(insn) == 0x37 then 0 else s.cpu.pc, insn - insn % 0x1000);
      Becomes(s, Step(env, s), WrappingAdd(s.cpu.pc, 4), SetReg(s.cpu.x, Rd(insn), v), s.cpu.mem)
  {
    hide WordAt, Step;
    StepBase(env, s, insn);
    assert ImmU(insn) == insn - insn % 0x1000;
  }

  /** FENCE does nothing; ECALL and EBREAK are errors of their own; every other word is illegal. */
  lemma OtherInstruction<B(!new), S(!new)>(env: Env<B, S>, s: State, insn: u32)
    requires WellFormed(env) && insn == WordAt(s.cpu.mem, s.cpu.pc)
    requires Opcode(insn) !in {0x37, 0x17, 0x6f, 0x67, 0x63, 0x03, 0x23, 0x13, 0x33, 0x0b, 0x2b}
    ensures
      if Opcode(insn) == 0x0f then Becomes(s, Step(env, s), WrappingAdd(s.cpu.pc, 4), s.cpu.x, s.cpu.mem)
      else if Opcode(insn) == 0x73 && Funct3(insn) == 0 && Imm12(insn) == 0 then Step(env, s) == Err(ECall(s.cpu.pc))
      else if Opcode(insn) == 0x73 && Funct3(insn) == 0 && Imm12(insn) == 1 then Step(env, s) == Err(EBreak(s.cpu.pc))
      else Step(env, s) == Err(IllegalInstruction(s.cpu.pc, insn))
  {
    hide WordAt, Step;
    StepBase(env, s, insn);
  }
}
