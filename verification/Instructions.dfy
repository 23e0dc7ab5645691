/** The RV32IM instruction groups of cpu.rs, as functions of the processor state. */
module Instructions {
  import opened Wrappers
  import opened Arithmetic
  import opened Bytes
  import opened Bits
  import opened FlatMemory
  import opened Decode
  import opened State
  import Euclid

  function FromBool(b: bool): u32 { if b then 1 else 0 }

  // ----- branches, loads and stores ----------------------------------------------------------

  function Taken(f3: nat, a: u32, b: u32): Option<bool> {
    match f3
    case 0 => Some(a == b)
    case 1 => Some(a != b)
    case 4 => Some(ToSigned(a) < ToSigned(b))
    case 5 => Some(ToSigned(a) >= ToSigned(b))
    case 6 => Some(a < b)
    case 7 => Some(a >= b)
    case _ => None
  }

  function ExecBranch(c: CpuState, insn: u32): Result<CpuState, CpuError> {
    match Taken(Funct3(insn), ReadReg(c, Rs1(insn)), ReadReg(c, Rs2(insn)))
    case None => Err(IllegalInstruction(c.pc, insn))
    case Some(taken) => Ok(c.(pc := WrappingAdd(c.pc, if taken then ImmB(insn) else 4)))
  }

  function SignExtend8(v: nat): u32
    requires v < 0x100
  {
    if v >= 0x80 then v + 0xFFFF_FF00 else v
  }

  function SignExtend16(v: nat): u32
    requires v < 0x1_0000
  {
    if v >= 0x8000 then v + 0xFFFF_0000 else v
  }

  ghost function Loaded(m: Flat, addr: u32, f3: nat): Option<u32> {
    match f3
    case 0 => Some(SignExtend8(m[addr]))
    case 1 => Some(SignExtend16(HalfAt(m, addr)))
    case 2 => Some(WordAt(m, addr))
    case 4 => Some(m[addr])
    case 5 => Some(HalfAt(m, addr))
    case _ => None
  }

  ghost function ExecLoad(c: CpuState, insn: u32): Result<CpuState, CpuError> {
    match Loaded(c.mem, WrappingAdd(ReadReg(c, Rs1(insn)), ImmI(insn)), Funct3(insn))
    case None => Err(IllegalInstruction(c.pc, insn))
    case Some(v) => Ok(Advance(WriteReg(c, Rd(insn), v)))
  }

  /** How many bytes a store writes. */
  function StoreWidth(f3: nat): Option<nat> {
    match f3
    case 0 => Some(1)
    case 1 => Some(2)
    case 2 => Some(4)
    case _ => None
  }

  ghost function ExecStore(c: CpuState, insn: u32): Result<CpuState, CpuError> {
    match StoreWidth(Funct3(insn))
    case None => Err(IllegalInstruction(c.pc, insn))
    case Some(n) =>
      var addr := WrappingAdd(ReadReg(c, Rs1(insn)), ImmS(insn));
      Ok(Advance(c.(mem := Write(c.mem, addr, ToLe(ReadReg(c, Rs2(insn)), n)))))
  }

  /** A value of n bytes as a signed one. */
  function SignedValue(v: nat, bound: nat): int { if 2 * v >= bound then v - bound else v }

  /** Loads read back what stores of the same width wrote, zero- or sign-extended. */
  lemma StoreThenLoad(m: Flat, addr: u32, v: u32)
    ensures Loaded(Write(m, addr, ToLe(v, 4)), addr, 2) == Some(v)
    ensures var h := Write(m, addr, ToLe(v, 2));
      && Loaded(h, addr, 5) == Some(v % 0x1_0000)
      && Loaded(h, addr, 1).Some? && ToSigned(Loaded(h, addr, 1).value) == SignedValue(v % 0x1_0000, 0x1_0000)
    ensures var b := Write(m, addr, ToLe(v, 1));
      && Loaded(b, addr, 4) == Some(v % 0x100)
      && Loaded(b, addr, 0).Some? && ToSigned(Loaded(b, addr, 0).value) == SignedValue(v % 0x100, 0x100)
  {
    hide Write, Read, ToLe, LeValue, Pow;
    ReadBack(m, addr, v, 4, 0x1_0000_0000);
    ReadBack(m, addr, v, 2, 0x1_0000);
    ReadBack(m, addr, v, 1, 0x100);
    SmallMod(v, 0x1_0000_0000);
    OneByte(Write(m, addr, ToLe(v, 1)), addr);
  }

  lemma ReadBack(m: Flat, addr: u32, v: u32, n: nat, bound: nat)
    requires n in {1, 2, 4} && bound == (if n == 1 then 0x100 else if n == 2 then 0x1_0000 else 0x1_0000_0000)
    ensures LeValue(Read(Write(m, addr, ToLe(v, n)), addr, n)) == v % bound
  {
    WriteThenRead(m, addr, ToLe(v, n));
    LeOfToLe(v, n);
    assert Pow(256, n) == bound;
  }

  lemma OneByte(m: Flat, addr: u32)
    ensures LeValue(Read(m, addr, 1)) == m[addr]
  {
    assert Read(m, addr, 1) == [m[addr]];
  }

  // ----- arithmetic ------------------------------------------------------------------------------

  function ShiftLeft(a: u32, k: nat): u32 {
    Bits.Widths();
    Shl(32, a, k)
  }

  function ShiftRight(a: u32, k: nat): u32 {
    PowPositive(2, k);
    ShrAtMost(a, Pow2(k));
    Shr(a, k)
  }

  lemma ShrAtMost(a: nat, m: nat)
    requires m > 0
    ensures 0 <= a / m <= a
  {
    var q := a / m;
    assert a == q * m + a % m;
    if q > 0 { MulAtLeast(m, q); }
  }

  function ShiftSigned(a: u32, k: nat): u32 {
    PowPositive(2, k);
    ToUnsigned(ToSigned(a) / Pow2(k))
  }

  function Xor32(a: u32, b: u32): u32 {
    Bits.Widths();
    Bits.Xor(32, a, b)
  }

  function Or32(a: u32, b: u32): u32 {
    Bits.Widths();
    Bits.Or(32, a, b)
  }

  function And32(a: u32, b: u32): u32 {
    Bits.Widths();
    Bits.And(32, a, b)
  }

  /** The immediate operations; shamt is the rs2 field. */
  function AluImm(f3: nat, f7: nat, a: u32, imm: u32, shamt: nat): Option<u32> {
    match f3
    case 0 => Some(WrappingAdd(a, imm))
    case 2 => Some(FromBool(ToSigned(a) < ToSigned(imm)))
    case 3 => Some(FromBool(a < imm))
    case 4 => Some(Xor32(a, imm))
    case 6 => Some(Or32(a, imm))
    case 7 => Some(And32(a, imm))
    case 1 => Some(ShiftLeft(a, shamt))
    case _ =>
      if f7 == 0 then Some(ShiftRight(a, shamt))
      else if f7 == 0x20 then Some(ShiftSigned(a, shamt))
      else None
  }

  /** The upper half of a 64-bit product. */
  function UpperHalf(s: int): u32 { ToUnsigned(s / 0x1_0000_0000) }

  function DivSigned(a: u32, b: u32): u32 {
    if b == 0 then 0xFFFF_FFFF
    else if a == 0x8000_0000 && b == 0xFFFF_FFFF then 0x8000_0000
    else ToUnsigned(Euclid.TruncDiv(ToSigned(a), ToSigned(b)))
  }

  function RemSigned(a: u32, b: u32): u32 {
    if b == 0 then a
    else if a == 0x8000_0000 && b == 0xFFFF_FFFF then 0
    else ToUnsigned(Euclid.TruncRem(ToSigned(a), ToSigned(b)))
  }

  function DivUnsigned(a: u32, b: u32): u32 {
    if b == 0 then 0xFFFF_FFFF else (ShrAtMost(a, b); a / b)
  }

  function RemUnsigned(a: u32, b: u32): u32 {
    if b == 0 then a else a % b
  }

  function Alu(f7: nat, f3: nat, a: u32, b: u32): Option<u32> {
    match (f7, f3)
    case (0, 0) => Some(WrappingAdd(a, b))
    case (0x20, 0) => Some(ToUnsigned(a - b))
    case (0, 1) => Some(ShiftLeft(a, b % 32))
    case (0, 2) => Some(FromBool(ToSigned(a) < ToSigned(b)))
    case (0, 3) => Some(FromBool(a < b))
    case (0, 4) => Some(Xor32(a, b))
    case (0, 5) => Some(ShiftRight(a, b % 32))
    case (0x20, 5) => Some(ShiftSigned(a, b % 32))
    case (0, 6) => Some(Or32(a, b))
    case (0, 7) => Some(And32(a, b))
    case (1, 0) => Some(ToUnsigned(a * b))
    case (1, 1) => Some(UpperHalf(ToSigned(a) * ToSigned(b)))
    case (1, 2) => Some(UpperHalf(ToSigned(a) * b))
    case (1, 3) => Some(UpperHalf(a * b))
    case (1, 4) => Some(DivSigned(a, b))
    case (1, 5) => Some(DivUnsigned(a, b))
    case (1, 6) => Some(RemSigned(a, b))
    case (1, 7) => Some(RemUnsigned(a, b))
    case _ => None
  }

  function ExecOpImm(c: CpuState, insn: u32): Result<CpuState, CpuError> {
    match AluImm(Funct3(insn), Funct7(insn), ReadReg(c, Rs1(insn)), ImmI(insn), Rs2(insn))
    case None => Err(IllegalInstruction(c.pc, insn))
    case Some(v) => Ok(Advance(WriteReg(c, Rd(insn), v)))
  }

  function ExecOp(c: CpuState, insn: u32): Result<CpuState, CpuError> {
    match Alu(Funct7(insn), Funct3(insn), ReadReg(c, Rs1(insn)), ReadReg(c, Rs2(insn)))
    case None => Err(IllegalInstruction(c.pc, insn))
    case Some(v) => Ok(Advance(WriteReg(c, Rd(insn), v)))
  }

  // ----- one base instruction -----------------------------------------------------------------

  function Jump(c: CpuState, rd: Reg, target: u32): CpuState {
    WriteReg(c, rd, WrappingAdd(c.pc, 4)).(pc := target)
  }

  /** `& !1`. */
  function Even(a: u32): u32 { a - a % 2 }

  function SystemError(pc: u32, insn: u32): CpuError {
    if Funct3(insn) == 0 && Imm12(insn) == 0 then ECall(pc)
    else if Funct3(insn) == 0 && Imm12(insn) == 1 then EBreak(pc)
    else IllegalInstruction(pc, insn)
  }

  ghost function ExecBase(c: CpuState, insn: u32): Result<CpuState, CpuError> {
    match Opcode(insn)
    case 0x37 => Ok(Advance(WriteReg(c, Rd(insn), ImmU(insn))))
    case 0x17 => Ok(Advance(WriteReg(c, Rd(insn), WrappingAdd(c.pc, ImmU(insn)))))
    case 0x6f => Ok(Jump(c, Rd(insn), WrappingAdd(c.pc, ImmJ(insn))))
    case 0x67 => Ok(Jump(c, Rd(insn), Even(WrappingAdd(ReadReg(c, Rs1(insn)), ImmI(insn)))))
    case 0x63 => ExecBranch(c, insn)
    case 0x03 => ExecLoad(c, insn)
    case 0x23 => ExecStore(c, insn)
    case 0x13 => ExecOpImm(c, insn)
    case 0x33 => ExecOp(c, insn)
    case 0x0f => Ok(Advance(c))
    case 0x73 => Err(SystemError(c.pc, insn))
    case _ => Err(IllegalInstruction(c.pc, insn))
  }

  // ----- how the multiply and divide instructions fit together ----------------------------------

  /** Of two halves of a 64-bit product, the value they hold together. */
  predicate Halves(hi: int, lo: int, product: int) { 0x1_0000_0000 * hi + lo == product }

  /** MULH, MULHSU and MULHU with MUL hold the whole 64-bit product, in two's complement. */
  lemma UpperAndLowerHalf(a: u32, b: u32)
    ensures Alu(1, 0, a, b).Some? && Alu(1, 1, a, b).Some? && Alu(1, 2, a, b).Some? && Alu(1, 3, a, b).Some?
    ensures var lo := Alu(1, 0, a, b).value;
      && Halves(ToSigned(Alu(1, 1, a, b).value), lo, ToSigned(a) * ToSigned(b))
      && Halves(ToSigned(Alu(1, 2, a, b).value), lo, ToSigned(a) * b)
      && Halves(Alu(1, 3, a, b).value, lo, a * b)
  {
    hide Halves, ToSigned, ToUnsigned, UpperHalf;
    ProductHalves(a, b);
  }

  lemma ProductHalves(a: u32, b: u32)
    ensures var lo := ToUnsigned(a * b);
      && Halves(ToSigned(UpperHalf(ToSigned(a) * ToSigned(b))), lo, ToSigned(a) * ToSigned(b))
      && Halves(ToSigned(UpperHalf(ToSigned(a) * b)), lo, ToSigned(a) * b)
      && Halves(UpperHalf(a * b), lo, a * b)
  {
    SignedRoundTrip(a);
    SignedRoundTrip(b);
    var s, t, u := ToSigned(a) * ToSigned(b), ToSigned(a) * b, a * b;
    ProductBounds(ToSigned(a), ToSigned(b));
    ProductBounds(ToSigned(a), b);
    UnsignedBounds(a, b);
    HalvesOf(s);
    HalvesOf(t);
    SignsVanish(a, b);
    UnsignedHalves(u);
  }

  lemma UnsignedHalves(u: nat)
    requires u < 0x1_0000_0000 * 0x1_0000_0000
    ensures Halves(UpperHalf(u), ToUnsigned(u), u)
  {
    SmallMod(u / 0x1_0000_0000, 0x1_0000_0000);
  }

  lemma ProductBounds(x: int, y: int)
    requires -0x8000_0000 <= x < 0x8000_0000 && -0x8000_0000 <= y < 0x1_0000_0000
    ensures -0x8000_0000_0000_0000 <= x * y < 0x8000_0000_0000_0000
  {
    if x >= 0 {
      Between(x, -0x8000_0000, y, 0xFFFF_FFFF);
    } else {
      Between(-x, -0x8000_0000, y, 0xFFFF_FFFF);
      assert (-x) * y == -(x * y);
    }
  }

  lemma Between(x: nat, lo: int, y: int, hi: int)
    requires lo <= y <= hi
    ensures x * lo <= x * y <= x * hi
  {
    assert x * (y - lo) >= 0 && x * (hi - y) >= 0;
    assert x * y == x * lo + x * (y - lo) && x * hi == x * y + x * (hi - y);
  }

  lemma UnsignedBounds(a: u32, b: u32)
    ensures 0 <= a * b < 0x1_0000_0000 * 0x1_0000_0000
  {
    Between(a, 0, b, 0xFFFF_FFFF);
  }

  lemma HalvesOf(s: int)
    requires -0x8000_0000_0000_0000 <= s < 0x8000_0000_0000_0000
    ensures s % 0x1_0000_0000 + 0x1_0000_0000 * ToSigned(UpperHalf(s)) == s
  {
    var q := s / 0x1_0000_0000;
    if q < 0 { DivModUnique(q, 0x1_0000_0000, -1, q + 0x1_0000_0000); }
  }

  /** The lower half does not depend on the signs. */
  lemma SignsVanish(a: u32, b: u32)
    ensures (ToSigned(a) * ToSigned(b)) % 0x1_0000_0000 == (a * b) % 0x1_0000_0000
    ensures (ToSigned(a) * b) % 0x1_0000_0000 == (a * b) % 0x1_0000_0000
  {
    var m := 0x1_0000_0000;
    CongIntro(ToSigned(a), a, m, if a >= 0x8000_0000 then -1 else 0);
    CongIntro(ToSigned(b), b, m, if b >= 0x8000_0000 then -1 else 0);
    CongIntro(b, b, m, 0);
    CongMul(ToSigned(a), a, ToSigned(b), b, m);
    CongMul(ToSigned(a), a, b, b, m);
  }

  /** The identity the RISC-V manual requires of every division, by zero and overflowing too:
      dividend = divisor * quotient + remainder. */
  lemma DivisionLaw(a: u32, b: u32)
    ensures ToUnsigned(b * DivUnsigned(a, b) + RemUnsigned(a, b)) == a
    ensures ToUnsigned(ToSigned(b) * ToSigned(DivSigned(a, b)) + ToSigned(RemSigned(a, b))) == a
  {
    SignedRoundTrip(a);
    if b != 0 {
      assert a == b * (a / b) + a % b;
      SmallMod(a, 0x1_0000_0000);
    }
    if b != 0 && !(a == 0x8000_0000 && b == 0xFFFF_FFFF) {
      SignedDivision(ToSigned(a), ToSigned(b));
    }
  }

  lemma SignedDivision(x: int, y: int)
    requires y != 0 && -0x8000_0000 <= x < 0x8000_0000 && !(x == -0x8000_0000 && y == -1)
    ensures y * ToSigned(ToUnsigned(Euclid.TruncDiv(x, y))) + ToSigned(ToUnsigned(Euclid.TruncRem(x, y))) == x
  {
    hide Euclid.TruncDiv;
    hide Euclid.TruncRem;
    TruncatedDivision(x, y);
    QuotientFits(x, y);
    BackToSigned(Euclid.TruncDiv(x, y));
    BackToSigned(Euclid.TruncRem(x, y));
  }

  lemma BackToSigned(v: int)
    requires -0x8000_0000 <= v < 0x8000_0000
    ensures ToSigned(ToUnsigned(v)) == v
  {
    if v < 0 { DivModUnique(v, 0x1_0000_0000, -1, v + 0x1_0000_0000); }
  }

  lemma TruncatedDivision(x: int, y: int)
    requires y != 0
    ensures y * Euclid.TruncDiv(x, y) + Euclid.TruncRem(x, y) == x
  {
    var ax, ay := Euclid.Abs(x), Euclid.Abs(y);
    var q := ax / ay;
    assert ax == ay * q + ax % ay;
    SignAlgebra(y, q);
  }

  lemma SignAlgebra(y: int, q: int)
    ensures y * -q == -(y * q) && (-y) * q == -(y * q)
  {}

  lemma QuotientFits(x: int, y: int)
    requires y != 0 && -0x8000_0000 <= x < 0x8000_0000 && !(x == -0x8000_0000 && y == -1)
    ensures -0x8000_0000 <= Euclid.TruncDiv(x, y) < 0x8000_0000
    ensures -0x8000_0000 <= Euclid.TruncRem(x, y) < 0x8000_0000
  {
    var ax: nat, ay: nat := Euclid.Abs(x), Euclid.Abs(y);
    ShrAtMost(ax, ay);
    var q, r := ax / ay, ax % ay;
    assert ax == ay * q + r;
    Between(ay, 0, q, q);
    if ay >= 2 && q > 0x4000_0000 {
      Between(q, 2, ay, ay);
    }
    if ay == 1 { assert q == ax && r == 0; }
  }
}
