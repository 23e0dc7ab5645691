/** cpu.rs: the processor object and its instruction groups, each against Instructions. */
module Processor {
  import opened Wrappers
  import opened Bytes
  import opened FlatMemory
  import opened Memory
  import opened Decode
  import opened State
  import opened Instructions

  /** What a fallible method does: it follows a successful specification, and on an error
      leaves the state as it was. */
  ghost predicate Refines(e: Option<CpuError>, before: CpuState, after: CpuState, spec: Result<CpuState, CpuError>) {
    match spec
    case Ok(c) => e == None && after == c
    case Err(err) => e == Some(err) && after == before
  }

  class Cpu {
    var pc: u32
    const x: array<u32>
    const mem: PagedMemory
    var steps: nat

    ghost function Repr(): set<object>
      reads mem
    {
      mem.Repr + {this, x}
    }

    ghost predicate Valid()
      reads this, mem, Repr()
    {
      x.Length == 32 && mem.Valid() && this !in mem.Repr && x !in mem.Repr
    }

    ghost function Value(): CpuState
      requires x.Length == 32
      reads this, x, mem
    {
      CpuState(pc, x[..], mem.flat)
    }

    /** `Cpu::new` for one loaded segment list: BSS is zero because fresh pages are. */
    constructor (entry: u32, segments: seq<(u32, seq<byte>)>)
      ensures Valid() && fresh(Repr())
      ensures pc == entry && steps == 0 && Value().x == seq(32, i => if i == 2 then 0xFFFF_FFF0 else 0)
      ensures Value().mem == LoadedSegments(seq(0x1_0000_0000, _ => 0), segments)
    {
      pc, steps := entry, 0;
      x := new u32[32](_ => 0);
      mem := new PagedMemory();
      new;
      assert mem.flat == seq(0x1_0000_0000, _ => 0);
      x[2] := 0xFFFF_FFF0;
      LoadSegments(segments);
    }

    /** Copying the segments of a program into memory. */
    method LoadSegments(segments: seq<(u32, seq<byte>)>)
      requires Valid()
      modifies mem.Repr
      ensures Valid() && fresh(Repr() - old(Repr()))
      ensures Value() == old(Value()).(mem := LoadedSegments(old(Value()).mem, segments))
    {
      hide Write;
      for i := 0 to |segments|
        invariant Valid() && fresh(Repr() - old(Repr())) && x[..] == old(x[..])
        invariant LoadedSegments(mem.flat, segments[i..]) == LoadedSegments(old(mem.flat), segments)
      {
        mem.WriteSlice(segments[i].0, segments[i].1);
        assert segments[i..][1..] == segments[i + 1..];
      }
    }

    method Fetch() returns (insn: u32)
      requires Valid()
      ensures insn == WordAt(Value().mem, pc)
    {
      insn := mem.ReadU32(pc);
    }

    method ReadRegister(r: Reg) returns (v: u32)
      requires Valid()
      ensures v == ReadReg(Value(), r)
    {
      v := if r == 0 then 0 else x[r];
    }

    method WriteRegister(r: Reg, val: u32)
      requires Valid()
      modifies x
      ensures Valid() && Value() == WriteReg(old(Value()), r, val)
    {
      if r != 0 { x[r] := val; }
    }

    /** On to the next instruction. */
    method MoveOn()
      requires Valid()
      modifies this`pc
      ensures Valid() && Value() == Advance(old(Value()))
    {
      pc := WrappingAdd(pc, 4);
    }

    method ExecuteBranch(insn: u32) returns (e: Option<CpuError>)
      requires Valid()
      modifies this`pc
      ensures Valid() && Refines(e, old(Value()), Value(), ExecBranch(old(Value()), insn))
    {
      var a := ReadRegister(Rs1(insn));
      var b := ReadRegister(Rs2(insn));
      match Funct3(insn) {
        case 0 => BranchIf(insn, a == b);
        case 1 => BranchIf(insn, a != b);
        case 4 => BranchIf(insn, ToSigned(a) < ToSigned(b));
        case 5 => BranchIf(insn, ToSigned(a) >= ToSigned(b));
        case 6 => BranchIf(insn, a < b);
        case 7 => BranchIf(insn, a >= b);
        case _ => return Some(IllegalInstruction(pc, insn));
      }
      e := None;
    }

    method BranchIf(insn: u32, taken: bool)
      requires Valid()
      modifies this`pc
      ensures Valid() && Value() == old(Value()).(pc := WrappingAdd(old(pc), if taken then ImmB(insn) else 4))
    {
      pc := WrappingAdd(pc, if taken then ImmB(insn) else 4);
    }

    method ExecuteLoad(insn: u32) returns (e: Option<CpuError>)
      requires Valid()
      modifies this`pc, x
      ensures Valid() && Refines(e, old(Value()), Value(), ExecLoad(old(Value()), insn))
    {
      var base := ReadRegister(Rs1(insn));
      var addr := WrappingAdd(base, ImmI(insn));
      var val: u32;
      match Funct3(insn) {
        case 0 =>
          var b := mem.ReadU8(addr);
          val := SignExtend8(b);
        case 1 =>
          var h: nat := mem.ReadU16(addr);
          val := SignExtend16(h);
        case 2 =>
          val := mem.ReadU32(addr);
        case 4 =>
          val := mem.ReadU8(addr);
        case 5 =>
          val := mem.ReadU16(addr);
        case _ => return Some(IllegalInstruction(pc, insn));
      }
      WriteRegister(Rd(insn), val);
      MoveOn();
      e := None;
    }

    method ExecuteStore(insn: u32) returns (e: Option<CpuError>)
      requires Valid()
      modifies Repr()
      ensures Valid() && fresh(Repr() - old(Repr())) && steps == old(steps)
      ensures Refines(e, old(Value()), Value(), ExecStore(old(Value()), insn))
    {
      var base := ReadRegister(Rs1(insn));
      var addr := WrappingAdd(base, ImmS(insn));
      var val := ReadRegister(Rs2(insn));
      match Funct3(insn) {
        case 0 =>
          StoreByte(Value().mem, addr, val);
          mem.WriteU8(addr, val % 0x100);
        case 1 =>
          StoreHalf(val);
          mem.WriteU16(addr, val % 0x1_0000);
        case 2 =>
          mem.WriteU32(addr, val);
        case _ => return Some(IllegalInstruction(pc, insn));
      }
      MoveOn();
      e := None;
    }

    method ExecuteOpImm(insn: u32) returns (e: Option<CpuError>)
      requires Valid()
      modifies this`pc, x
      ensures Valid() && Refines(e, old(Value()), Value(), ExecOpImm(old(Value()), insn))
    {
      var a := ReadRegister(Rs1(insn));
      match AluImm(Funct3(insn), Funct7(insn), a, ImmI(insn), Rs2(insn)) {
        case None => return Some(IllegalInstruction(pc, insn));
        case Some(val) => WriteRegister(Rd(insn), val);
      }
      MoveOn();
      e := None;
    }

    method ExecuteOp(insn: u32) returns (e: Option<CpuError>)
      requires Valid()
      modifies this`pc, x
      ensures Valid() && Refines(e, old(Value()), Value(), ExecOp(old(Value()), insn))
    {
      var a := ReadRegister(Rs1(insn));
      var b := ReadRegister(Rs2(insn));
      match Alu(Funct7(insn), Funct3(insn), a, b) {
        case None => return Some(IllegalInstruction(pc, insn));
        case Some(val) => WriteRegister(Rd(insn), val);
      }
      MoveOn();
      e := None;
    }

    /** The base instructions of `step`. */
    method Execute(insn: u32) returns (e: Option<CpuError>)
      requires Valid()
      modifies Repr()
      ensures Valid() && fresh(Repr() - old(Repr())) && steps == old(steps)
      ensures Refines(e, old(Value()), Value(), ExecBase(old(Value()), insn))
    {
      hide ExecBranch, ExecLoad, ExecStore, ExecOpImm, ExecOp, ImmI, ImmJ, ImmU;
      e := None;
      match Opcode(insn) {
        case 0x37 =>
          WriteRegister(Rd(insn), ImmU(insn));
          MoveOn();
        case 0x17 =>
          WriteRegister(Rd(insn), WrappingAdd(pc, ImmU(insn)));
          MoveOn();
        case 0x6f =>
          JumpTo(Rd(insn), WrappingAdd(pc, ImmJ(insn)));
        case 0x67 =>
          var base := ReadRegister(Rs1(insn));
          JumpTo(Rd(insn), Even(WrappingAdd(base, ImmI(insn))));
        case 0x63 => e := ExecuteBranch(insn);
        case 0x03 => e := ExecuteLoad(insn);
        case 0x23 => e := ExecuteStore(insn);
        case 0x13 => e := ExecuteOpImm(insn);
        case 0x33 => e := ExecuteOp(insn);
        case 0x0f => MoveOn();
        case 0x73 => e := Some(SystemError(pc, insn));
        case _ => e := Some(IllegalInstruction(pc, insn));
      }
    }

    /** Linking and jumping, for JAL and JALR. */
    method JumpTo(rd: Reg, target: u32)
      requires Valid()
      modifies this`pc, x
      ensures Valid() && Value() == Jump(old(Value()), rd, target)
    {
      WriteRegister(rd, WrappingAdd(pc, 4));
      pc := target;
    }
  }

  /** Segments copied one after the other. */
  ghost function LoadedSegments(m: Flat, segments: seq<(u32, seq<byte>)>): Flat
    decreases |segments|
  {
    if |segments| == 0 then m else LoadedSegments(Write(m, segments[0].0, segments[0].1), segments[1..])
  }

  /** Storing the low byte, and the low half-word. */
  lemma StoreByte(m: Flat, addr: u32, val: u32)
    ensures Write(m, addr, ToLe(val, 1)) == m[addr := val % 0x100]
  {
    assert ToLe(val, 1) == [val % 0x100] + ToLe(val / 0x100, 0);
    assert Write(m[addr := val % 0x100], WrappingAdd(addr, 1), []) == m[addr := val % 0x100];
  }

  lemma StoreHalf(val: u32)
    ensures ToLe(val % 0x1_0000, 2) == ToLe(val, 2)
  {
    hide ToLe;
    LeBytes(val);
    LeBytes(val % 0x1_0000);
    LowHalf(val);
  }

  lemma LowHalf(v: nat)
    ensures v % 0x1_0000 % 0x100 == v % 0x100 && v % 0x1_0000 / 0x100 % 0x100 == v / 0x100 % 0x100
  {
    var h, l := v / 0x1_0000, v % 0x1_0000;
    assert v == 0x100 * (0x100 * h + l / 0x100) + l % 0x100;
    assert v / 0x100 == 0x100 * h + l / 0x100;
  }
}
