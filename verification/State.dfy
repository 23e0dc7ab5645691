/** The state of the machine: processor, memory and host streams, as values. */
module State {
  import opened FlatMemory
  import opened Decode
  import opened HintIo

  type Regs = x: seq<u32> | |x| == 32 witness seq(32, _ => 0)

  datatype CpuState = CpuState(pc: u32, x: Regs, mem: Flat)

  datatype State = State(cpu: CpuState, io: Io)

  datatype StepOutcome = Continue | Terminated(code: u32)

  /** The interpreter's errors; Panic stands for a Rust panic, which ends the process. */
  datatype CpuError =
    | IllegalInstruction(pc: u32, insn: u32)
    | EBreak(pc: u32)
    | ECall(pc: u32)
    | StepLimitExceeded(pc: u32)
    | CustomOp
    | Panic

  datatype Stepped = Stepped(outcome: StepOutcome, state: State)

  function ReadReg(c: CpuState, r: Reg): u32 { if r == 0 then 0 else c.x[r] }

  function WriteReg(c: CpuState, r: Reg, v: u32): CpuState {
    if r == 0 then c else c.(x := c.x[r := v])
  }

  /** Moving on to the next instruction word. */
  function Advance(c: CpuState): CpuState { c.(pc := WrappingAdd(c.pc, 4)) }
}
