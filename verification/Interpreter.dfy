/** The precompile handler object with its streams, and the loop that runs a processor with it. */
module Interpreter {
  import opened Wrappers
  import opened Bytes
  import opened FlatMemory
  import opened Decode
  import opened State
  import opened HintIo
  import opened Instructions
  import opened Precompiles
  import opened Processor
  import opened Machine
  import Handlers

  ghost predicate RefinesState(e: Option<CpuError>, before: State, after: State, spec: Result<State, CpuError>) {
    match spec
    case Ok(s) => e == None && after == s
    case Err(err) => e == Some(err) && after == before
  }

  ghost predicate RefinesStep(
    r: Result<StepOutcome, CpuError>, before: State, after: State, spec: Result<Stepped, CpuError>)
  {
    match spec
    case Ok(Stepped(outcome, s)) => r == Ok(outcome) && after == s
    case Err(err) => r == Err(err) && after == before
  }

  class PrecompileHandler<B(!new,==), S(!new,==)> {
    const env: Env<B, S>
    const io: IoState

    constructor (env: Env<B, S>, streams: seq<seq<byte>>)
      ensures this.env == env && fresh(io) && io.Value() == Io(streams, [], [])
    {
      this.env := env;
      io := new IoState.WithInputStreams(streams);
    }

    /** The processor is usable and shares nothing with the streams. */
    ghost predicate Ready(cpu: Cpu)
      reads cpu, cpu.mem, cpu.Repr()
    {
      WellFormed(env) && cpu.Valid() && io !in cpu.Repr()
    }

    ghost function Whole(cpu: Cpu): State
      requires cpu.x.Length == 32
      reads io, cpu, cpu.x, cpu.mem
    {
      State(cpu.Value(), io.Value())
    }

    method HandleHint(cpu: Cpu, insn: u32) returns (e: Option<CpuError>)
      requires Ready(cpu)
      modifies io, cpu.Repr()
      ensures Ready(cpu) && fresh(cpu.Repr() - old(cpu.Repr())) && cpu.steps == old(cpu.steps)
      ensures RefinesState(e, old(Whole(cpu)), Whole(cpu), ExecHint(old(Whole(cpu)), insn))
    {
      hide Write, Popped, Left;
      var dst := cpu.ReadRegister(Rd(insn));
      var n: nat;
      match Imm12(insn) {
        case 0 => n := 4;
        case 1 =>
          var words: nat := cpu.ReadRegister(Rs1(insn));
          n := 4 * words;
        case _ => return Some(CustomOp);
      }
      var bs := io.ReadHintBytes(n);
      Handlers.Store(cpu, dst, bs);
      e := None;
    }

    method HandleReveal(cpu: Cpu, insn: u32)
      requires Ready(cpu)
      modifies io
      ensures Ready(cpu) && Whole(cpu) == ExecReveal(old(Whole(cpu)), insn)
    {
      var value := cpu.ReadRegister(Rs1(insn));
      var base := cpu.ReadRegister(Rd(insn));
      io.WriteOutput(WrappingAdd(base, Imm12(insn)), ToLe(value, 4));
    }

    method HandlePhantom(cpu: Cpu, insn: u32) returns (e: Option<CpuError>)
      requires Ready(cpu)
      modifies io
      ensures Ready(cpu) && RefinesState(e, old(Whole(cpu)), Whole(cpu), ExecPhantom(old(Whole(cpu)), insn))
    {
      if Imm12(insn) == 0 {
        var ok := io.NextInput();
        if !ok { return Some(CustomOp); }
      }
      e := None;
    }

    method HandleModular(cpu: Cpu, insn: u32) returns (e: Option<CpuError>)
      requires Ready(cpu)
      modifies io, cpu.Repr()
      ensures Ready(cpu) && fresh(cpu.Repr() - old(cpu.Repr())) && cpu.steps == old(cpu.steps)
      ensures RefinesState(e, old(Whole(cpu)), Whole(cpu), ExecModular(env, old(Whole(cpu)), insn))
    {
      hide ExecModOp, ModHint;
      var idx, op := Funct7(insn) / 8, Funct7(insn) % 8;
      if idx >= |env.moduli| { return Some(CustomOp); }
      var entry := env.moduli[idx];
      assert entry in env.moduli;
      if op == 6 || op == 7 {
        var hint := Handlers.ComputeModHint(env, cpu, insn, entry, op);
        match hint {
          case Err(err) => return Some(err);
          case Ok(bs) => io.ReplaceHints(bs);
        }
        return None;
      }
      e := Handlers.DoModOp(cpu, insn, entry, op);
    }

    method HandlePairing(cpu: Cpu, insn: u32) returns (e: Option<CpuError>)
      requires Ready(cpu)
      modifies io
      ensures Ready(cpu) && RefinesState(e, old(Whole(cpu)), Whole(cpu), ExecPairing(env, old(Whole(cpu)), insn))
    {
      hide PairingHint;
      var idx, op := Funct7(insn) / 16, Funct7(insn) % 16;
      if op != 0 || idx >= |env.pairings| { return Some(CustomOp); }
      var hint := Handlers.ComputePairingHint(env, env.pairings[idx], cpu, insn);
      match hint {
        case Err(err) => return Some(err);
        case Ok(bs) => io.PushHints(bs);
      }
      e := None;
    }

    method HandleCustom0(cpu: Cpu, insn: u32) returns (e: Option<CpuError>)
      requires Ready(cpu) && Funct3(insn) != 0
      modifies io, cpu.Repr()
      ensures Ready(cpu) && fresh(cpu.Repr() - old(cpu.Repr())) && cpu.steps == old(cpu.steps)
      ensures RefinesState(e, old(Whole(cpu)), Whole(cpu), Custom0(env, old(Whole(cpu)), insn))
    {
      hide ExecHint, ExecReveal, ExecPhantom, ExecHash, ExecInt256, ExecBeq256;
      e := None;
      match Funct3(insn) {
        case 1 => e := HandleHint(cpu, insn);
        case 2 => HandleReveal(cpu, insn);
        case 3 => e := HandlePhantom(cpu, insn);
        case 4 => e := Handlers.HandleHash(env, cpu, insn);
        case 5 => e := Handlers.HandleInt256(cpu, insn);
        case 6 => Handlers.HandleBeq256(cpu, insn);
        case _ =>
      }
    }

    method HandleCustom1(cpu: Cpu, insn: u32) returns (e: Option<CpuError>)
      requires Ready(cpu)
      modifies io, cpu.Repr()
      ensures Ready(cpu) && fresh(cpu.Repr() - old(cpu.Repr())) && cpu.steps == old(cpu.steps)
      ensures RefinesState(e, old(Whole(cpu)), Whole(cpu), Custom1(env, old(Whole(cpu)), insn))
    {
      hide ExecModular, ExecSw, ExecComplex, ExecPairing;
      match Funct3(insn) {
        case 0 => e := HandleModular(cpu, insn);
        case 1 => e := Handlers.HandleSw(env, cpu, insn);
        case 2 => e := Handlers.HandleComplex(env, cpu, insn);
        case 3 => e := HandlePairing(cpu, insn);
        case _ => e := Some(CustomOp);
      }
    }

    /** `handle`. */
    method Dispatch(cpu: Cpu, insn: u32) returns (r: Result<StepOutcome, CpuError>)
      requires Ready(cpu)
      modifies io, cpu.Repr()
      ensures Ready(cpu) && fresh(cpu.Repr() - old(cpu.Repr())) && cpu.steps == old(cpu.steps)
      ensures RefinesStep(r, old(Whole(cpu)), Whole(cpu), Handle(env, old(Whole(cpu)), insn))
    {
      hide Custom0, Custom1;
      var pc := cpu.pc;
      var e: Option<CpuError>;
      if Opcode(insn) == CUSTOM_0 {
        if Funct3(insn) == 0 {
          var code := cpu.ReadRegister(Rs1(insn));
          return Ok(Terminated(code));
        }
        e := HandleCustom0(cpu, insn);
      } else if Opcode(insn) == CUSTOM_1 {
        e := HandleCustom1(cpu, insn);
      } else {
        e := Some(IllegalInstruction(pc, insn));
      }
      if e.Some? { return Err(e.value); }
      if cpu.pc == pc { cpu.MoveOn(); }
      r := Ok(Continue);
    }

    /** `Cpu::step`. */
    method StepOnce(cpu: Cpu) returns (r: Result<StepOutcome, CpuError>)
      requires Ready(cpu)
      modifies io, cpu.Repr()
      ensures Ready(cpu) && fresh(cpu.Repr() - old(cpu.Repr())) && cpu.steps == old(cpu.steps)
      ensures RefinesStep(r, old(Whole(cpu)), Whole(cpu), Step(env, old(Whole(cpu))))
    {
      hide Handle, ExecBase, WordAt;
      var insn := cpu.Fetch();
      if IsCustom(insn) {
        r := Dispatch(cpu, insn);
      } else {
        var e := cpu.Execute(insn);
        r := if e.Some? then Err(e.value) else Ok(Continue);
      }
    }

    /** `Cpu::run`: ends as the specification's run does, with the steps counted. */
    method RunLoop(cpu: Cpu, maxSteps: nat) returns (r: Result<u32, CpuError>)
      requires Ready(cpu)
      modifies io, cpu.Repr()
      ensures Ready(cpu)
      ensures Ended(r, Whole(cpu), cpu.steps) == Run(env, old(Whole(cpu)), old(cpu.steps), maxSteps)
    {
      hide Step, WellFormed;
      while true
        invariant Ready(cpu) && fresh(cpu.Repr() - old(cpu.Repr()))
        invariant Run(env, Whole(cpu), cpu.steps, maxSteps) == Run(env, old(Whole(cpu)), old(cpu.steps), maxSteps)
        decreases maxSteps - cpu.steps
      {
        if cpu.steps >= maxSteps { return Err(StepLimitExceeded(cpu.pc)); }
        var outcome := StepOnce(cpu);
        match outcome {
          case Err(err) => return Err(err);
          case Ok(Terminated(code)) => return Ok(code);
          case Ok(Continue) =>
        }
        cpu.steps := cpu.steps + 1;
      }
    }
  }
}
