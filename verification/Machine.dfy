/** The fetch-execute loop of cpu.rs over whole machine states. */
module Machine {
  import opened Wrappers
  import opened FlatMemory
  import opened State
  import opened Instructions
  import opened Precompiles

  ghost function Plain(s: State, r: Result<CpuState, CpuError>): Result<Stepped, CpuError> {
    match r
    case Err(e) => Err(e)
    case Ok(c) => Ok(Stepped(Continue, s.(cpu := c)))
  }

  /** The two slots of custom opcodes go to the handler, everything else is a base instruction. */
  ghost function Step<B(!new), S(!new)>(env: Env<B, S>, s: State): Result<Stepped, CpuError>
    requires WellFormed(env)
  {
    var insn := WordAt(s.cpu.mem, s.cpu.pc);
    if IsCustom(insn) then Handle(env, s, insn) else Plain(s, ExecBase(s.cpu, insn))
  }

  /** How a run ends: the exit code or error, the last state, and the steps counted. */
  datatype Ended = Ended(result: Result<u32, CpuError>, state: State, steps: nat)

  ghost function Run<B(!new), S(!new)>(env: Env<B, S>, s: State, steps: nat, maxSteps: nat): Ended
    requires WellFormed(env)
    decreases maxSteps - steps
  {
    if steps >= maxSteps then Ended(Err(StepLimitExceeded(s.cpu.pc)), s, steps)
    else
      match Step(env, s)
      case Err(e) => Ended(Err(e), s, steps)
      case Ok(Stepped(Terminated(code), s')) => Ended(Ok(code), s', steps)
      case Ok(Stepped(Continue, s')) => Run(env, s', steps + 1, maxSteps)
  }
}
