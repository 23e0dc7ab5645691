/** What holds over every run of the machine, custom instructions included. */
module RunProperties {
  import opened Wrappers
  import opened FlatMemory
  import opened Decode
  import opened State
  import opened HintIo
  import opened Instructions
  import opened Precompiles
  import opened Machine
  import Bn254
  import Bls12

  /** Register 0 reads zero and the program counter is even. */
  predicate Sound(c: CpuState) { c.x[0] == 0 && c.pc % 2 == 0 }

  /** Inputs are consumed in order, from the front, and the public output never shrinks. */
  predicate Follows(io: Io, io': Io) {
    && |io'.inputs| <= |io.inputs| && io'.inputs == io.inputs[|io.inputs| - |io'.inputs|..]
    && |io.output| <= |io'.output|
  }

  lemma FollowsTransitive(a: Io, b: Io, c: Io)
    requires Follows(a, b) && Follows(b, c)
    ensures Follows(a, c)
  {}

  lemma EvenSum(a: u32, b: u32)
    requires a % 2 == 0 && b % 2 == 0
    ensures WrappingAdd(a, b) % 2 == 0
  {}

  /** The base instructions. */
  lemma BaseKeepsSound(c: CpuState, insn: u32)
    requires Sound(c)
    ensures ExecBranch(c, insn).Ok? ==> Sound(ExecBranch(c, insn).value)
    ensures ExecLoad(c, insn).Ok? ==> Sound(ExecLoad(c, insn).value)
    ensures ExecStore(c, insn).Ok? ==> Sound(ExecStore(c, insn).value)
    ensures ExecOpImm(c, insn).Ok? ==> Sound(ExecOpImm(c, insn).value)
    ensures ExecOp(c, insn).Ok? ==> Sound(ExecOp(c, insn).value)
  {
    hide Alu, AluImm, Loaded, Taken, ImmB, ImmI, ImmS;
    ImmBMeaning(insn);
    EvenSum(c.pc, ImmB(insn));
    EvenSum(c.pc, 4);
  }

  /** A custom instruction writes no register but by number, and moves the program counter by
      an even offset or not at all. */
  lemma Custom0KeepsSound<B(!new), S(!new)>(env: Env<B, S>, s: State, insn: u32)
    requires Sound(s.cpu) && Funct3(insn) != 0 && Custom0(env, s, insn).Ok?
    ensures var s' := Custom0(env, s, insn).value; Sound(s'.cpu) && Follows(s.io, s'.io)
  {
    hide HashOp, Int256Op, ImmB, Frame, Popped, Left, Write;
    ImmBMeaning(insn);
    EvenSum(s.cpu.pc, ImmB(insn));
    EvenSum(s.cpu.pc, 4);
  }

  lemma Custom1KeepsSound<B(!new), S(!new)>(env: Env<B, S>, s: State, insn: u32)
    requires WellFormed(env) && Sound(s.cpu) && Custom1(env, s, insn).Ok?
    ensures var s' := Custom1(env, s, insn).value; Sound(s'.cpu) && Follows(s.io, s'.io)
  {
    hide WellFormed, ModOp, ComplexOp, SwOp, ModHint, PairingHint, WriteFp2, WriteSw, WriteLe;
  }

  lemma HandleKeepsSound<B(!new), S(!new)>(env: Env<B, S>, s: State, insn: u32)
    requires WellFormed(env) && Sound(s.cpu) && Handle(env, s, insn).Ok?
    ensures var s' := Handle(env, s, insn).value.state; Sound(s'.cpu) && Follows(s.io, s'.io)
  {
    hide Custom0, Custom1, WellFormed;
    if Opcode(insn) == CUSTOM_0 && Funct3(insn) != 0 { Custom0KeepsSound(env, s, insn); }
    if Opcode(insn) == CUSTOM_1 { Custom1KeepsSound(env, s, insn); }
    EvenSum(s.cpu.pc, 4);
  }

  lemma UpperKeepsSound(c: CpuState, rd: Reg, v: u32)
    requires Sound(c)
    ensures Sound(Advance(WriteReg(c, rd, v))) && Sound(Advance(c))
  {
    EvenSum(c.pc, 4);
  }

  lemma JumpKeepsSound(c: CpuState, rd: Reg, target: u32)
    requires Sound(c) && target % 2 == 0
    ensures Sound(Jump(c, rd, target))
  {}

  lemma ExecBaseKeepsSound(c: CpuState, insn: u32)
    requires Sound(c) && ExecBase(c, insn).Ok?
    ensures Sound(ExecBase(c, insn).value)
  {
    hide ExecBranch, ExecLoad, ExecStore, ExecOpImm, ExecOp, Jump, Advance, WriteReg, ImmJ, ImmI, ImmU;
    match Opcode(insn)
    case 0x37 => UpperKeepsSound(c, Rd(insn), ImmU(insn));
    case 0x17 => UpperKeepsSound(c, Rd(insn), WrappingAdd(c.pc, ImmU(insn)));
    case 0x0f => UpperKeepsSound(c, 0, 0);
    case 0x6f =>
      ImmJMeaning(insn);
      EvenSum(c.pc, ImmJ(insn));
      JumpKeepsSound(c, Rd(insn), WrappingAdd(c.pc, ImmJ(insn)));
    case 0x67 =>
      JumpKeepsSound(c, Rd(insn), Even(WrappingAdd(ReadReg(c, Rs1(insn)), ImmI(insn))));
    case _ => BaseKeepsSound(c, insn);
  }

  lemma StepKeepsSound<B(!new), S(!new)>(env: Env<B, S>, s: State)
    requires WellFormed(env) && Sound(s.cpu) && Step(env, s).Ok?
    ensures var s' := Step(env, s).value.state; Sound(s'.cpu) && Follows(s.io, s'.io)
  {
    hide ExecBase, Handle, WordAt;
    var insn := WordAt(s.cpu.mem, s.cpu.pc);
    if IsCustom(insn) { HandleKeepsSound(env, s, insn); } else { ExecBaseKeepsSound(s.cpu, insn); }
  }

  /** Wherever a run stops, and so at each of its steps, x0 is zero, the program counter even,
      the inputs taken a prefix of those queued, and the count of steps within the limit. */
  lemma {:induction false} RunKeepsSound<B(!new), S(!new)>(env: Env<B, S>, s: State, steps: nat, maxSteps: nat)
    requires WellFormed(env) && Sound(s.cpu)
    ensures var e := Run(env, s, steps, maxSteps);
      && Sound(e.state.cpu) && Follows(s.io, e.state.io)
      && steps <= e.steps <= (if steps < maxSteps then maxSteps else steps)
    decreases maxSteps - steps
  {
    hide Step;
    if steps < maxSteps && Step(env, s).Ok? {
      StepKeepsSound(env, s);
      var r := Step(env, s).value;
      if r.outcome == Continue {
        RunKeepsSound(env, r.state, steps + 1, maxSteps);
        FollowsTransitive(s.io, r.state.io, Run(env, s, steps, maxSteps).state.io);
      }
    }
  }

  predicate IsLimit<T>(r: Result<T, CpuError>) { r.Err? && r.error.StepLimitExceeded? }

  lemma Custom0NeverReportsLimit<B(!new), S(!new)>(env: Env<B, S>, s: State, insn: u32)
    requires Funct3(insn) != 0
    ensures !IsLimit(Custom0(env, s, insn))
  {
    hide HashOp, Int256Op, Frame, Write;
  }

  lemma Custom1NeverReportsLimit<B(!new), S(!new)>(env: Env<B, S>, s: State, insn: u32)
    requires WellFormed(env)
    ensures !IsLimit(Custom1(env, s, insn))
  {
    hide WellFormed, Serialised, Bn254.PairOf, Bls12.FinalExpHint, WriteFp2, WriteSw, WriteLe, Points, Miller;
  }

  lemma BaseNeverReportsLimit(c: CpuState, insn: u32)
    ensures !IsLimit(ExecBase(c, insn))
  {
    hide Alu, AluImm, Loaded, Taken, Write;
  }

  /** Only the loop itself reports the step limit. */
  lemma StepNeverReportsLimit<B(!new), S(!new)>(env: Env<B, S>, s: State)
    requires WellFormed(env)
    ensures Step(env, s).Err? ==> !Step(env, s).error.StepLimitExceeded?
  {
    hide WellFormed, Custom0, Custom1, ExecBase, WordAt;
    var insn := WordAt(s.cpu.mem, s.cpu.pc);
    if Opcode(insn) == CUSTOM_0 && Funct3(insn) != 0 { Custom0NeverReportsLimit(env, s, insn); }
    if Opcode(insn) == CUSTOM_1 { Custom1NeverReportsLimit(env, s, insn); }
    BaseNeverReportsLimit(s.cpu, insn);
  }

  /** A run stopped at its limit and taken up with a larger one ends as a single run with the
      larger limit does; a run that ended by itself does not notice the larger limit. */
  lemma {:induction false} RunResumes<B(!new), S(!new)>(env: Env<B, S>, s: State, steps: nat, limit: nat, larger: nat)
    requires WellFormed(env) && limit <= larger
    ensures var e := Run(env, s, steps, limit);
      Run(env, s, steps, larger) ==
        if e.result.Err? && e.result.error.StepLimitExceeded? then Run(env, e.state, e.steps, larger) else e
    decreases limit - steps
  {
    hide Step;
    if steps < limit {
      StepNeverReportsLimit(env, s);
      if Step(env, s).Ok? && Step(env, s).value.outcome == Continue {
        RunResumes(env, Step(env, s).value.state, steps + 1, limit, larger);
      }
    }
  }
}
