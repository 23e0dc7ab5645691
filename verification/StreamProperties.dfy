/** Input and output over whole runs of the machine, whatever other instructions come between. */
module StreamProperties {
  import opened Wrappers
  import opened Bytes
  import opened FlatMemory
  import opened Decode
  import opened State
  import opened HintIo
  import opened Instructions
  import opened Precompiles
  import opened Machine

  ghost function Fetched(s: State): u32 { WordAt(s.cpu.mem, s.cpu.pc) }

  /** HINT_STOREW or HINT_BUFFER. */
  predicate IsHint(insn: u32) { Opcode(insn) == 0x0b && Funct3(insn) == 1 && Imm12(insn) <= 1 }

  predicate IsReveal(insn: u32) { Opcode(insn) == 0x0b && Funct3(insn) == 2 }

  /** HintInput, the two hints of a modulus and the pairing hint put bytes into the stream. */
  predicate Refills(insn: u32) {
    || (Opcode(insn) == 0x0b && Funct3(insn) == 3 && Imm12(insn) == 0)
    || (Opcode(insn) == 0x2b && Funct3(insn) == 0 && Funct7(insn) % 8 >= 6)
    || (Opcode(insn) == 0x2b && Funct3(insn) == 3)
  }

  /** The bytes one step moves from the hint stream to memory. */
  ghost function ReadBy(s: State): seq<byte> {
    if IsHint(Fetched(s)) then
      Popped(s.io.hints, if Imm12(Fetched(s)) == 0 then 4 else 4 * RegRs1(s.cpu, Fetched(s)))
    else []
  }

  /** What one step writes to the public output. */
  ghost function RevealedBy(s: State): seq<Reveal> {
    if IsReveal(Fetched(s)) then
      [Reveal(WrappingAdd(RegRd(s.cpu, Fetched(s)), Imm12(Fetched(s))), ToLe(RegRs1(s.cpu, Fetched(s)), 4))]
    else []
  }

  // ----- n steps in a row -------------------------------------------------------------------------

  /** The state after one completed step; None when it fails or terminates. */
  ghost function Next<B(!new), S(!new)>(env: Env<B, S>, s: State): Option<State>
    requires WellFormed(env)
  {
    match Step(env, s)
    case Ok(Stepped(Continue, s')) => Some(s')
    case _ => None
  }

  /** The next n steps are completed and none of them terminates. */
  ghost predicate Runs<B(!new), S(!new)>(env: Env<B, S>, s: State, n: nat)
    requires WellFormed(env)
    decreases n
  {
    hide Next;
    n > 0 ==> Next(env, s).Some? && Runs(env, Next(env, s).value, n - 1)
  }

  ghost function After<B(!new), S(!new)>(env: Env<B, S>, s: State, n: nat): State
    requires WellFormed(env) && Runs(env, s, n)
    decreases n
  {
    hide Next;
    if n == 0 then s else After(env, Next(env, s).value, n - 1)
  }

  ghost function AllRead<B(!new), S(!new)>(env: Env<B, S>, s: State, n: nat): seq<byte>
    requires WellFormed(env) && Runs(env, s, n)
    decreases n
  {
    hide Next, ReadBy;
    if n == 0 then [] else ReadBy(s) + AllRead(env, Next(env, s).value, n - 1)
  }

  ghost function AllReveals<B(!new), S(!new)>(env: Env<B, S>, s: State, n: nat): seq<Reveal>
    requires WellFormed(env) && Runs(env, s, n)
    decreases n
  {
    hide Next, RevealedBy;
    if n == 0 then [] else RevealedBy(s) + AllReveals(env, Next(env, s).value, n - 1)
  }

  ghost predicate NoRefill<B(!new), S(!new)>(env: Env<B, S>, s: State, n: nat)
    requires WellFormed(env) && Runs(env, s, n)
    decreases n
  {
    hide Next, Refills;
    n > 0 ==> !Refills(Fetched(s)) && NoRefill(env, Next(env, s).value, n - 1)
  }

  /** Every run of the machine is as many completed steps as it counts, and ends for one reason:
      the limit is reached, or the next step fails or terminates, which changes nothing. */
  lemma {:induction false} RunIsSteps<B(!new), S(!new)>(env: Env<B, S>, s: State, steps: nat, maxSteps: nat)
    requires WellFormed(env)
    ensures var e := Run(env, s, steps, maxSteps);
      && e.steps >= steps && Runs(env, s, e.steps - steps) && e.state == After(env, s, e.steps - steps)
      && (if e.steps >= maxSteps then e.result == Err(StepLimitExceeded(e.state.cpu.pc))
          else match e.result
            case Err(err) => Step(env, e.state) == Err(err)
            case Ok(code) => Step(env, e.state) == Ok(Stepped(Terminated(code), e.state)))
      && (steps <= maxSteps ==> e.steps <= maxSteps)
    decreases maxSteps - steps
  {
    hide Step;
    if steps < maxSteps && Step(env, s).Ok? {
      var r := Step(env, s).value;
      if r.outcome == Continue {
        RunIsSteps(env, r.state, steps + 1, maxSteps);
      } else {
        TerminatedStateIsSame(env, s);
      }
    }
  }

  lemma TerminatedStateIsSame<B(!new), S(!new)>(env: Env<B, S>, s: State)
    requires WellFormed(env) && Step(env, s).Ok? && Step(env, s).value.outcome != Continue
    ensures Step(env, s).value.state == s
  {
    hide Custom0, Custom1, ExecBase;
  }

  // ----- one step ---------------------------------------------------------------------------------

  /** The streams after a custom instruction. */
  lemma Custom0Streams<B(!new), S(!new)>(env: Env<B, S>, s: State, insn: u32)
    requires insn == Fetched(s) && Opcode(insn) == 0x0b && Funct3(insn) != 0 && Custom0(env, s, insn).Ok?
    ensures var io := Custom0(env, s, insn).value.io;
      && io.output == AllRevealed(s.io.output, RevealedBy(s))
      && (!Refills(insn) ==> io.hints == Left(s.io.hints, |ReadBy(s)|))
  {
    hide WordAt, Popped, Revealed, HashOp, Int256Op, Frame, Write;
    OneReveal(s.io.output, RevealedBy(s));
  }

  lemma OneReveal(output: seq<byte>, writes: seq<Reveal>)
    ensures AllRevealed(output, []) == output
    ensures |writes| == 1 ==> AllRevealed(output, writes) == Revealed(output, writes[0].offset, writes[0].bytes)
  {
    if |writes| == 1 { assert writes[..0] == []; }
  }

  lemma Custom1Streams<B(!new), S(!new)>(env: Env<B, S>, s: State, insn: u32)
    requires WellFormed(env) && insn == Fetched(s) && Opcode(insn) == 0x2b && Custom1(env, s, insn).Ok?
    ensures var io := Custom1(env, s, insn).value.io;
      && io.output == AllRevealed(s.io.output, RevealedBy(s))
      && (!Refills(insn) ==> io.hints == Left(s.io.hints, |ReadBy(s)|))
  {
    hide WordAt, ModOp, ComplexOp, SwOp, PairingHint, ModHint, WriteFp2, WriteSw, Write;
  }

  lemma StepStreams<B(!new), S(!new)>(env: Env<B, S>, s: State)
    requires WellFormed(env) && Next(env, s).Some?
    ensures var io := Next(env, s).value.io;
      && io.output == AllRevealed(s.io.output, RevealedBy(s))
      && (!Refills(Fetched(s)) ==> io.hints == Left(s.io.hints, |ReadBy(s)|))
  {
    hide WordAt, ExecBase, Custom0, Custom1, AllRevealed;
    var insn := Fetched(s);
    if Opcode(insn) == 0x0b {
      Custom0Streams(env, s, insn);
    } else if Opcode(insn) == 0x2b {
      Custom1Streams(env, s, insn);
    } else {
      OneReveal(s.io.output, []);
    }
  }

  lemma ReadByPops(s: State)
    ensures ReadBy(s) == Popped(s.io.hints, |ReadBy(s)|)
  {}

  // ----- whole runs -------------------------------------------------------------------------------

  /** Over any run that does not refill the stream, the bytes read are the stream's in order and
      then zeros, and what they leave is the rest of it. */
  lemma {:induction false} ReadsOverRuns<B(!new), S(!new)>(env: Env<B, S>, s: State, n: nat)
    requires WellFormed(env) && Runs(env, s, n) && NoRefill(env, s, n)
    ensures AllRead(env, s, n) == Popped(s.io.hints, |AllRead(env, s, n)|)
    ensures After(env, s, n).io.hints == Left(s.io.hints, |AllRead(env, s, n)|)
    decreases n
  {
    hide Next, Refills, ReadBy, RevealedBy;
    if n > 0 {
      var next := Next(env, s).value;
      StepStreams(env, s);
      ReadByPops(s);
      ReadsOverRuns(env, next, n - 1);
      PopTwice(s.io.hints, |ReadBy(s)|, |AllRead(env, next, n - 1)|);
    } else {
      assert AllRead(env, s, n) == [] && s.io.hints[0..] == s.io.hints;
    }
  }

  /** After a HintInput step any run of reads receives the length of the entry, the entry, and
      then zeros, with nothing left of earlier hints, until the stream is refilled. */
  lemma InputOverRuns<B(!new), S(!new)>(env: Env<B, S>, s: State, n: nat)
    requires WellFormed(env) && Opcode(Fetched(s)) == 0x0b && Funct3(Fetched(s)) == 3 && Imm12(Fetched(s)) == 0
    requires |s.io.inputs| > 0
    requires Next(env, s).Some? && Runs(env, Next(env, s).value, n) && NoRefill(env, Next(env, s).value, n)
    ensures var bs, entry := AllRead(env, Next(env, s).value, n), s.io.inputs[0];
      && (|bs| >= 4 ==> LeValue(bs[..4]) == |entry| % 0x1_0000_0000)
      && (forall i :: 0 <= i < |entry| && 4 + i < |bs| ==> bs[4 + i] == entry[i])
      && (forall i :: 4 + |entry| <= i < |bs| ==> bs[i] == 0)
  {
    hide WordAt, Frame, Popped, LeValue;
    var next := Next(env, s).value;
    assert next.io.hints == HintInput(s.io).value.hints;
    hide Next;
    var bs := AllRead(env, next, n);
    ReadsOverRuns(env, next, n);
    InputIsDelivered(s.io, [|bs|]);
    ReadsDeliverInOrder(next.io.hints, [|bs|]);
    assert Total([|bs|]) == |bs| by { assert Total([]) == 0; }
  }

  /** Over any run, the output is what its reveals make of the output before. */
  lemma {:induction false} OutputOverRuns<B(!new), S(!new)>(env: Env<B, S>, s: State, n: nat)
    requires WellFormed(env) && Runs(env, s, n)
    ensures After(env, s, n).io.output == AllRevealed(s.io.output, AllReveals(env, s, n))
    decreases n
  {
    hide Next, Refills, ReadBy, RevealedBy;
    if n > 0 {
      var next := Next(env, s).value;
      StepStreams(env, s);
      OutputOverRuns(env, next, n - 1);
      AllRevealedConcat(s.io.output, RevealedBy(s), AllReveals(env, next, n - 1));
    }
  }

  /** So after any run, however it ended, the output is as long as the furthest reveal, and each
      byte is that of the last reveal over it, or as before, or zero in a gap. */
  lemma OutputOfRun<B(!new), S(!new)>(env: Env<B, S>, s: State, steps: nat, maxSteps: nat, i: nat)
    requires WellFormed(env)
    ensures var e := Run(env, s, steps, maxSteps);
      && e.steps >= steps && Runs(env, s, e.steps - steps)
      && var writes, out := AllReveals(env, s, e.steps - steps), e.state.io.output;
         IsExtent(|out|, s.io.output, writes) && (i < |out| ==> LastWriteWins(out, s.io.output, writes, i))
  {
    hide Next, Run, Runs, After, AllReveals, IsExtent, LastWriteWins;
    RunIsSteps(env, s, steps, maxSteps);
    var n := Run(env, s, steps, maxSteps).steps - steps;
    OutputOverRuns(env, s, n);
    LastRevealWins(s.io.output, AllReveals(env, s, n), i);
  }
}
