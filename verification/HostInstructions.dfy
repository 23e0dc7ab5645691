/** Whole custom instructions that end the run, reveal output, hash, do nothing, or fail. */
module HostInstructions {
  import opened Wrappers
  import opened Bytes
  import opened FlatMemory
  import opened Decode
  import opened State
  import opened HintIo
  import opened Precompiles
  import opened Machine
  import opened InstructionProperties
  import opened Curve
  import Bits

  /** The step only moves on to pc + 4. */
  ghost predicate OnlyAdvances(s: State, r: Result<Stepped, CpuError>) {
    r == Ok(Stepped(Continue, s.(cpu := s.cpu.(pc := WrappingAdd(s.cpu.pc, 4)))))
  }

  // ----- termination and output ------------------------------------------------------------------

  /** TERMINATE ends the run with register rs1 as the exit code, and changes nothing. */
  lemma TerminateInstruction<B(!new), S(!new)>(env: Env<B, S>, s: State, insn: u32)
    requires WellFormed(env) && Fetches(s, insn, 0x0b, 0)
    ensures Step(env, s) == Ok(Stepped(Terminated(RegRs1(s.cpu, insn)), s))
  {
    hide WordAt;
  }

  /** REVEAL puts register rs1, as four bytes, at the offset that register rd and the immediate
      add up to; the rest of the output stays, and grows by zeros at most. */
  lemma RevealInstruction<B(!new), S(!new)>(env: Env<B, S>, s: State, insn: u32)
    requires WellFormed(env) && Fetches(s, insn, 0x0b, 2)
    ensures var at, old' := WrappingAdd(RegRd(s.cpu, insn), Imm12(insn)), s.io.output;
      exists out: seq<byte> ::
        && Step(env, s) == Ok(Stepped(Continue, State(Advance(s.cpu), s.io.(output := out))))
        && |out| == (if |old'| < at + 4 then at + 4 else |old'|)
        && LeValue(out[at..at + 4]) == RegRs1(s.cpu, insn)
        && forall i :: 0 <= i < |out| && !(at <= i < at + 4) ==> out[i] == if i < |old'| then old'[i] else 0
  {
    hide WordAt, Step, Revealed, LeValue, ToLe;
    StepCustom0(env, s, insn);
    var at, v := WrappingAdd(RegRd(s.cpu, insn), Imm12(insn)), RegRs1(s.cpu, insn);
    var out := Revealed(s.io.output, at, ToLe(v, 4));
    assert out[at..at + 4] == ToLe(v, 4);
    FourByteValue(v);
    assert Step(env, s) == Ok(Stepped(Continue, State(Advance(s.cpu), s.io.(output := out))));
  }

  lemma FourByteValue(v: u32)
    ensures LeValue(ToLe(v, 4)) == v
  {
    LeRoundTrip(v, 4);
  }

  // ----- hashes ----------------------------------------------------------------------------------------

  /** XORIN, when source and destination are apart: each byte at [rd] is changed by the byte at
      [rs1], as many as register rs2 says, and no other. */
  lemma XorinInstruction<B(!new), S(!new)>(env: Env<B, S>, s: State, insn: u32)
    requires WellFormed(env) && Fetches(s, insn, 0x0b, 4) && Funct7(insn) == 1
    requires Apart(RegRd(s.cpu, insn), RegRs1(s.cpu, insn), RegRs2(s.cpu, insn))
    ensures var dst, src, len, m := RegRd(s.cpu, insn), RegRs1(s.cpu, insn), RegRs2(s.cpu, insn), s.cpu.mem;
      && WritesOnly(s, Step(env, s), dst, len)
      && forall i: u32 :: i < len ==> var d := WrappingAdd(dst, i);
           Step(env, s).value.state.cpu.mem[d] == Bits.Xor(8, m[d], m[WrappingAdd(src, i)])
  {
    hide WordAt, Step, Bits.Bitwise, XorIn;
    StepCustom0(env, s, insn);
    var dst, src, len, m := RegRd(s.cpu, insn), RegRs1(s.cpu, insn), RegRs2(s.cpu, insn), s.cpu.mem;
    forall a: u32
      ensures XorIn(m, dst, src, len)[a] ==
        if Offset(dst, a) < len then XorByte(m[a], m[WrappingAdd(src, Offset(dst, a))]) else m[a]
    {
      XorInAt(m, dst, src, len, len, a);
    }
    forall i: u32 | i < len ensures Offset(dst, WrappingAdd(dst, i)) == i { OffsetOfSum(dst, 0, i); }
  }

  /** SHA256: the eight words at [rd] become the compression of the eight words at [rs1] and the 64
      bytes at [rs2], all words little-endian, and no other byte changes. */
  lemma Sha256Instruction<B(!new), S(!new)>(env: Env<B, S>, s: State, insn: u32, state: Words8)
    requires WellFormed(env) && Fetches(s, insn, 0x0b, 4) && Funct7(insn) == 2
    requires forall i :: 0 <= i < 8 ==> state[i] == WordAt(s.cpu.mem, WrappingAdd(RegRs1(s.cpu, insn), 4 * i))
    ensures var out := RegRd(s.cpu, insn);
      var result := env.compress(state, Read(s.cpu.mem, RegRs2(s.cpu, insn), 64));
      && WritesOnly(s, Step(env, s), out, 32)
      && forall i :: 0 <= i < 8 ==> WordAt(Step(env, s).value.state.cpu.mem, WrappingAdd(out, 4 * i)) == result[i]
  {
    hide Step, WordsToBytes, Write;
    StepCustom0(env, s, insn);
    var out, m := RegRd(s.cpu, insn), s.cpu.mem;
    assert ReadWords(m, RegRs1(s.cpu, insn)) == state;
    hide ReadWords, WordAt;
    var result := env.compress(state, Read(m, RegRs2(s.cpu, insn), 64));
    WordsLength(result);
    WriteThenRead(m, out, WordsToBytes(result));
    WordsStored(Write(m, out, WordsToBytes(result)), out, result);
  }

  lemma {:induction false} WordsLength(s: seq<u32>)
    ensures |WordsToBytes(s)| == 4 * |s|
  {
    if |s| > 0 { WordsLength(s[1..]); }
  }

  lemma {:induction false} WordSlice(s: seq<u32>, i: nat)
    requires i < |s|
    ensures |WordsToBytes(s)| == 4 * |s| && WordsToBytes(s)[4 * i..4 * i + 4] == ToLe(s[i], 4)
  {
    hide ToLe;
    WordsLength(s);
    if i > 0 {
      var rest := WordsToBytes(s[1..]);
      WordSlice(s[1..], i - 1);
      AfterFirst(ToLe(s[0], 4), rest, 4 * (i - 1));
    }
  }

  lemma AfterFirst(first: seq<byte>, rest: seq<byte>, k: nat)
    requires |first| == 4 && k + 4 <= |rest|
    ensures (first + rest)[4 + k..4 + k + 4] == rest[k..k + 4]
  {}

  lemma WordsStored(m: Flat, ptr: u32, words: Words8)
    requires |WordsToBytes(words)| == 32 && Read(m, ptr, 32) == WordsToBytes(words)
    ensures forall i :: 0 <= i < 8 ==> WordAt(m, WrappingAdd(ptr, 4 * i)) == words[i]
  {
    hide Read, WordsToBytes, ToLe, LeValue;
    forall i: nat | i < 8 ensures WordAt(m, WrappingAdd(ptr, 4 * i)) == words[i] {
      WordSlice(words, i);
      SliceOfRead(m, ptr, 32, 4 * i, 4);
      FourByteValue(words[i]);
    }
  }

  // ----- no effect, and errors ----------------------------------------------------------------------------

  /** Phantoms other than HintInput, NATIVE_STOREW and the three set-up operations do nothing. */
  lemma NoEffectInstruction<B(!new), S(!new)>(env: Env<B, S>, s: State, insn: u32)
    requires WellFormed(env)
    requires
      || (Fetches(s, insn, 0x0b, 3) && Imm12(insn) != 0)
      || Fetches(s, insn, 0x0b, 7)
      || (Fetches(s, insn, 0x2b, 0) && Funct7(insn) % 8 == 5 && Funct7(insn) / 8 < |env.moduli|)
      || (Fetches(s, insn, 0x2b, 1) && Funct7(insn) % 8 == 2 && Funct7(insn) / 8 < |env.curves|)
      || (Fetches(s, insn, 0x2b, 2) && Funct7(insn) % 8 == 5 && Funct7(insn) / 8 < |env.complex|)
    ensures OnlyAdvances(s, Step(env, s))
  {
    hide WordAt, Step, ReadLe, Decompress, AddNe, Double;
    if Opcode(insn) == 0x0b { StepCustom0(env, s, insn); } else { StepCustom1(env, s, insn); }
  }

  /** What a word of the two custom slots must not be: an operation or a table entry that does not
      exist, or a HintInput without input. */
  ghost predicate IsUnknown<B(!new), S(!new)>(env: Env<B, S>, s: State, insn: u32) {
    var f3, f7 := Funct3(insn), Funct7(insn);
    if Opcode(insn) == 0x0b then
      || (f3 == 1 && Imm12(insn) > 1)
      || (f3 == 3 && Imm12(insn) == 0 && |s.io.inputs| == 0)
      || (f3 == 4 && f7 > 2)
      || (f3 == 5 && f7 > 10)
    else
      || (f3 == 0 && f7 / 8 >= |env.moduli|)
      || (f3 == 1 && (f7 / 8 >= |env.curves| || f7 % 8 > 4))
      || (f3 == 2 && (f7 / 8 >= |env.complex| || f7 % 8 > 5))
      || (f3 == 3 && (f7 / 16 >= |env.pairings| || f7 % 16 != 0))
      || f3 > 3
  }

  /** Each of these fails. */
  lemma UnknownInstruction<B(!new), S(!new)>(env: Env<B, S>, s: State, insn: u32)
    requires WellFormed(env) && insn == WordAt(s.cpu.mem, s.cpu.pc) && (Opcode(insn) == 0x0b || Opcode(insn) == 0x2b)
    requires IsUnknown(env, s, insn)
    ensures Step(env, s) == Err(CustomOp)
  {
    hide WordAt, Step, ReadLe, Decompress, AddNe, Double;
    if Opcode(insn) == 0x0b { StepCustom0(env, s, insn); } else { StepCustom1(env, s, insn); }
  }
}
