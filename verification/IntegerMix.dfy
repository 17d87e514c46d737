/** The IntegerMix guest (benchmarks/benchmark_workload.cpp): six arithmetic
    instructions in a loop that never touches data memory. */
module Mix {
  import opened Options
  import opened Words
  import Cpu
  import opened Engine
  import CacheModel
  import BranchPrediction
  import Encoding
  import opened Programs
  import Isa

  function MixRegisters(): seq<u32> {
    ZeroRegisters()[1 := 1][2 := 3]
  }

  /** The term the k-th iteration adds. */
  function Term(k: nat): u32 {
    Isa.Compute(Isa.Mul, XorWord(Wrap(1 + k), Wrap(3 + 3 * k)), Wrap(3 + 3 * k))
  }

  /** The sum of the terms of the first k iterations, modulo 2^32. */
  function Total(k: nat): u32 {
    if k == 0 then 0 else Wrap(Total(k - 1) + Term(k))
  }

  /** The registers after k iterations and `phase` more instructions. */
  predicate Holding(regs: seq<u32>, k: nat, phase: nat)
    requires Cpu.RegistersValid(regs)
  {
    && regs[1] == Wrap(1 + (if phase >= 1 then k + 1 else k))
    && regs[2] == Wrap(3 + 3 * (if phase >= 2 then k + 1 else k))
    && (phase == 3 ==> regs[3] == XorWord(Wrap(1 + (k + 1)), Wrap(3 + 3 * (k + 1))))
    && (phase == 4 ==> regs[4] == Term(k + 1))
    && regs[5] == Total(if phase >= 5 then k + 1 else k)
  }

  ghost predicate At(m: Machine, k: nat, phase: nat) {
    && m.Valid() && phase < 6 && ProgramLoaded(m.memory, INTEGER_MIX)
    && m.pc == MEMORY_BASE + 4 * phase && Holding(m.regs, k, phase)
  }

  lemma {:induction false} ProgramDenotes()
    ensures |INTEGER_MIX| == 6
    ensures Isa.Decode(INTEGER_MIX[0]) == Isa.OpImm(Isa.Add, 1, 1, 1)
    ensures Isa.Decode(INTEGER_MIX[1]) == Isa.OpImm(Isa.Add, 2, 2, 3)
    ensures Isa.Decode(INTEGER_MIX[2]) == Isa.OpReg(Isa.Xor, 3, 1, 2)
    ensures Isa.Decode(INTEGER_MIX[3]) == Isa.OpReg(Isa.Mul, 4, 3, 2)
    ensures Isa.Decode(INTEGER_MIX[4]) == Isa.OpReg(Isa.Add, 5, 5, 4)
    ensures Isa.Decode(INTEGER_MIX[5]) == Isa.Jump(0, -20)
  {
    hide Isa.Decode, Encoding.EncodeImmediateOperation, Encoding.EncodeRegisterOperation, Encoding.EncodeJump;
    ImmediateOperationDenotes(1, 0, 1, 1);
    ImmediateOperationDenotes(2, 0, 2, 3);
    RegisterOperationDenotes(3, 4, 1, 2, 0, Isa.Xor);
    RegisterOperationDenotes(4, 0, 3, 2, 1, Isa.Mul);
    RegisterOperationDenotes(5, 0, 5, 4, 0, Isa.Add);
    JumpDenotes(-20);
  }

  lemma {:induction false} Executes(m: Machine, k: nat, phase: nat)
    requires At(m, k, phase)
    ensures |INTEGER_MIX| == 6
    ensures Isa.Step(m) == Isa.Execute(Isa.Decode(INTEGER_MIX[phase]), INTEGER_MIX[phase], m)
  {
    hide Isa.Step, Isa.Decode, Isa.Execute, INTEGER_MIX;
    ProgramDenotes();
    ProgramStep(m, INTEGER_MIX, phase);
  }

  predicate Unconditional(flow: Option<Isa.ControlFlow>) {
    flow.Some? ==> !flow.value.kind.ConditionalBranch?
  }

  ghost predicate Proceeds(m: Machine, k: nat, phase: nat) {
    && m.Valid() && Isa.Step(m).Retired? && Isa.Step(m).data == None && Unconditional(Isa.Step(m).flow)
    && Isa.Step(m).next.memory == m.memory
    && if phase < 5 then At(Isa.Step(m).next, k, phase + 1) else At(Isa.Step(m).next, k + 1, 0)
  }

  /** Counting modulo 2^32 is counting, then reducing. */
  lemma {:induction false} WrappedSum(a: int, b: int)
    ensures Wrap(Wrap(a) + b) == Wrap(a + b)
  {
    ModAdd(Wrap(a) + b, 0x1_0000_0000, a / 0x1_0000_0000);
  }

  /** A register write that leads to the next instruction. */
  lemma {:induction false} Writes(m: Machine, k: nat, phase: nat, rd: Isa.Reg, value: u32)
    requires At(m, k, phase) && phase < 5
    requires Isa.Step(m) == Isa.Retired(Isa.SetRegister(m, rd, value), None, None)
    requires Holding(Cpu.Written(m.regs, rd, value), k, phase + 1)
    ensures Proceeds(m, k, phase)
  {
    hide Isa.Step, Holding, ProgramLoaded, INTEGER_MIX;
  }

  lemma {:induction false} CountPhase(m: Machine, k: nat, phase: nat)
    requires At(m, k, phase) && phase < 2
    ensures Proceeds(m, k, phase)
  {
    hide Isa.Decode, INTEGER_MIX, Isa.Step, ProgramLoaded, Term, Total, XorWord, Proceeds, Isa.SetRegister;
    ProgramDenotes();
    Executes(m, k, phase);
    WrappedSum(1 + k, 1);
    WrappedSum(3 + 3 * k, 3);
    if phase == 0 {
      Writes(m, k, phase, 1, Isa.Compute(Isa.Add, m.regs[1], Wrap(1)));
    } else {
      Writes(m, k, phase, 2, Isa.Compute(Isa.Add, m.regs[2], Wrap(3)));
    }
  }

  lemma {:induction false} XorPhase(m: Machine, k: nat, phase: nat)
    requires At(m, k, phase) && phase == 2
    ensures Proceeds(m, k, phase)
  {
    hide Isa.Decode, INTEGER_MIX, Isa.Step, ProgramLoaded, XorWord, Total, Term, Wrap, Proceeds, Isa.SetRegister;
    ProgramDenotes();
    Executes(m, k, phase);
    Writes(m, k, phase, 3, Isa.Compute(Isa.Xor, m.regs[1], m.regs[2]));
  }

  lemma {:induction false} MultiplyPhase(m: Machine, k: nat, phase: nat)
    requires At(m, k, phase) && phase == 3
    ensures Proceeds(m, k, phase)
  {
    hide Isa.Decode, INTEGER_MIX, Isa.Step, ProgramLoaded, XorWord, Total, Isa.Compute, Wrap, Proceeds, Isa.SetRegister;
    ProgramDenotes();
    Executes(m, k, phase);
    Writes(m, k, phase, 4, Isa.Compute(Isa.Mul, m.regs[3], m.regs[2]));
  }

  lemma {:induction false} SumPhase(m: Machine, k: nat, phase: nat)
    requires At(m, k, phase) && phase == 4
    ensures Proceeds(m, k, phase)
  {
    hide Isa.Decode, INTEGER_MIX, Isa.Step, ProgramLoaded, XorWord, Term, Wrap, Proceeds, Isa.SetRegister;
    ProgramDenotes();
    Executes(m, k, phase);
    Writes(m, k, phase, 5, Isa.Compute(Isa.Add, m.regs[5], m.regs[4]));
  }

  lemma {:induction false} JumpPhase(m: Machine, k: nat, phase: nat)
    requires At(m, k, phase) && phase >= 5
    ensures Proceeds(m, k, phase)
  {
    hide Isa.Decode, INTEGER_MIX, Isa.Step, ProgramLoaded, Term, Total, XorWord;
    ProgramDenotes();
    Executes(m, k, phase);
  }

  lemma {:induction false} NextOf(m: Machine, k: nat, phase: nat)
    requires At(m, k, phase)
    ensures Isa.Step(m).Retired? && Isa.Step(m).data == None && Unconditional(Isa.Step(m).flow)
    ensures Next(m).memory == m.memory
    ensures if phase < 5 then At(Next(m), k, phase + 1) else At(Next(m), k + 1, 0)
  {
    hide Isa.Step, At;
    if phase < 2 { CountPhase(m, k, phase); }
    else if phase == 2 { XorPhase(m, k, phase); }
    else if phase == 3 { MultiplyPhase(m, k, phase); }
    else if phase == 4 { SumPhase(m, k, phase); }
    else { JumpPhase(m, k, phase); }
  }

  lemma {:induction false} SixSteps(n: nat)
    ensures if n % 6 < 5 then (n + 1) / 6 == n / 6 && (n + 1) % 6 == n % 6 + 1
            else (n + 1) / 6 == n / 6 + 1 && (n + 1) % 6 == 0
  {
  }

  /** The guest never traps, never changes memory, and after n instructions its
      registers are a closed form of n. */
  lemma {:induction false} RunsForever(m: Machine, n: nat)
    requires Starts(m, INTEGER_MIX, MixRegisters())
    ensures At(After(m, n), n / 6, n % 6) && Retires(m, n) && After(m, n).memory == m.memory
  {
    hide Isa.Step, Next, After, INTEGER_MIX, ProgramLoaded, Term;
    AfterUnfolds(m, n);
    if n > 0 {
      RunsForever(m, n - 1);
      NextOf(After(m, n - 1), (n - 1) / 6, (n - 1) % 6);
      SixSteps(n - 1);
    }
  }

  // --------------------------------------------------------------- what is observed

  /** Every fetch is from one 64-byte line, with no data access and no branch. */
  ghost predicate Quiet(trace: seq<ExecutionObservation>) {
    && (forall b | b in CacheModel.FetchBlocks(trace, 64) :: b == 0x40)
    && CacheModel.DataBlocks(trace, 64) == [] && BranchPrediction.Branches(trace) == []
  }

  lemma {:induction false} QuietGrows(trace: seq<ExecutionObservation>, o: ExecutionObservation)
    requires Quiet(trace) && MEMORY_BASE <= o.programCounter < MEMORY_BASE + 24
    requires o.dataMemoryAccess.None? && Unconditional(o.controlFlow)
    ensures Quiet(trace + [o])
  {
    assert (trace + [o])[..|trace|] == trace;
    BranchPrediction.BranchesGrow(trace, o);
  }

  lemma {:induction false} NothingObserved()
    ensures Quiet([])
  {
  }

  lemma {:induction false} ReportAt(m: Machine, k: nat, phase: nat)
    requires At(m, k, phase)
    ensures Report(m).Completed?
    ensures var o := Report(m).observation;
            && MEMORY_BASE <= o.programCounter < MEMORY_BASE + 24
            && o.dataMemoryAccess.None? && Unconditional(o.controlFlow)
  {
    hide Isa.Step, INTEGER_MIX, Next, ProgramLoaded, Holding;
    NextOf(m, k, phase);
  }

  /** The guest uses one instruction line, never the data cache, never the
      predictor. */
  lemma {:induction false} MixTrace(m: Machine, n: nat)
    requires Starts(m, INTEGER_MIX, MixRegisters())
    ensures |Observations(m, n)| == n && Quiet(Observations(m, n))
  {
    hide Isa.Step, Next, After, INTEGER_MIX, At, MixRegisters, ProgramLoaded, Report, Quiet;
    if n == 0 {
      NothingObserved();
    } else {
      MixTrace(m, n - 1);
      RunsForever(m, n - 1);
      ReportAt(After(m, n - 1), (n - 1) / 6, (n - 1) % 6);
      QuietGrows(Observations(m, n - 1), Report(After(m, n - 1)).observation);
    }
  }
}
