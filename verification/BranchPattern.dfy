/** The BranchPattern guest (benchmarks/benchmark_workload.cpp): a counting loop
    with an alternating branch, and the exact number of its mispredictions. */
module Pattern {
  import opened Options
  import opened Words
  import Cpu
  import opened Engine
  import CacheModel
  import opened BranchPrediction
  import Encoding
  import opened Programs
  import Isa

  function PatternRegisters(): seq<u32> {
    ZeroRegisters()[4 := 256]
  }

  // ------------------------------------------------------------- where the guest is

  /** q whole passes, v iterations of the current one, and the instruction index. */
  datatype Spot = Spot(q: nat, v: nat, phase: nat)

  function Advance(s: Spot): Spot {
    match s.phase
    case 2 => s.(phase := if (s.v + 1) % 2 == 0 then 4 else 3)
    case 4 => if s.v < 255 then Spot(s.q, s.v + 1, 0) else s.(phase := 5)
    case 6 => Spot(s.q + 1, 0, 0)
    case _ => s.(phase := s.phase + 1)
  }

  function SpotAt(n: nat): Spot {
    if n == 0 then Spot(0, 0, 0) else Advance(SpotAt(n - 1))
  }

  predicate Holding(regs: seq<u32>, s: Spot)
    requires Cpu.RegistersValid(regs)
  {
    && regs[4] == 256
    && regs[1] == (if s.phase == 0 then s.v else if s.phase <= 5 then s.v + 1 else 0)
    && (s.phase == 2 ==> regs[2] == (s.v + 1) % 2)
  }

  ghost predicate At(m: Machine, s: Spot) {
    && m.Valid() && s.phase < 7 && s.v < 256 && (s.phase >= 5 ==> s.v == 255)
    && (s.phase == 3 ==> s.v % 2 == 0)
    && ProgramLoaded(m.memory, BRANCH_PATTERN) && m.pc == MEMORY_BASE + 4 * s.phase && Holding(m.regs, s)
  }

  lemma {:induction false} ProgramDenotes()
    ensures |BRANCH_PATTERN| == 7
    ensures Isa.Decode(BRANCH_PATTERN[0]) == Isa.OpImm(Isa.Add, 1, 1, 1)
    ensures Isa.Decode(BRANCH_PATTERN[1]) == Isa.OpImm(Isa.And, 2, 1, 1)
    ensures Isa.Decode(BRANCH_PATTERN[2]) == Isa.BranchIf(Isa.Eq, 2, 0, 8)
    ensures Isa.Decode(BRANCH_PATTERN[3]) == Isa.OpImm(Isa.Add, 3, 3, 1)
    ensures Isa.Decode(BRANCH_PATTERN[4]) == Isa.BranchIf(Isa.Ne, 1, 4, -16)
    ensures Isa.Decode(BRANCH_PATTERN[5]) == Isa.OpImm(Isa.Add, 1, 0, 0)
    ensures Isa.Decode(BRANCH_PATTERN[6]) == Isa.Jump(0, -24)
  {
    hide Isa.Decode, Encoding.EncodeImmediateOperation, Encoding.EncodeBranch, Encoding.EncodeJump;
    ImmediateOperationDenotes(1, 0, 1, 1);
    ImmediateOperationDenotes(2, 7, 1, 1);
    BranchDenotes(0, 2, 0, 8, Isa.Eq);
    ImmediateOperationDenotes(3, 0, 3, 1);
    BranchDenotes(1, 1, 4, -16, Isa.Ne);
    ImmediateOperationDenotes(1, 0, 0, 0);
    JumpDenotes(-24);
  }

  lemma {:induction false} Executes(m: Machine, s: Spot)
    requires At(m, s)
    ensures |BRANCH_PATTERN| == 7
    ensures Isa.Step(m) == Isa.Execute(Isa.Decode(BRANCH_PATTERN[s.phase]), BRANCH_PATTERN[s.phase], m)
  {
    hide Isa.Step, Isa.Decode, Isa.Execute, BRANCH_PATTERN;
    ProgramDenotes();
    ProgramStep(m, BRANCH_PATTERN, s.phase);
  }

  /** The control flow a spot's instruction reports. */
  function Flow(s: Spot): Option<Isa.ControlFlow> {
    match s.phase
    case 2 => Some(Isa.ControlFlow(Isa.ConditionalBranch, (s.v + 1) % 2 == 0))
    case 4 => Some(Isa.ControlFlow(Isa.ConditionalBranch, s.v < 255))
    case 6 => Some(Isa.ControlFlow(Isa.DirectJump, true))
    case _ => None
  }

  ghost predicate Proceeds(m: Machine, s: Spot) {
    && m.Valid() && Isa.Step(m).Retired?
    && Isa.Step(m).flow == Flow(s) && Isa.Step(m).data.None?
    && At(Isa.Step(m).next, Advance(s))
  }

  lemma {:induction false} LowBit(x: u32)
    ensures BitAnd(x, 1) == x % 2
  {
    Pow2Values();
    MaskIs(x, 1, 2);
  }

  lemma {:induction false} ArithmeticPhase(m: Machine, s: Spot)
    requires At(m, s) && s.phase in {0, 1, 3, 5}
    ensures Proceeds(m, s)
  {
    hide Isa.Decode, BRANCH_PATTERN, Isa.Step, ProgramLoaded, BitAnd;
    ProgramDenotes();
    Executes(m, s);
    LowBit(m.regs[1]);
  }

  lemma {:induction false} TransferPhase(m: Machine, s: Spot)
    requires At(m, s) && s.phase in {2, 4, 6}
    ensures Proceeds(m, s)
  {
    hide Isa.Decode, BRANCH_PATTERN, Isa.Step, ProgramLoaded;
    ProgramDenotes();
    Executes(m, s);
  }

  lemma {:induction false} NextOf(m: Machine, s: Spot)
    requires At(m, s)
    ensures Isa.Step(m).Retired? && Isa.Step(m).flow == Flow(s) && Isa.Step(m).data.None? && At(Next(m), Advance(s))
  {
    hide Isa.Step;
    if s.phase in {2, 4, 6} {
      TransferPhase(m, s);
    } else {
      ArithmeticPhase(m, s);
    }
  }

  // ------------------------------------------------------------------- every run

  /** The guest never traps, and after n instructions it stands at the n-th spot. */
  lemma {:induction false} RunsForever(m: Machine, n: nat)
    requires Starts(m, BRANCH_PATTERN, PatternRegisters())
    ensures At(After(m, n), SpotAt(n)) && Retires(m, n)
  {
    hide Isa.Step, Next, After, BRANCH_PATTERN, ProgramLoaded, Advance;
    AfterUnfolds(m, n);
    if n > 0 {
      RunsForever(m, n - 1);
      NextOf(After(m, n - 1), SpotAt(n - 1));
    }
  }

  /** Instructions up to iteration v of pass q: five for odd counts, four for even. */
  function StepsTo(q: nat, v: nat): nat {
    1154 * q + 4 * v + (v + 1) / 2
  }

  lemma {:induction false} IterationSpots(n: nat, q: nat, v: nat)
    requires SpotAt(n) == Spot(q, v, 0) && v < 256
    ensures var branch := n + (if v % 2 == 0 then 4 else 3);
            && SpotAt(branch) == Spot(q, v, 4)
            && (v < 255 ==> SpotAt(branch + 1) == Spot(q, v + 1, 0))
            && (v == 255 ==> SpotAt(branch + 3) == Spot(q + 1, 0, 0))
  {
    assert SpotAt(n + 1) == Spot(q, v, 1) && SpotAt(n + 2) == Spot(q, v, 2);
    if v % 2 == 0 {
      assert SpotAt(n + 3) == Spot(q, v, 3) && SpotAt(n + 4) == Spot(q, v, 4);
    } else {
      assert SpotAt(n + 3) == Spot(q, v, 4);
    }
    var branch := n + (if v % 2 == 0 then 4 else 3);
    if v == 255 {
      assert SpotAt(branch + 1) == Spot(q, v, 5) && SpotAt(branch + 2) == Spot(q, v, 6);
    }
  }

  lemma {:induction false} IterationAt(q: nat, v: nat)
    requires v < 256
    ensures SpotAt(StepsTo(q, v)) == Spot(q, v, 0)
    decreases q, v
  {
    hide SpotAt;
    if v > 0 {
      IterationAt(q, v - 1);
      IterationSpots(StepsTo(q, v - 1), q, v - 1);
    } else if q > 0 {
      IterationAt(q - 1, 255);
      IterationSpots(StepsTo(q - 1, 255), q - 1, 255);
    } else {
      assert SpotAt(0) == Spot(0, 0, 0) by { FirstSpot(); }
    }
  }

  lemma {:induction false} FirstSpot()
    ensures SpotAt(0) == Spot(0, 0, 0)
  {
  }

  // --------------------------------------------------------- the predictor's state

  /** The counter of the alternating branch (slot 2). */
  function Alternating(s: Spot): u8 {
    if (if s.phase <= 2 then s.v else s.v + 1) % 2 == 0 then 1 else 0
  }

  /** The counter of the loop branch (slot 4). */
  function Looping(s: Spot): u8 {
    if s.phase > 4 then 2
    else if s.q == 0 then (if s.v == 0 then 1 else if s.v == 1 then 2 else 3)
    else if s.v == 0 then 2 else 3
  }

  /** Mispredictions so far at a spot. */
  function Wrong(s: Spot): nat {
    if s.phase > 4 then 129 * (s.q + 1) + 1
    else
      129 * s.q + s.v / 2 + (if s.q > 0 || s.v > 0 then 1 else 0)
      + (if s.phase == 4 && s.v % 2 == 1 then 1 else 0)
  }

  ghost predicate Tallied(b: seq<BranchOutcome>, s: Spot) {
    && Counter(Own(b, 2, 256), 1) == Alternating(s)
    && Counter(Own(b, 4, 256), 1) == Looping(s)
    && Incorrect(PREDICTOR, b) == Wrong(s)
  }

  lemma {:induction false} TallyBranch(b: seq<BranchOutcome>, s: Spot)
    requires Tallied(b, s) && s.v < 256 && (s.phase == 2 || s.phase == 4)
    ensures Tallied(b + [BranchOutcome(MEMORY_BASE + 4 * s.phase, Flow(s).value.taken)], Advance(s))
  {
    hide Counter, Own, Incorrect, SlotOf;
    BranchSlots();
    ResolveBranch(PREDICTOR, b, MEMORY_BASE + 4 * s.phase, Flow(s).value.taken);
  }

  lemma {:induction false} TallyOther(b: seq<BranchOutcome>, s: Spot)
    requires Tallied(b, s) && s.phase < 7 && s.phase != 2 && s.phase != 4
    requires (s.phase >= 5 ==> s.v == 255) && (s.phase == 3 ==> s.v % 2 == 0)
    ensures Tallied(b, Advance(s))
  {
    hide Counter, Own, Incorrect;
  }

  lemma {:induction false} ReportAt(m: Machine, s: Spot)
    requires At(m, s)
    ensures Report(m).Completed?
    ensures Report(m).observation.programCounter == MEMORY_BASE + 4 * s.phase
    ensures Report(m).observation.controlFlow == Flow(s) && Report(m).observation.dataMemoryAccess.None?
  {
    hide Isa.Step, BRANCH_PATTERN, Next, ProgramLoaded;
    NextOf(m, s);
  }

  /** Counters and misprediction count after n instructions, for every n. */
  lemma {:induction false} TallyAt(m: Machine, n: nat)
    requires Starts(m, BRANCH_PATTERN, PatternRegisters())
    ensures Tallied(Branches(Observations(m, n)), SpotAt(n))
  {
    hide Isa.Step, Next, After, BRANCH_PATTERN, ProgramLoaded, Branches, Tallied, Report, Advance;
    if n == 0 {
      NothingTallied();
    } else {
      TallyAt(m, n - 1);
      RunsForever(m, n - 1);
      var before, s := After(m, n - 1), SpotAt(n - 1);
      ReportAt(before, s);
      BranchesGrow(Observations(m, n - 1), Report(before).observation);
      if s.phase == 2 || s.phase == 4 {
        TallyBranch(Branches(Observations(m, n - 1)), s);
      } else {
        TallyOther(Branches(Observations(m, n - 1)), s);
      }
    }
  }

  lemma {:induction false} NothingTallied()
    ensures Tallied(Branches([]), Spot(0, 0, 0))
  {
  }

  /** After p >= 1 whole passes of 1154 instructions, the predictor has been wrong
      exactly 129 p + 1 times. */
  lemma {:induction false} ExactMispredictions(m: Machine, p: nat)
    requires Starts(m, BRANCH_PATTERN, PatternRegisters()) && p >= 1
    ensures Incorrect(PREDICTOR, Branches(Observations(m, 1154 * p))) == 129 * p + 1
  {
    hide Branches, Observations, BRANCH_PATTERN, SpotAt, Incorrect, Counter, Own;
    TallyAt(m, 1154 * p);
    IterationAt(p, 0);
  }

  /** Every fetch is from one 64-byte line, and there are no data accesses. */
  ghost predicate OneLine(trace: seq<ExecutionObservation>) {
    (forall b | b in CacheModel.FetchBlocks(trace, 64) :: b == 0x40) && CacheModel.DataBlocks(trace, 64) == []
  }

  lemma {:induction false} OneLineGrows(trace: seq<ExecutionObservation>, o: ExecutionObservation)
    requires OneLine(trace) && MEMORY_BASE <= o.programCounter < MEMORY_BASE + 28 && o.dataMemoryAccess.None?
    ensures OneLine(trace + [o])
  {
    assert (trace + [o])[..|trace|] == trace;
  }

  lemma {:induction false} NoLines()
    ensures OneLine([])
  {
  }

  lemma {:induction false} PatternBlocks(m: Machine, n: nat)
    requires Starts(m, BRANCH_PATTERN, PatternRegisters())
    ensures |Observations(m, n)| == n && OneLine(Observations(m, n))
  {
    hide Isa.Step, Next, After, SpotAt, BRANCH_PATTERN, ProgramLoaded, Report, OneLine;
    if n == 0 {
      NoLines();
    } else {
      PatternBlocks(m, n - 1);
      RunsForever(m, n - 1);
      ReportAt(After(m, n - 1), SpotAt(n - 1));
      OneLineGrows(Observations(m, n - 1), Report(After(m, n - 1)).observation);
    }
  }
}
