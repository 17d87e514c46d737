/** The benchmark workloads (benchmarks/benchmark_workload.cpp): a guest program,
    a machine to run it on, and a performance analyzer watching it. */
module Workloads {
  import opened Options
  import opened Words
  import opened GuestMemory
  import Cpu
  import opened Engine
  import Recency
  import opened CacheModel
  import opened BranchPrediction
  import CycleEstimation
  import opened Performance
  import opened Programs
  import Isa
  import Mix
  import Pattern
  import Stride

  datatype WorkloadKind = IntegerMix | MemoryStride | BranchPattern

  function ProgramOf(kind: WorkloadKind): seq<u32> {
    match kind
    case IntegerMix => INTEGER_MIX
    case MemoryStride => MEMORY_STRIDE
    case BranchPattern => BRANCH_PATTERN
  }

  function RegistersOf(kind: WorkloadKind): seq<u32> {
    match kind
    case IntegerMix => Mix.MixRegisters()
    case MemoryStride => Stride.StrideRegisters()
    case BranchPattern => Pattern.PatternRegisters()
  }

  const BENCHMARK_CACHE := CacheConfiguration(4096, 64, 2)

  const BENCHMARK_CONFIGURATION := PerformanceAnalyzerConfiguration(
    SplitCacheConfiguration(BENCHMARK_CACHE, BENCHMARK_CACHE), PREDICTOR,
    CycleEstimation.CycleCostConfiguration(1, 10, 20, 5))

  // -------------------------------------------------------------- runs in sequence

  lemma {:induction false} AfterAdds(m: Machine, a: nat, b: nat)
    requires m.Valid()
    ensures After(m, a + b) == After(After(m, a), b)
  {
    hide Next;
    if b > 0 {
      AfterAdds(m, a, b - 1);
    }
  }

  /** The trace of a continued run is the two traces in order. */
  lemma {:induction false} ObservationsAdd(m: Machine, a: nat, b: nat)
    requires m.Valid()
    ensures Observations(m, a + b) == Observations(m, a) + Observations(After(m, a), b)
  {
    hide Next, Report, After;
    if b > 0 {
      ObservationsAdd(m, a, b - 1);
      AfterAdds(m, a, b - 1);
    }
  }

  /** None of the guests ever traps. */
  lemma {:induction false} NeverTraps(kind: WorkloadKind, m: Machine, n: nat)
    requires Starts(m, ProgramOf(kind), RegistersOf(kind))
    ensures Retires(m, n) && Report(After(m, n)).Completed?
  {
    hide Isa.Step, After, INTEGER_MIX, MEMORY_STRIDE, BRANCH_PATTERN, ProgramLoaded;
    match kind {
      case IntegerMix => Mix.RunsForever(m, n + 1);
      case MemoryStride => Stride.RunsForever(m, n + 1);
      case BranchPattern => Pattern.RunsForever(m, n + 1);
    }
    assert Isa.Step(After(m, n)).Retired?;
  }

  // --------------------------------------------------------------- what is measured

  /** The benchmark's configuration is one every model accepts. */
  lemma {:induction false} ConfigurationIsUsable()
    ensures Usable(BENCHMARK_CONFIGURATION) && SetCount(BENCHMARK_CACHE) == 32
    ensures ConfigurationError(BENCHMARK_CONFIGURATION) == None
  {
    Pow2Values();
    hide BitAnd, Pow2;
    assert IsPowerOfTwo(64) && IsPowerOfTwo(256);
    ConfigurationAccepted(BENCHMARK_CACHE);
    PredictorAccepted(PREDICTOR);
    Geometry(BENCHMARK_CACHE);
  }

  /** The reported counts of a trace, given its misses and mispredictions. */
  lemma {:induction false} ReportedCounts(trace: seq<ExecutionObservation>)
    requires |trace| < 0x1_0000_0000_0000_0000
    ensures Usable(BENCHMARK_CONFIGURATION)
    ensures var s := StatisticsOf(BENCHMARK_CONFIGURATION, trace);
            && s.instructionsObserved == |trace|
            && s.instruction.misses == Recency.Misses(FetchBlocks(trace, 64), 32, 2)
            && s.data.total.misses == Recency.Misses(DataBlocks(trace, 64), 32, 2)
            && s.branches.predictions == |Branches(trace)|
            && s.branches.incorrect == Incorrect(PREDICTOR, Branches(trace))
  {
    hide ValidateConfiguration, ValidatePredictor, KindStatistics, PredictionsAfter, FetchBlocks;
    hide DataBlocks, Recency.Misses, SetCount, Branches, Incorrect;
    ConfigurationIsUsable();
    DataBlocksBounded(trace, 64);
    BranchesBounded(trace);
    Count64Exact(|trace|);
    CacheBalanced(FetchBlocks(trace, 64), 32, 2);
    CacheBalanced(DataBlocks(trace, 64), 32, 2);
    PredictionsBalanced(PREDICTOR, Branches(trace));
  }

  /** The IntegerMix guest's statistics at every run length. */
  lemma {:induction false} MixStatistics(m: Machine, n: u64)
    requires Starts(m, INTEGER_MIX, Mix.MixRegisters()) && n >= 1
    ensures Usable(BENCHMARK_CONFIGURATION)
    ensures var s := StatisticsOf(BENCHMARK_CONFIGURATION, Observations(m, n));
            && s.instructionsObserved == n
            && s.instruction.misses == 1 && s.data.total.misses == 0
            && s.branches.predictions == 0 && s.branches.incorrect == 0
  {
    hide StatisticsOf, Observations, FetchBlocks, DataBlocks, Recency.Misses, Branches, INTEGER_MIX, Usable;
    var trace := Observations(m, n);
    Mix.MixTrace(m, n);
    ReportedCounts(trace);
    Recency.OneBlockMisses(FetchBlocks(trace, 64), 0x40, 32, 2);
    NoMisses();
    NoBranches();
  }

  /** Its cycle estimate after n instructions is n + 10. */
  lemma {:induction false} MixCycles(m: Machine, n: u64)
    requires Starts(m, INTEGER_MIX, Mix.MixRegisters()) && n >= 1
    ensures Usable(BENCHMARK_CONFIGURATION)
    ensures CycleEstimation.ExactTotal(BENCHMARK_CONFIGURATION.cycleCosts,
                       EventsOf(StatisticsOf(BENCHMARK_CONFIGURATION, Observations(m, n))))
            == n + 10
  {
    hide StatisticsOf, Observations, INTEGER_MIX;
    MixStatistics(m, n);
  }

  /** The MemoryStride guest's statistics at every run length: one data miss for
      each line its loads have reached, and mispredictions of the first branch and
      of every pass's last. */
  lemma {:induction false} StrideStatistics(m: Machine, n: u64)
    requires Starts(m, MEMORY_STRIDE, Stride.StrideRegisters())
    ensures Usable(BENCHMARK_CONFIGURATION)
    ensures var s, spot := StatisticsOf(BENCHMARK_CONFIGURATION, Observations(m, n)), Stride.SpotAt(n);
            && s.instructionsObserved == n
            && s.instruction.misses == (if n == 0 then 0 else 1)
            && s.data.total.misses == Stride.Lines(Stride.Loads(spot))
            && s.branches.incorrect == Stride.Wrong(spot)
  {
    hide StatisticsOf, Observations, FetchBlocks, DataBlocks, Recency.Misses, Branches, Incorrect;
    hide MEMORY_STRIDE, Usable, Stride.SpotAt;
    Stride.StrideBlocks(m, n);
    Stride.StrideMisses(m, n);
    Stride.TallyAt(m, n);
    ReportedCounts(Observations(m, n));
  }

  /** After p >= 1 whole passes of 1282 instructions. */
  lemma {:induction false} StridePasses(m: Machine, p: nat)
    requires Starts(m, MEMORY_STRIDE, Stride.StrideRegisters())
    requires 1 <= p && 1282 * p < 0x1_0000_0000_0000_0000
    ensures Usable(BENCHMARK_CONFIGURATION)
    ensures var s := StatisticsOf(BENCHMARK_CONFIGURATION, Observations(m, 1282 * p));
            && s.instructionsObserved == 1282 * p
            && s.instruction.misses == 1 && s.data.total.misses == 16
            && s.branches.incorrect == p + 1
  {
    hide StatisticsOf, Observations, MEMORY_STRIDE, Stride.SpotAt, Usable;
    StrideStatistics(m, 1282 * p);
    Stride.WithinPass(p, 0);
    DivModUnique(256 * p, 256, p, 0);
  }

  /** Its cycle estimate after p whole passes is exactly 1287 p + 335. */
  lemma {:induction false} StrideCycles(m: Machine, p: nat)
    requires Starts(m, MEMORY_STRIDE, Stride.StrideRegisters())
    requires 1 <= p && 1282 * p < 0x1_0000_0000_0000_0000
    ensures Usable(BENCHMARK_CONFIGURATION)
    ensures CycleEstimation.ExactTotal(BENCHMARK_CONFIGURATION.cycleCosts,
                       EventsOf(StatisticsOf(BENCHMARK_CONFIGURATION, Observations(m, 1282 * p))))
            == 1287 * p + 335
  {
    hide StatisticsOf, Observations, MEMORY_STRIDE;
    StridePasses(m, p);
  }

  /** After p >= 1 whole passes the BranchPattern guest's statistics are exact. */
  lemma {:induction false} PatternStatistics(m: Machine, p: nat)
    requires Starts(m, BRANCH_PATTERN, Pattern.PatternRegisters())
    requires 1 <= p && 1154 * p < 0x1_0000_0000_0000_0000
    ensures Usable(BENCHMARK_CONFIGURATION)
    ensures var s := StatisticsOf(BENCHMARK_CONFIGURATION, Observations(m, 1154 * p));
            && s.instructionsObserved == 1154 * p
            && s.instruction.misses == 1 && s.data.total.misses == 0
            && s.branches.incorrect == 129 * p + 1
  {
    hide StatisticsOf, Observations, FetchBlocks, DataBlocks, Recency.Misses, Branches, Incorrect;
    hide BRANCH_PATTERN, Usable;
    var trace := Observations(m, 1154 * p);
    Pattern.PatternBlocks(m, 1154 * p);
    ReportedCounts(trace);
    Recency.OneBlockMisses(FetchBlocks(trace, 64), 0x40, 32, 2);
    NoMisses();
    Pattern.ExactMispredictions(m, p);
  }

  lemma {:induction false} NoBranches()
    ensures Incorrect(PREDICTOR, []) == 0
  {
  }

  lemma {:induction false} NoMisses()
    ensures Recency.Misses([], 32, 2) == 0
  {
  }

  /** Its cycle estimate after p whole passes is exactly 1799 p + 15. */
  lemma {:induction false} PatternCycles(m: Machine, p: nat)
    requires Starts(m, BRANCH_PATTERN, Pattern.PatternRegisters())
    requires 1 <= p && 1154 * p < 0x1_0000_0000_0000_0000
    ensures Usable(BENCHMARK_CONFIGURATION)
    ensures CycleEstimation.ExactTotal(BENCHMARK_CONFIGURATION.cycleCosts,
                       EventsOf(StatisticsOf(BENCHMARK_CONFIGURATION, Observations(m, 1154 * p))))
            == 1799 * p + 15
  {
    hide StatisticsOf, Observations, BRANCH_PATTERN;
    PatternStatistics(m, p);
  }

  // --------------------------------------------------------------------- the class

  /** Writes the words in order; false stands for the memory's bounds error. */
  method LoadProgram(memory: Memory, program: seq<u32>) returns (ok: bool)
    requires memory.Valid() && MEMORY_BASE + 4 * |program| < 0x1_0000_0000
    modifies memory.bytes
    ensures ok <==> program == [] || old(memory.Contents()).Maps(MEMORY_BASE, 4 * |program|)
    ensures ok ==> forall i | 0 <= i < |program| :: memory.Contents().Load(MEMORY_BASE + 4 * i, 4) == Done(program[i])
    ensures forall a: int | old(memory.Contents()).Maps(a, 1) && !(MEMORY_BASE <= a < MEMORY_BASE + 4 * |program|) ::
              memory.Contents().ByteAt(a) == old(memory.Contents()).ByteAt(a)
  {
    hide Image.Load, Image.Store, ToBytes, Pow2;
    var address: u32 := MEMORY_BASE;
    for i := 0 to |program|
      invariant address == MEMORY_BASE + 4 * i
      invariant i > 0 ==> old(memory.Contents()).Maps(MEMORY_BASE, 4 * i)
      invariant forall j | 0 <= j < i :: memory.Contents().Load(MEMORY_BASE + 4 * j, 4) == Done(program[j])
      invariant forall a: int | old(memory.Contents()).Maps(a, 1) && !(MEMORY_BASE <= a < address) ::
                  memory.Contents().ByteAt(a) == old(memory.Contents()).ByteAt(a)
    {
      ghost var before := memory.Contents();
      StoreWordOutcome(before, address, program[i]);
      var written := memory.Write32(address, program[i]);
      if !written.Done? {
        return false;
      }
      Stored(before, address, program[i]);
      forall j | 0 <= j < i ensures memory.Contents().Load(MEMORY_BASE + 4 * j, 4) == Done(program[j]) {
        StoreKeepsDisjointLoads(before, address, 4, program[i], MEMORY_BASE + 4 * j, 4);
      }
      address := address + 4;
    }
    ok := true;
  }

  lemma {:induction false} StoreWordOutcome(m: Image, address: u32, value: u32)
    requires address % 4 == 0
    ensures m.Store(address, 4, value).Done? <==> m.Maps(address, 4)
    ensures !m.Store(address, 4, value).Done? ==> m.Store(address, 4, value) == OutOfBounds(address, 4, Write)
  {
  }

  lemma {:induction false} Stored(m: Image, address: u32, value: u32)
    requires address % 4 == 0 && m.Maps(address, 4)
    ensures var stored := m.Store(address, 4, value);
            && stored.Done? && stored.value.Load(address, 4) == Done(value)
            && forall a: int | m.Maps(a, 1) && !(address <= a < address + 4) :: stored.value.ByteAt(a) == m.ByteAt(a)
  {
    Pow2Values();
    hide Pow2, ToBytes;
    StoreThenLoad(m, address, 4, value);
  }

  /** The machine and trace n instructions into a workload. */
  ghost predicate Reached(kind: WorkloadKind, start: Machine, n: nat, m: Machine, trace: seq<ExecutionObservation>) {
    && Starts(start, ProgramOf(kind), RegistersOf(kind))
    && m == After(start, n) && trace == Observations(start, n)
  }

  lemma {:induction false} NothingRun(kind: WorkloadKind, start: Machine)
    requires Starts(start, ProgramOf(kind), RegistersOf(kind))
    ensures Reached(kind, start, 0, start, [])
  {
    hide ProgramOf, RegistersOf, ProgramLoaded;
  }

  /** Running on reaches the later point, with the traces joined, and never traps. */
  lemma {:induction false} RunsOn(kind: WorkloadKind, start: Machine, a: nat, m: Machine,
                                  trace: seq<ExecutionObservation>, b: nat)
    requires Reached(kind, start, a, m, trace)
    ensures m.Valid() && Report(After(m, b)).Completed?
    ensures Reached(kind, start, a + b, After(m, b), trace + Observations(m, b))
  {
    hide Starts, ProgramOf, RegistersOf, After, Report, Observations;
    StartsValid(kind, start);
    NeverTraps(kind, start, a + b);
    AfterAdds(start, a, b);
    ObservationsAdd(start, a, b);
  }

  lemma {:induction false} StartsValid(kind: WorkloadKind, start: Machine)
    requires Starts(start, ProgramOf(kind), RegistersOf(kind))
    ensures start.Valid()
  {
    hide ProgramOf, RegistersOf;
  }

  class BenchmarkWorkload {
    const kind: WorkloadKind
    const state: Cpu.CpuState
    const memory: Memory
    const analyzer: PerformanceAnalyzer
    /** The machine as the last reset left it, and the instructions run since. */
    ghost var start: Machine
    ghost var executed: nat

    ghost function Machine(): Machine
      reads state, state.registers, memory.bytes
    {
      Isa.Machine(state.Registers(), state.programCounter, memory.Contents())
    }

    ghost predicate Shaped() {
      && memory.Valid() && memory.base == MEMORY_BASE && memory.bytes.Length == MEMORY_SIZE
      && state.registers.Length == Cpu.REGISTER_COUNT
      && state.registers as object != memory.bytes
      && {this, state, state.registers as object, memory.bytes as object} !! analyzer.Repr()
      && analyzer.configuration == BENCHMARK_CONFIGURATION
    }

    ghost predicate Valid()
      reads this, state, state.registers, memory.bytes, analyzer.Repr()
    {
      hide PerformanceAnalyzer.Valid, Reached;
      && Shaped() && state.Valid() && analyzer.Valid()
      && Reached(kind, start, executed, Machine(), analyzer.trace)
    }

    constructor (kind: WorkloadKind)
      ensures Valid() && executed == 0 && this.kind == kind
      ensures memory.base == 0x1000 && memory.bytes.Length == 0x4000
      ensures analyzer.configuration.cache.instruction == CacheConfiguration(4096, 64, 2)
      ensures analyzer.configuration.cache.data == CacheConfiguration(4096, 64, 2)
      ensures analyzer.configuration.branchPredictor == PredictorConfiguration(BimodalTwoBit, 256, 1)
      ensures analyzer.configuration.cycleCosts == CycleEstimation.CycleCostConfiguration(1, 10, 20, 5)
      ensures fresh(state) && fresh(state.registers) && fresh(memory) && fresh(memory.bytes) && fresh(analyzer.Repr())
    {
      hide PerformanceAnalyzer.Valid, Reached, Usable, ConfigurationError;
      ConfigurationIsUsable();
      this.kind := kind;
      state := new Cpu.CpuState();
      memory := new Memory(MEMORY_BASE, MEMORY_SIZE);
      analyzer := new PerformanceAnalyzer(BENCHMARK_CONFIGURATION);
      new;
      assert |memory.Contents().bytes| == MEMORY_SIZE;
      Reset();
    }

    /** Zero registers and zero memory. */
    method ClearMachine()
      requires state.registers.Length == Cpu.REGISTER_COUNT && state.registers as object != memory.bytes
      modifies state, state.registers, memory.bytes
      ensures state.Valid() && state.Registers() == ZeroRegisters()
      ensures memory.Contents() == Image(memory.base, seq(memory.bytes.Length, _ => 0))
    {
      state.Reset();
      memory.Clear();
    }

    /** The workload's program and its register arguments, on a cleared machine. */
    method LoadGuest()
      requires Shaped() && state.Valid() && state.programCounter == MEMORY_BASE
      requires state.Registers() == ZeroRegisters()
      requires memory.Contents() == Image(MEMORY_BASE, seq(MEMORY_SIZE, _ => 0))
      modifies state.registers, memory.bytes
      ensures state.Valid() && Starts(Machine(), ProgramOf(kind), RegistersOf(kind))
    {
      hide INTEGER_MIX, MEMORY_STRIDE, BRANCH_PATTERN, BENCHMARK_CONFIGURATION, Image.Load;
      Lengths();
      match kind {
        case IntegerMix =>
          var _ := LoadProgram(memory, INTEGER_MIX);
          var _ := state.WriteRegister(1, 1);
          var _ := state.WriteRegister(2, 3);
        case MemoryStride =>
          var _ := LoadProgram(memory, MEMORY_STRIDE);
          var _ := state.WriteRegister(1, DATA_BASE);
          var _ := state.WriteRegister(2, DATA_BASE + 1024);
        case BranchPattern =>
          var _ := LoadProgram(memory, BRANCH_PATTERN);
          var _ := state.WriteRegister(4, 256);
      }
    }

    method Reset()
      requires Shaped() && analyzer.Valid()
      modifies this, state, state.registers, memory.bytes, analyzer.Repr()
      ensures Valid() && executed == 0
    {
      hide PerformanceAnalyzer.Valid, Reached, Starts, ProgramOf, RegistersOf, Usable;
      ClearMachine();
      analyzer.Reset();
      state.SetProgramCounter(MEMORY_BASE);
      LoadGuest();
      start := Machine();
      executed := 0;
      NothingRun(kind, start);
    }

    /** No instruction limit ever makes a workload trap, and the analyzer sees
        exactly the instructions run since the reset, over any number of runs. */
    method Run(instructionLimit: u64) returns (r: RunResult)
      requires Valid()
      modifies this`executed, state, state.registers, memory.bytes, analyzer.Repr()
      ensures Valid() && start == old(start)
      ensures r == InstructionLimitReached(instructionLimit) && executed == old(executed) + instructionLimit
    {
      hide PerformanceAnalyzer.Valid, Reached, Usable, After, Report, Observations, Retires;
      var engine := new ExecutionEngine(state, memory);
      ghost var before := Machine();
      r := engine.Run(instructionLimit);
      RunsOn(kind, start, executed, before, analyzer.trace, r.instructionsExecuted);
      analyzer.ObserveAll(engine.observed);
      executed := executed + r.instructionsExecuted;
      assert Machine() == After(before, r.instructionsExecuted);
      assert analyzer.trace == old(analyzer.trace) + Observations(before, r.instructionsExecuted);
      assert Reached(kind, start, executed, Machine(), analyzer.trace);
    }

    method Statistics() returns (s: PerformanceAnalyzerStatistics)
      requires Valid()
      ensures Usable(BENCHMARK_CONFIGURATION)
      ensures start.Valid() && s == StatisticsOf(BENCHMARK_CONFIGURATION, Observations(start, executed))
    {
      hide StatisticsOf, Observations, ProgramOf, RegistersOf;
      ConfigurationIsUsable();
      s := analyzer.Statistics();
    }

    method EstimateCycles() returns (r: CycleEstimation.CycleEstimateResult)
      requires Valid()
      ensures Usable(BENCHMARK_CONFIGURATION) && start.Valid()
      ensures CycleEstimation.Estimates(BENCHMARK_CONFIGURATION.cycleCosts,
                        EventsOf(StatisticsOf(BENCHMARK_CONFIGURATION, Observations(start, executed))), r)
    {
      hide StatisticsOf, Observations, ProgramOf, RegistersOf, CycleEstimation.Estimates, EventsOf;
      ConfigurationIsUsable();
      r := analyzer.EstimateCycles();
    }
  }

  lemma {:induction false} Lengths()
    ensures |INTEGER_MIX| == 6 && |MEMORY_STRIDE| == 7 && |BRANCH_PATTERN| == 7
  {
  }
}
