/** The combined observer (src/performance_analyzer.cpp): one cache model, one
    branch predictor and one cost policy fed by the same trace. */
module Performance {
  import opened Options
  import opened Words
  import Recency
  import Engine
  import opened CacheModel
  import opened BranchPrediction
  import opened CycleEstimation
  import Isa

  datatype PerformanceAnalyzerConfiguration = PerformanceAnalyzerConfiguration(
    cache: SplitCacheConfiguration, branchPredictor: PredictorConfiguration, cycleCosts: CycleCostConfiguration)

  datatype DataCacheStatistics = DataCacheStatistics(
    total: CacheStatistics, loads: CacheStatistics, stores: CacheStatistics)

  datatype PerformanceAnalyzerStatistics = PerformanceAnalyzerStatistics(
    instructionsObserved: u64, instruction: CacheStatistics, data: DataCacheStatistics, branches: PredictionStatistics)

  datatype AnalyzerError =
    | CacheError(cacheCode: CacheConfigurationErrorCode)
    | PredictorError(predictorCode: PredictorConfigurationErrorCode)
    | ZeroBaseInstructionCycles

  /** The configuration errors, in the order the members are constructed. */
  function ConfigurationError(c: PerformanceAnalyzerConfiguration): Option<AnalyzerError> {
    match ValidateConfiguration(c.cache.instruction)
    case Some(code) => Some(CacheError(code))
    case None =>
      match ValidateConfiguration(c.cache.data)
      case Some(code) => Some(CacheError(code))
      case None =>
        match ValidatePredictor(c.branchPredictor)
        case Some(code) => Some(PredictorError(code))
        case None =>
          if c.cycleCosts.baseInstructionCycles == 0 then Some(ZeroBaseInstructionCycles) else None
  }

  ghost predicate Usable(c: PerformanceAnalyzerConfiguration) {
    && ConfigurationError(c) == None
    && c.cache.instruction.lineSizeBytes > 0 && c.cache.data.lineSizeBytes > 0
    && SetCount(c.cache.instruction) > 0 && SetCount(c.cache.data) > 0
    && (c.branchPredictor.strategy.BimodalTwoBit? ==> c.branchPredictor.tableEntries > 0)
  }

  /** Everything the analyzer reports, as a function of what it has observed. */
  ghost function StatisticsOf(c: PerformanceAnalyzerConfiguration, trace: seq<Engine.ExecutionObservation>)
    : PerformanceAnalyzerStatistics
    requires Usable(c)
  {
    var i, d := c.cache.instruction, c.cache.data;
    PerformanceAnalyzerStatistics(
      Count64(|trace|),
      StatisticsAfter(FetchBlocks(trace, i.lineSizeBytes), SetCount(i), i.associativity),
      DataCacheStatistics(
        StatisticsAfter(DataBlocks(trace, d.lineSizeBytes), SetCount(d), d.associativity),
        KindStatistics(trace, Isa.LoadAccess, d.lineSizeBytes, SetCount(d), d.associativity),
        KindStatistics(trace, Isa.StoreAccess, d.lineSizeBytes, SetCount(d), d.associativity)),
      PredictionsAfter(c.branchPredictor, Branches(trace)))
  }

  lemma {:induction false} DataBlocksBounded(trace: seq<Engine.ExecutionObservation>, line: nat)
    requires line > 0
    ensures |DataBlocks(trace, line)| <= |trace|
  {
    if trace != [] {
      DataBlocksBounded(trace[..|trace| - 1], line);
    }
  }

  lemma {:induction false} BranchesBounded(trace: seq<Engine.ExecutionObservation>)
    ensures |Branches(trace)| <= |trace|
  {
    if trace != [] {
      BranchesBounded(trace[..|trace| - 1]);
    }
  }

  predicate Balanced(s: CacheStatistics) {
    s.hits + s.misses == s.accesses
  }

  lemma {:induction false} CacheBalanced(h: seq<Recency.Block>, sets: nat, ways: nat)
    requires sets > 0 && |h| < 0x1_0000_0000_0000_0000
    ensures Balanced(StatisticsAfter(h, sets, ways)) && StatisticsAfter(h, sets, ways).accesses == |h|
    ensures StatisticsAfter(h, sets, ways).misses == Recency.Misses(h, sets, ways)
  {
    Count64Exact(|h|);
    Count64Exact(Recency.Misses(h, sets, ways));
    Count64Exact(|h| - Recency.Misses(h, sets, ways));
  }

  lemma {:induction false} KindBalanced(trace: seq<Engine.ExecutionObservation>, kind: Isa.DataMemoryAccessKind,
                                        line: nat, sets: nat, ways: nat)
    requires line > 0 && sets > 0 && KindAccesses(trace, kind) < 0x1_0000_0000_0000_0000
    ensures Balanced(KindStatistics(trace, kind, line, sets, ways))
    ensures KindStatistics(trace, kind, line, sets, ways).accesses == KindAccesses(trace, kind)
    ensures KindStatistics(trace, kind, line, sets, ways).misses == KindMisses(trace, kind, line, sets, ways)
  {
    var a, m := KindAccesses(trace, kind), KindMisses(trace, kind, line, sets, ways);
    Count64Exact(a);
    Count64Exact(m);
    Count64Exact(a - m);
  }

  lemma {:induction false} PredictionsBalanced(c: PredictorConfiguration, b: seq<BranchOutcome>)
    requires c.strategy.BimodalTwoBit? ==> c.tableEntries > 0
    requires |b| < 0x1_0000_0000_0000_0000
    ensures var p := PredictionsAfter(c, b);
            && p.predictions == |b| && p.incorrect == Incorrect(c, b)
            && p.correct + p.incorrect == p.predictions
            && p.predictedTaken + p.predictedNotTaken == p.predictions
            && p.actualTaken + p.actualNotTaken == p.predictions
  {
    Count64Exact(|b|);
    Count64Exact(Incorrect(c, b));
    Count64Exact(|b| - Incorrect(c, b));
    Count64Exact(PredictedTaken(c, b));
    Count64Exact(|b| - PredictedTaken(c, b));
    Count64Exact(ActualTaken(b));
    Count64Exact(|b| - ActualTaken(b));
  }

  /** Conservation: below 2^64 observations nothing is lost or counted twice. */
  lemma {:induction false} CountsConserved(c: PerformanceAnalyzerConfiguration, trace: seq<Engine.ExecutionObservation>)
    requires Usable(c) && |trace| < 0x1_0000_0000_0000_0000
    ensures var s := StatisticsOf(c, trace);
            && s.instructionsObserved == |trace| == s.instruction.accesses
            && Balanced(s.instruction) && Balanced(s.data.total) && Balanced(s.data.loads) && Balanced(s.data.stores)
            && s.data.loads.accesses + s.data.stores.accesses == s.data.total.accesses <= |trace|
            && s.data.loads.hits + s.data.stores.hits == s.data.total.hits
            && s.data.loads.misses + s.data.stores.misses == s.data.total.misses
            && s.branches.correct + s.branches.incorrect == s.branches.predictions <= |trace|
            && s.branches.predictedTaken + s.branches.predictedNotTaken == s.branches.predictions
            && s.branches.actualTaken + s.branches.actualNotTaken == s.branches.predictions
  {
    hide ValidateConfiguration, ValidatePredictor, SetCount, StatisticsAfter, KindStatistics, PredictionsAfter;
    var i, d := c.cache.instruction, c.cache.data;
    var sets := SetCount(d);
    Count64Exact(|trace|);
    CacheBalanced(FetchBlocks(trace, i.lineSizeBytes), SetCount(i), i.associativity);
    DataBlocksBounded(trace, d.lineSizeBytes);
    CacheBalanced(DataBlocks(trace, d.lineSizeBytes), sets, d.associativity);
    LoadsAndStoresAddUp(trace, d.lineSizeBytes, sets, d.associativity);
    KindBalanced(trace, Isa.LoadAccess, d.lineSizeBytes, sets, d.associativity);
    KindBalanced(trace, Isa.StoreAccess, d.lineSizeBytes, sets, d.associativity);
    BranchesBounded(trace);
    PredictionsBalanced(c.branchPredictor, Branches(trace));
  }

  ghost function EventsOf(s: PerformanceAnalyzerStatistics): CycleEventCounts {
    CycleEventCounts(s.instructionsObserved, s.instruction.misses, s.data.total.misses, s.branches.incorrect)
  }

  /** The estimate cannot overflow while observations times the sum of the four
      costs stays below 2^64. */
  lemma {:induction false} EstimateFits(c: PerformanceAnalyzerConfiguration, trace: seq<Engine.ExecutionObservation>)
    requires Usable(c) && |trace| < 0x1_0000_0000_0000_0000
    requires |trace| * AllCosts(c.cycleCosts) < 0x1_0000_0000_0000_0000
    ensures ExactTotal(c.cycleCosts, EventsOf(StatisticsOf(c, trace))) < 0x1_0000_0000_0000_0000
  {
    hide ConfigurationError, SetCount, StatisticsOf, ExactTotal, AllCosts;
    CountsConserved(c, trace);
    TotalAtMost(c.cycleCosts, EventsOf(StatisticsOf(c, trace)));
  }

  // --------------------------------------------------------------------- the class

  /** An accepted configuration is accepted by every part. */
  lemma {:induction false} AcceptedIsUsable(c: PerformanceAnalyzerConfiguration)
    requires ConfigurationError(c) == None
    ensures Usable(c) && c.cycleCosts.baseInstructionCycles != 0
    ensures ValidateConfiguration(c.cache.instruction) == None && ValidateConfiguration(c.cache.data) == None
    ensures ValidatePredictor(c.branchPredictor) == None
  {
    hide ValidateConfiguration, ValidatePredictor, SetCount, IsPowerOfTwo;
    ConfigurationAccepted(c.cache.instruction);
    ConfigurationAccepted(c.cache.data);
    Geometry(c.cache.instruction);
    Geometry(c.cache.data);
    PredictorAccepted(c.branchPredictor);
    PowersArePositive(c.branchPredictor.tableEntries);
  }

  method MakeAnalyzer(configuration: PerformanceAnalyzerConfiguration)
    returns (analyzer: PerformanceAnalyzer?, error: Option<AnalyzerError>)
    ensures error == ConfigurationError(configuration)
    ensures var instruction, data, predictor :=
              ValidateConfiguration(configuration.cache.instruction), ValidateConfiguration(configuration.cache.data),
              ValidatePredictor(configuration.branchPredictor);
            error == if instruction.Some? then Some(CacheError(instruction.value))
                     else if data.Some? then Some(CacheError(data.value))
                     else if predictor.Some? then Some(PredictorError(predictor.value))
                     else if configuration.cycleCosts.baseInstructionCycles == 0 then Some(ZeroBaseInstructionCycles)
                     else None
    ensures analyzer == null <==> error.Some?
    ensures analyzer != null ==>
              analyzer.Valid() && fresh(analyzer.Repr()) && analyzer.trace == []
              && analyzer.configuration == configuration
  {
    hide BitAnd;
    error := ConfigurationError(configuration);
    if error.Some? {
      return null, error;
    }
    analyzer := new PerformanceAnalyzer(configuration);
  }

  class PerformanceAnalyzer {
    const configuration: PerformanceAnalyzerConfiguration
    const cache: SplitCacheModel
    const branchPredictor: BranchPredictorModel
    const cycleEstimator: CycleEstimator
    var instructionsObserved: u64
    /** Every observation since construction or reset. */
    ghost var trace: seq<Engine.ExecutionObservation>

    ghost function Repr(): set<object> {
      cache.Repr() + {this, branchPredictor, branchPredictor.counters}
    }

    ghost predicate Shaped() {
      && Usable(configuration)
      && cache.instructionCache.configuration == configuration.cache.instruction
      && cache.dataCache.configuration == configuration.cache.data
      && branchPredictor.configuration == configuration.branchPredictor
      && cycleEstimator.configuration == configuration.cycleCosts
      && {this, branchPredictor, branchPredictor.counters} !! cache.Repr()
      && this as object != branchPredictor
    }

    ghost predicate Valid()
      reads Repr()
    {
      && Shaped() && cache.Valid() && branchPredictor.Valid()
      && cache.trace == trace && branchPredictor.trace == trace
      && instructionsObserved == Count64(|trace|)
    }

    constructor (configuration: PerformanceAnalyzerConfiguration)
      requires ConfigurationError(configuration) == None
      ensures Valid() && fresh(Repr()) && trace == [] && this.configuration == configuration
    {
      hide ValidateConfiguration, ValidatePredictor, SetCount, SetAssociativeCache.Valid, SplitCacheModel.Valid;
      hide BranchPredictorModel.Valid, ConfigurationError, Usable;
      AcceptedIsUsable(configuration);
      this.configuration := configuration;
      var instructionCache := new SetAssociativeCache(configuration.cache.instruction);
      var dataCache := new SetAssociativeCache(configuration.cache.data);
      cache := new SplitCacheModel(instructionCache, dataCache);
      branchPredictor := new BranchPredictorModel(configuration.branchPredictor);
      cycleEstimator := new CycleEstimator(configuration.cycleCosts);
      instructionsObserved := 0;
      trace := [];
      new;
      assert Shaped();
      assert cache.Valid() && branchPredictor.Valid();
    }

    method Observe(observation: Engine.ExecutionObservation)
      requires Valid()
      modifies Repr()
      ensures Valid() && trace == old(trace) + [observation]
    {
      hide SplitCacheModel.Valid, BranchPredictorModel.Valid, Usable;
      cache.Observe(observation);
      branchPredictor.Observe(observation);
      Count64Step(|trace|);
      instructionsObserved := (instructionsObserved + 1) % 0x1_0000_0000_0000_0000;
      trace := trace + [observation];
    }

    /** Delivers a recorded trace in order. */
    method ObserveAll(observations: seq<Engine.ExecutionObservation>)
      requires Valid()
      modifies Repr()
      ensures Valid() && trace == old(trace) + observations
    {
      hide Valid;
      for i := 0 to |observations|
        invariant Valid() && trace == old(trace) + observations[..i]
      {
        Observe(observations[i]);
        assert observations[..i + 1] == observations[..i] + [observations[i]];
      }
      assert observations[..|observations|] == observations;
    }

    /** A reset analyzer is a fresh one: its statistics are those of what it
        observes from here on. */
    method Reset()
      requires Valid()
      modifies Repr()
      ensures Valid() && trace == []
    {
      hide SplitCacheModel.Valid, BranchPredictorModel.Valid, Usable;
      cache.Reset();
      branchPredictor.Reset();
      instructionsObserved := 0;
      trace := [];
    }

    method Statistics() returns (s: PerformanceAnalyzerStatistics)
      requires Valid()
      ensures s == StatisticsOf(configuration, trace)
    {
      s := PerformanceAnalyzerStatistics(
        instructionsObserved, cache.instructionCache.statistics,
        DataCacheStatistics(cache.dataCache.statistics, cache.loadStatistics, cache.storeStatistics),
        branchPredictor.statistics);
    }

    method EstimateCycles() returns (r: CycleEstimateResult)
      requires Valid()
      ensures Estimates(configuration.cycleCosts, EventsOf(StatisticsOf(configuration, trace)), r)
      ensures r.CycleEstimate? ==>
                var s, costs := StatisticsOf(configuration, trace), configuration.cycleCosts;
                && r.baseInstructionCycles == s.instructionsObserved * costs.baseInstructionCycles
                && r.instructionCacheMissCycles
                   == s.instruction.misses * costs.instructionCacheMissPenaltyCycles
                && r.dataCacheMissCycles == s.data.total.misses * costs.dataCacheMissPenaltyCycles
                && r.branchMispredictionCycles == s.branches.incorrect * costs.branchMispredictionPenaltyCycles
                && r.totalCycles == r.baseInstructionCycles + r.instructionCacheMissCycles
                                    + r.dataCacheMissCycles + r.branchMispredictionCycles
    {
      hide Estimates, StatisticsOf, Usable;
      var s := Statistics();
      r := cycleEstimator.Estimate(
        CycleEventCounts(s.instructionsObserved, s.instruction.misses, s.data.total.misses, s.branches.incorrect));
    }
  }
}
