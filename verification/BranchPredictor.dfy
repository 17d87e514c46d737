/** Conditional-branch prediction (src/branch_predictor.cpp): static strategies
    and a table of two-bit saturating counters updated in place. */
module BranchPrediction {
  import opened Options
  import opened Words
  import Engine
  import opened CacheModel
  import Isa

  /** OtherStrategy stands for an enumeration value outside the three strategies. */
  datatype Strategy = AlwaysNotTaken | AlwaysTaken | BimodalTwoBit | OtherStrategy

  /** The initial counter is the raw enumeration value; 3 is strongly taken. */
  datatype PredictorConfiguration = PredictorConfiguration(strategy: Strategy, tableEntries: u64, initialCounter: u8)

  datatype PredictorConfigurationErrorCode =
    | UnknownStrategy | StaticStrategyHasTable | MissingTableEntries
    | TableEntriesNotPowerOfTwo | InvalidInitialCounter

  function ValidatePredictor(c: PredictorConfiguration): Option<PredictorConfigurationErrorCode> {
    if c.initialCounter > 3 then Some(InvalidInitialCounter)
    else
      match c.strategy
      case AlwaysNotTaken => if c.tableEntries != 0 then Some(StaticStrategyHasTable) else None
      case AlwaysTaken => if c.tableEntries != 0 then Some(StaticStrategyHasTable) else None
      case BimodalTwoBit =>
        if c.tableEntries == 0 then Some(MissingTableEntries)
        else if !PowerOfTwoBits(c.tableEntries) then Some(TableEntriesNotPowerOfTwo)
        else None
      case OtherStrategy => Some(UnknownStrategy)
  }

  /** A table is accepted exactly when it is a power of two, and only with the
      bimodal strategy. */
  lemma {:induction false} PredictorAccepted(c: PredictorConfiguration)
    ensures ValidatePredictor(c) == None
            <==> c.initialCounter <= 3 && !c.strategy.OtherStrategy?
                 && (if c.strategy.BimodalTwoBit? then IsPowerOfTwo(c.tableEntries) else c.tableEntries == 0)
  {
    hide BitAnd;
    if c.tableEntries > 0 {
      PowerOfTwoTest(c.tableEntries);
    }
    PowersArePositive(c.tableEntries);
  }

  lemma {:induction false} PowersArePositive(v: int)
    ensures IsPowerOfTwo(v) ==> v > 0
  {
  }

  // ---------------------------------------------------------------- specification

  /** A resolved conditional branch. */
  datatype BranchOutcome = BranchOutcome(pc: u32, taken: bool)

  /** The conditional branches among the completed instructions of a trace. */
  function Branches(trace: seq<Engine.ExecutionObservation>): seq<BranchOutcome> {
    if trace == [] then []
    else
      var before, o := Branches(trace[..|trace| - 1]), trace[|trace| - 1];
      match o.controlFlow
      case Some(flow) =>
        if flow.kind.ConditionalBranch? then before + [BranchOutcome(o.programCounter, flow.taken)] else before
      case None => before
  }

  /** The table slot of a branch: its word address modulo the table size. */
  function SlotOf(pc: u32, entries: nat): nat
    requires entries > 0
  {
    pc / 4 % entries
  }

  /** The outcomes of the branches that share slot i. */
  function Own(branches: seq<BranchOutcome>, i: nat, entries: nat): seq<bool>
    requires entries > 0
  {
    if branches == [] then []
    else
      var before, b := Own(branches[..|branches| - 1], i, entries), branches[|branches| - 1];
      if SlotOf(b.pc, entries) == i then before + [b.taken] else before
  }

  function Trained(counter: u8, taken: bool): u8 {
    if taken && counter < 3 then counter + 1
    else if !taken && counter > 0 then counter - 1
    else counter
  }

  /** A single two-bit counter trained on a sequence of outcomes. */
  function Counter(outcomes: seq<bool>, initial: u8): u8 {
    if outcomes == [] then initial
    else Trained(Counter(outcomes[..|outcomes| - 1], initial), outcomes[|outcomes| - 1])
  }

  /** How often that counter predicts wrongly. */
  function Mispredictions(outcomes: seq<bool>, initial: u8): (r: nat)
    ensures r <= |outcomes|
  {
    if outcomes == [] then 0
    else
      var before, taken := outcomes[..|outcomes| - 1], outcomes[|outcomes| - 1];
      Mispredictions(before, initial) + (if (Counter(before, initial) >= 2) != taken then 1 else 0)
  }

  function CountOf(outcomes: seq<bool>, value: bool): (r: nat)
    ensures r <= |outcomes|
  {
    if outcomes == [] then 0
    else CountOf(outcomes[..|outcomes| - 1], value) + (if outcomes[|outcomes| - 1] == value then 1 else 0)
  }

  function Predicts(c: PredictorConfiguration, before: seq<BranchOutcome>, pc: u32): bool
    requires c.strategy.BimodalTwoBit? ==> c.tableEntries > 0
  {
    match c.strategy
    case AlwaysNotTaken => false
    case AlwaysTaken => true
    case BimodalTwoBit => Counter(Own(before, SlotOf(pc, c.tableEntries), c.tableEntries), c.initialCounter) >= 2
    case OtherStrategy => false
  }

  function Incorrect(c: PredictorConfiguration, branches: seq<BranchOutcome>): (r: nat)
    requires c.strategy.BimodalTwoBit? ==> c.tableEntries > 0
    ensures r <= |branches|
  {
    if branches == [] then 0
    else
      var before, b := branches[..|branches| - 1], branches[|branches| - 1];
      Incorrect(c, before) + (if Predicts(c, before, b.pc) != b.taken then 1 else 0)
  }

  function PredictedTaken(c: PredictorConfiguration, branches: seq<BranchOutcome>): (r: nat)
    requires c.strategy.BimodalTwoBit? ==> c.tableEntries > 0
    ensures r <= |branches|
  {
    if branches == [] then 0
    else
      var before, b := branches[..|branches| - 1], branches[|branches| - 1];
      PredictedTaken(c, before) + (if Predicts(c, before, b.pc) then 1 else 0)
  }

  function ActualTaken(branches: seq<BranchOutcome>): (r: nat)
    ensures r <= |branches|
  {
    if branches == [] then 0
    else ActualTaken(branches[..|branches| - 1]) + (if branches[|branches| - 1].taken then 1 else 0)
  }

  datatype PredictionStatistics = PredictionStatistics(
    predictions: u64, correct: u64, incorrect: u64,
    predictedTaken: u64, predictedNotTaken: u64, actualTaken: u64, actualNotTaken: u64)

  function Counted(n: nat, incorrect: nat, predicted: nat, taken: nat): PredictionStatistics {
    PredictionStatistics(Count64(n), Count64(n - incorrect), Count64(incorrect),
                         Count64(predicted), Count64(n - predicted), Count64(taken), Count64(n - taken))
  }

  /** The seven counters, as counts over the branch history. */
  function PredictionsAfter(c: PredictorConfiguration, b: seq<BranchOutcome>): PredictionStatistics
    requires c.strategy.BimodalTwoBit? ==> c.tableEntries > 0
  {
    Counted(|b|, Incorrect(c, b), PredictedTaken(c, b), ActualTaken(b))
  }

  function RecordPrediction(s: PredictionStatistics, predicted: bool, actual: bool): PredictionStatistics {
    PredictionStatistics(
      Count64(s.predictions + 1),
      if predicted == actual then Count64(s.correct + 1) else s.correct,
      if predicted == actual then s.incorrect else Count64(s.incorrect + 1),
      if predicted then Count64(s.predictedTaken + 1) else s.predictedTaken,
      if predicted then s.predictedNotTaken else Count64(s.predictedNotTaken + 1),
      if actual then Count64(s.actualTaken + 1) else s.actualTaken,
      if actual then s.actualNotTaken else Count64(s.actualNotTaken + 1))
  }

  lemma {:induction false} CountedStep(n: nat, i: nat, p: nat, a: nat, predicted: bool, actual: bool)
    ensures Counted(n + 1, if predicted == actual then i else i + 1, if predicted then p + 1 else p,
                    if actual then a + 1 else a)
            == RecordPrediction(Counted(n, i, p, a), predicted, actual)
  {
    hide Count64;
    Count64Step(n);
    Count64Step(n - i);
    Count64Step(i);
    Count64Step(p);
    Count64Step(n - p);
    Count64Step(a);
    Count64Step(n - a);
  }

  lemma {:induction false} PredictionsStep(c: PredictorConfiguration, b: seq<BranchOutcome>, x: BranchOutcome)
    requires c.strategy.BimodalTwoBit? ==> c.tableEntries > 0
    ensures PredictionsAfter(c, b + [x]) == RecordPrediction(PredictionsAfter(c, b), Predicts(c, b, x.pc), x.taken)
  {
    hide Predicts, Count64, RecordPrediction;
    assert (b + [x])[..|b|] == b;
    CountedStep(|b|, Incorrect(c, b), PredictedTaken(c, b), ActualTaken(b), Predicts(c, b, x.pc), x.taken);
  }

  // -------------------------------------------------------- the misprediction bound

  /** How far a counter sits above its lowest two states, or below its highest. */
  function Above(counter: u8): nat {
    if counter <= 1 then 0 else counter - 1
  }

  function Below(counter: u8): nat {
    if counter >= 2 then 0 else 2 - counter
  }

  lemma {:induction false} CounterRange(outcomes: seq<bool>, initial: u8)
    requires initial <= 3
    ensures Counter(outcomes, initial) <= 3
  {
    if outcomes != [] {
      CounterRange(outcomes[..|outcomes| - 1], initial);
    }
  }

  /** Amortised: every misprediction is paid for by a taken branch (twice) or by
      the distance the counter still has to fall; and symmetrically. */
  lemma {:induction false} AmortisedBound(outcomes: seq<bool>, initial: u8)
    requires initial <= 3
    ensures Mispredictions(outcomes, initial) + Above(Counter(outcomes, initial))
            <= Above(initial) + 2 * CountOf(outcomes, true)
    ensures Mispredictions(outcomes, initial) + Below(Counter(outcomes, initial))
            <= Below(initial) + 2 * CountOf(outcomes, false)
  {
    if outcomes != [] {
      AmortisedBound(outcomes[..|outcomes| - 1], initial);
      CounterRange(outcomes[..|outcomes| - 1], initial);
    }
  }

  function Min(a: nat, b: nat): nat {
    if a <= b then a else b
  }

  /** A slot mispredicts at most twice per minority outcome, plus two. */
  lemma {:induction false} SlotBound(outcomes: seq<bool>, initial: u8)
    requires initial <= 3
    ensures Mispredictions(outcomes, initial) <= 2 + 2 * Min(CountOf(outcomes, true), CountOf(outcomes, false))
  {
    AmortisedBound(outcomes, initial);
  }

  // ------------------------------------------------------------- slots are separate

  function SlotTotal(branches: seq<BranchOutcome>, entries: nat, initial: u8, upto: nat): nat
    requires entries > 0
  {
    if upto == 0 then 0
    else SlotTotal(branches, entries, initial, upto - 1) + Mispredictions(Own(branches, upto - 1, entries), initial)
  }

  function BoundTotal(branches: seq<BranchOutcome>, entries: nat, upto: nat): nat
    requires entries > 0
  {
    if upto == 0 then 0
    else
      var own := Own(branches, upto - 1, entries);
      BoundTotal(branches, entries, upto - 1)
      + (if own == [] then 0 else 2 + 2 * Min(CountOf(own, true), CountOf(own, false)))
  }

  lemma {:induction false} OwnStep(b: seq<BranchOutcome>, x: BranchOutcome, i: nat, entries: nat)
    requires entries > 0
    ensures Own(b + [x], i, entries)
            == if SlotOf(x.pc, entries) == i then Own(b, i, entries) + [x.taken] else Own(b, i, entries)
  {
    assert (b + [x])[..|b|] == b;
  }

  lemma {:induction false} MispredictionsStep(outcomes: seq<bool>, taken: bool, initial: u8)
    ensures Mispredictions(outcomes + [taken], initial)
            == Mispredictions(outcomes, initial) + (if (Counter(outcomes, initial) >= 2) != taken then 1 else 0)
    ensures Counter(outcomes + [taken], initial) == Trained(Counter(outcomes, initial), taken)
  {
    assert (outcomes + [taken])[..|outcomes|] == outcomes;
  }

  lemma {:induction false} SlotTotalStep(b: seq<BranchOutcome>, x: BranchOutcome, entries: nat, initial: u8, upto: nat)
    requires entries > 0
    ensures var i := SlotOf(x.pc, entries);
            SlotTotal(b + [x], entries, initial, upto)
            == SlotTotal(b, entries, initial, upto)
               + (if i < upto && (Counter(Own(b, i, entries), initial) >= 2) != x.taken then 1 else 0)
  {
    hide Mispredictions, Counter, Own, SlotOf;
    if upto > 0 {
      SlotTotalStep(b, x, entries, initial, upto - 1);
      OwnStep(b, x, upto - 1, entries);
      MispredictionsStep(Own(b, upto - 1, entries), x.taken, initial);
    }
  }

  lemma {:induction false} SlotInRange(pc: u32, entries: nat)
    requires entries > 0
    ensures SlotOf(pc, entries) < entries
  {
  }

  /** The bimodal table behaves as independent counters, each seeing only the
      branches of its own slot: the total is the sum over slots. */
  lemma {:induction false} IncorrectIsSlotTotal(c: PredictorConfiguration, b: seq<BranchOutcome>)
    requires c.strategy.BimodalTwoBit? && c.tableEntries > 0
    ensures Incorrect(c, b) == SlotTotal(b, c.tableEntries, c.initialCounter, c.tableEntries)
  {
    if b == [] {
      EmptySlotTotal(c.tableEntries, c.initialCounter, c.tableEntries);
    } else {
      var before, x := b[..|b| - 1], b[|b| - 1];
      assert b == before + [x];
      IncorrectIsSlotTotal(c, before);
      SlotTotalStep(before, x, c.tableEntries, c.initialCounter, c.tableEntries);
      SlotInRange(x.pc, c.tableEntries);
    }
  }

  lemma {:induction false} EmptySlotTotal(entries: nat, initial: u8, upto: nat)
    requires entries > 0
    ensures SlotTotal([], entries, initial, upto) == 0
  {
    if upto > 0 {
      EmptySlotTotal(entries, initial, upto - 1);
    }
  }

  lemma {:induction false} SlotTotalBound(b: seq<BranchOutcome>, entries: nat, initial: u8, upto: nat)
    requires entries > 0 && initial <= 3
    ensures SlotTotal(b, entries, initial, upto) <= BoundTotal(b, entries, upto)
  {
    if upto > 0 {
      SlotTotalBound(b, entries, initial, upto - 1);
      SlotBound(Own(b, upto - 1, entries), initial);
    }
  }

  /** For every branch trace, the mispredictions are bounded by each slot's
      minority outcomes. */
  lemma {:induction false} IncorrectBound(c: PredictorConfiguration, b: seq<BranchOutcome>)
    requires c.strategy.BimodalTwoBit? && c.tableEntries > 0 && c.initialCounter <= 3
    ensures Incorrect(c, b) <= BoundTotal(b, c.tableEntries, c.tableEntries)
  {
    IncorrectIsSlotTotal(c, b);
    SlotTotalBound(b, c.tableEntries, c.initialCounter, c.tableEntries);
  }

  /** One resolved branch updates its own slot's counter and the total. */
  lemma {:induction false} ResolveBranch(c: PredictorConfiguration, b: seq<BranchOutcome>, pc: u32, taken: bool)
    requires c.strategy.BimodalTwoBit? && c.tableEntries > 0
    ensures var after, slot := b + [BranchOutcome(pc, taken)], SlotOf(pc, c.tableEntries);
            var counter := Counter(Own(b, slot, c.tableEntries), c.initialCounter);
            && Counter(Own(after, slot, c.tableEntries), c.initialCounter) == Trained(counter, taken)
            && (forall i: nat | i != slot :: Own(after, i, c.tableEntries) == Own(b, i, c.tableEntries))
            && Incorrect(c, after) == Incorrect(c, b) + (if (counter >= 2) != taken then 1 else 0)
  {
    hide Counter, SlotOf;
    var x, slot := BranchOutcome(pc, taken), SlotOf(pc, c.tableEntries);
    assert (b + [x])[..|b|] == b;
    MispredictionsStep(Own(b, slot, c.tableEntries), taken, c.initialCounter);
  }

  lemma {:induction false} BranchesGrow(trace: seq<Engine.ExecutionObservation>, o: Engine.ExecutionObservation)
    ensures Branches(trace + [o])
            == if o.controlFlow.Some? && o.controlFlow.value.kind.ConditionalBranch?
               then Branches(trace) + [BranchOutcome(o.programCounter, o.controlFlow.value.taken)] else Branches(trace)
  {
    assert (trace + [o])[..|trace|] == trace;
  }

  // --------------------------------------------------------------------- the class

  method MakePredictor(configuration: PredictorConfiguration)
    returns (predictor: BranchPredictorModel?, error: Option<PredictorConfigurationErrorCode>)
    ensures error == ValidatePredictor(configuration)
    ensures predictor == null <==> error.Some?
    ensures predictor != null ==>
              predictor.Valid() && fresh(predictor) && fresh(predictor.counters) && predictor.trace == []
              && predictor.configuration == configuration
  {
    error := ValidatePredictor(configuration);
    if error.Some? {
      return null, error;
    }
    predictor := new BranchPredictorModel(configuration);
  }

  class BranchPredictorModel {
    const configuration: PredictorConfiguration
    const counters: array<u8>
    var statistics: PredictionStatistics
    /** Every observation since construction or reset. */
    ghost var trace: seq<Engine.ExecutionObservation>

    ghost predicate Shaped() {
      && ValidatePredictor(configuration) == None
      && counters.Length == (if configuration.strategy.BimodalTwoBit? then configuration.tableEntries else 0)
      && (configuration.strategy.BimodalTwoBit? ==> configuration.tableEntries > 0)
    }

    ghost predicate Valid()
      reads this, counters
    {
      && Shaped()
      && (forall i | 0 <= i < counters.Length ::
            counters[i] == Counter(Own(Branches(trace), i, configuration.tableEntries), configuration.initialCounter))
      && statistics == PredictionsAfter(configuration, Branches(trace))
    }

    constructor (configuration: PredictorConfiguration)
      requires ValidatePredictor(configuration) == None
      ensures Valid() && fresh(counters) && trace == [] && this.configuration == configuration
    {
      this.configuration := configuration;
      counters := new u8[if configuration.strategy.BimodalTwoBit? then configuration.tableEntries else 0]
        (_ => configuration.initialCounter);
      statistics := PredictionStatistics(0, 0, 0, 0, 0, 0, 0);
      trace := [];
    }

    function TableIndex(programCounter: u32): (i: nat)
      requires Shaped() && configuration.strategy.BimodalTwoBit?
      ensures i == SlotOf(programCounter, configuration.tableEntries) < counters.Length
    {
      TableIndexMeaning(programCounter, configuration.tableEntries);
      SlotInRange(programCounter, configuration.tableEntries);
      BitAnd(ShiftRight(programCounter, 2), configuration.tableEntries - 1)
    }

    function Predict(programCounter: u32): (taken: bool)
      requires Valid()
      reads this, counters
      ensures taken == Predicts(configuration, Branches(trace), programCounter)
    {
      match configuration.strategy
      case AlwaysNotTaken => false
      case AlwaysTaken => true
      case BimodalTwoBit => counters[TableIndex(programCounter)] >= 2
      case OtherStrategy => false
    }

    method Update(programCounter: u32, taken: bool)
      requires Shaped()
      modifies counters
      ensures configuration.strategy.BimodalTwoBit? ==>
                forall i | 0 <= i < counters.Length ::
                  counters[i] == if i == SlotOf(programCounter, configuration.tableEntries)
                                 then Trained(old(counters[i]), taken) else old(counters[i])
      ensures configuration.strategy.BimodalTwoBit? ==>
                configuration.tableEntries > 0 && counters.Length == configuration.tableEntries
                && forall i | 0 <= i < counters.Length ::
                     && (programCounter / 4 % configuration.tableEntries != i ==> counters[i] == old(counters[i]))
                     && (programCounter / 4 % configuration.tableEntries == i && taken ==>
                           counters[i] == if old(counters[i]) < 3 then old(counters[i]) + 1 else old(counters[i]))
                     && (programCounter / 4 % configuration.tableEntries == i && !taken ==>
                           counters[i] == if old(counters[i]) > 0 then old(counters[i]) - 1 else 0)
      ensures !configuration.strategy.BimodalTwoBit? ==> counters[..] == old(counters[..])
    {
      if !configuration.strategy.BimodalTwoBit? {
        return;
      }
      var index := TableIndex(programCounter);
      if taken && counters[index] < 3 {
        counters[index] := counters[index] + 1;
      } else if !taken && counters[index] > 0 {
        counters[index] := counters[index] - 1;
      }
    }

    method Observe(observation: Engine.ExecutionObservation)
      requires Valid()
      modifies this, counters
      ensures Valid() && trace == old(trace) + [observation]
    {
      hide ValidatePredictor;
      assert (trace + [observation])[..|trace|] == trace;
      if observation.controlFlow.None? || !observation.controlFlow.value.kind.ConditionalBranch? {
        trace := trace + [observation];
        return;
      }
      ghost var before := Branches(trace);
      var predicted := Predict(observation.programCounter);
      var actual := observation.controlFlow.value.taken;
      ghost var outcome := BranchOutcome(observation.programCounter, actual);
      statistics := RecordPrediction(statistics, predicted, actual);
      PredictionsStep(configuration, before, outcome);
      Update(observation.programCounter, actual);
      trace := trace + [observation];
      assert Branches(trace) == before + [outcome];
      hide Branches, Predicts, RecordPrediction, PredictionsAfter;
      forall i | 0 <= i < counters.Length
        ensures counters[i]
                == Counter(Own(before + [outcome], i, configuration.tableEntries), configuration.initialCounter)
      {
        OwnStep(before, outcome, i, configuration.tableEntries);
        MispredictionsStep(Own(before, i, configuration.tableEntries), actual, configuration.initialCounter);
      }
    }

    method Reset()
      requires Valid()
      modifies this, counters
      ensures Valid() && trace == []
    {
      for i := 0 to counters.Length
        invariant forall k | 0 <= k < i :: counters[k] == configuration.initialCounter
      {
        counters[i] := configuration.initialCounter;
      }
      statistics := PredictionStatistics(0, 0, 0, 0, 0, 0, 0);
      trace := [];
    }
  }

  /** `(pc >> 2) & (entries - 1)` is the slot, because the table is a power of two. */
  lemma {:induction false} TableIndexMeaning(pc: u32, entries: u64)
    requires entries > 0 && PowerOfTwoBits(entries)
    ensures BitAnd(ShiftRight(pc, 2), entries - 1) == SlotOf(pc, entries)
  {
    assert Pow2(2) == 4;
    hide BitAnd, ShiftRight, Pow2;
    PowerOfTwoTest(entries);
    var n: nat :| entries == Pow2(n);
    ShiftRightIs(pc, 2, 4);
    MaskIs(pc / 4, n, entries);
  }
}
