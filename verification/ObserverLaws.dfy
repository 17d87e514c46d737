/** What the observers count, stated on addresses, outcomes and positions of the
    trace themselves: divisions, comparisons and cardinalities of sets of
    positions, with no function of the models standing for them. */
module ObserverLaws {
  import opened Options
  import opened Words
  import Counting
  import opened Recency
  import opened CacheModel
  import opened BranchPrediction
  import opened Performance
  import Engine
  import Isa

  // ------------------------------------------------------------------------ caches

  /** Two addresses share a block exactly when they lie in the same aligned run of
      `line` bytes. */
  lemma {:induction false} SameLine(a: nat, b: nat, line: nat)
    requires line > 0
    ensures a / line == b / line <==> a - a % line == b - b % line
  {
    var q, r := a / line, b / line;
    assert a == line * q + a % line && b == line * r + b % line;
    assert line * (q - r) == line * q - line * r && line * (r - q) == line * r - line * q;
    if q > r {
      MultipleAtLeast(line, q - r);
    } else if q < r {
      MultipleAtLeast(line, r - q);
    }
  }

  /** The rejection of a cache configuration, in the order of the checks: the first
      of these conditions that holds of it. */
  lemma {:induction false} CacheErrors(c: CacheConfiguration)
    ensures ValidateConfiguration(c)
            == if c.capacityBytes == 0 then Some(ZeroCapacity)
               else if c.lineSizeBytes < 4 then Some(LineSizeTooSmall)
               else if !IsPowerOfTwo(c.lineSizeBytes) then Some(LineSizeNotPowerOfTwo)
               else if c.associativity == 0 then Some(ZeroAssociativity)
               else if c.lineSizeBytes * c.associativity >= 0x1_0000_0000_0000_0000 then Some(GeometryOverflow)
               else if c.lineSizeBytes * c.associativity > 0
                       && c.capacityBytes % (c.lineSizeBytes * c.associativity) != 0 then Some(CapacityNotDivisible)
               else None
  {
    hide BitAnd, IsPowerOfTwo;
    if c.lineSizeBytes >= 4 {
      PowerOfTwoTest(c.lineSizeBytes);
      DivisionGuard(c.associativity, c.lineSizeBytes, 0xFFFF_FFFF_FFFF_FFFF);
      assert c.associativity * c.lineSizeBytes == c.lineSizeBytes * c.associativity;
      if c.associativity > 0 {
        SetCapacityPositive(c);
      }
    }
  }

  /** The instruction cache is asked for the line of each completed instruction. */
  lemma {:induction false} FetchBlocksAre(trace: seq<Engine.ExecutionObservation>, line: nat)
    requires line > 0
    ensures |FetchBlocks(trace, line)| == |trace|
    ensures forall i | 0 <= i < |trace| :: FetchBlocks(trace, line)[i] == trace[i].programCounter / line
  {
    if trace != [] {
      FetchBlocksAre(trace[..|trace| - 1], line);
    }
  }

  /** The data cache is asked for the line of each load and store, in order. */
  lemma {:induction false} DataBlocksAre(trace: seq<Engine.ExecutionObservation>, o: Engine.ExecutionObservation,
                                         line: nat)
    requires line > 0
    ensures DataBlocks([], line) == []
    ensures DataBlocks(trace + [o], line)
            == DataBlocks(trace, line)
               + (if o.dataMemoryAccess.Some? then [o.dataMemoryAccess.value.address / line] else [])
  {
    assert (trace + [o])[..|trace|] == trace;
  }

  /** What the three counters of a cache are worth: a miss is an access for which,
      since every earlier access to its line, at least `associativity` distinct
      other lines of its set were accessed. */
  lemma {:induction false} CacheCounts(cache: SetAssociativeCache)
    requires cache.Valid()
    ensures cache.configuration.lineSizeBytes > 0 && cache.setCount > 0
    ensures var line, n, ways, a :=
              cache.configuration.lineSizeBytes, cache.setCount, cache.configuration.associativity, cache.addresses;
            var missed := set k | 0 <= k < |a| &&
                            forall i | 0 <= i < k && a[i] / line == a[k] / line ::
                              |set j | i < j < k && a[j] / line % n == a[k] / line % n && a[j] / line != a[k] / line
                                 :: a[j] / line| >= ways;
            && cache.statistics.accesses == |a| % 0x1_0000_0000_0000_0000
            && cache.statistics.misses == |missed| % 0x1_0000_0000_0000_0000
            && cache.statistics.hits == (|a| - |missed|) % 0x1_0000_0000_0000_0000
  {
    hide ValidateConfiguration, SetCount, LaidOut, Hits, Misses;
    var line, n, ways := cache.configuration.lineSizeBytes, cache.setCount, cache.configuration.associativity;
    var h, a := cache.history, cache.addresses;
    MissesAre(h, n, ways);
    MissedAre(h, a, line, n, ways);
  }

  /** The distinct other lines of an address's set accessed between two positions. */
  ghost function Intervening(a: seq<u32>, i: int, k: int, address: u32, line: nat, n: nat): set<int>
    requires n > 0 && line > 0 && 0 <= i && k <= |a|
  {
    set j | i < j < k && a[j] / line % n == address / line % n && a[j] / line != address / line :: a[j] / line
  }

  /** The reuse-distance law at one position of a longer history. */
  lemma {:induction false} HitsAmong(h: seq<Block>, a: seq<u32>, k: nat, line: nat, n: nat, ways: nat)
    requires n > 0 && line > 0 && |h| == |a| && k < |a|
    requires forall i | 0 <= i < |h| :: h[i] == a[i] / line
    ensures Hits(h[..k], h[k], n, ways)
            <==> exists i | 0 <= i < k && a[i] / line == a[k] / line :: |Intervening(a, i, k, a[k], line, n)| < ways
  {
    hide Hits;
    var b := a[..k];
    HitsByAddress(h[..k], b, a[k], line, n, ways);
    if i :| 0 <= i < |b| && b[i] / line == a[k] / line
              && |set j | i < j < |b| && b[j] / line % n == a[k] / line % n && b[j] / line != a[k] / line
                    :: b[j] / line| < ways {
      assert (set j | i < j < |b| && b[j] / line % n == a[k] / line % n && b[j] / line != a[k] / line :: b[j] / line)
          == Intervening(a, i, k, a[k], line, n);
    }
    if i :| 0 <= i < k && a[i] / line == a[k] / line && |Intervening(a, i, k, a[k], line, n)| < ways {
      assert (set j | i < j < |b| && b[j] / line % n == a[k] / line % n && b[j] / line != a[k] / line :: b[j] / line)
          == Intervening(a, i, k, a[k], line, n);
      assert b[i] / line == a[k] / line;
    }
  }

  lemma {:induction false} MissedAt(h: seq<Block>, a: seq<u32>, k: nat, line: nat, n: nat, ways: nat)
    requires n > 0 && line > 0 && |h| == |a| && k < |a|
    requires forall i | 0 <= i < |h| :: h[i] == a[i] / line
    ensures !Hits(h[..k], h[k], n, ways)
            <==> forall i | 0 <= i < k && a[i] / line == a[k] / line ::
                   |set j | i < j < k && a[j] / line % n == a[k] / line % n && a[j] / line != a[k] / line
                      :: a[j] / line| >= ways
  {
    hide Hits;
    HitsAmong(h, a, k, line, n, ways);
    forall i | 0 <= i < k && a[i] / line == a[k] / line
      ensures Intervening(a, i, k, a[k], line, n)
              == set j | i < j < k && a[j] / line % n == a[k] / line % n && a[j] / line != a[k] / line :: a[j] / line
    {
    }
  }

  lemma {:induction false} MissedAre(h: seq<Block>, a: seq<u32>, line: nat, n: nat, ways: nat)
    requires n > 0 && line > 0 && |h| == |a|
    requires forall i | 0 <= i < |h| :: h[i] == a[i] / line
    ensures (set k | 0 <= k < |h| && !Hits(h[..k], h[k], n, ways))
            == (set k | 0 <= k < |a| &&
                  forall i | 0 <= i < k && a[i] / line == a[k] / line ::
                    |set j | i < j < k && a[j] / line % n == a[k] / line % n && a[j] / line != a[k] / line
                       :: a[j] / line| >= ways)
  {
    hide Hits;
    forall k | 0 <= k < |a|
      ensures !Hits(h[..k], h[k], n, ways)
              <==> forall i | 0 <= i < k && a[i] / line == a[k] / line ::
                     |set j | i < j < k && a[j] / line % n == a[k] / line % n && a[j] / line != a[k] / line
                        :: a[j] / line| >= ways
    {
      MissedAt(h, a, k, line, n, ways);
    }
  }

  /** Loads and stores are counted by the kind each observation reports. */
  lemma {:induction false} KindAccessesAre(trace: seq<Engine.ExecutionObservation>, kind: Isa.DataMemoryAccessKind)
    ensures KindAccesses(trace, kind)
            == |set k | 0 <= k < |trace| && trace[k].dataMemoryAccess.Some?
                        && trace[k].dataMemoryAccess.value.kind == kind|
  {
    var p := k => 0 <= k < |trace| && trace[k].dataMemoryAccess.Some? && trace[k].dataMemoryAccess.value.kind == kind;
    for k := 0 to |trace|
      invariant KindAccesses(trace[..k], kind) == |Counting.Where(k, p)|
    {
      Counting.WhereStep(k, p);
      assert trace[..k + 1][..k] == trace[..k];
    }
    assert trace[..|trace|] == trace;
    assert Counting.Where(|trace|, p)
        == set k | 0 <= k < |trace| && trace[k].dataMemoryAccess.Some? && trace[k].dataMemoryAccess.value.kind == kind;
  }

  /** Their misses are counted by the positions at which the data cache misses. */
  lemma {:induction false} KindMissesAre(trace: seq<Engine.ExecutionObservation>, kind: Isa.DataMemoryAccessKind,
                                         line: nat, n: nat, ways: nat, missed: set<int>)
    requires line > 0 && n > 0
    requires forall k :: k in missed <==>
               && 0 <= k < |trace| && trace[k].dataMemoryAccess.Some? && trace[k].dataMemoryAccess.value.kind == kind
               && !Hits(DataBlocks(trace[..k], line), trace[k].dataMemoryAccess.value.address / line, n, ways)
    ensures KindMisses(trace, kind, line, n, ways) == |missed|
  {
    hide Hits;
    var q := k => k in missed;
    for k := 0 to |trace|
      invariant KindMisses(trace[..k], kind, line, n, ways) == |Counting.Where(k, q)|
    {
      Counting.WhereStep(k, q);
      assert trace[..k + 1][..k] == trace[..k];
    }
    assert trace[..|trace|] == trace;
    assert Counting.Where(|trace|, q) == missed;
  }

  // ---------------------------------------------------------------------- branches

  /** The resolved branches are the conditional ones, with their own PCs and
      outcomes, in order. */
  lemma {:induction false} BranchesAre(trace: seq<Engine.ExecutionObservation>, o: Engine.ExecutionObservation)
    ensures Branches([]) == []
    ensures Branches(trace + [o])
            == Branches(trace)
               + (match o.controlFlow
                  case Some(ControlFlow(ConditionalBranch, taken)) => [BranchOutcome(o.programCounter, taken)]
                  case _ => [])
  {
    assert (trace + [o])[..|trace|] == trace;
  }

  /** The rejection of a predictor configuration, in the order of the checks. */
  lemma {:induction false} PredictorErrors(c: PredictorConfiguration)
    ensures ValidatePredictor(c)
            == if c.initialCounter > 3 then Some(InvalidInitialCounter)
               else if c.strategy == OtherStrategy then Some(UnknownStrategy)
               else if c.strategy != BimodalTwoBit then
                 (if c.tableEntries != 0 then Some(StaticStrategyHasTable) else None)
               else if c.tableEntries == 0 then Some(MissingTableEntries)
               else if !IsPowerOfTwo(c.tableEntries) then Some(TableEntriesNotPowerOfTwo)
               else None
  {
    hide BitAnd, IsPowerOfTwo;
    if c.tableEntries > 0 {
      PowerOfTwoTest(c.tableEntries);
    }
  }

  /** A static strategy is wrong exactly on the branches that go the other way. */
  lemma {:induction false} StaticStrategies(c: PredictorConfiguration, b: seq<BranchOutcome>)
    requires c.strategy.AlwaysTaken? || c.strategy.AlwaysNotTaken?
    ensures var p := PredictionsAfter(c, b);
            var taken, notTaken := |set i | 0 <= i < |b| && b[i].taken|, |set i | 0 <= i < |b| && !b[i].taken|;
            if c.strategy.AlwaysTaken? then
              p.incorrect == notTaken % 0x1_0000_0000_0000_0000
              && p.predictedTaken == |b| % 0x1_0000_0000_0000_0000 && p.predictedNotTaken == 0
            else
              p.incorrect == taken % 0x1_0000_0000_0000_0000
              && p.predictedTaken == 0 && p.predictedNotTaken == |b| % 0x1_0000_0000_0000_0000
  {
    hide PredictedTaken, Incorrect;
    WrongCounts(c, b);
    StaticForecasts(c, b);
    if c.strategy.AlwaysTaken? {
      assert (set i | 0 <= i < |b| && Predicts(c, b[..i], b[i].pc) != b[i].taken)
          == (set i | 0 <= i < |b| && !b[i].taken);
    } else {
      assert (set i | 0 <= i < |b| && Predicts(c, b[..i], b[i].pc) != b[i].taken)
          == (set i | 0 <= i < |b| && b[i].taken);
    }
  }

  lemma {:induction false} StaticForecasts(c: PredictorConfiguration, b: seq<BranchOutcome>)
    requires c.strategy.AlwaysTaken? || c.strategy.AlwaysNotTaken?
    ensures PredictedTaken(c, b) == if c.strategy.AlwaysTaken? then |b| else 0
  {
    if b != [] {
      StaticForecasts(c, b[..|b| - 1]);
    }
  }

  /** The bimodal prediction of a branch is the upper half of the counter at its
      word address modulo the table size; a counter moves one step towards each
      outcome of its slot, between 0 and 3. */
  lemma {:induction false} BimodalStrategy(c: PredictorConfiguration, b: seq<BranchOutcome>, x: BranchOutcome, pc: u32)
    requires c.strategy.BimodalTwoBit? && c.tableEntries > 0 && c.initialCounter <= 3
    ensures var n := c.tableEntries;
            && Counter(Own([], pc / 4 % n, n), c.initialCounter) == c.initialCounter
            && (Predicts(c, b, pc) <==> Counter(Own(b, pc / 4 % n, n), c.initialCounter) in {2, 3})
            && var counter := Counter(Own(b, pc / 4 % n, n), c.initialCounter);
               var trained := Counter(Own(b + [x], pc / 4 % n, n), c.initialCounter);
               && 0 <= counter <= 3
               && (x.pc / 4 % n != pc / 4 % n ==> trained == counter)
               && (x.pc / 4 % n == pc / 4 % n && x.taken ==> trained == if counter == 3 then 3 else counter + 1)
               && (x.pc / 4 % n == pc / 4 % n && !x.taken ==> trained == if counter == 0 then 0 else counter - 1)
  {
    hide Counter, Own;
    var n, slot := c.tableEntries, SlotOf(pc, c.tableEntries);
    CounterRange(Own(b, slot, n), c.initialCounter);
    OwnStep(b, x, slot, n);
    MispredictionsStep(Own(b, slot, n), x.taken, c.initialCounter);
    StartingCounter(slot, n, c.initialCounter);
  }

  lemma {:induction false} StartingCounter(slot: nat, n: nat, initial: u8)
    requires n > 0
    ensures Counter(Own([], slot, n), initial) == initial
  {
  }

  /** Hysteresis: two equal outcomes in a row fix a slot's next prediction, and one
      contrary outcome never turns a saturated counter. */
  lemma {:induction false} Hysteresis(outcomes: seq<bool>, taken: bool, initial: u8)
    requires initial <= 3
    ensures Counter(outcomes + [taken] + [taken], initial) in {2, 3} <==> taken
    ensures Counter(outcomes, initial) == 3 ==> Counter(outcomes + [false], initial) in {2, 3}
    ensures Counter(outcomes, initial) == 0 ==> Counter(outcomes + [true], initial) in {0, 1}
  {
    hide Counter;
    CounterRange(outcomes, initial);
    MispredictionsStep(outcomes, taken, initial);
    MispredictionsStep(outcomes + [taken], taken, initial);
    MispredictionsStep(outcomes, true, initial);
    MispredictionsStep(outcomes, false, initial);
  }

  /** The seven counters count positions of the branch history. */
  lemma {:induction false} PredictionCounts(c: PredictorConfiguration, b: seq<BranchOutcome>)
    requires c.strategy.BimodalTwoBit? ==> c.tableEntries > 0
    ensures var p := PredictionsAfter(c, b);
            var wrong := |set i | 0 <= i < |b| && Predicts(c, b[..i], b[i].pc) != b[i].taken|;
            var forecast := |set i | 0 <= i < |b| && Predicts(c, b[..i], b[i].pc)|;
            var taken := |set i | 0 <= i < |b| && b[i].taken|;
            && p.predictions == |b| % 0x1_0000_0000_0000_0000
            && p.incorrect == wrong % 0x1_0000_0000_0000_0000
            && p.correct == (|b| - wrong) % 0x1_0000_0000_0000_0000
            && p.predictedTaken == forecast % 0x1_0000_0000_0000_0000
            && p.predictedNotTaken == (|b| - forecast) % 0x1_0000_0000_0000_0000
            && p.actualTaken == taken % 0x1_0000_0000_0000_0000
            && p.actualNotTaken == (|b| - taken) % 0x1_0000_0000_0000_0000
  {
    hide Predicts;
    WrongCounts(c, b);
    ForecastCounts(c, b);
    TakenCounts(b);
  }

  lemma {:induction false} WrongCounts(c: PredictorConfiguration, b: seq<BranchOutcome>)
    requires c.strategy.BimodalTwoBit? ==> c.tableEntries > 0
    ensures Incorrect(c, b) == |set i | 0 <= i < |b| && Predicts(c, b[..i], b[i].pc) != b[i].taken|
  {
    hide Predicts;
    var p := i => 0 <= i < |b| && Predicts(c, b[..i], b[i].pc) != b[i].taken;
    for k := 0 to |b|
      invariant Incorrect(c, b[..k]) == |Counting.Where(k, p)|
    {
      Counting.WhereStep(k, p);
      assert b[..k + 1][..k] == b[..k];
    }
    assert b[..|b|] == b;
    assert Counting.Where(|b|, p) == set i | 0 <= i < |b| && Predicts(c, b[..i], b[i].pc) != b[i].taken;
  }

  lemma {:induction false} ForecastCounts(c: PredictorConfiguration, b: seq<BranchOutcome>)
    requires c.strategy.BimodalTwoBit? ==> c.tableEntries > 0
    ensures PredictedTaken(c, b) == |set i | 0 <= i < |b| && Predicts(c, b[..i], b[i].pc)|
  {
    hide Predicts;
    var p := i => 0 <= i < |b| && Predicts(c, b[..i], b[i].pc);
    for k := 0 to |b|
      invariant PredictedTaken(c, b[..k]) == |Counting.Where(k, p)|
    {
      Counting.WhereStep(k, p);
      assert b[..k + 1][..k] == b[..k];
    }
    assert b[..|b|] == b;
    assert Counting.Where(|b|, p) == set i | 0 <= i < |b| && Predicts(c, b[..i], b[i].pc);
  }

  lemma {:induction false} TakenCounts(b: seq<BranchOutcome>)
    ensures ActualTaken(b) == |set i | 0 <= i < |b| && b[i].taken|
  {
    var p := i => 0 <= i < |b| && b[i].taken;
    for k := 0 to |b|
      invariant ActualTaken(b[..k]) == |Counting.Where(k, p)|
    {
      Counting.WhereStep(k, p);
      assert b[..k + 1][..k] == b[..k];
    }
    assert b[..|b|] == b;
    assert Counting.Where(|b|, p) == set i | 0 <= i < |b| && b[i].taken;
  }

  // -------------------------------------------------------------------- the report

  /** Which cache, trace and configuration each reported number comes from. */
  lemma {:induction false} ReportedFields(c: PerformanceAnalyzerConfiguration, trace: seq<Engine.ExecutionObservation>,
                                          sets: nat, dataSets: nat)
    requires Usable(c)
    requires sets * (c.cache.instruction.lineSizeBytes * c.cache.instruction.associativity)
             == c.cache.instruction.capacityBytes
    requires dataSets * (c.cache.data.lineSizeBytes * c.cache.data.associativity) == c.cache.data.capacityBytes
    ensures sets > 0 && dataSets > 0
    ensures var s, i, d := StatisticsOf(c, trace), c.cache.instruction, c.cache.data;
            var fetches, accesses := FetchBlocks(trace, i.lineSizeBytes), DataBlocks(trace, d.lineSizeBytes);
            && s.instructionsObserved == |trace| % 0x1_0000_0000_0000_0000
            && s.instruction.accesses == |trace| % 0x1_0000_0000_0000_0000
            && s.instruction.misses == Misses(fetches, sets, i.associativity) % 0x1_0000_0000_0000_0000
            && s.data.total.accesses == |accesses| % 0x1_0000_0000_0000_0000
            && s.data.total.misses == Misses(accesses, dataSets, d.associativity) % 0x1_0000_0000_0000_0000
            && s.data.loads.accesses
               == |set k | 0 <= k < |trace| && trace[k].dataMemoryAccess.Some?
                           && trace[k].dataMemoryAccess.value.kind.LoadAccess?| % 0x1_0000_0000_0000_0000
            && s.data.stores.accesses
               == |set k | 0 <= k < |trace| && trace[k].dataMemoryAccess.Some?
                           && trace[k].dataMemoryAccess.value.kind.StoreAccess?| % 0x1_0000_0000_0000_0000
            && s.data.loads.misses
               == KindMisses(trace, Isa.LoadAccess, d.lineSizeBytes, dataSets, d.associativity)
                  % 0x1_0000_0000_0000_0000
            && s.data.stores.misses
               == KindMisses(trace, Isa.StoreAccess, d.lineSizeBytes, dataSets, d.associativity)
                  % 0x1_0000_0000_0000_0000
            && s.branches.predictions == |Branches(trace)| % 0x1_0000_0000_0000_0000
            && s.branches.incorrect == Incorrect(c.branchPredictor, Branches(trace)) % 0x1_0000_0000_0000_0000
  {
    hide ValidateConfiguration, ValidatePredictor, SetCount, KindMisses, KindAccesses, Misses, Incorrect, Branches;
    SetsAre(c.cache.instruction, sets);
    SetsAre(c.cache.data, dataSets);
    KindAccessesAre(trace, Isa.LoadAccess);
    KindAccessesAre(trace, Isa.StoreAccess);
    assert (set k | 0 <= k < |trace| && trace[k].dataMemoryAccess.Some?
                    && trace[k].dataMemoryAccess.value.kind == Isa.LoadAccess)
        == (set k | 0 <= k < |trace| && trace[k].dataMemoryAccess.Some?
                    && trace[k].dataMemoryAccess.value.kind.LoadAccess?);
    assert (set k | 0 <= k < |trace| && trace[k].dataMemoryAccess.Some?
                    && trace[k].dataMemoryAccess.value.kind == Isa.StoreAccess)
        == (set k | 0 <= k < |trace| && trace[k].dataMemoryAccess.Some?
                    && trace[k].dataMemoryAccess.value.kind.StoreAccess?);
  }

  lemma {:induction false} SetsAre(c: CacheConfiguration, sets: nat)
    requires ValidateConfiguration(c) == None && sets * (c.lineSizeBytes * c.associativity) == c.capacityBytes
    ensures SetCount(c) == sets > 0
  {
    SetsFillCapacity(c);
    SetCapacityPositive(c);
    var size: int := c.lineSizeBytes * c.associativity;
    DivModUnique(c.capacityBytes, size, sets, 0);
    assert sets * size == size * sets;
  }
}
