/** The checked cycle-cost estimate (src/cycle_estimator.cpp). */
module CycleEstimation {
  import opened Options
  import opened Words

  datatype CycleCostConfiguration = CycleCostConfiguration(
    baseInstructionCycles: u64, instructionCacheMissPenaltyCycles: u64,
    dataCacheMissPenaltyCycles: u64, branchMispredictionPenaltyCycles: u64)

  datatype CycleEventCounts = CycleEventCounts(
    instructions: u64, instructionCacheMisses: u64, dataCacheMisses: u64, branchMispredictions: u64)

  datatype CycleEstimateErrorCode =
    | BaseInstructionCostOverflow | InstructionCacheMissCostOverflow | DataCacheMissCostOverflow
    | BranchMispredictionCostOverflow | TotalOverflow

  datatype CycleEstimateResult =
    | CycleEstimate(baseInstructionCycles: u64, instructionCacheMissCycles: u64, dataCacheMissCycles: u64,
                    branchMispredictionCycles: u64, totalCycles: u64)
    | CycleEstimateFailure(code: CycleEstimateErrorCode)

  const MAXIMUM: u64 := 0xFFFF_FFFF_FFFF_FFFF

  lemma {:induction false} MultiplyGuard(left: u64, right: u64)
    requires left != 0
    ensures right > 0xFFFF_FFFF_FFFF_FFFF / left <==> left * right > 0xFFFF_FFFF_FFFF_FFFF
    ensures left * right >= 0
  {
    var limit := 0xFFFF_FFFF_FFFF_FFFF;
    var q := limit / left;
    assert limit == left * q + limit % left;
    MultiplyMonotone(left, 0, right);
    if right > q {
      MultiplyMonotone(left, q + 1, right);
      assert left * (q + 1) == left * q + left;
    } else {
      MultiplyMonotone(left, right, q);
    }
  }

  /** The quotient test before multiplying never wraps and never refuses a
      product that fits. */
  function CheckedMultiply(left: u64, right: u64): (r: Option<u64>)
    ensures r == if left * right < 0x1_0000_0000_0000_0000 then Some(left * right) else None
  {
    if left != 0 then
      MultiplyGuard(left, right);
      if right > 0xFFFF_FFFF_FFFF_FFFF / left then None else Some(left * right)
    else
      assert left * right == 0;
      Some(0)
  }

  method CheckedAdd(total: u64, value: u64) returns (newTotal: u64, ok: bool)
    ensures ok <==> total + value < 0x1_0000_0000_0000_0000
    ensures newTotal == if ok then total + value else total
  {
    if value > 0xFFFF_FFFF_FFFF_FFFF - total {
      return total, false;
    }
    return total + value, true;
  }

  function Cost(count: u64, price: u64): (r: nat)
    ensures r == count * price
  {
    MultiplyMonotone(count, 0, price);
    count * price
  }

  /** The four components as integers. */
  function Base(c: CycleCostConfiguration, e: CycleEventCounts): nat {
    Cost(e.instructions, c.baseInstructionCycles)
  }

  function FetchCost(c: CycleCostConfiguration, e: CycleEventCounts): nat {
    Cost(e.instructionCacheMisses, c.instructionCacheMissPenaltyCycles)
  }

  function DataCost(c: CycleCostConfiguration, e: CycleEventCounts): nat {
    Cost(e.dataCacheMisses, c.dataCacheMissPenaltyCycles)
  }

  function BranchCost(c: CycleCostConfiguration, e: CycleEventCounts): nat {
    Cost(e.branchMispredictions, c.branchMispredictionPenaltyCycles)
  }

  function ExactTotal(c: CycleCostConfiguration, e: CycleEventCounts): nat {
    Base(c, e) + FetchCost(c, e) + DataCost(c, e) + BranchCost(c, e)
  }

  /** Exactly the integer sum, with its components, whenever the sum fits; a
      failure names the first component that does not. */
  predicate Estimates(c: CycleCostConfiguration, e: CycleEventCounts, r: CycleEstimateResult) {
    && (r.CycleEstimate? <==> ExactTotal(c, e) < 0x1_0000_0000_0000_0000)
    && (r.CycleEstimate? ==>
          r == CycleEstimate(Base(c, e), FetchCost(c, e), DataCost(c, e), BranchCost(c, e), ExactTotal(c, e)))
    && (r == CycleEstimateFailure(BaseInstructionCostOverflow) <==> Base(c, e) > MAXIMUM)
    && (r == CycleEstimateFailure(InstructionCacheMissCostOverflow) <==> Base(c, e) <= MAXIMUM < FetchCost(c, e))
    && (r == CycleEstimateFailure(DataCacheMissCostOverflow)
        <==> Base(c, e) <= MAXIMUM && FetchCost(c, e) <= MAXIMUM && DataCost(c, e) > MAXIMUM)
    && (r == CycleEstimateFailure(BranchMispredictionCostOverflow)
        <==> Base(c, e) <= MAXIMUM && FetchCost(c, e) <= MAXIMUM && DataCost(c, e) <= MAXIMUM
             && BranchCost(c, e) > MAXIMUM)
    && (r == CycleEstimateFailure(TotalOverflow)
        <==> Base(c, e) <= MAXIMUM && FetchCost(c, e) <= MAXIMUM && DataCost(c, e) <= MAXIMUM
             && BranchCost(c, e) <= MAXIMUM && ExactTotal(c, e) > MAXIMUM)
  }

  class CycleEstimator {
    const configuration: CycleCostConfiguration

    constructor (configuration: CycleCostConfiguration)
      requires configuration.baseInstructionCycles != 0
      ensures this.configuration == configuration
    {
      this.configuration := configuration;
    }

    method Estimate(events: CycleEventCounts) returns (r: CycleEstimateResult)
      ensures Estimates(configuration, events, r)
      ensures var base: int := events.instructions * configuration.baseInstructionCycles;
              var fetch: int := events.instructionCacheMisses * configuration.instructionCacheMissPenaltyCycles;
              var data: int := events.dataCacheMisses * configuration.dataCacheMissPenaltyCycles;
              var branch: int := events.branchMispredictions * configuration.branchMispredictionPenaltyCycles;
              if base >= 0x1_0000_0000_0000_0000 then r == CycleEstimateFailure(BaseInstructionCostOverflow)
              else if fetch >= 0x1_0000_0000_0000_0000 then r == CycleEstimateFailure(InstructionCacheMissCostOverflow)
              else if data >= 0x1_0000_0000_0000_0000 then r == CycleEstimateFailure(DataCacheMissCostOverflow)
              else if branch >= 0x1_0000_0000_0000_0000 then r == CycleEstimateFailure(BranchMispredictionCostOverflow)
              else if base + fetch + data + branch >= 0x1_0000_0000_0000_0000 then
                r == CycleEstimateFailure(TotalOverflow)
              else
                r.CycleEstimate? && r.baseInstructionCycles == base && r.instructionCacheMissCycles == fetch
                && r.dataCacheMissCycles == data && r.branchMispredictionCycles == branch
                && r.totalCycles == base + fetch + data + branch
    {
      var base := CheckedMultiply(events.instructions, configuration.baseInstructionCycles);
      if base.None? {
        return CycleEstimateFailure(BaseInstructionCostOverflow);
      }
      var fetch := CheckedMultiply(events.instructionCacheMisses, configuration.instructionCacheMissPenaltyCycles);
      if fetch.None? {
        return CycleEstimateFailure(InstructionCacheMissCostOverflow);
      }
      var data := CheckedMultiply(events.dataCacheMisses, configuration.dataCacheMissPenaltyCycles);
      if data.None? {
        return CycleEstimateFailure(DataCacheMissCostOverflow);
      }
      var branch := CheckedMultiply(events.branchMispredictions, configuration.branchMispredictionPenaltyCycles);
      if branch.None? {
        return CycleEstimateFailure(BranchMispredictionCostOverflow);
      }
      var total, ok := CheckedAdd(base.value, fetch.value);
      if ok {
        total, ok := CheckedAdd(total, data.value);
      }
      if ok {
        total, ok := CheckedAdd(total, branch.value);
      }
      if !ok {
        return CycleEstimateFailure(TotalOverflow);
      }
      r := CycleEstimate(base.value, fetch.value, data.value, branch.value, total);
    }
  }

  function AllCosts(c: CycleCostConfiguration): int {
    c.baseInstructionCycles + c.instructionCacheMissPenaltyCycles
    + c.dataCacheMissPenaltyCycles + c.branchMispredictionPenaltyCycles
  }

  /** Events never outnumber instructions, so the total is at most instructions
      times the sum of the four costs. */
  lemma {:induction false} TotalAtMost(c: CycleCostConfiguration, e: CycleEventCounts)
    requires e.instructionCacheMisses <= e.instructions && e.dataCacheMisses <= e.instructions
    requires e.branchMispredictions <= e.instructions
    ensures ExactTotal(c, e) <= e.instructions * AllCosts(c)
  {
    var n, b, i, d, m := e.instructions, c.baseInstructionCycles, c.instructionCacheMissPenaltyCycles,
                         c.dataCacheMissPenaltyCycles, c.branchMispredictionPenaltyCycles;
    MultiplyMonotone(i, e.instructionCacheMisses, n);
    MultiplyMonotone(d, e.dataCacheMisses, n);
    MultiplyMonotone(m, e.branchMispredictions, n);
    Distribute(n, b, i, d, m);
  }

  lemma {:induction false} Distribute(n: int, b: int, i: int, d: int, m: int)
    ensures n * (b + i + d + m) == n * b + i * n + d * n + m * n
  {
  }
}
