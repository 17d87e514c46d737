/** What a session's steps and runs mean, on registers, positions and counts. */
module SessionLaws {
  import opened Words
  import Counting
  import opened Engine
  import opened Sessions
  import Debugging

  /** An environment call hands the handler a7 and a0 to a5; a resumed guest goes on
      after the call with the returned value in a0 and everything else kept. */
  lemma {:induction false} CallsAre<E>(h: Handler<E>, g: Guest<E>, call: EnvironmentCall)
    requires g.machine.Valid() && Report(g.machine).Faulted?
    requires Report(g.machine).trap.cause.EnvironmentCallFromUserMode?
    requires |g.machine.regs| == 32
    requires call.programCounter == g.machine.pc && call.number == g.machine.regs[17]
    requires |call.arguments| == 6 && forall i | 0 <= i < 6 :: call.arguments[i] == g.machine.regs[10 + i]
    ensures var (environment, decision) := h(g.environment, call, g.machine.memory);
            var (after, r) := GuestStep(h, g);
            && after.environment == environment && after.observed == g.observed
            && after.machine.memory == g.machine.memory && |after.machine.regs| == 32
            && match decision
               case Resume(value) =>
                 && r == EnvironmentCallResumed(call, value, (g.machine.pc + 4) % 0x1_0000_0000)
                 && after.machine.pc == (g.machine.pc + 4) % 0x1_0000_0000
                 && after.machine.regs[10] == value
                 && forall i | 0 <= i < 32 && i != 10 :: after.machine.regs[i] == g.machine.regs[i]
               case Exit(code) => r == Exited(call, code) && after.machine == g.machine
               case NotHandled =>
                 r == UnhandledEnvironmentCall(call, Report(g.machine).trap) && after.machine == g.machine
  {
    hide Report;
    assert call.arguments == g.machine.regs[10..16];
    assert call == Captured(g.machine, g.machine.pc);
  }

  /** The state after k + 1 steps is one step on from the state after k. */
  lemma {:induction false} OneMore<E>(h: Handler<E>, g: Guest<E>, k: nat)
    requires g.machine.Valid()
    ensures GuestAfter(h, g, 0) == g
    ensures GuestAfter(h, g, k + 1) == GuestStep(h, GuestAfter(h, g, k)).0
  {
    hide GuestStep;
    GuestAfterAdds(h, g, k, 1);
    OneRunningStep(h, GuestAfter(h, g, k));
    CutAtZero(h, g, 0, []);
  }

  /** Over n running steps: every step is counted once, a completed instruction as
      retired and observed, a resumed call as handled. */
  lemma {:induction false} StepsCounted<E>(h: Handler<E>, g: Guest<E>, n: u64, completed: set<int>, resumed: set<int>)
    requires g.machine.Valid() && KeepsRunning(h, g, n)
    requires forall k :: k in completed <==> 0 <= k < n && GuestStep(h, GuestAfter(h, g, k)).1.InstructionCompleted?
    requires forall k :: k in resumed <==> 0 <= k < n && GuestStep(h, GuestAfter(h, g, k)).1.EnvironmentCallResumed?
    ensures StatisticsFor(h, g, n).guestSteps == n
    ensures StatisticsFor(h, g, n).instructionsRetired == |completed|
    ensures StatisticsFor(h, g, n).environmentCallsHandled == |resumed|
    ensures |GuestAfter(h, g, n).observed| == |g.observed| + |completed|
  {
    hide GuestStep, GuestAfter, KeepsRunning, StatisticsFor, Counts;
    KeepsRunningMeans(h, g, n);
    var p, q := k => k in completed, k => k in resumed;
    NothingCounted(h, g, p, q);
    for k := 0 to n
      invariant Counts(h, g, k, p, q)
    {
      CountsStep(h, g, k, p, q, GuestAfter(h, g, k));
    }
    CountsFacts(h, g, n, p, q);
    assert Counting.Where(n, p) == completed;
    assert Counting.Where(n, q) == resumed;
  }

  ghost predicate Counts<E>(h: Handler<E>, g: Guest<E>, n: u64, p: int -> bool, q: int -> bool)
    requires g.machine.Valid()
  {
    hide GuestStep;
    && KeepsRunning(h, g, n)
    && StatisticsFor(h, g, n).instructionsRetired == |Counting.Where(n, p)|
    && StatisticsFor(h, g, n).environmentCallsHandled == |Counting.Where(n, q)|
    && |GuestAfter(h, g, n).observed| == |g.observed| + |Counting.Where(n, p)|
  }

  lemma {:induction false} CountsFacts<E>(h: Handler<E>, g: Guest<E>, n: u64, p: int -> bool, q: int -> bool)
    requires g.machine.Valid() && Counts(h, g, n, p, q) && KeepsRunning(h, g, n)
    ensures StatisticsFor(h, g, n).guestSteps == n
    ensures StatisticsFor(h, g, n).instructionsRetired == |Counting.Where(n, p)|
    ensures StatisticsFor(h, g, n).environmentCallsHandled == |Counting.Where(n, q)|
    ensures |GuestAfter(h, g, n).observed| == |g.observed| + |Counting.Where(n, p)|
  {
    hide GuestStep, GuestAfter, KeepsRunning, Counting.Where;
  }

  lemma {:induction false} NothingCounted<E>(h: Handler<E>, g: Guest<E>, p: int -> bool, q: int -> bool)
    requires g.machine.Valid()
    ensures Counts(h, g, 0, p, q)
  {
    hide GuestStep, Counting.Where;
    Counting.WhereNone(p);
    Counting.WhereNone(q);
  }

  lemma {:induction false} CountsStep<E>(h: Handler<E>, g: Guest<E>, k: u64, p: int -> bool, q: int -> bool,
                                         mid: Guest<E>)
    requires g.machine.Valid() && Counts(h, g, k, p, q) && k + 1 < 0x1_0000_0000_0000_0000
    requires mid == GuestAfter(h, g, k) && Continues(GuestStep(h, mid).1)
    requires p(k) <==> GuestStep(h, mid).1.InstructionCompleted?
    requires q(k) <==> GuestStep(h, mid).1.EnvironmentCallResumed?
    ensures Counts(h, g, k + 1, p, q)
  {
    hide GuestStep, GuestAfter, KeepsRunning, StatisticsFor, Counting.Where;
    Counting.WhereStep(k, p);
    Counting.WhereStep(k, q);
    OneMore(h, g, k);
    StepGrows(h, mid);
    LastStep(h, g, k, mid);
  }

  lemma {:induction false} StepGrows<E>(h: Handler<E>, g: Guest<E>)
    requires g.machine.Valid()
    ensures |GuestStep(h, g).0.observed|
            == |g.observed| + (if GuestStep(h, g).1.InstructionCompleted? then 1 else 0)
  {
    hide Report, Next, Captured;
  }

  lemma {:induction false} LastStep<E>(h: Handler<E>, g: Guest<E>, k: u64, mid: Guest<E>)
    requires g.machine.Valid() && KeepsRunning(h, g, k) && k + 1 < 0x1_0000_0000_0000_0000
    requires mid == GuestAfter(h, g, k) && Continues(GuestStep(h, mid).1)
    ensures KeepsRunning(h, g, k + 1)
    ensures var r, before, after := GuestStep(h, mid).1, StatisticsFor(h, g, k), StatisticsFor(h, g, k + 1);
            && after.instructionsRetired == before.instructionsRetired + (if r.InstructionCompleted? then 1 else 0)
            && after.environmentCallsHandled
               == before.environmentCallsHandled + (if r.EnvironmentCallResumed? then 1 else 0)
  {
    hide GuestStep, GuestAfter, KeepsRunning, StatisticsFor, StepStatistics, Add;
    Debugging.OneStepAlone(h, mid);
    Debugging.CoursesCompose(h, g, k, mid, 1, GuestStep(h, mid).0, StatisticsFor(h, g, k), StatisticsFor(h, mid, 1));
    StepCounts(StatisticsFor(h, g, k), GuestStep(h, mid).1);
  }

  lemma {:induction false} StepCounts(before: SessionStatistics, r: SessionStepResult)
    requires before.instructionsRetired + before.environmentCallsHandled == before.guestSteps
    requires before.guestSteps + 1 < 0x1_0000_0000_0000_0000 && Continues(r)
    ensures var after := Add(before, StepStatistics(r));
            && after.instructionsRetired == before.instructionsRetired + (if r.InstructionCompleted? then 1 else 0)
            && after.environmentCallsHandled
               == before.environmentCallsHandled + (if r.EnvironmentCallResumed? then 1 else 0)
  {
  }

  /** Every run, by positions.  With k running steps behind it, it never stood on a
      breakpoint; each of them completed an instruction or resumed a call, and the
      counters count which; and it stopped for the reason it gives: the limit, a
      breakpoint at its PC, or what step k brought. */
  lemma {:induction false} RunIs<E>(h: Handler<E>, g: Guest<E>, limit: u64, breakpoints: seq<u32>, k: int,
                                    completed: set<int>, resumed: set<int>)
    requires g.machine.Valid()
    requires var r := RunOf(h, g, limit, breakpoints).1;
             k == r.statistics.guestSteps - (if r.stop.RunExited? then 1 else 0)
    requires forall j :: j in completed <==> 0 <= j < k && GuestStep(h, GuestAfter(h, g, j)).1.InstructionCompleted?
    requires forall j :: j in resumed <==> 0 <= j < k && GuestStep(h, GuestAfter(h, g, j)).1.EnvironmentCallResumed?
    ensures 0 <= k <= limit
    ensures forall j: nat | j < k :: GuestAfter(h, g, j).machine.pc !in breakpoints && (j in completed || j in resumed)
    ensures var (last, r) := RunOf(h, g, limit, breakpoints);
            var here := GuestAfter(h, g, k);
            var step := GuestStep(h, here);
            && r.statistics.instructionsRetired == |completed|
            && r.statistics.environmentCallsHandled == |resumed| + (if r.stop.RunExited? then 1 else 0)
            && |last.observed| == |g.observed| + |completed|
            && match r.stop
               case StepLimitReached => k == limit && last == here
               case BreakpointReached(pc) =>
                 k < limit && last == here && pc == here.machine.pc && pc in breakpoints
               case RunExited(call, code) =>
                 k < limit && here.machine.pc !in breakpoints && last == step.0 && step.1 == Exited(call, code)
               case RunUnhandledEnvironmentCall(call, trap) =>
                 k < limit && here.machine.pc !in breakpoints && last == step.0
                 && step.1 == UnhandledEnvironmentCall(call, trap)
               case SessionRunTrapped(trap) =>
                 k < limit && here.machine.pc !in breakpoints && last == step.0 && step.1 == SessionTrap(trap)
  {
    hide GuestStep, GuestAfter, KeepsRunning, StatisticsFor, RunOf, Add, StepStatistics;
    RunMeaning(h, g, limit, breakpoints);
    StepsCounted(h, g, k, completed, resumed);
    KeepsRunningMeans(h, g, k);
    var r := RunOf(h, g, limit, breakpoints).1;
    if !r.stop.StepLimitReached? && !r.stop.BreakpointReached? {
      StopCounts(StatisticsFor(h, g, k), GuestStep(h, GuestAfter(h, g, k)).1);
      StepGrows(h, GuestAfter(h, g, k));
    }
  }

  lemma {:induction false} StopCounts(before: SessionStatistics, r: SessionStepResult)
    requires before.instructionsRetired + before.environmentCallsHandled == before.guestSteps
    requires before.guestSteps + 1 < 0x1_0000_0000_0000_0000 && !Continues(r)
    ensures var after := Add(before, StepStatistics(r));
            && after.instructionsRetired == before.instructionsRetired
            && after.environmentCallsHandled == before.environmentCallsHandled + (if r.Exited? then 1 else 0)
  {
  }
}
