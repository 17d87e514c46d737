/** What each debugger command does, on the breakpoint set, the guest's states and
    the budget, and what a breakpoint does to the continues after it. */
module DebuggerLaws {
  import opened Options
  import opened Words
  import opened Sessions
  import opened Debugging

  /** Setting a breakpoint adds exactly that address, when it is a mapped word
      address, and touches nothing else. */
  lemma {:induction false} BreakIs<E>(h: Handler<E>, maximum: u64, c: Console<E>, address: u32)
    requires c.Valid(maximum)
    ensures var (after, result) := Obeyed(h, maximum, c, Break(address));
            && result == None
            && after.guest == c.guest && after.statistics == c.statistics
            && after.stoppedAtBreakpoint == c.stoppedAtBreakpoint
            && (forall a: u32 :: a in after.breakpoints <==>
                  a in c.breakpoints
                  || (a == address && address % 4 == 0 && c.guest.machine.memory.base <= address
                      && address + 4 <= c.guest.machine.memory.base + |c.guest.machine.memory.bytes|))
            && forall i, j | 0 <= i < j < |after.breakpoints| :: after.breakpoints[i] < after.breakpoints[j]
  {
    hide Inserted;
    BreakpointSet(c.breakpoints, address);
  }

  /** Deleting removes exactly that address, and forgets a stop at it. */
  lemma {:induction false} DeleteIs<E>(h: Handler<E>, maximum: u64, c: Console<E>, address: u32)
    requires c.Valid(maximum)
    ensures var (after, result) := Obeyed(h, maximum, c, Delete(address));
            && result == None
            && after.guest == c.guest && after.statistics == c.statistics
            && after.stoppedAtBreakpoint
               == (c.stoppedAtBreakpoint && !(address in c.breakpoints && address == c.guest.machine.pc))
            && (forall a: u32 :: a in after.breakpoints <==> a in c.breakpoints && a != address)
            && forall i, j | 0 <= i < j < |after.breakpoints| :: after.breakpoints[i] < after.breakpoints[j]
  {
    hide Erased;
    BreakpointSet(c.breakpoints, address);
  }

  /** The other commands that do not run the guest, and the single step: within the
      budget exactly one guest step, whose end is the session's end. */
  lemma {:induction false} CommandsAre<E>(h: Handler<E>, maximum: u64, c: Console<E>)
    requires c.Valid(maximum)
    ensures var (after, result) := Obeyed(h, maximum, c, DeleteAll);
            result == None && after.breakpoints == [] && !after.stoppedAtBreakpoint
            && after.guest == c.guest && after.statistics == c.statistics
    ensures Obeyed(h, maximum, c, Inspect) == (c, None)
    ensures Obeyed(h, maximum, c, Quit) == (c, Some(DebuggerQuit(c.statistics)))
    ensures var (after, result) := Obeyed(h, maximum, c, StepOnce);
            if c.statistics.guestSteps == maximum then
              after == c && result == Some(Finished(SessionRunResult(c.statistics, StepLimitReached)))
            else
              var step := GuestStep(h, c.guest);
              && after.guest == step.0 && after.breakpoints == c.breakpoints && !after.stoppedAtBreakpoint
              && (result.None? <==> step.1.InstructionCompleted? || step.1.EnvironmentCallResumed?)
              && after.statistics.instructionsRetired
                 == c.statistics.instructionsRetired + (if step.1.InstructionCompleted? then 1 else 0)
              && after.statistics.environmentCallsHandled
                 == c.statistics.environmentCallsHandled
                    + (if step.1.EnvironmentCallResumed? || step.1.Exited? then 1 else 0)
              && after.statistics.guestSteps
                 == after.statistics.instructionsRetired + after.statistics.environmentCallsHandled
  {
    hide GuestStep, StopOf;
  }

  // ------------------------------------------------------------- stopping on the way

  /** A guest that would run into a breakpoint before the limit is stopped by one,
      no later than there. */
  lemma {:induction false} RunIsStopped<E>(h: Handler<E>, g: Guest<E>, limit: u64, breakpoints: seq<u32>, j: nat)
    requires g.machine.Valid() && KeepsRunning(h, g, j) && j < limit
    requires GuestAfter(h, g, j).machine.pc in breakpoints
    ensures var (last, r) := RunOf(h, g, limit, breakpoints);
            && r.stop.BreakpointReached? && r.statistics.guestSteps <= j
            && last == GuestAfter(h, g, r.statistics.guestSteps) && last.machine.pc in breakpoints
  {
    hide GuestStep, GuestAfter, KeepsRunning, RunOf, StatisticsFor, Add, StepStatistics;
    RunMeaning(h, g, limit, breakpoints);
    KeepsRunningMeans(h, g, j);
    var k := RunningSteps(RunOf(h, g, limit, breakpoints).1);
    assert k < j ==> Continues(GuestStep(h, GuestAfter(h, g, k)).1);
  }

  /** The guest's states a continue has passed: those after its first step, and the
      one it left from unless it left from a breakpoint stop. */
  lemma {:induction false} ContinueStops<E>(h: Handler<E>, maximum: u64, c: Console<E>, j: nat)
    requires c.Valid(maximum) && KeepsRunning(h, c.guest, j) && 0 < j < maximum - c.statistics.guestSteps
    requires GuestAfter(h, c.guest, j).machine.pc in c.breakpoints
    ensures var (after, result) := Obeyed(h, maximum, c, Continue);
            var n := after.statistics.guestSteps - c.statistics.guestSteps;
            && result == None && 0 <= n <= j
            && after.guest == GuestAfter(h, c.guest, n) && after.guest.machine.pc in c.breakpoints
  {
    hide GuestStep, GuestAfter, KeepsRunning, RunOf, OneStep, RunOn;
    if c.stoppedAtBreakpoint {
      GuestAfterAdds(h, c.guest, 1, j - 1);
      OneRunningStep(h, c.guest);
      SteppedOff(h, c);
      var one := OneStep(h, c).0;
      RunOnStops(h, maximum, one, j - 1);
      var n := RunOn(h, maximum, one).0.statistics.guestSteps - one.statistics.guestSteps;
      GuestAfterAdds(h, c.guest, 1, n);
    } else {
      RunOnStops(h, maximum, c, j);
    }
  }

  lemma {:induction false} SteppedOff<E>(h: Handler<E>, c: Console<E>)
    requires c.guest.machine.Valid() && c.statistics.guestSteps < 0xFFFF_FFFF_FFFF_FFFF
    requires c.statistics.instructionsRetired + c.statistics.environmentCallsHandled == c.statistics.guestSteps
    requires Continues(GuestStep(h, c.guest).1)
    ensures var (one, result) := OneStep(h, c);
            && result == None && one.guest == GuestAfter(h, c.guest, 1) && one.breakpoints == c.breakpoints
            && one.statistics.guestSteps == c.statistics.guestSteps + 1
            && one.statistics.instructionsRetired + one.statistics.environmentCallsHandled
               == one.statistics.guestSteps
  {
    hide GuestStep, GuestAfter;
    OneStepIs(h, c);
    StepAdvances(h, c);
  }

  lemma {:induction false} RunOnStops<E>(h: Handler<E>, maximum: u64, c: Console<E>, j: nat)
    requires c.guest.machine.Valid() && c.statistics.guestSteps + j < maximum
    requires c.statistics.instructionsRetired + c.statistics.environmentCallsHandled == c.statistics.guestSteps
    requires KeepsRunning(h, c.guest, j) && GuestAfter(h, c.guest, j).machine.pc in c.breakpoints
    ensures var (after, result) := RunOn(h, maximum, c);
            var n := after.statistics.guestSteps - c.statistics.guestSteps;
            && result == None && 0 <= n <= j
            && after.guest == GuestAfter(h, c.guest, n) && after.guest.machine.pc in c.breakpoints
  {
    hide GuestStep, GuestAfter, KeepsRunning, RunOf;
    RunIsStopped(h, c.guest, maximum - c.statistics.guestSteps, c.breakpoints, j);
  }

  /** Breaking and continuing.  When the guest would come to a mapped word address
      within the budget, after setting a breakpoint there a continue leaves the
      session open, at a breakpoint, no later than the first arrival; and it has
      passed no state with a breakpoint's PC on its way. */
  lemma {:induction false} BreakThenContinue<E>(h: Handler<E>, maximum: u64, c: Console<E>, address: u32, j: nat)
    requires c.Valid(maximum) && KeepsRunning(h, c.guest, j) && 0 < j < maximum - c.statistics.guestSteps
    requires GuestAfter(h, c.guest, j).machine.pc == address && address % 4 == 0
    requires c.guest.machine.memory.base <= address
    requires address + 4 <= c.guest.machine.memory.base + |c.guest.machine.memory.bytes|
    ensures var armed := Obeyed(h, maximum, c, Break(address)).0;
            armed.Valid(maximum)
            && var (after, result) := Obeyed(h, maximum, armed, Continue);
               var n := after.statistics.guestSteps - c.statistics.guestSteps;
               && result == None && 0 <= n <= j
               && after.guest == GuestAfter(h, c.guest, n)
               && (after.guest.machine.pc == address || after.guest.machine.pc in c.breakpoints)
               && (forall i: nat | 0 < i < n :: GuestAfter(h, c.guest, i).machine.pc != address
                                                && GuestAfter(h, c.guest, i).machine.pc !in c.breakpoints)
               && (n == 0 ==> c.guest.machine.pc == address || c.guest.machine.pc in c.breakpoints)
  {
    hide GuestStep, GuestAfter, KeepsRunning, Obeyed, Resumed;
    BreakIs(h, maximum, c, address);
    ObeyingKeepsValid(h, maximum, c, Break(address));
    var armed := Obeyed(h, maximum, c, Break(address)).0;
    hide Console.Valid;
    ContinueStops(h, maximum, armed, j);
    ContinuePasses(h, maximum, armed);
    AtStart(h, c.guest);
  }

  lemma {:induction false} AtStart<E>(h: Handler<E>, g: Guest<E>)
    requires g.machine.Valid()
    ensures GuestAfter(h, g, 0) == g
  {
    hide GuestStep;
  }

  /** A continue that leaves the session open has passed no breakpoint. */
  lemma {:induction false} ContinuePasses<E>(h: Handler<E>, maximum: u64, c: Console<E>)
    requires c.Valid(maximum)
    ensures var (after, result) := Obeyed(h, maximum, c, Continue);
            var n := after.statistics.guestSteps - c.statistics.guestSteps;
            && (result == None ==>
                  && 0 <= n && after.guest == GuestAfter(h, c.guest, n)
                  && after.guest.machine.pc in c.breakpoints && after.stoppedAtBreakpoint
                  && forall i: nat | 0 < i < n :: GuestAfter(h, c.guest, i).machine.pc !in c.breakpoints)
  {
    hide GuestStep, GuestAfter, KeepsRunning, Resumed;
    if Resumed(h, maximum, c).1 == None {
      ContinueHaltsAtFirstBreakpoint(h, maximum, c);
    }
  }

  /** Commands are obeyed one after another until one ends the session; when they
      run out it quits. */
  lemma {:induction false} InteractionIs<E>(h: Handler<E>, maximum: u64, c: Console<E>, command: Command,
                                            rest: seq<Command>)
    requires c.Valid(maximum)
    ensures Interaction(h, maximum, c, []) == (c, DebuggerQuit(c.statistics))
    ensures var (after, result) := Obeyed(h, maximum, c, command);
            after.Valid(maximum)
            && Interaction(h, maximum, c, [command] + rest)
               == (match result
                   case Some(ended) => (after, ended)
                   case None => Interaction(h, maximum, after, rest))
  {
    hide Obeyed;
    ObeyingKeepsValid(h, maximum, c, command);
    assert ([command] + rest)[1..] == rest;
  }
}
