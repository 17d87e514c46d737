/** The interactive debugger (app/rvemu_debugger.cpp): a command loop over a
    program session, with a sorted breakpoint vector, a flag saying that the
    guest stands on the breakpoint that stopped it, and one step budget for the
    whole session. */
module Debugging {
  import opened Options
  import opened Words
  import GuestMemory
  import Engine
  import opened Sessions

  /** Inspect stands for every command that only prints: help, registers, memory,
      the breakpoint list, and lines that do not parse. */
  datatype Command =
    | StepOnce | Continue | Break(address: u32) | Delete(address: u32) | DeleteAll | Inspect | Quit

  datatype DebuggerResult = DebuggerQuit(statistics: SessionStatistics) | Finished(run: SessionRunResult)

  // ------------------------------------------------------------------ breakpoints

  predicate StrictlySorted(s: seq<u32>) {
    forall i, j | 0 <= i < j < |s| :: s[i] < s[j]
  }

  /** The first position whose element is not below the address. */
  function LowerBound(s: seq<u32>, address: u32): (i: nat)
    requires StrictlySorted(s)
    ensures i <= |s|
    ensures forall k | 0 <= k < i :: s[k] < address
    ensures forall k | i <= k < |s| :: s[k] >= address
  {
    if s == [] || s[0] >= address then 0 else 1 + LowerBound(s[1..], address)
  }

  function Inserted(s: seq<u32>, address: u32): seq<u32>
    requires StrictlySorted(s)
  {
    var i := LowerBound(s, address);
    if i < |s| && s[i] == address then s else s[..i] + [address] + s[i..]
  }

  function Erased(s: seq<u32>, address: u32): seq<u32>
    requires StrictlySorted(s)
  {
    var i := LowerBound(s, address);
    if i < |s| && s[i] == address then s[..i] + s[i + 1..] else s
  }

  /** The vector is a sorted set: insertion adds one element, erasure removes one. */
  lemma {:induction false} BreakpointSet(s: seq<u32>, address: u32)
    requires StrictlySorted(s)
    ensures StrictlySorted(Inserted(s, address)) && StrictlySorted(Erased(s, address))
    ensures forall a: u32 :: a in Inserted(s, address) <==> a in s || a == address
    ensures forall a: u32 :: a in Erased(s, address) <==> a in s && a != address
  {
    InsertedElements(s, address);
    ErasedElements(s, address);
  }

  lemma {:induction false} InsertedElements(s: seq<u32>, address: u32)
    requires StrictlySorted(s)
    ensures StrictlySorted(Inserted(s, address))
    ensures forall a: u32 :: a in Inserted(s, address) <==> a in s || a == address
  {
    hide LowerBound, StrictlySorted;
    var i := LowerBound(s, address);
    if i == |s| || s[i] != address {
      Joined(s[..i], s[i..], address);
      assert s == s[..i] + s[i..];
      SortedInsert(s, i, address);
    }
  }

  lemma {:induction false} ErasedElements(s: seq<u32>, address: u32)
    requires StrictlySorted(s)
    ensures StrictlySorted(Erased(s, address))
    ensures forall a: u32 :: a in Erased(s, address) <==> a in s && a != address
  {
    hide LowerBound, StrictlySorted;
    var i := LowerBound(s, address);
    if i < |s| && s[i] == address {
      Joined(s[..i], s[i + 1..], address);
      assert s == s[..i] + [address] + s[i + 1..];
      SortedErase(s, i);
    } else {
      Absent(s, i, address);
    }
  }

  lemma {:induction false} Absent(s: seq<u32>, i: nat, address: u32)
    requires StrictlySorted(s) && i <= |s|
    requires forall k | 0 <= k < i :: s[k] < address
    requires i < |s| ==> s[i] > address
    ensures address !in s
  {
    forall k | 0 <= k < |s| ensures s[k] != address {
      assert k > i ==> s[i] < s[k];
    }
  }

  lemma {:induction false} Joined(left: seq<u32>, right: seq<u32>, address: u32)
    ensures forall a: u32 :: a in left + right <==> a in left || a in right
    ensures forall a: u32 :: a in left + [address] + right <==> a in left || a == address || a in right
  {
  }

  lemma {:induction false} SortedInsert(s: seq<u32>, i: nat, address: u32)
    requires StrictlySorted(s) && i <= |s|
    requires forall k | 0 <= k < i :: s[k] < address
    requires i < |s| ==> s[i] > address
    ensures StrictlySorted(s[..i] + [address] + s[i..])
  {
    var t := s[..i] + [address] + s[i..];
    assert forall k | 0 <= k < |t| :: t[k] == if k < i then s[k] else if k == i then address else s[k - 1];
  }

  lemma {:induction false} SortedErase(s: seq<u32>, i: nat)
    requires StrictlySorted(s) && i < |s|
    ensures StrictlySorted(s[..i] + s[i + 1..])
    ensures s[i] !in s[..i] && s[i] !in s[i + 1..]
  {
    var t := s[..i] + s[i + 1..];
    assert forall k | 0 <= k < |t| :: t[k] == if k < i then s[k] else s[k + 1];
  }

  /** An address a breakpoint may be set at: aligned, with a whole word mapped. */
  predicate Breakable(memory: GuestMemory.Image, address: u32) {
    address % 4 == 0 && memory.Maps(address, 4)
  }

  // ---------------------------------------------------------------- specification

  /** Everything a debugger command can change. */
  datatype Console<E> = Console(
    guest: Guest<E>, statistics: SessionStatistics, breakpoints: seq<u32>, stoppedAtBreakpoint: bool)
  {
    predicate Valid(maximum: u64) {
      && guest.machine.Valid()
      && statistics.instructionsRetired + statistics.environmentCallsHandled == statistics.guestSteps
      && statistics.guestSteps <= maximum
      && StrictlySorted(breakpoints)
      && (forall a | a in breakpoints :: Breakable(guest.machine.memory, a))
      && (stoppedAtBreakpoint ==> guest.machine.pc in breakpoints)
    }
  }

  function OneStep<E>(h: Handler<E>, c: Console<E>): (r: (Console<E>, Option<DebuggerResult>))
    requires c.guest.machine.Valid() && c.statistics.guestSteps < 0xFFFF_FFFF_FFFF_FFFF
    requires c.statistics.instructionsRetired + c.statistics.environmentCallsHandled == c.statistics.guestSteps
  {
    hide GuestStep, StepStatistics, StopOf;
    var step := GuestStep(h, c.guest);
    var total := Add(c.statistics, StepStatistics(step.1));
    (c.(guest := step.0, statistics := total, stoppedAtBreakpoint := false),
     if Continues(step.1) then None else Some(Finished(SessionRunResult(total, StopOf(step.1)))))
  }

  /** The bounded run a continue ends with. */
  function RunOn<E>(h: Handler<E>, maximum: u64, c: Console<E>): (r: (Console<E>, Option<DebuggerResult>))
    requires c.guest.machine.Valid() && c.statistics.guestSteps <= maximum
    requires c.statistics.instructionsRetired + c.statistics.environmentCallsHandled == c.statistics.guestSteps
  {
    hide RunOf;
    var run := RunOf(h, c.guest, maximum - c.statistics.guestSteps, c.breakpoints);
    var total := Add(c.statistics, run.1.statistics);
    var after := c.(guest := run.0, statistics := total);
    if run.1.stop.BreakpointReached? then (after.(stoppedAtBreakpoint := true), None)
    else (after, Some(Finished(SessionRunResult(total, run.1.stop))))
  }

  function LimitReached<E>(c: Console<E>): (Console<E>, Option<DebuggerResult>) {
    (c, Some(Finished(SessionRunResult(c.statistics, StepLimitReached))))
  }

  function Resumed<E>(h: Handler<E>, maximum: u64, c: Console<E>): (Console<E>, Option<DebuggerResult>)
    requires c.Valid(maximum)
  {
    if c.statistics.guestSteps >= maximum then LimitReached(c)
    else if !c.stoppedAtBreakpoint then RunOn(h, maximum, c)
    else
      var first := OneStep(h, c);
      StepAdvances(h, c);
      if first.1.Some? then first
      else if first.0.statistics.guestSteps >= maximum then LimitReached(first.0)
      else RunOn(h, maximum, first.0)
  }

  /** One command. */
  function Obeyed<E>(h: Handler<E>, maximum: u64, c: Console<E>, command: Command)
    : (Console<E>, Option<DebuggerResult>)
    requires c.Valid(maximum)
  {
    match command
    case StepOnce => if c.statistics.guestSteps >= maximum then LimitReached(c) else OneStep(h, c)
    case Continue => Resumed(h, maximum, c)
    case Break(address) =>
      (if Breakable(c.guest.machine.memory, address)
       then c.(breakpoints := Inserted(c.breakpoints, address)) else c,
       None)
    case Delete(address) =>
      var found := address in c.breakpoints;
      (c.(breakpoints := Erased(c.breakpoints, address),
          stoppedAtBreakpoint := c.stoppedAtBreakpoint && !(found && address == c.guest.machine.pc)),
       None)
    case DeleteAll => (c.(breakpoints := [], stoppedAtBreakpoint := false), None)
    case Inspect => (c, None)
    case Quit => (c, Some(DebuggerQuit(c.statistics)))
  }

  /** A whole session; the end of the input quits. */
  function Interaction<E>(h: Handler<E>, maximum: u64, c: Console<E>, commands: seq<Command>)
    : (Console<E>, DebuggerResult)
    requires c.Valid(maximum)
    decreases |commands|
  {
    hide Obeyed, Console.Valid;
    if commands == [] then (c, DebuggerQuit(c.statistics))
    else
      var one := Obeyed(h, maximum, c, commands[0]);
      ObeyingKeepsValid(h, maximum, c, commands[0]);
      match one.1
      case Some(result) => (one.0, result)
      case None => Interaction(h, maximum, one.0, commands[1..])
  }

  // ------------------------------------------------------- the breakpoint discipline

  lemma {:induction false} StepAdvances<E>(h: Handler<E>, c: Console<E>)
    requires c.guest.machine.Valid() && c.statistics.guestSteps < 0xFFFF_FFFF_FFFF_FFFF
    requires c.statistics.instructionsRetired + c.statistics.environmentCallsHandled == c.statistics.guestSteps
    ensures var one := OneStep(h, c);
            && one.0.guest.machine.Valid()
            && one.0.statistics.instructionsRetired + one.0.statistics.environmentCallsHandled
               == one.0.statistics.guestSteps
            && one.0.statistics.guestSteps <= c.statistics.guestSteps + 1
            && (one.1.None? ==> one.0.statistics.guestSteps == c.statistics.guestSteps + 1)
            && one.0.breakpoints == c.breakpoints && !one.0.stoppedAtBreakpoint
  {
    hide GuestStep, StepStatistics, StopOf;
  }

  /** Guest steps never move or resize the mapped memory. */
  lemma {:induction false} StepKeepsRegion<E>(h: Handler<E>, g: Guest<E>)
    requires g.machine.Valid()
    ensures var m := GuestStep(h, g).0.machine.memory;
            m.base == g.machine.memory.base && |m.bytes| == |g.machine.memory.bytes|
  {
    hide Engine.Report, Captured, Engine.Next;
    NextKeepsRegion(g.machine);
  }

  lemma {:induction false} NextKeepsRegion(m: Engine.Machine)
    requires m.Valid()
    ensures Engine.Next(m).memory.base == m.memory.base && |Engine.Next(m).memory.bytes| == |m.memory.bytes|
  {
    hide Isa.Step;
    if Isa.Step(m).Retired? {
      Engine.StepKeepsValid(m);
    }
  }

  lemma {:induction false} RunKeepsRegion<E>(h: Handler<E>, g: Guest<E>, limit: u64, breakpoints: seq<u32>)
    requires g.machine.Valid()
    ensures var m := RunOf(h, g, limit, breakpoints).0.machine.memory;
            m.base == g.machine.memory.base && |m.bytes| == |g.machine.memory.bytes|
    decreases limit
  {
    hide GuestStep, StopOf, StepStatistics, RunOf, Preceded;
    RunUnfolds(h, g, limit, breakpoints);
    StepKeepsRegion(h, g);
    if limit > 0 && g.machine.pc !in breakpoints && Continues(GuestStep(h, g).1) {
      RunKeepsRegion(h, GuestStep(h, g).0, limit - 1, breakpoints);
    }
  }

  lemma {:induction false} OneStepKeepsValid<E>(h: Handler<E>, maximum: u64, c: Console<E>)
    requires c.Valid(maximum) && c.statistics.guestSteps < maximum
    ensures OneStep(h, c).0.Valid(maximum)
  {
    hide GuestStep, StepStatistics, StopOf, Add;
    StepAdvances(h, c);
    StepKeepsRegion(h, c.guest);
  }

  lemma {:induction false} RunOnKeepsValid<E>(h: Handler<E>, maximum: u64, c: Console<E>)
    requires c.Valid(maximum) && !c.stoppedAtBreakpoint
    ensures RunOn(h, maximum, c).0.Valid(maximum)
  {
    hide RunOf, StoppedFor;
    var limit: u64 := maximum - c.statistics.guestSteps;
    RunKeepsRegion(h, c.guest, limit, c.breakpoints);
    BreakpointStopIsHonest(h, c.guest, limit, c.breakpoints);
  }

  lemma {:induction false} BreakpointStopIsHonest<E>(h: Handler<E>, g: Guest<E>, limit: u64, breakpoints: seq<u32>)
    requires g.machine.Valid()
    ensures var run := RunOf(h, g, limit, breakpoints);
            run.1.stop.BreakpointReached? ==> run.0.machine.pc in breakpoints
  {
    hide RunOf, GuestAfter, StatisticsFor, KeepsRunning, GuestStep;
    RunMeaning(h, g, limit, breakpoints);
  }

  /** Every command keeps the breakpoints strictly sorted, aligned and mapped, the
      budget kept, and the stop flag honest. */
  lemma {:induction false} ObeyingKeepsValid<E>(h: Handler<E>, maximum: u64, c: Console<E>, command: Command)
    requires c.Valid(maximum)
    ensures Obeyed(h, maximum, c, command).0.Valid(maximum)
  {
    hide GuestStep, RunOf, OneStep, RunOn, Inserted, Erased;
    match command {
      case StepOnce =>
        if c.statistics.guestSteps < maximum {
          OneStepKeepsValid(h, maximum, c);
        }
      case Continue => ResumedKeepsValid(h, maximum, c);
      case Break(address) => BreakpointSet(c.breakpoints, address);
      case Delete(address) => BreakpointSet(c.breakpoints, address);
      case _ =>
    }
  }

  lemma {:induction false} ResumedKeepsValid<E>(h: Handler<E>, maximum: u64, c: Console<E>)
    requires c.Valid(maximum)
    ensures Resumed(h, maximum, c).0.Valid(maximum)
  {
    hide OneStep, RunOn;
    if c.statistics.guestSteps < maximum {
      if c.stoppedAtBreakpoint {
        OneStepKeepsValid(h, maximum, c);
        StepAdvances(h, c);
        if OneStep(h, c).1.None? {
          RunOnKeepsValid(h, maximum, OneStep(h, c).0);
        }
      } else {
        RunOnKeepsValid(h, maximum, c);
      }
    }
  }

  // ------------------------------------------------- commands do not change the run

  /** The console stands where the guest is after its guest steps, uninterrupted. */
  ghost predicate Follows<E>(h: Handler<E>, initial: Guest<E>, c: Console<E>)
    requires initial.machine.Valid()
  {
    Course(h, initial, c.statistics.guestSteps, c.guest, c.statistics)
  }

  /** n steps, all running, with what they lead to and count. */
  ghost predicate Course<E>(h: Handler<E>, g: Guest<E>, n: u64, last: Guest<E>, s: SessionStatistics)
    requires g.machine.Valid()
  {
    hide GuestStep;
    KeepsRunning(h, g, n) && last == GuestAfter(h, g, n) && s == StatisticsFor(h, g, n)
  }

  /** Running a steps and then b steps is running a + b steps. */
  lemma {:induction false} CoursesCompose<E>(h: Handler<E>, g: Guest<E>, a: u64, mid: Guest<E>, b: u64, last: Guest<E>,
                                              first: SessionStatistics, second: SessionStatistics)
    requires g.machine.Valid() && mid.machine.Valid() && a + b < 0x1_0000_0000_0000_0000
    requires first.instructionsRetired + first.environmentCallsHandled == first.guestSteps == a
    requires second.instructionsRetired + second.environmentCallsHandled == second.guestSteps == b
    requires Course(h, g, a, mid, first) && Course(h, mid, b, last, second)
    ensures Course(h, g, a + b, last, Add(first, second))
    decreases a
  {
    hide GuestStep, StepStatistics, Add, StatisticsFor, GuestAfter, KeepsRunning;
    GuestAfterAdds(h, g, a, b);
    if a == 0 {
      CutAtZero(h, g, 0, []);
      AddNothing(second);
    } else {
      var step := GuestStep(h, g);
      StatisticsUnfold(h, g, a);
      StatisticsUnfold(h, g, a + b);
      var rest := StatisticsFor(h, step.0, a - 1);
      CoursesCompose(h, step.0, a - 1, mid, b, last, rest, second);
      AddReassociates(StepStatistics(step.1), rest, second);
    }
  }

  lemma {:induction false} StatisticsUnfold<E>(h: Handler<E>, g: Guest<E>, n: u64)
    requires g.machine.Valid() && n > 0 && KeepsRunning(h, g, n)
    ensures var step := GuestStep(h, g);
            && Continues(step.1) && KeepsRunning(h, step.0, n - 1)
            && GuestAfter(h, g, n) == GuestAfter(h, step.0, n - 1)
            && StatisticsFor(h, g, n) == Add(StepStatistics(step.1), StatisticsFor(h, step.0, n - 1))
  {
    hide GuestStep, StepStatistics, Add;
  }

  lemma {:induction false} OneStepAlone<E>(h: Handler<E>, g: Guest<E>)
    requires g.machine.Valid() && Continues(GuestStep(h, g).1)
    ensures KeepsRunning(h, g, 1) && GuestAfter(h, g, 1) == GuestStep(h, g).0
    ensures StatisticsFor(h, g, 1) == StepStatistics(GuestStep(h, g).1)
  {
    hide GuestStep, StepStatistics;
    var step := GuestStep(h, g);
    OneRunningStep(h, g);
    assert KeepsRunning(h, step.0, 0) && StatisticsFor(h, step.0, 0) == NO_STEPS;
    AddIsCommutative(NO_STEPS, StepStatistics(step.1));
    AddNothing(StepStatistics(step.1));
  }

  lemma {:induction false} AddIsCommutative(a: SessionStatistics, b: SessionStatistics)
    requires a.instructionsRetired + a.environmentCallsHandled == a.guestSteps
    requires b.instructionsRetired + b.environmentCallsHandled == b.guestSteps
    requires a.guestSteps + b.guestSteps < 0x1_0000_0000_0000_0000
    ensures Add(a, b) == Add(b, a)
  {
  }

  lemma {:induction false} OneStepFollows<E>(h: Handler<E>, initial: Guest<E>, maximum: u64, c: Console<E>)
    requires initial.machine.Valid() && c.Valid(maximum) && Follows(h, initial, c)
    requires c.statistics.guestSteps < maximum
    ensures var r := OneStep(h, c);
            match r.1
            case None => Follows(h, initial, r.0)
            case Some(result) => result.Finished? && (r.0.guest, result.run) == RunOf(h, initial, maximum, [])
  {
    hide GuestStep, StepStatistics, StopOf, Add, RunOf, GuestAfter, KeepsRunning, StatisticsFor;
    var k := c.statistics.guestSteps;
    StepAdvances(h, c);
    if Continues(GuestStep(h, c.guest).1) {
      OneStepAlone(h, c.guest);
      CoursesCompose(h, initial, k, c.guest, 1, OneStep(h, c).0.guest, c.statistics, StatisticsFor(h, c.guest, 1));
    } else {
      RunCut(h, initial, k, maximum, []);
      RunUnfolds(h, c.guest, maximum - k, []);
    }
  }

  lemma {:induction false} RunOnFollows<E>(h: Handler<E>, initial: Guest<E>, maximum: u64, c: Console<E>)
    requires initial.machine.Valid() && Follows(h, initial, c) && c.statistics.guestSteps <= maximum
    ensures var r := RunOn(h, maximum, c);
            match r.1
            case None => Follows(h, initial, r.0)
            case Some(result) => result.Finished? && (r.0.guest, result.run) == RunOf(h, initial, maximum, [])
  {
    hide GuestStep, Add, RunOf, GuestAfter, KeepsRunning, StatisticsFor;
    var k := c.statistics.guestSteps;
    var limit: u64 := maximum - k;
    var run := RunOf(h, c.guest, limit, c.breakpoints);
    if run.1.stop.BreakpointReached? {
      RunMeaning(h, c.guest, limit, c.breakpoints);
      var n := run.1.statistics.guestSteps;
      CoursesCompose(h, initial, k, c.guest, n, run.0, c.statistics, run.1.statistics);
      AddSums(c.statistics, run.1.statistics);
    } else {
      BreakpointsDoNotDisturb(h, c.guest, limit, c.breakpoints);
      RunCut(h, initial, k, maximum, []);
    }
  }

  lemma {:induction false} LimitFollows<E>(h: Handler<E>, initial: Guest<E>, maximum: u64, c: Console<E>)
    requires initial.machine.Valid() && Follows(h, initial, c) && c.statistics.guestSteps == maximum
    ensures (c.guest, SessionRunResult(c.statistics, StepLimitReached)) == RunOf(h, initial, maximum, [])
  {
    hide GuestStep, RunOf, GuestAfter, KeepsRunning, StatisticsFor;
    RunCut(h, initial, maximum, maximum, []);
    RunUnfolds(h, c.guest, 0, []);
    AddIsCommutative(NO_STEPS, c.statistics);
    AddNothing(c.statistics);
  }

  /** One command either leaves the guest on its uninterrupted course, or ends the
      session with the result and state of the plain run. */
  lemma {:induction false} ObeyingFollows<E>(h: Handler<E>, initial: Guest<E>, maximum: u64, c: Console<E>,
                                             command: Command)
    requires initial.machine.Valid() && c.Valid(maximum) && Follows(h, initial, c)
    ensures var r := Obeyed(h, maximum, c, command);
            match r.1
            case None => Follows(h, initial, r.0)
            case Some(Finished(run)) => (r.0.guest, run) == RunOf(h, initial, maximum, [])
            case Some(DebuggerQuit(statistics)) => r.0 == c && statistics == c.statistics
  {
    hide GuestStep, RunOf, OneStep, RunOn, GuestAfter, KeepsRunning, StatisticsFor;
    if c.statistics.guestSteps >= maximum {
      LimitFollows(h, initial, maximum, c);
    } else {
      OneStepFollows(h, initial, maximum, c);
      if !c.stoppedAtBreakpoint {
        RunOnFollows(h, initial, maximum, c);
      } else if OneStep(h, c).1.None? {
        var one := OneStep(h, c).0;
        StepAdvances(h, c);
        OneStepKeepsValid(h, maximum, c);
        if one.statistics.guestSteps < maximum {
          RunOnFollows(h, initial, maximum, one);
        } else {
          LimitFollows(h, initial, maximum, one);
        }
      }
    }
  }

  /** The debugger refines a batch run.  Whatever the commands, the session ends
      either with the state, statistics and reason of one uninterrupted run to the
      budget, or, on quitting, exactly as many uninterrupted steps in as it
      reports, within the budget. */
  lemma {:induction false} DebuggerRefinesRun<E>(h: Handler<E>, initial: Guest<E>, maximum: u64, c: Console<E>,
                                                 commands: seq<Command>)
    requires initial.machine.Valid() && c.Valid(maximum) && Follows(h, initial, c)
    ensures var r := Interaction(h, maximum, c, commands);
            match r.1
            case Finished(run) => (r.0.guest, run) == RunOf(h, initial, maximum, [])
            case DebuggerQuit(statistics) =>
              && statistics.guestSteps <= maximum
              && KeepsRunning(h, initial, statistics.guestSteps)
              && (forall k: nat | k < statistics.guestSteps ::
                    Continues(GuestStep(h, GuestAfter(h, initial, k)).1))
              && r.0.guest == GuestAfter(h, initial, statistics.guestSteps)
              && statistics == StatisticsFor(h, initial, statistics.guestSteps)
    decreases |commands|
  {
    hide RunOf, GuestAfter, KeepsRunning, StatisticsFor, Obeyed, GuestStep;
    KeepsRunningMeans(h, initial, c.statistics.guestSteps);
    if commands != [] {
      ObeyingFollows(h, initial, maximum, c, commands[0]);
      ObeyingKeepsValid(h, maximum, c, commands[0]);
      var one := Obeyed(h, maximum, c, commands[0]);
      if one.1.None? {
        DebuggerRefinesRun(h, initial, maximum, one.0, commands[1..]);
      }
    }
  }

  /** A continue that does not end the session halts at the first state, at least
      one step on if it left from a breakpoint stop, whose PC is in the set. */
  lemma {:induction false} ContinueHaltsAtFirstBreakpoint<E>(h: Handler<E>, maximum: u64, c: Console<E>)
    requires c.Valid(maximum) && Resumed(h, maximum, c).1.None?
    ensures var after := Resumed(h, maximum, c).0;
            var n := after.statistics.guestSteps - c.statistics.guestSteps;
            var skipped := if c.stoppedAtBreakpoint then 1 else 0;
            && skipped <= n
            && after.breakpoints == c.breakpoints && after.stoppedAtBreakpoint
            && after.guest == GuestAfter(h, c.guest, n)
            && after.guest.machine.pc in c.breakpoints
            && forall j: nat | skipped <= j < n :: GuestAfter(h, c.guest, j).machine.pc !in c.breakpoints
  {
    hide GuestStep, OneStep, RunOn, GuestAfter;
    if c.stoppedAtBreakpoint {
      var one := OneStep(h, c).0;
      StepAdvances(h, c);
      OneStepIs(h, c);
      RunOnHalts(h, maximum, one);
      var n := Resumed(h, maximum, c).0.statistics.guestSteps - c.statistics.guestSteps;
      GuestAfterAdds(h, c.guest, 1, n - 1);
      forall j: nat | 1 <= j < n ensures GuestAfter(h, c.guest, j).machine.pc !in c.breakpoints {
        GuestAfterAdds(h, c.guest, 1, j - 1);
      }
    } else {
      RunOnHalts(h, maximum, c);
    }
  }

  lemma {:induction false} OneStepIs<E>(h: Handler<E>, c: Console<E>)
    requires c.guest.machine.Valid() && c.statistics.guestSteps < 0xFFFF_FFFF_FFFF_FFFF
    requires c.statistics.instructionsRetired + c.statistics.environmentCallsHandled == c.statistics.guestSteps
    ensures OneStep(h, c).1.None? ==> OneStep(h, c).0.guest == GuestAfter(h, c.guest, 1)
  {
    hide GuestStep, StepStatistics, StopOf, StatisticsFor, Add;
    if Continues(GuestStep(h, c.guest).1) {
      OneStepAlone(h, c.guest);
    }
  }

  lemma {:induction false} RunOnHalts<E>(h: Handler<E>, maximum: u64, c: Console<E>)
    requires c.guest.machine.Valid() && c.statistics.guestSteps <= maximum
    requires c.statistics.instructionsRetired + c.statistics.environmentCallsHandled == c.statistics.guestSteps
    requires RunOn(h, maximum, c).1.None?
    ensures var after := RunOn(h, maximum, c).0;
            var n := after.statistics.guestSteps - c.statistics.guestSteps;
            && 0 <= n
            && after.breakpoints == c.breakpoints && after.stoppedAtBreakpoint
            && after.guest == GuestAfter(h, c.guest, n)
            && after.guest.machine.pc in c.breakpoints
            && forall j: nat | j < n :: GuestAfter(h, c.guest, j).machine.pc !in c.breakpoints
  {
    hide GuestStep, RunOf, GuestAfter, StatisticsFor, KeepsRunning;
    RunMeaning(h, c.guest, maximum - c.statistics.guestSteps, c.breakpoints);
  }

  /** Two continues in a row that leave the session open make progress. */
  lemma {:induction false} ContinuesMakeProgress<E>(h: Handler<E>, maximum: u64, c: Console<E>)
    requires c.Valid(maximum)
    ensures var first := Obeyed(h, maximum, c, Continue);
            first.0.Valid(maximum)
            && var second := Obeyed(h, maximum, first.0, Continue);
               first.1.None? && second.1.None? ==>
                 c.statistics.guestSteps <= first.0.statistics.guestSteps < second.0.statistics.guestSteps <= maximum
  {
    hide Resumed, GuestAfter, Console.Valid;
    ObeyingKeepsValid(h, maximum, c, Continue);
    var first := Resumed(h, maximum, c);
    ObeyingKeepsValid(h, maximum, first.0, Continue);
    var second := Resumed(h, maximum, first.0);
    if first.1.None? && second.1.None? {
      ContinueHaltsAtFirstBreakpoint(h, maximum, c);
      ContinueHaltsAtFirstBreakpoint(h, maximum, first.0);
      BudgetKept(maximum, second.0);
    }
  }

  lemma {:induction false} BudgetKept<E>(maximum: u64, c: Console<E>)
    requires c.Valid(maximum)
    ensures c.statistics.guestSteps <= maximum
  {
  }

  lemma {:induction false} StartFollows<E>(h: Handler<E>, g: Guest<E>)
    requires g.machine.Valid()
    ensures Follows(h, g, Console(g, NO_STEPS, [], false))
  {
    hide RunOf, GuestStep;
    CutAtZero(h, g, 0, []);
  }

  /** The three counters added as 64-bit words. */
  function Summed(a: SessionStatistics, b: SessionStatistics): SessionStatistics {
    SessionStatistics((a.guestSteps + b.guestSteps) % 0x1_0000_0000_0000_0000,
                      (a.instructionsRetired + b.instructionsRetired) % 0x1_0000_0000_0000_0000,
                      (a.environmentCallsHandled + b.environmentCallsHandled) % 0x1_0000_0000_0000_0000)
  }

  /** Within the budget the counters never wrap. */
  lemma {:induction false} SumsFit(a: SessionStatistics, b: SessionStatistics)
    requires a.instructionsRetired + a.environmentCallsHandled == a.guestSteps
    requires b.instructionsRetired + b.environmentCallsHandled == b.guestSteps
    requires a.guestSteps + b.guestSteps < 0x1_0000_0000_0000_0000
    ensures Summed(a, b) == Add(a, b)
  {
  }

  // --------------------------------------------------------------------- the class

  class InteractiveDebugger<E(!new)> {
    const session: ProgramSession<E>
    const maximum: u64
    var statistics: SessionStatistics
    var breakpoints: seq<u32>
    var stoppedAtBreakpoint: bool

    ghost function State(): (c: Console<E>)
      reads this, session, session.engine, session.engine.state, session.engine.state.registers,
            session.engine.memory.bytes
    {
      Console(session.Snapshot(), statistics, breakpoints, stoppedAtBreakpoint)
    }

    ghost predicate Valid()
      reads this, session, session.engine, session.engine.state, session.engine.state.registers,
            session.engine.memory.bytes
    {
      session.Valid() && State().Valid(maximum)
    }

    /** A fresh debugger follows the guest from where it stands. */
    constructor (session: ProgramSession<E>, maximum: u64)
      requires session.Valid()
      ensures this.session == session && this.maximum == maximum && Valid()
      ensures State() == Console(session.Snapshot(), NO_STEPS, [], false)
      ensures Follows(session.handler, session.Snapshot(), State())
    {
      this.session := session;
      this.maximum := maximum;
      statistics := NO_STEPS;
      breakpoints := [];
      stoppedAtBreakpoint := false;
      new;
      StartFollows(session.handler, session.Snapshot());
    }

    method ExecuteOne() returns (terminal: Option<DebuggerResult>)
      requires Valid() && statistics.guestSteps < maximum
      modifies this, session, session.engine, session.engine.state, session.engine.state.registers,
               session.engine.memory.bytes
      ensures session.Valid()
      ensures (State(), terminal) == OneStep(session.handler, old(State()))
      ensures (session.Snapshot(), terminal.None?)
              == (var step := GuestStep(session.handler, old(session.Snapshot()));
                  (step.0, step.1.InstructionCompleted? || step.1.EnvironmentCallResumed?))
      ensures breakpoints == old(breakpoints) && !stoppedAtBreakpoint
      ensures terminal.None? ==> statistics.guestSteps == old(statistics.guestSteps) + 1
    {
      hide GuestStep;
      stoppedAtBreakpoint := false;
      var result := session.Step();
      match result {
        case InstructionCompleted(_) =>
          statistics := statistics.(guestSteps := statistics.guestSteps + 1,
                                    instructionsRetired := statistics.instructionsRetired + 1);
        case EnvironmentCallResumed(_, _, _) =>
          statistics := statistics.(guestSteps := statistics.guestSteps + 1,
                                    environmentCallsHandled := statistics.environmentCallsHandled + 1);
        case Exited(call, code) =>
          statistics := statistics.(guestSteps := statistics.guestSteps + 1,
                                    environmentCallsHandled := statistics.environmentCallsHandled + 1);
          return Some(Finished(SessionRunResult(statistics, RunExited(call, code))));
        case UnhandledEnvironmentCall(call, trap) =>
          return Some(Finished(SessionRunResult(statistics, RunUnhandledEnvironmentCall(call, trap))));
        case SessionTrap(trap) =>
          return Some(Finished(SessionRunResult(statistics, SessionRunTrapped(trap))));
      }
      terminal := None;
    }

    method ContinueExecution() returns (terminal: Option<DebuggerResult>)
      requires Valid()
      modifies this, session, session.engine, session.engine.state, session.engine.state.registers,
               session.engine.memory.bytes
      ensures session.Valid()
      ensures (State(), terminal) == Resumed(session.handler, maximum, old(State()))
    {
      hide GuestStep, OneStep, RunOf, Add, Summed;
      if statistics.guestSteps >= maximum {
        return Some(Finished(SessionRunResult(statistics, StepLimitReached)));
      }
      if stoppedAtBreakpoint {
        StepAdvances(session.handler, State());
        terminal := ExecuteOne();
        if terminal.Some? {
          return;
        }
        if statistics.guestSteps >= maximum {
          return Some(Finished(SessionRunResult(statistics, StepLimitReached)));
        }
      }
      var result := session.Run(maximum - statistics.guestSteps, breakpoints);
      SumsFit(statistics, result.statistics);
      AddStatistics(result.statistics);
      if result.stop.BreakpointReached? {
        stoppedAtBreakpoint := true;
        return None;
      }
      terminal := Some(Finished(SessionRunResult(statistics, result.stop)));
    }

    method AddStatistics(additional: SessionStatistics)
      modifies `statistics
      ensures statistics == Summed(old(statistics), additional)
      ensures statistics.guestSteps
              == (old(statistics.guestSteps) + additional.guestSteps) % 0x1_0000_0000_0000_0000
      ensures statistics.instructionsRetired
              == (old(statistics.instructionsRetired) + additional.instructionsRetired) % 0x1_0000_0000_0000_0000
      ensures statistics.environmentCallsHandled
              == (old(statistics.environmentCallsHandled) + additional.environmentCallsHandled)
                 % 0x1_0000_0000_0000_0000
    {
      statistics := statistics.(
        guestSteps := (statistics.guestSteps + additional.guestSteps) % 0x1_0000_0000_0000_0000);
      statistics := statistics.(
        instructionsRetired :=
          (statistics.instructionsRetired + additional.instructionsRetired) % 0x1_0000_0000_0000_0000);
      statistics := statistics.(
        environmentCallsHandled :=
          (statistics.environmentCallsHandled + additional.environmentCallsHandled) % 0x1_0000_0000_0000_0000);
    }

    method AddBreakpoint(address: u32)
      requires Valid()
      modifies `breakpoints
      ensures (State(), None) == Obeyed(session.handler, maximum, old(State()), Break(address))
      ensures forall a: u32 ::
                a in breakpoints <==>
                a in old(breakpoints)
                || (a == address && address % 4 == 0 && session.engine.memory.base <= address
                    && address + 4 <= session.engine.memory.base + session.engine.memory.bytes.Length)
      ensures forall i, j | 0 <= i < j < |breakpoints| :: breakpoints[i] < breakpoints[j]
    {
      hide GuestStep, RunOf, OneStep, RunOn, LowerBound;
      BreakpointSet(breakpoints, address);
      Engine.AlignmentTest(address);
      if BitAnd(address, 0x3) != 0 {
        return;
      }
      if !session.engine.memory.ReadSpan(address, 4).Done? {
        return;
      }
      var position := LowerBound(breakpoints, address);
      if position < |breakpoints| && breakpoints[position] == address {
        return;
      }
      breakpoints := breakpoints[..position] + [address] + breakpoints[position..];
    }

    method RemoveBreakpoint(address: u32)
      requires Valid()
      modifies `breakpoints, `stoppedAtBreakpoint
      ensures (State(), None) == Obeyed(session.handler, maximum, old(State()), Delete(address))
      ensures forall a: u32 :: a in breakpoints <==> a in old(breakpoints) && a != address
      ensures forall i, j | 0 <= i < j < |breakpoints| :: breakpoints[i] < breakpoints[j]
      ensures stoppedAtBreakpoint
              == (old(stoppedAtBreakpoint)
                  && !(address in old(breakpoints) && address == session.engine.state.programCounter))
    {
      hide GuestStep, RunOf, OneStep, RunOn, LowerBound;
      BreakpointSet(breakpoints, address);
      var position := LowerBound(breakpoints, address);
      if position == |breakpoints| || breakpoints[position] != address {
        return;
      }
      breakpoints := breakpoints[..position] + breakpoints[position + 1..];
      if address == session.engine.state.programCounter {
        stoppedAtBreakpoint := false;
      }
    }

    method Run(commands: seq<Command>) returns (r: DebuggerResult)
      requires Valid()
      modifies this, session, session.engine, session.engine.state, session.engine.state.registers,
               session.engine.memory.bytes
      ensures (State(), r) == Interaction(session.handler, maximum, old(State()), commands)
    {
      hide OneStep, RunOf, Console.Valid;
      var next := 0;
      while next < |commands|
        invariant 0 <= next <= |commands|
        invariant session.Valid() && State().Valid(maximum)
        invariant Interaction(session.handler, maximum, State(), commands[next..])
                  == Interaction(session.handler, maximum, old(State()), commands)
      {
        var command := commands[next];
        var terminal: Option<DebuggerResult> := None;
        ObeyingKeepsValid(session.handler, maximum, State(), command);
        assert commands[next..][0] == command && commands[next..][1..] == commands[next + 1..];
        ghost var before := State();
        match command {
          case StepOnce =>
            if statistics.guestSteps >= maximum {
              terminal := Some(Finished(SessionRunResult(statistics, StepLimitReached)));
            } else {
              terminal := ExecuteOne();
            }
          case Continue => terminal := ContinueExecution();
          case Break(address) => AddBreakpoint(address);
          case Delete(address) => RemoveBreakpoint(address);
          case DeleteAll =>
            breakpoints := [];
            stoppedAtBreakpoint := false;
          case Inspect =>
          case Quit => terminal := Some(DebuggerQuit(statistics));
        }
        assert (State(), terminal) == Obeyed(session.handler, maximum, before, command);
        if terminal.Some? {
          return terminal.value;
        }
        next := next + 1;
      }
      r := DebuggerQuit(statistics);
    }
  }
}
