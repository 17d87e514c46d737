/** The program session (src/program_session.cpp): user environment calls are
    handed to a host handler, and bounded runs stop before breakpoints.  The
    handler is any deterministic function of its own state, the call and the
    guest memory, which it may read but not write. */
module Sessions {
  import opened Words
  import GuestMemory
  import Cpu
  import opened Engine
  import Isa

  datatype EnvironmentCall = EnvironmentCall(programCounter: u32, number: u32, arguments: seq<u32>)

  datatype EnvironmentCallResult = Resume(returnValue: u32) | Exit(exitCode: u32) | NotHandled

  type Handler<!E> = (E, EnvironmentCall, GuestMemory.Image) -> (E, EnvironmentCallResult)

  datatype SessionStepResult =
    | InstructionCompleted(step: ExecutionObservation)
    | EnvironmentCallResumed(resumed: EnvironmentCall, returnValue: u32, nextProgramCounter: u32)
    | Exited(exit: EnvironmentCall, exitCode: u32)
    | UnhandledEnvironmentCall(unhandled: EnvironmentCall, unhandledTrap: Trap)
    | SessionTrap(trap: Trap)

  datatype SessionStatistics = SessionStatistics(
    guestSteps: u64, instructionsRetired: u64, environmentCallsHandled: u64)

  /** Why a run ended. */
  datatype Stop =
    | StepLimitReached
    | BreakpointReached(programCounter: u32)
    | RunExited(call: EnvironmentCall, exitCode: u32)
    | RunUnhandledEnvironmentCall(unhandled: EnvironmentCall, callTrap: Trap)
    | SessionRunTrapped(trap: Trap)

  datatype SessionRunResult = SessionRunResult(statistics: SessionStatistics, stop: Stop)

  const NO_STEPS := SessionStatistics(0, 0, 0)

  // ---------------------------------------------------------------- specification

  // Throughout, every guest step is one retired instruction or one handled call.

  /** Everything a run can change: machine, host environment, observed trace. */
  datatype Guest<E> = Guest(machine: Machine, environment: E, observed: seq<ExecutionObservation>)

  /** The call number in a7 and the arguments in a0 to a5. */
  function Captured(m: Machine, pc: u32): EnvironmentCall
    requires m.Valid()
  {
    EnvironmentCall(pc, m.regs[17], m.regs[10..16])
  }

  function GuestStep<E>(h: Handler<E>, g: Guest<E>): (r: (Guest<E>, SessionStepResult))
    requires g.machine.Valid()
    ensures r.0.machine.Valid()
  {
    match Report(g.machine)
    case Completed(o) => (Guest(Next(g.machine), g.environment, g.observed + [o]), InstructionCompleted(o))
    case Faulted(trap) =>
      if trap.cause != Isa.EnvironmentCallFromUserMode then (g, SessionTrap(trap))
      else
        var call := Captured(g.machine, g.machine.pc);
        var (environment, decision) := h(g.environment, call, g.machine.memory);
        var after := g.(environment := environment);
        match decision
        case Resume(value) =>
          var m := g.machine.(regs := Cpu.Written(g.machine.regs, 10, value), pc := Isa.Sequential(g.machine));
          (after.(machine := m), EnvironmentCallResumed(call, value, m.pc))
        case Exit(code) => (after, Exited(call, code))
        case NotHandled => (after, UnhandledEnvironmentCall(call, trap))
  }

  predicate Continues(r: SessionStepResult) {
    r.InstructionCompleted? || r.EnvironmentCallResumed?
  }

  /** The statistics of one step. */
  function StepStatistics(r: SessionStepResult): (s: SessionStatistics)
    ensures s.instructionsRetired + s.environmentCallsHandled == s.guestSteps
    ensures s.guestSteps <= 1
    ensures (Continues(r) ==> s.guestSteps == 1)
  {
    match r
    case InstructionCompleted(_) => SessionStatistics(1, 1, 0)
    case EnvironmentCallResumed(_, _, _) => SessionStatistics(1, 0, 1)
    case Exited(_, _) => SessionStatistics(1, 0, 1)
    case _ => NO_STEPS
  }

  function GuestAfter<E>(h: Handler<E>, g: Guest<E>, n: nat): (r: Guest<E>)
    requires g.machine.Valid()
    ensures r.machine.Valid()
    decreases n
  {
    hide GuestStep;
    if n == 0 then g else GuestAfter(h, GuestStep(h, g).0, n - 1)
  }

  /** The first n steps all leave the guest running. */
  predicate KeepsRunning<E>(h: Handler<E>, g: Guest<E>, n: nat)
    requires g.machine.Valid()
    decreases n
  {
    hide GuestStep;
    n == 0 || (Continues(GuestStep(h, g).1) && KeepsRunning(h, GuestStep(h, g).0, n - 1))
  }

  function Add(a: SessionStatistics, b: SessionStatistics): (r: SessionStatistics)
    requires a.instructionsRetired + a.environmentCallsHandled == a.guestSteps
    requires b.instructionsRetired + b.environmentCallsHandled == b.guestSteps
    requires a.guestSteps + b.guestSteps < 0x1_0000_0000_0000_0000
    ensures r.instructionsRetired + r.environmentCallsHandled == r.guestSteps
  {
    SessionStatistics(a.guestSteps + b.guestSteps, a.instructionsRetired + b.instructionsRetired,
                      a.environmentCallsHandled + b.environmentCallsHandled)
  }

  /** A run's result with the statistics of what came before it. */
  function Preceded(a: SessionStatistics, r: SessionRunResult): (s: SessionRunResult)
    requires a.instructionsRetired + a.environmentCallsHandled == a.guestSteps
    requires r.statistics.instructionsRetired + r.statistics.environmentCallsHandled == r.statistics.guestSteps
    requires a.guestSteps + r.statistics.guestSteps < 0x1_0000_0000_0000_0000
    ensures s.statistics.instructionsRetired + s.statistics.environmentCallsHandled == s.statistics.guestSteps
  {
    SessionRunResult(Add(a, r.statistics), r.stop)
  }

  /** How a step that does not continue ends a run. */
  function StopOf(r: SessionStepResult): Stop {
    match r
    case Exited(call, code) => RunExited(call, code)
    case UnhandledEnvironmentCall(call, trap) => RunUnhandledEnvironmentCall(call, trap)
    case SessionTrap(trap) => SessionRunTrapped(trap)
    case InstructionCompleted(_) => StepLimitReached
    case EnvironmentCallResumed(_, _, _) => StepLimitReached
  }

  /** A bounded run, as a function of the state it starts from. */
  function RunOf<E>(h: Handler<E>, g: Guest<E>, limit: u64, breakpoints: seq<u32>): (r: (Guest<E>, SessionRunResult))
    requires g.machine.Valid()
    ensures r.0.machine.Valid()
    ensures r.1.statistics.instructionsRetired + r.1.statistics.environmentCallsHandled == r.1.statistics.guestSteps
    ensures r.1.statistics.guestSteps <= limit
    decreases limit
  {
    hide GuestStep, StopOf;
    if limit == 0 then (g, SessionRunResult(NO_STEPS, StepLimitReached))
    else if g.machine.pc in breakpoints then (g, SessionRunResult(NO_STEPS, BreakpointReached(g.machine.pc)))
    else
      var step := GuestStep(h, g);
      if Continues(step.1) then
        var rest := RunOf(h, step.0, limit - 1, breakpoints);
        (rest.0, Preceded(StepStatistics(step.1), rest.1))
      else (step.0, SessionRunResult(StepStatistics(step.1), StopOf(step.1)))
  }

  /** The statistics of n running steps. */
  function StatisticsFor<E>(h: Handler<E>, g: Guest<E>, n: u64): (s: SessionStatistics)
    requires g.machine.Valid() && KeepsRunning(h, g, n)
    ensures s.instructionsRetired + s.environmentCallsHandled == s.guestSteps && s.guestSteps == n
    decreases n
  {
    hide GuestStep;
    if n == 0 then NO_STEPS
    else
      var step := GuestStep(h, g);
      Add(StepStatistics(step.1), StatisticsFor(h, step.0, n - 1))
  }

  lemma {:induction false} AddAssociates(a: SessionStatistics, b: SessionStatistics, r: SessionRunResult)
    requires a.instructionsRetired + a.environmentCallsHandled == a.guestSteps
    requires b.instructionsRetired + b.environmentCallsHandled == b.guestSteps
    requires r.statistics.instructionsRetired + r.statistics.environmentCallsHandled == r.statistics.guestSteps
    requires a.guestSteps + b.guestSteps + r.statistics.guestSteps < 0x1_0000_0000_0000_0000
    ensures Preceded(a, Preceded(b, r)) == Preceded(Add(a, b), r)
  {
  }

  // --------------------------------------------------------------- laws of a run

  lemma {:induction false} GuestAfterAdds<E>(h: Handler<E>, g: Guest<E>, a: nat, b: nat)
    requires g.machine.Valid()
    ensures GuestAfter(h, g, a + b) == GuestAfter(h, GuestAfter(h, g, a), b)
    ensures KeepsRunning(h, g, a + b) <==> KeepsRunning(h, g, a) && KeepsRunning(h, GuestAfter(h, g, a), b)
    decreases a
  {
    hide GuestStep;
    if a > 0 {
      GuestAfterAdds(h, GuestStep(h, g).0, a - 1, b);
    }
  }

  /** What it means to keep running: every one of the first n steps continues. */
  lemma {:induction false} KeepsRunningMeans<E>(h: Handler<E>, g: Guest<E>, n: nat)
    requires g.machine.Valid()
    ensures KeepsRunning(h, g, n) <==> forall k: nat | k < n :: Continues(GuestStep(h, GuestAfter(h, g, k)).1)
    decreases n
  {
    hide GuestStep, GuestAfter, KeepsRunning;
    if n == 0 {
      CutAtZero(h, g, 0, []);
    } else {
      KeepsRunningMeans(h, g, n - 1);
      GuestAfterAdds(h, g, n - 1, 1);
      OneRunningStep(h, GuestAfter(h, g, n - 1));
    }
  }

  lemma {:induction false} OneRunningStep<E>(h: Handler<E>, g: Guest<E>)
    requires g.machine.Valid()
    ensures KeepsRunning(h, g, 1) <==> Continues(GuestStep(h, g).1)
    ensures GuestAfter(h, g, 1) == GuestStep(h, g).0
  {
    hide GuestStep;
    var next := GuestStep(h, g).0;
    assert KeepsRunning(h, next, 0) && GuestAfter(h, next, 0) == next;
  }

  /** What a run's result says: it followed the guest step by step for k running
      steps, never stood on a breakpoint before that, and stopped for the reason
      it gives. */
  ghost predicate StoppedFor<E>(h: Handler<E>, g: Guest<E>, limit: u64, breakpoints: seq<u32>,
                                k: u64, last: Guest<E>, r: SessionRunResult)
    requires g.machine.Valid()
  {
    hide GuestStep, StepStatistics, StopOf;
    && k <= limit && KeepsRunning(h, g, k)
    && (forall j: nat | j < k :: GuestAfter(h, g, j).machine.pc !in breakpoints)
    && var here := GuestAfter(h, g, k);
       var step := GuestStep(h, here);
       match r.stop
       case StepLimitReached => k == limit && r.statistics == StatisticsFor(h, g, k) && last == here
       case BreakpointReached(pc) =>
         k < limit && r.statistics == StatisticsFor(h, g, k) && last == here && pc == here.machine.pc
         && pc in breakpoints
       case _ =>
         && k < limit && here.machine.pc !in breakpoints && !Continues(step.1)
         && r.stop == StopOf(step.1) && last == step.0
         && r.statistics == Add(StatisticsFor(h, g, k), StepStatistics(step.1))
  }

  /** The number of running steps before a run stopped; a terminating call counts
      as a guest step but does not keep the guest running. */
  function RunningSteps(r: SessionRunResult): int {
    if r.stop.RunExited? then r.statistics.guestSteps - 1 else r.statistics.guestSteps
  }

  /** One unfolding of a run, by how its first step goes. */
  lemma {:induction false} RunUnfolds<E>(h: Handler<E>, g: Guest<E>, limit: u64, breakpoints: seq<u32>)
    requires g.machine.Valid()
    ensures limit == 0 ==>
              RunOf(h, g, limit, breakpoints) == (g, SessionRunResult(NO_STEPS, StepLimitReached))
    ensures limit > 0 && g.machine.pc in breakpoints ==>
              RunOf(h, g, limit, breakpoints) == (g, SessionRunResult(NO_STEPS, BreakpointReached(g.machine.pc)))
    ensures limit > 0 && g.machine.pc !in breakpoints ==>
              var step := GuestStep(h, g);
              if Continues(step.1) then
                var rest := RunOf(h, step.0, limit - 1, breakpoints);
                RunOf(h, g, limit, breakpoints) == (rest.0, Preceded(StepStatistics(step.1), rest.1))
              else
                RunOf(h, g, limit, breakpoints)
                == (step.0, SessionRunResult(StepStatistics(step.1), StopOf(step.1)))
  {
    hide GuestStep, StopOf, StepStatistics, Preceded;
  }

  lemma {:induction false} RunMeaning<E>(h: Handler<E>, g: Guest<E>, limit: u64, breakpoints: seq<u32>)
    requires g.machine.Valid()
    ensures var run := RunOf(h, g, limit, breakpoints);
            && RunningSteps(run.1) >= 0
            && StoppedFor(h, g, limit, breakpoints, RunningSteps(run.1), run.0, run.1)
    decreases limit
  {
    hide GuestStep, StopOf, StepStatistics, RunOf, Preceded, StoppedFor;
    if limit > 0 && g.machine.pc !in breakpoints && Continues(GuestStep(h, g).1) {
      RunMeaning(h, GuestStep(h, g).0, limit - 1, breakpoints);
      RunMeaningStep(h, g, limit, breakpoints);
    } else {
      RunMeaningEnd(h, g, limit, breakpoints);
    }
  }

  lemma {:induction false} RunMeaningEnd<E>(h: Handler<E>, g: Guest<E>, limit: u64, breakpoints: seq<u32>)
    requires g.machine.Valid()
    requires !(limit > 0 && g.machine.pc !in breakpoints && Continues(GuestStep(h, g).1))
    ensures var run := RunOf(h, g, limit, breakpoints);
            && RunningSteps(run.1) == 0
            && StoppedFor(h, g, limit, breakpoints, 0, run.0, run.1)
  {
    hide GuestStep, RunOf, Preceded, StopOf, StepStatistics, GuestAfter, KeepsRunning, StatisticsFor;
    RunUnfolds(h, g, limit, breakpoints);
    CutAtZero(h, g, limit, breakpoints);
    if limit > 0 && g.machine.pc !in breakpoints {
      EndingCost(GuestStep(h, g).1);
      AddNothing(StepStatistics(GuestStep(h, g).1));
    }
  }

  lemma {:induction false} EndingCost(r: SessionStepResult)
    requires !Continues(r)
    ensures StepStatistics(r).guestSteps == if StopOf(r).RunExited? then 1 else 0
    ensures !StopOf(r).StepLimitReached? && !StopOf(r).BreakpointReached?
  {
  }

  lemma {:induction false} AddNothing(s: SessionStatistics)
    requires s.instructionsRetired + s.environmentCallsHandled == s.guestSteps
    ensures Add(NO_STEPS, s) == s
  {
  }

  lemma {:induction false} RunMeaningStep<E>(h: Handler<E>, g: Guest<E>, limit: u64, breakpoints: seq<u32>)
    requires g.machine.Valid() && limit > 0 && g.machine.pc !in breakpoints && Continues(GuestStep(h, g).1)
    requires var rest := RunOf(h, GuestStep(h, g).0, limit - 1, breakpoints);
             && RunningSteps(rest.1) >= 0
             && StoppedFor(h, GuestStep(h, g).0, limit - 1, breakpoints, RunningSteps(rest.1), rest.0, rest.1)
    ensures var run := RunOf(h, g, limit, breakpoints);
            && RunningSteps(run.1) >= 0
            && StoppedFor(h, g, limit, breakpoints, RunningSteps(run.1), run.0, run.1)
  {
    hide GuestStep, StopOf, StepStatistics, RunOf, Add;
    var step := GuestStep(h, g);
    var rest := RunOf(h, step.0, limit - 1, breakpoints);
    var run := RunOf(h, g, limit, breakpoints);
    var k := RunningSteps(rest.1);
    RunUnfolds(h, g, limit, breakpoints);
    AddSums(StepStatistics(step.1), rest.1.statistics);
    assert RunningSteps(run.1) == k + 1;
    assert GuestAfter(h, g, k + 1) == GuestAfter(h, step.0, k);
    assert StatisticsFor(h, g, k + 1) == Add(StepStatistics(step.1), StatisticsFor(h, step.0, k));
    var ended := StepStatistics(GuestStep(h, GuestAfter(h, step.0, k)).1);
    AddReassociates(StepStatistics(step.1), StatisticsFor(h, step.0, k), ended);
    forall j: nat | j < k + 1 ensures GuestAfter(h, g, j).machine.pc !in breakpoints {
      if j > 0 {
        assert GuestAfter(h, g, j) == GuestAfter(h, step.0, j - 1);
      } else {
        assert GuestAfter(h, g, j) == g;
      }
    }
  }

  lemma {:induction false} AddSums(a: SessionStatistics, b: SessionStatistics)
    requires a.instructionsRetired + a.environmentCallsHandled == a.guestSteps
    requires b.instructionsRetired + b.environmentCallsHandled == b.guestSteps
    requires a.guestSteps + b.guestSteps < 0x1_0000_0000_0000_0000
    ensures Add(a, b).guestSteps == a.guestSteps + b.guestSteps
  {
  }

  lemma {:induction false} AddReassociates(a: SessionStatistics, b: SessionStatistics, c: SessionStatistics)
    requires a.instructionsRetired + a.environmentCallsHandled == a.guestSteps
    requires b.instructionsRetired + b.environmentCallsHandled == b.guestSteps
    requires c.instructionsRetired + c.environmentCallsHandled == c.guestSteps
    requires a.guestSteps + b.guestSteps < 0x1_0000_0000_0000_0000
    ensures a.guestSteps + b.guestSteps + c.guestSteps < 0x1_0000_0000_0000_0000
            ==> Add(Add(a, b), c) == Add(a, Add(b, c))
  {
  }

  /** A run can be cut after any number of running, breakpoint-free steps. */
  lemma {:induction false} RunCut<E>(h: Handler<E>, g: Guest<E>, k: u64, limit: u64, breakpoints: seq<u32>)
    requires g.machine.Valid() && KeepsRunning(h, g, k) && k <= limit
    requires forall j: nat | j < k :: GuestAfter(h, g, j).machine.pc !in breakpoints
    ensures var rest := RunOf(h, GuestAfter(h, g, k), limit - k, breakpoints);
            RunOf(h, g, limit, breakpoints) == (rest.0, Preceded(StatisticsFor(h, g, k), rest.1))
    decreases k
  {
    hide GuestStep, StopOf, StepStatistics, RunOf, Preceded;
    if k == 0 {
      CutAtZero(h, g, limit, breakpoints);
    } else {
      var step := GuestStep(h, g);
      assert GuestAfter(h, g, 0) == g;
      RunUnfolds(h, g, limit, breakpoints);
      forall j: nat | j < k - 1 ensures GuestAfter(h, step.0, j).machine.pc !in breakpoints {
        assert GuestAfter(h, g, j + 1) == GuestAfter(h, step.0, j);
      }
      RunCut(h, step.0, k - 1, limit - 1, breakpoints);
      var rest := RunOf(h, GuestAfter(h, g, k), limit - k, breakpoints);
      AddAssociates(StepStatistics(step.1), StatisticsFor(h, step.0, k - 1), rest.1);
    }
  }

  lemma {:induction false} CutAtZero<E>(h: Handler<E>, g: Guest<E>, limit: u64, breakpoints: seq<u32>)
    requires g.machine.Valid()
    ensures GuestAfter(h, g, 0) == g && KeepsRunning(h, g, 0) && StatisticsFor(h, g, 0) == NO_STEPS
    ensures var run := RunOf(h, g, limit, breakpoints);
            run == (run.0, Preceded(NO_STEPS, run.1))
  {
    hide GuestStep, RunOf;
  }

  /** Session runs compose: a run that hit its limit, continued, is the longer run. */
  lemma {:induction false} RunsCompose<E>(h: Handler<E>, g: Guest<E>, a: u64, b: u64, breakpoints: seq<u32>)
    requires g.machine.Valid() && a + b < 0x1_0000_0000_0000_0000
    requires RunOf(h, g, a, breakpoints).1.stop == StepLimitReached
    ensures var first := RunOf(h, g, a, breakpoints);
            var second := RunOf(h, first.0, b, breakpoints);
            && first.1.statistics.guestSteps == a
            && RunOf(h, g, a + b, breakpoints) == (second.0, Preceded(first.1.statistics, second.1))
  {
    hide GuestStep, RunOf;
    RunMeaning(h, g, a, breakpoints);
    RunCut(h, g, a, a + b, breakpoints);
  }

  /** Breakpoints only ever cut a run short: one that was not stopped by a
      breakpoint is the run without breakpoints. */
  lemma {:induction false} BreakpointsDoNotDisturb<E>(h: Handler<E>, g: Guest<E>, limit: u64, breakpoints: seq<u32>)
    requires g.machine.Valid() && !RunOf(h, g, limit, breakpoints).1.stop.BreakpointReached?
    ensures RunOf(h, g, limit, breakpoints) == RunOf(h, g, limit, [])
    decreases limit
  {
    hide GuestStep, StopOf, StepStatistics;
    if limit > 0 && Continues(GuestStep(h, g).1) {
      BreakpointsDoNotDisturb(h, GuestStep(h, g).0, limit - 1, breakpoints);
    }
  }

  // --------------------------------------------------------------------- the class

  class ProgramSession<E(!new)> {
    const engine: ExecutionEngine
    const handler: Handler<E>
    var environment: E

    ghost predicate Valid()
      reads engine.state.registers
    {
      engine.Valid()
    }

    ghost function Snapshot(): (g: Guest<E>)
      reads this, engine, engine.state, engine.state.registers, engine.memory.bytes
    {
      Guest(engine.Machine(), environment, engine.observed)
    }

    constructor (engine: ExecutionEngine, handler: Handler<E>, environment: E)
      ensures this.engine == engine && this.handler == handler && this.environment == environment
    {
      this.engine := engine;
      this.handler := handler;
      this.environment := environment;
    }

    method CaptureEnvironmentCall(programCounter: u32) returns (call: EnvironmentCall)
      requires Valid()
      ensures call == Captured(engine.Machine(), programCounter)
      ensures |engine.state.Registers()| == 32
      ensures call.programCounter == programCounter && call.number == engine.state.Registers()[17]
      ensures |call.arguments| == 6 && forall i | 0 <= i < 6 :: call.arguments[i] == engine.state.Registers()[10 + i]
    {
      var arguments: seq<u32> := [];
      for index := 0 to 6
        invariant arguments == engine.state.Registers()[10..10 + index]
      {
        arguments := arguments + [engine.Register(10 + index)];
      }
      call := EnvironmentCall(programCounter, engine.Register(17), arguments);
    }

    method Step() returns (r: SessionStepResult)
      requires Valid()
      modifies this, engine, engine.state, engine.state.registers, engine.memory.bytes
      ensures Valid()
      ensures (Snapshot(), r) == GuestStep(handler, old(Snapshot()))
      ensures |engine.state.Registers()| == 32 && |old(engine.state.Registers())| == 32
      ensures match r
              case InstructionCompleted(o) =>
                environment == old(environment) && engine.observed == old(engine.observed) + [o]
              case EnvironmentCallResumed(call, value, pc) =>
                && engine.observed == old(engine.observed) && engine.memory.Contents() == old(engine.memory.Contents())
                && (environment, Resume(value)) == handler(old(environment), call, engine.memory.Contents())
                && pc == engine.state.programCounter == (old(engine.state.programCounter) + 4) % 0x1_0000_0000
                && engine.state.Registers()[10] == value
                && forall i | 0 <= i < 32 && i != 10 :: engine.state.Registers()[i] == old(engine.state.Registers())[i]
              case Exited(call, code) =>
                && engine.Machine() == old(engine.Machine()) && engine.observed == old(engine.observed)
                && (environment, Exit(code)) == handler(old(environment), call, engine.memory.Contents())
              case UnhandledEnvironmentCall(call, trap) =>
                && engine.Machine() == old(engine.Machine()) && engine.observed == old(engine.observed)
                && (environment, NotHandled) == handler(old(environment), call, engine.memory.Contents())
                && trap.cause.EnvironmentCallFromUserMode? && trap.programCounter == engine.state.programCounter
              case SessionTrap(trap) =>
                && engine.Machine() == old(engine.Machine()) && engine.observed == old(engine.observed)
                && environment == old(environment) && !trap.cause.EnvironmentCallFromUserMode?
      ensures !r.InstructionCompleted? && !r.SessionTrap? ==>
                var call := if r.EnvironmentCallResumed? then r.resumed else if r.Exited? then r.exit else r.unhandled;
                && call.programCounter == old(engine.state.programCounter)
                && call.number == old(engine.state.Registers())[17]
                && |call.arguments| == 6
                && forall i | 0 <= i < 6 :: call.arguments[i] == old(engine.state.Registers())[10 + i]
    {
      hide Report, Next;
      ghost var before := engine.Machine();
      var executed := engine.Step();
      match executed {
        case Completed(o) =>
          return InstructionCompleted(o);
        case Faulted(trap) =>
          TrapsAreInert(before);
          assert engine.Machine() == before && engine.observed == old(engine.observed);
          if trap.cause != Isa.EnvironmentCallFromUserMode {
            return SessionTrap(trap);
          }
          var call := CaptureEnvironmentCall(trap.programCounter);
          var (newEnvironment, decision) := HandleCall(call);
          environment := newEnvironment;
          match decision {
            case Resume(value) =>
              var _ := engine.state.WriteRegister(10, value);
              engine.state.AdvanceProgramCounter(4);
              return EnvironmentCallResumed(call, value, engine.state.programCounter);
            case Exit(code) =>
              return Exited(call, code);
            case NotHandled =>
              return UnhandledEnvironmentCall(call, trap);
          }
      }
    }

    /** The handler sees a read-only snapshot of memory. */
    function HandleCall(call: EnvironmentCall): (E, EnvironmentCallResult)
      reads this, engine.memory.bytes
    {
      handler(environment, call, GuestMemory.Image(engine.memory.base, engine.memory.bytes[..]))
    }

    method Run(stepLimit: u64, breakpoints: seq<u32>) returns (r: SessionRunResult)
      requires Valid()
      modifies this, engine, engine.state, engine.state.registers, engine.memory.bytes
      ensures Valid()
      ensures (Snapshot(), r) == RunOf(handler, old(Snapshot()), stepLimit, breakpoints)
    {
      hide GuestStep, RunOf, Preceded;
      var statistics := NO_STEPS;
      ghost var whole := RunOf(handler, Snapshot(), stepLimit, breakpoints);
      CutAtZero(handler, Snapshot(), stepLimit, breakpoints);
      while statistics.guestSteps < stepLimit
        invariant Valid()
        invariant statistics.instructionsRetired + statistics.environmentCallsHandled == statistics.guestSteps
        invariant statistics.guestSteps <= stepLimit
        invariant var rest := RunOf(handler, Snapshot(), stepLimit - statistics.guestSteps, breakpoints);
                  whole == (rest.0, Preceded(statistics, rest.1))
        decreases stepLimit - statistics.guestSteps
      {
        RunContinues(handler, Snapshot(), statistics, stepLimit - statistics.guestSteps, breakpoints);
        if engine.state.programCounter in breakpoints {
          return SessionRunResult(statistics, BreakpointReached(engine.state.programCounter));
        }
        var result := Step();
        match result {
          case InstructionCompleted(_) =>
            statistics := statistics.(guestSteps := statistics.guestSteps + 1,
                                      instructionsRetired := statistics.instructionsRetired + 1);
          case EnvironmentCallResumed(_, _, _) =>
            statistics := statistics.(guestSteps := statistics.guestSteps + 1,
                                      environmentCallsHandled := statistics.environmentCallsHandled + 1);
          case Exited(call, code) =>
            statistics := statistics.(guestSteps := statistics.guestSteps + 1,
                                      environmentCallsHandled := statistics.environmentCallsHandled + 1);
            return SessionRunResult(statistics, RunExited(call, code));
          case UnhandledEnvironmentCall(call, trap) =>
            return SessionRunResult(statistics, RunUnhandledEnvironmentCall(call, trap));
          case SessionTrap(trap) =>
            return SessionRunResult(statistics, SessionRunTrapped(trap));
        }
      }
      RunContinues(handler, Snapshot(), statistics, 0, breakpoints);
      r := SessionRunResult(statistics, StepLimitReached);
    }
  }

  /** What a run with these statistics behind it still amounts to. */
  lemma {:induction false} RunContinues<E>(h: Handler<E>, g: Guest<E>, done: SessionStatistics, remaining: u64,
                                           breakpoints: seq<u32>)
    requires g.machine.Valid() && done.guestSteps + remaining < 0x1_0000_0000_0000_0000
    requires done.instructionsRetired + done.environmentCallsHandled == done.guestSteps
    ensures var run := RunOf(h, g, remaining, breakpoints);
            var total := Preceded(done, run.1);
            var step := GuestStep(h, g);
            if remaining == 0 then run.0 == g && total == SessionRunResult(done, StepLimitReached)
            else if g.machine.pc in breakpoints then
              run.0 == g && total == SessionRunResult(done, BreakpointReached(g.machine.pc))
            else if Continues(step.1) then
              var rest := RunOf(h, step.0, remaining - 1, breakpoints);
              run.0 == rest.0 && total == Preceded(Add(done, StepStatistics(step.1)), rest.1)
            else
              run.0 == step.0 && total == SessionRunResult(Add(done, StepStatistics(step.1)), StopOf(step.1))
  {
    hide GuestStep, RunOf, StopOf, StepStatistics;
    RunUnfolds(h, g, remaining, breakpoints);
    if remaining > 0 && g.machine.pc !in breakpoints && Continues(GuestStep(h, g).1) {
      var step := GuestStep(h, g);
      AddAssociates(done, StepStatistics(step.1), RunOf(h, step.0, remaining - 1, breakpoints).1);
    }
  }

  lemma {:induction false} TrapsAreInert(m: Machine)
    requires m.Valid() && Report(m).Faulted?
    ensures Next(m) == m && Report(m).trap.programCounter == m.pc
  {
    hide Isa.Step;
  }
}
