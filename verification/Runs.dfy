/** Facts about whole runs: alignment of the program counter, precision of traps,
    and what one step may change. */
module Runs {
  import opened Options
  import opened Words
  import opened GuestMemory
  import Cpu
  import opened Instructions
  import opened Engine
  import opened Sessions
  import CacheModel
  import Isa

  // ------------------------------------------------------------------- alignment

  lemma {:induction false} EvenField(half: nat, n: nat, size: nat)
    requires n >= 1 && Pow2(n) == 2 * size
    ensures SignedField(2 * half, n) % 2 == 0
  {
    hide Pow2;
    var v := SignedField(2 * half, n);
    var h := if v == 2 * half then half else half - size;
    DivModUnique(v, 2, h, 0);
  }

  /** Branch and jump offsets are even. */
  lemma {:induction false} OffsetsAreEven(raw: u32)
    ensures ImmB(raw) % 2 == 0 && ImmJ(raw) % 2 == 0
  {
    hide Pow2, Bits, SignedField;
    Pow2Values();
    EvenField(Bits(raw, 31, 31) * 0x800 + Bits(raw, 7, 7) * 0x400 + Bits(raw, 30, 25) * 0x10 + Bits(raw, 11, 8),
              13, 0x1000);
    EvenField(Bits(raw, 31, 31) * 0x8_0000 + Bits(raw, 19, 12) * 0x800 + Bits(raw, 20, 20) * 0x400
              + Bits(raw, 30, 21), 21, 0x10_0000);
  }

  lemma {:induction false} EvenTarget(a: int, offset: int)
    requires a % 4 == 0 && offset % 2 == 0
    ensures Wrap(a + offset) % 2 == 0
  {
    var half := 2 * (a / 4) + offset / 2;
    assert a + offset == 2 * half;
    DivModUnique(a + offset, 2, half, 0);
    ModSplit(a + offset, 2, 0x8000_0000);
  }

  lemma {:induction false} SequentialAligned(m: Machine)
    requires m.pc % 4 == 0
    ensures Isa.Sequential(m) % 4 == 0
  {
  }

  /** The operations that can leave the sequential path. */
  predicate Transfers(i: Isa.Operation) {
    i.Jump? || i.JumpRegister? || i.BranchIf?
  }

  lemma {:induction false} JumpAligned(m: Machine, rd: Isa.Reg, target: u32, kind: Isa.ControlFlowKind)
    requires m.Valid() && target % 2 == 0
    ensures match Isa.JumpTo(m, rd, target, kind)
            case Retired(next, _, _) => next.pc % 4 == 0
            case Trapped(_, value) => value % 4 == 2
  {
    hide Wrap;
  }

  lemma {:induction false} BranchAligned(m: Machine, taken: bool, offset: int)
    requires m.pc % 4 == 0 && offset % 2 == 0
    ensures match Isa.ExecuteBranch(m, taken, offset)
            case Retired(next, _, _) => next.pc % 4 == 0
            case Trapped(_, value) => value % 4 == 2
  {
    hide Wrap;
    SequentialAligned(m);
    EvenTarget(m.pc, offset);
  }

  lemma {:induction false} ClearedIsEven(sum: int)
    ensures (sum - sum % 2) % 2 == 0
  {
  }

  lemma {:induction false} ExecuteAligned(raw: u32, m: Machine)
    requires m.Valid() && m.pc % 4 == 0
    ensures var i := Isa.Decode(raw);
            match Isa.Execute(i, raw, m)
            case Retired(next, _, _) => next.pc % 4 == 0
            case Trapped(cause, value) => cause == Isa.InstructionAddressMisaligned ==> Transfers(i) && value % 4 == 2
  {
    hide Isa.Compute, Isa.Holds, Image.Load, Image.Store, SignedField, Isa.Decode, Isa.JumpTo, Isa.ExecuteBranch;
    hide Wrap, Isa.Sequential;
    SequentialAligned(m);
    DecodedOffsets(raw);
    var i := Isa.Decode(raw);
    match i {
      case Jump(rd, offset) =>
        EvenTarget(m.pc, offset);
        JumpAligned(m, rd, Wrap(m.pc + offset), Isa.DirectJump);
      case JumpRegister(rd, rs1, offset) =>
        var sum := Wrap(m.regs[rs1] + offset);
        ClearedIsEven(sum);
        JumpAligned(m, rd, sum - sum % 2, Isa.IndirectJump);
      case BranchIf(cond, rs1, rs2, offset) =>
        BranchAligned(m, Isa.Holds(cond, m.regs[rs1], m.regs[rs2]), offset);
      case _ =>
    }
  }

  lemma {:induction false} DecodedOffsets(raw: u32)
    ensures var i := Isa.Decode(raw);
            && (i.Jump? ==> i.offset % 2 == 0)
            && (i.BranchIf? ==> i.offset % 2 == 0)
  {
    hide Bits, ImmI, ImmS, ImmB, ImmU, ImmJ;
    OffsetsAreEven(raw);
  }

  /** From an aligned PC a fetch never reports misalignment, the next PC is
      aligned, and a misaligned-instruction trap carries a control-transfer target
      that is 2 modulo 4. */
  lemma {:induction false} StepKeepsAligned(m: Machine)
    requires m.Valid() && m.pc % 4 == 0
    ensures Next(m).pc % 4 == 0
    ensures match Isa.Step(m)
            case Retired(_, _, _) => true
            case Trapped(cause, value) =>
              cause == Isa.InstructionAddressMisaligned ==>
                m.memory.Load(m.pc, 4).Done? && Transfers(Isa.Decode(Fetched(m))) && value % 4 == 2
  {
    hide Isa.Execute, Isa.Decode;
    if m.memory.Load(m.pc, 4).Done? {
      ExecuteAligned(Fetched(m), m);
    }
  }

  /** One step of the bare engine, or one step of the session around it. */
  datatype Move = EngineMove | SessionMove

  function Moved<E>(h: Handler<E>, g: Guest<E>, moves: seq<Move>): (r: Guest<E>)
    requires g.machine.Valid()
    ensures r.machine.Valid()
  {
    hide GuestStep, Next;
    if moves == [] then g
    else
      var before := Moved(h, g, moves[..|moves| - 1]);
      if moves[|moves| - 1].EngineMove? then before.(machine := Next(before.machine)) else GuestStep(h, before).0
  }

  /** In every state reached from an aligned PC by any mix of engine and session
      steps, the PC is aligned and misaligned traps are about transfer targets. */
  lemma {:induction false} ReachableAligned<E>(h: Handler<E>, g: Guest<E>, moves: seq<Move>)
    requires g.machine.Valid() && g.machine.pc % 4 == 0
    ensures var m := Moved(h, g, moves).machine;
            && m.pc % 4 == 0
            && match Report(m)
               case Completed(o) => o.programCounter % 4 == 0 && o.nextProgramCounter % 4 == 0
               case Faulted(trap) =>
                 trap.cause == Isa.InstructionAddressMisaligned ==>
                   m.memory.Load(m.pc, 4).Done? && Transfers(Isa.Decode(Fetched(m))) && trap.value % 4 == 2
  {
    hide GuestStep, Isa.Step, Isa.Decode;
    if moves != [] {
      var earlier := moves[..|moves| - 1];
      ReachableAligned(h, g, earlier);
      StepKeepsAligned(Moved(h, g, earlier).machine);
      SessionStepAligned(h, Moved(h, g, earlier));
    }
    StepKeepsAligned(Moved(h, g, moves).machine);
    hide Moved;
  }

  lemma {:induction false} SessionStepAligned<E>(h: Handler<E>, g: Guest<E>)
    requires g.machine.Valid() && g.machine.pc % 4 == 0
    ensures GuestStep(h, g).0.machine.pc % 4 == 0
  {
    hide Report, Next, Captured;
    StepKeepsAligned(g.machine);
    SequentialAligned(g.machine);
  }

  // ------------------------------------------------------------- what a step changes

  /** All registers but one, and all bytes but those a store reports, are kept. */
  ghost predicate ChangesOnly(m: Machine, next: Machine, rd: Isa.Reg, data: Option<Isa.DataMemoryAccess>) {
    && Cpu.RegistersValid(m.regs) && Cpu.RegistersValid(next.regs)
    && (forall i | 0 <= i < Cpu.REGISTER_COUNT && i != rd :: next.regs[i] == m.regs[i])
    && (!IsStore(data) ==> next.memory == m.memory)
    && (IsStore(data) ==>
          && next.regs == m.regs
          && next.memory.base == m.memory.base && |next.memory.bytes| == |m.memory.bytes|
          && forall a: int | m.memory.Maps(a, 1)
                             && !(data.value.address <= a < data.value.address + data.value.width) ::
               next.memory.ByteAt(a) == m.memory.ByteAt(a))
  }

  predicate IsStore(data: Option<Isa.DataMemoryAccess>) {
    data.Some? && data.value.kind.StoreAccess?
  }

  /** A naturally aligned access of one, two or four mapped bytes. */
  predicate SoundAccess(memory: Image, access: Isa.DataMemoryAccess) {
    && (access.width == 1 || access.width == 2 || access.width == 4)
    && access.address % access.width == 0 && memory.Maps(access.address, access.width)
  }

  /** A retired instruction writes at most one register, never x0, and only the
      bytes of the store it reports; every access it reports is aligned and mapped. */
  lemma {:induction false} StepFrame(m: Machine)
    requires m.Valid() && Isa.Step(m).Retired?
    ensures exists rd: Isa.Reg :: ChangesOnly(m, Isa.Step(m).next, rd, Isa.Step(m).data)
    ensures Isa.Step(m).data.Some? ==> SoundAccess(m.memory, Isa.Step(m).data.value)
  {
    hide Isa.Decode, Isa.Compute, Isa.Holds, SignedField, ChangesOnly;
    var i := Isa.Decode(Fetched(m));
    var next, data := Isa.Step(m).next, Isa.Step(m).data;
    match i {
      case LoadUpper(rd, imm) => WriteChanges(m, rd, Wrap(imm), next, data);
      case AddUpperToPc(rd, imm) => WriteChanges(m, rd, Wrap(m.pc + imm), next, data);
      case OpImm(op, rd, rs1, imm) => WriteChanges(m, rd, Isa.Compute(op, m.regs[rs1], Wrap(imm)), next, data);
      case OpReg(op, rd, rs1, rs2) => WriteChanges(m, rd, Isa.Compute(op, m.regs[rs1], m.regs[rs2]), next, data);
      case Jump(rd, offset) => WriteChanges(m, rd, Isa.Sequential(m), next, data);
      case JumpRegister(rd, rs1, offset) => WriteChanges(m, rd, Isa.Sequential(m), next, data);
      case LoadFrom(width, signed, rd, rs1, offset) => WriteChanges(m, rd, next.regs[rd], next, data);
      case StoreTo(width, rs1, rs2, offset) => StoreChanges(m, width, Wrap(m.regs[rs1] + offset), m.regs[rs2]);
      case BranchIf(cond, rs1, rs2, offset) => WriteChanges(m, 0, 0, next, data);
      case Fence => WriteChanges(m, 0, 0, next, data);
      case _ =>
    }
  }

  lemma {:induction false} WriteChanges(m: Machine, rd: Isa.Reg, value: u32, next: Machine,
                                        data: Option<Isa.DataMemoryAccess>)
    requires m.Valid() && next.regs == Cpu.Written(m.regs, rd, value) && next.memory == m.memory && !IsStore(data)
    ensures ChangesOnly(m, next, rd, data)
  {
  }

  lemma {:induction false} StoreChanges(m: Machine, width: Isa.Width, address: u32, value: u32)
    requires m.Valid() && Isa.ExecuteStore(m, width, address, value).Retired?
    ensures var r := Isa.ExecuteStore(m, width, address, value);
            ChangesOnly(m, r.next, 0, r.data)
  {
    hide Image.Store, Image.Load, Pow2;
    StoreThenLoad(m.memory, address, width, value);
  }

  // --------------------------------------------------------------- one line each

  /** The first and last byte of an access share a line. */
  predicate InOneLine(address: u32, width: nat, line: nat)
    requires line > 0
  {
    (address + width - 1) / line == address / line
  }

  lemma {:induction false} AlignedInOneLine(address: u32, width: nat, line: nat)
    requires width == 1 || width == 2 || width == 4
    requires address % width == 0 && line >= 4 && IsPowerOfTwo(line)
    ensures InOneLine(address, width, line)
  {
    hide IsPowerOfTwo;
    CacheModel.AccessInOneLine(address, width, line);
  }

  /** The fetch of an observed instruction and its data access, if any. */
  predicate ObservationInOneLine(o: ExecutionObservation, line: nat)
    requires line > 0
  {
    hide InOneLine;
    && InOneLine(o.programCounter, 4, line)
    && match o.dataMemoryAccess
       case None => true
       case Some(access) => InOneLine(access.address, access.width, line)
  }

  /** A fetch or data access the engine reports lies inside one cache line, for
      every line size a cache can be built with. */
  lemma {:induction false} ObservedInOneLine(m: Machine, line: nat)
    requires m.Valid() && line >= 4 && IsPowerOfTwo(line) && Report(m).Completed?
    ensures ObservationInOneLine(Report(m).observation, line)
  {
    hide Isa.Execute, Isa.Decode, IsPowerOfTwo, ChangesOnly, Image.Maps, InOneLine;
    StepFrame(m);
    var data := Isa.Step(m).data;
    AlignedInOneLine(m.pc, 4, line);
    if data.Some? {
      AlignedInOneLine(data.value.address, data.value.width, line);
    }
  }

  /** Every observation of a run comes from the step it stands for. */
  lemma {:induction false} ObservationIs(m: Machine, n: nat, k: nat)
    requires m.Valid() && Retires(m, n) && k < n
    ensures |Observations(m, n)| == n && Observations(m, n)[k] == Report(After(m, k)).observation
    decreases n
  {
    hide Isa.Step;
    RetiresLess(m, n);
    if n > 1 {
      ObservationIs(m, n - 1, if k < n - 1 then k else 0);
    }
    LastReported(m, n);
  }

  lemma {:induction false} RetiresLess(m: Machine, n: nat)
    requires m.Valid() && Retires(m, n) && n > 0
    ensures Retires(m, n - 1)
  {
    hide Isa.Step, After;
  }

  lemma {:induction false} LastReported(m: Machine, n: nat)
    requires m.Valid() && Retires(m, n) && n > 0
    ensures Report(After(m, n - 1)).Completed?
    ensures Observations(m, n) == Observations(m, n - 1) + [Report(After(m, n - 1)).observation]
  {
    hide Isa.Step, After;
  }

  /** Each observation of a run names the next one's program counter. */
  lemma {:induction false} ObservationsChain(m: Machine, n: nat, k: nat)
    requires m.Valid() && Retires(m, n) && k + 1 < n
    ensures |Observations(m, n)| == n
    ensures Observations(m, n)[k].nextProgramCounter == Observations(m, n)[k + 1].programCounter
  {
    hide Isa.Step, Observations;
    ObservationIs(m, n, k);
    ObservationIs(m, n, k + 1);
    assert After(m, k + 1) == Next(After(m, k));
    hide After;
  }

  /** The whole trace of a run is made of single-line fetches and accesses. */
  lemma {:induction false} TraceInSingleLines(m: Machine, n: nat, k: nat, line: nat)
    requires m.Valid() && Retires(m, n) && k < n && line >= 4 && IsPowerOfTwo(line)
    ensures |Observations(m, n)| == n
    ensures ObservationInOneLine(Observations(m, n)[k], line)
  {
    hide Isa.Step, Observations, IsPowerOfTwo, ObservationInOneLine;
    ObservationIs(m, n, k);
    ObservedInOneLine(After(m, k), line);
  }
}
