/** The fetch-decode-execute engine (src/execution_engine.cpp): one step updates
    a CpuState and a Memory in place, and is proved to be the ISA's step. */
module Engine {
  import opened Options
  import opened Words
  import opened GuestMemory
  import Cpu
  import opened Instructions
  import opened EngineArithmetic
  import Isa

  type Machine = Isa.Machine
  type TrapCause = Isa.TrapCause

  datatype Trap = Trap(cause: TrapCause, programCounter: u32, value: u32)

  datatype ExecutionObservation = ExecutionObservation(
    instruction: DecodedInstruction, programCounter: u32, nextProgramCounter: u32,
    dataMemoryAccess: Option<Isa.DataMemoryAccess>, controlFlow: Option<Isa.ControlFlow>)

  datatype StepResult = Completed(observation: ExecutionObservation) | Faulted(trap: Trap)

  datatype RunResult =
    | InstructionLimitReached(instructionsExecuted: u64)
    | RunTrapped(instructionsExecuted: u64, trap: Trap)

  // --------------------------------------------------------------- specification

  /** The word at the program counter, when there is one. */
  function Fetched(m: Machine): u32 {
    match m.memory.Load(m.pc, 4)
    case Done(raw) => raw
    case Misaligned(_, _, _) => 0
    case OutOfBounds(_, _, _) => 0
  }

  function DecodedOrBlank(raw: u32): DecodedInstruction {
    match DecodeInstruction(raw)
    case Some(d) => d
    case None => DecodedInstruction(raw, 0, Load, I, 0, 0, 0, 0, 0)
  }

  /** What a caller and an observer are told about one ISA step. */
  function Report(m: Machine): StepResult
    requires m.Valid()
  {
    match Isa.Step(m)
    case Retired(next, data, flow) =>
      Completed(ExecutionObservation(DecodedOrBlank(Fetched(m)), m.pc, next.pc, data, flow))
    case Trapped(cause, value) => Faulted(Trap(cause, m.pc, value))
  }

  /** The architectural state after one ISA step: a trap changes nothing. */
  function Next(m: Machine): (next: Machine)
    requires m.Valid()
    ensures next.Valid()
  {
    match Isa.Step(m)
    case Retired(next, _, _) => StepKeepsValid(m); next
    case Trapped(_, _) => m
  }

  lemma {:induction false} StepKeepsValid(m: Machine)
    requires m.Valid() && Isa.Step(m).Retired?
    ensures Isa.Step(m).next.Valid() && Isa.Step(m).next.memory.base == m.memory.base
    ensures |Isa.Step(m).next.memory.bytes| == |m.memory.bytes|
  {
    hide Isa.Decode, Isa.Compute, Pow2;
  }

  function After(m: Machine, n: nat): (r: Machine)
    requires m.Valid()
    ensures r.Valid()
  {
    if n == 0 then m else Next(After(m, n - 1))
  }

  /** No trap in the first n steps. */
  ghost predicate Retires(m: Machine, n: nat)
    requires m.Valid()
  {
    forall k: nat | k < n :: Isa.Step(After(m, k)).Retired?
  }

  /** What an observer attached for n untrapped steps has seen. */
  function Observations(m: Machine, n: nat): (s: seq<ExecutionObservation>)
    requires m.Valid()
  {
    if n == 0 then []
    else Observations(m, n - 1)
         + (match Report(After(m, n - 1)) case Completed(o) => [o] case Faulted(_) => [])
  }

  // ----------------------------------------- what each opcode's code path computes

  /** A word with no major opcode is outside the instruction set. */
  lemma {:induction false} UndecodedIsUnsupported(raw: u32)
    requires DecodeInstruction(raw).None?
    ensures Isa.Decode(raw) == Isa.Unsupported
  {
    hide DecodeInstruction, Isa.DecodeBranch, Isa.DecodeLoad, Isa.DecodeStore, Isa.DecodeImmediate;
    hide Isa.DecodeRegister, Isa.DecodeSystem;
    DecodeMeaning(raw);
    assert OpcodeBits(Load) == 0x03 && OpcodeBits(MiscMemory) == 0x0F && OpcodeBits(OpImmediate) == 0x13;
    assert OpcodeBits(Auipc) == 0x17 && OpcodeBits(Store) == 0x23 && OpcodeBits(Op) == 0x33;
    assert OpcodeBits(Lui) == 0x37 && OpcodeBits(Branch) == 0x63 && OpcodeBits(Jalr) == 0x67;
    assert OpcodeBits(Jal) == 0x6F && OpcodeBits(System) == 0x73;
  }

  /** The decoded record holds the fields the ISA reads from the word. */
  lemma {:induction false} DecodedIs(raw: u32, d: DecodedInstruction)
    requires DecodeInstruction(raw) == Some(d)
    ensures raw % 0x80 == OpcodeBits(d.opcode) && d == Expected(raw, d.opcode) && d.InRange() && d.raw == raw
  {
    hide DecodeInstruction, Bits;
    DecodeMeaning(raw);
    OpcodeUnique(raw, d.opcode);
  }

  lemma {:induction false} FieldsAre(raw: u32, d: DecodedInstruction)
    requires DecodeInstruction(raw) == Some(d)
    ensures d.opcode in {Load, Store} ==>
              d.function3 == Isa.Funct3(raw) && d.source1 == Isa.Rs1(raw)
    ensures d.opcode == Load ==> d.destination == Isa.Rd(raw) && d.immediate == Wrap(ImmI(raw))
    ensures d.opcode == Store ==> d.source2 == Isa.Rs2(raw) && d.immediate == Wrap(ImmS(raw))
  {
    hide DecodeInstruction, Bits, ImmI, ImmS, ImmB, ImmU, ImmJ;
    DecodedIs(raw, d);
  }

  /** The five-bit shift amount inside an I-format immediate. */
  lemma {:induction false} ImmediateShiftAmount(raw: u32)
    ensures Wrap(ImmI(raw)) % 32 == Bits(raw, 24, 20)
  {
    BitsTable(raw);
    Pow2Values();
    hide Pow2, Bits;
    var t := raw / 0x10_0000;
    assert t < 0x1000;
    assert Wrap(ImmI(raw)) % 32 == t % 32;
  }

  lemma {:induction false} ImmediateFieldsAre(raw: u32, d: DecodedInstruction)
    requires DecodeInstruction(raw) == Some(d) && d.opcode == OpImmediate
    ensures d.InRange() && d.raw == raw && raw % 0x80 == 0x13
    ensures d.function3 == Isa.Funct3(raw) && d.function7 == Isa.Funct7(raw) && d.destination == Isa.Rd(raw)
    ensures d.source1 == Isa.Rs1(raw) && d.immediate == Wrap(ImmI(raw)) && Wrap(Isa.Rs2(raw)) == d.immediate % 32
  {
    hide DecodeInstruction, Bits, ImmI;
    DecodedIs(raw, d);
    ImmediateShiftAmount(raw);
  }

  lemma {:induction false} OpImmediatePath(raw: u32, d: DecodedInstruction, m: Machine)
    requires DecodeInstruction(raw) == Some(d) && d.opcode == OpImmediate && m.Valid()
    ensures d.InRange()
    ensures Isa.Execute(Isa.Decode(raw), raw, m)
            == match ExecuteOpImmediate(d, m.regs[d.source1])
               case Some(v) => Isa.Retired(Isa.SetRegister(m, d.destination, v), None, None)
               case None => Isa.Trapped(Isa.IllegalInstruction, raw)
  {
    hide DecodeInstruction, ImmI, ExecuteOpImmediate, Isa.Compute, Isa.SetRegister, Wrap;
    hide Isa.Rd, Isa.Rs1, Isa.Rs2, Isa.Funct3, Isa.Funct7;
    hide Isa.DecodeBranch, Isa.DecodeLoad, Isa.DecodeStore, Isa.DecodeRegister, Isa.DecodeSystem;
    ImmediateFieldsAre(raw, d);
    WrapTwice(ImmI(raw));
    OpImmediateMeaning(d, m.regs[d.source1]);
  }

  lemma {:induction false} WrapTwice(x: int)
    ensures Wrap(Wrap(x)) == Wrap(x)
  {
  }

  lemma {:induction false} OpPath(raw: u32, d: DecodedInstruction, m: Machine)
    requires DecodeInstruction(raw) == Some(d) && d.opcode == Op && m.Valid()
    ensures d.InRange()
    ensures Isa.Execute(Isa.Decode(raw), raw, m)
            == match ExecuteOp(d, m.regs[d.source1], m.regs[d.source2])
               case Some(v) => Isa.Retired(Isa.SetRegister(m, d.destination, v), None, None)
               case None => Isa.Trapped(Isa.IllegalInstruction, raw)
  {
    hide DecodeInstruction, Bits;
    DecodedIs(raw, d);
    OpMeaning(d, m.regs[d.source1], m.regs[d.source2]);
    hide ExecuteOp, Isa.Compute, Isa.RegisterOperation;
    assert Isa.Decode(raw) == Isa.DecodeRegister(raw);
    hide Isa.Decode;
  }

  lemma {:induction false} BranchFieldsAre(raw: u32, d: DecodedInstruction)
    requires DecodeInstruction(raw) == Some(d) && d.opcode == Branch
    ensures d.InRange() && d.raw == raw && raw % 0x80 == 0x63 && d.immediate == Wrap(ImmB(raw))
    ensures d.function3 == Isa.Funct3(raw) && d.source1 == Isa.Rs1(raw) && d.source2 == Isa.Rs2(raw)
  {
    hide DecodeInstruction, Bits, ImmB;
    DecodedIs(raw, d);
  }

  lemma {:induction false} BranchPath(raw: u32, d: DecodedInstruction, m: Machine)
    requires DecodeInstruction(raw) == Some(d) && d.opcode == Branch && m.Valid()
    ensures d.InRange()
    ensures Isa.Execute(Isa.Decode(raw), raw, m)
            == match EvaluateBranch(d, m.regs[d.source1], m.regs[d.source2])
               case Some(taken) => Isa.ExecuteBranch(m, taken, d.immediate)
               case None => Isa.Trapped(Isa.IllegalInstruction, raw)
  {
    hide DecodeInstruction, ImmB, EvaluateBranch, Isa.Holds, Isa.BranchCondition, Wrap;
    hide Isa.Rs1, Isa.Rs2, Isa.Funct3, Isa.Sequential;
    hide Isa.DecodeLoad, Isa.DecodeStore, Isa.DecodeImmediate, Isa.DecodeRegister, Isa.DecodeSystem;
    BranchFieldsAre(raw, d);
    BranchMeaning(d, m.regs[d.source1], m.regs[d.source2]);
    WrapSum(m.pc, ImmB(raw));
  }

  /** Adding an already wrapped offset and wrapping again changes nothing. */
  lemma {:induction false} WrapSum(a: u32, offset: int)
    ensures Wrap(a + Wrap(offset)) == Wrap(a + offset)
  {
    ModAdd(a + Wrap(offset), 0x1_0000_0000, offset / 0x1_0000_0000);
  }

  lemma {:induction false} UpperPath(raw: u32, d: DecodedInstruction, m: Machine)
    requires DecodeInstruction(raw) == Some(d) && (d.opcode == Lui || d.opcode == Auipc) && m.Valid()
    ensures d.InRange()
    ensures Isa.Execute(Isa.Decode(raw), raw, m)
            == Isa.Retired(Isa.SetRegister(m, d.destination,
                                           if d.opcode == Lui then d.immediate else Wrap(m.pc + d.immediate)),
                           None, None)
  {
    hide DecodeInstruction, Bits;
    DecodedIs(raw, d);
    WrapSum(m.pc, ImmU(raw));
    hide ImmU;
  }

  lemma {:induction false} JalPath(raw: u32, d: DecodedInstruction, m: Machine)
    requires DecodeInstruction(raw) == Some(d) && d.opcode == Jal && m.Valid()
    ensures d.InRange()
    ensures Isa.Execute(Isa.Decode(raw), raw, m)
            == Isa.JumpTo(m, d.destination, Wrap(m.pc + d.immediate), Isa.DirectJump)
  {
    hide DecodeInstruction, Bits, ImmJ, Isa.JumpTo;
    DecodedIs(raw, d);
    WrapSum(m.pc, ImmJ(raw));
  }

  lemma {:induction false} JalrPath(raw: u32, d: DecodedInstruction, m: Machine)
    requires DecodeInstruction(raw) == Some(d) && d.opcode == Jalr && m.Valid()
    ensures d.InRange()
    ensures Isa.Execute(Isa.Decode(raw), raw, m)
            == if d.function3 != 0 then Isa.Trapped(Isa.IllegalInstruction, raw)
               else Isa.JumpTo(m, d.destination, JalrTarget(m.regs[d.source1], d.immediate), Isa.IndirectJump)
  {
    hide DecodeInstruction, Bits, ImmI, BitAnd, Isa.JumpTo;
    DecodedIs(raw, d);
    WrapSum(m.regs[d.source1], ImmI(raw));
    ClearLowBit(Wrap(m.regs[d.source1] + d.immediate));
  }

  function JalrTarget(base: u32, offset: u32): u32 {
    BitAnd(Wrap(base + offset), 0xFFFF_FFFE)
  }

  lemma {:induction false} ClearLowBit(x: u32)
    ensures BitAnd(x, 0xFFFF_FFFE) == x - x % 2
  {
    Pow2Values();
    hide BitAnd, Pow2;
    MaskHigh(x, 1, 32, 2, 0xFFFF_FFFE);
  }

  lemma {:induction false} AlignmentTest(x: u32)
    ensures BitAnd(x, 0x3) == x % 4
  {
    Pow2Values();
    hide BitAnd, Pow2;
    MaskIs(x, 2, 4);
  }

  lemma {:induction false} LoadPath(raw: u32, d: DecodedInstruction, m: Machine)
    requires DecodeInstruction(raw) == Some(d) && d.opcode == Load && m.Valid()
    ensures d.InRange()
    ensures Isa.Execute(Isa.Decode(raw), raw, m)
            == var address := Wrap(m.regs[d.source1] + d.immediate);
               match LoadWord(d, m.memory, address)
               case Loaded(v) =>
                 Isa.Retired(Isa.SetRegister(m, d.destination, v),
                             Some(Isa.DataMemoryAccess(Isa.LoadAccess, address, DataAccessWidth(d))), None)
               case LoadFailed(cause, value) => Isa.Trapped(cause, value)
  {
    hide DecodeInstruction, Bits, ImmI, Isa.SetRegister, SignedField, Expected, Isa.Rd, Isa.Rs1, Isa.Funct3;
    hide Isa.DecodeStore, Isa.DecodeBranch, Isa.DecodeImmediate, Isa.DecodeRegister, Isa.DecodeSystem;
    hide Image.Load;
    DecodedIs(raw, d);
    FieldsAre(raw, d);
    WrapSum(m.regs[d.source1], ImmI(raw));
    assert Isa.Decode(raw) == Isa.DecodeLoad(raw);
  }

  lemma {:induction false} StorePath(raw: u32, d: DecodedInstruction, m: Machine)
    requires DecodeInstruction(raw) == Some(d) && d.opcode == Store && m.Valid()
    ensures d.InRange()
    ensures Isa.Execute(Isa.Decode(raw), raw, m)
            == if d.function3 > 2 then Isa.Trapped(Isa.IllegalInstruction, raw)
               else Isa.ExecuteStore(m, DataAccessWidth(d), Wrap(m.regs[d.source1] + d.immediate), m.regs[d.source2])
  {
    hide DecodeInstruction, Bits, ImmS, Isa.ExecuteStore, Expected, Isa.Rs1, Isa.Rs2, Isa.Funct3;
    hide Isa.DecodeLoad, Isa.DecodeBranch, Isa.DecodeImmediate, Isa.DecodeRegister, Isa.DecodeSystem;
    DecodedIs(raw, d);
    FieldsAre(raw, d);
    WrapSum(m.regs[d.source1], ImmS(raw));
    assert Isa.Decode(raw) == Isa.DecodeStore(raw);
  }

  lemma {:induction false} SystemPath(raw: u32, d: DecodedInstruction, m: Machine)
    requires DecodeInstruction(raw) == Some(d) && (d.opcode == MiscMemory || d.opcode == System) && m.Valid()
    ensures Isa.Execute(Isa.Decode(raw), raw, m)
            == if d.opcode == MiscMemory && d.function3 == 0 then Isa.Retired(m.(pc := Isa.Sequential(m)), None, None)
               else if raw == 0x0000_0073 then Isa.Trapped(Isa.EnvironmentCallFromUserMode, 0)
               else if raw == 0x0010_0073 then Isa.Trapped(Isa.Breakpoint, 0)
               else Isa.Trapped(Isa.IllegalInstruction, raw)
  {
    hide DecodeInstruction, Bits;
    DecodedIs(raw, d);
  }

  // ---------------------------------------------------------------------- load path

  function DataAccessWidth(d: DecodedInstruction): (w: u8)
    ensures d.function3 in {0, 1, 2, 4, 5} ==> w in {1, 2, 4}
  {
    match d.function3
    case 0 => 1
    case 4 => 1
    case 1 => 2
    case 5 => 2
    case 2 => 4
    case _ => 0
  }

  datatype LoadResult = Loaded(value: u32) | LoadFailed(cause: TrapCause, value: u32)

  /** The reference for a load instruction: width and extension by function3. */
  function LoadWord(d: DecodedInstruction, memory: Image, address: u32): LoadResult {
    var width := DataAccessWidth(d);
    if width == 0 then LoadFailed(Isa.IllegalInstruction, d.raw)
    else
      match memory.Load(address, width)
      case Done(v) => Loaded(if d.function3 < 4 then Wrap(SignedField(v, 8 * width)) else Wrap(v))
      case Misaligned(_, _, _) => LoadFailed(Isa.LoadAddressMisaligned, address)
      case OutOfBounds(_, _, _) => LoadFailed(Isa.LoadAccessFault, address)
  }

  function FromAccess(access: Access<u32>, address: u32): LoadResult {
    match access
    case Done(v) => Loaded(v)
    case Misaligned(_, _, _) => LoadFailed(Isa.LoadAddressMisaligned, address)
    case OutOfBounds(_, _, _) => LoadFailed(Isa.LoadAccessFault, address)
  }

  class ExecutionEngine {
    const state: Cpu.CpuState
    const memory: Memory
    /** Everything the attached observer has been told, in order. */
    var observed: seq<ExecutionObservation>

    ghost predicate Valid()
      reads state.registers
    {
      state.Valid() && memory.Valid() && state.registers as object != memory.bytes
    }

    ghost function Machine(): (m: Machine)
      reads state, state.registers, memory.bytes
    {
      Isa.Machine(state.Registers(), state.programCounter, memory.Contents())
    }

    constructor (state: Cpu.CpuState, memory: Memory)
      ensures this.state == state && this.memory == memory && observed == []
    {
      this.state := state;
      this.memory := memory;
      observed := [];
    }

    function Register(index: nat): (v: u32)
      requires Valid() && index < Cpu.REGISTER_COUNT
      reads state, state.registers
      ensures v == state.Registers()[index]
    {
      state.ReadRegister(index).value
    }

    function InstructionTrap(cause: TrapCause, value: u32): StepResult
      reads state
    {
      Faulted(Trap(cause, state.programCounter, value))
    }

    method ExecuteLoad(d: DecodedInstruction, address: u32) returns (r: LoadResult)
      requires memory.Valid() && d.InRange()
      ensures r == LoadWord(d, memory.Contents(), address)
    {
      match d.function3 {
        case 0 =>
          var access := memory.Read8(address);
          if access.Done? {
            SignExtendByteMeaning(access.value);
            return Loaded(SignExtendByte(access.value));
          }
          r := FromAccess(access, address);
        case 1 =>
          var access := memory.Read16(address);
          if access.Done? {
            SignExtendHalfwordMeaning(access.value);
            return Loaded(SignExtendHalfword(access.value));
          }
          r := FromAccess(access, address);
        case 2 =>
          WholeWord(memory.Contents(), address);
          r := FromAccess(memory.Read32(address), address);
        case 4 =>
          r := FromAccess(memory.Read8(address), address);
        case 5 =>
          r := FromAccess(memory.Read16(address), address);
        case _ =>
          r := LoadFailed(Isa.IllegalInstruction, d.raw);
      }
    }

    /** None is success. */
    method ExecuteStore(d: DecodedInstruction, address: u32, value: u32) returns (r: Option<(TrapCause, u32)>)
      requires memory.Valid() && d.InRange()
      modifies memory.bytes
      ensures r.None? ==>
                d.function3 <= 2
                && old(memory.Contents()).Store(address, DataAccessWidth(d), value) == Done(memory.Contents())
      ensures r.Some? ==> memory.Contents() == old(memory.Contents())
      ensures r.Some? ==>
                if d.function3 > 2 then r.value == (Isa.IllegalInstruction, d.raw)
                else match memory.Contents().Store(address, DataAccessWidth(d), value)
                     case Misaligned(_, _, _) => r.value == (Isa.StoreAddressMisaligned, address)
                     case OutOfBounds(_, _, _) => r.value == (Isa.StoreAccessFault, address)
                     case Done(_) => false
    {
      var access: Access<()>;
      NarrowStores(value);
      hide ToBytes, BitAnd;
      match d.function3 {
        case 0 => access := memory.Write8(address, BitAnd(value, 0xFF));
        case 1 => access := memory.Write16(address, BitAnd(value, 0xFFFF));
        case 2 => access := memory.Write32(address, value);
        case _ => return Some((Isa.IllegalInstruction, d.raw));
      }
      match access {
        case Misaligned(_, _, _) => return Some((Isa.StoreAddressMisaligned, address));
        case OutOfBounds(_, _, _) => return Some((Isa.StoreAccessFault, address));
        case Done(_) => return None;
      }
    }

    method Step() returns (r: StepResult)
      requires Valid()
      modifies `observed, state, state.registers, memory.bytes
      ensures Valid()
      ensures r == Report(old(Machine())) && Machine() == Next(old(Machine()))
      ensures observed == old(observed) + (if r.Completed? then [r.observation] else [])
    {
      ghost var m := Machine();
      var programCounter := state.programCounter;
      AlignmentTest(programCounter);
      if BitAnd(programCounter, 0x3) != 0 {
        return InstructionTrap(Isa.InstructionAddressMisaligned, programCounter);
      }
      var fetch := memory.Read32(programCounter);
      if !fetch.Done? {
        return InstructionTrap(Isa.InstructionAccessFault, programCounter);
      }
      var raw := fetch.value;
      assert m.memory.Load(m.pc, 4) == Done(raw);
      var decoded := DecodeInstruction(raw);
      if decoded.None? {
        UndecodedIsUnsupported(raw);
        return InstructionTrap(Isa.IllegalInstruction, raw);
      }
      r := ExecuteDecoded(decoded.value, raw);
    }

    /** The part of a step after decoding: compute the effects, then commit. */
    method ExecuteDecoded(d: DecodedInstruction, raw: u32) returns (r: StepResult)
      requires Valid() && DecodeInstruction(raw) == Some(d)
      requires Machine().pc % 4 == 0 && Machine().memory.Load(Machine().pc, 4) == Done(raw)
      modifies `observed, state, state.registers, memory.bytes
      ensures Valid()
      ensures r == Report(old(Machine())) && Machine() == Next(old(Machine()))
      ensures observed == old(observed) + (if r.Completed? then [r.observation] else [])
    {
      hide DecodeInstruction, Expected, Isa.Decode, Isa.Execute, ExecuteOp, ExecuteOpImmediate, EvaluateBranch;
      hide BitAnd, LoadWord, Image.Load, Image.Store;
      ghost var m := Machine();
      DecodedIs(raw, d);
      ghost var outcome := Isa.Step(m);
      assert outcome == Isa.Execute(Isa.Decode(raw), raw, m);

      var programCounter := state.programCounter;
      var sequentialProgramCounter := Wrap(programCounter + 4);
      var nextProgramCounter := sequentialProgramCounter;
      var destinationValue: Option<u32> := None;
      var dataMemoryAccess: Option<Isa.DataMemoryAccess> := None;
      var controlFlow: Option<Isa.ControlFlow> := None;
      var supported := false;

      match d.opcode {
        case Lui =>
          UpperPath(raw, d, m);
          destinationValue := Some(d.immediate);
          supported := true;
        case Auipc =>
          UpperPath(raw, d, m);
          destinationValue := Some(Wrap(programCounter + d.immediate));
          supported := true;
        case OpImmediate =>
          OpImmediatePath(raw, d, m);
          destinationValue := ExecuteOpImmediate(d, Register(d.source1));
          supported := destinationValue.Some?;
        case Op =>
          OpPath(raw, d, m);
          destinationValue := ExecuteOp(d, Register(d.source1), Register(d.source2));
          supported := destinationValue.Some?;
        case Jal =>
          JalPath(raw, d, m);
          nextProgramCounter := Wrap(programCounter + d.immediate);
          AlignmentTest(nextProgramCounter);
          if BitAnd(nextProgramCounter, 0x3) != 0 {
            return InstructionTrap(Isa.InstructionAddressMisaligned, nextProgramCounter);
          }
          destinationValue := Some(sequentialProgramCounter);
          controlFlow := Some(Isa.ControlFlow(Isa.DirectJump, true));
          supported := true;
        case Jalr =>
          JalrPath(raw, d, m);
          if d.function3 == 0 {
            nextProgramCounter := JalrTarget(Register(d.source1), d.immediate);
            AlignmentTest(nextProgramCounter);
            if BitAnd(nextProgramCounter, 0x3) != 0 {
              return InstructionTrap(Isa.InstructionAddressMisaligned, nextProgramCounter);
            }
            destinationValue := Some(sequentialProgramCounter);
            controlFlow := Some(Isa.ControlFlow(Isa.IndirectJump, true));
            supported := true;
          }
        case Branch =>
          BranchPath(raw, d, m);
          var taken := EvaluateBranch(d, Register(d.source1), Register(d.source2));
          if taken.Some? {
            if taken.value {
              nextProgramCounter := Wrap(programCounter + d.immediate);
              AlignmentTest(nextProgramCounter);
              if BitAnd(nextProgramCounter, 0x3) != 0 {
                return InstructionTrap(Isa.InstructionAddressMisaligned, nextProgramCounter);
              }
            }
            controlFlow := Some(Isa.ControlFlow(Isa.ConditionalBranch, taken.value));
            supported := true;
          }
        case Load =>
          LoadPath(raw, d, m);
          var address := Wrap(Register(d.source1) + d.immediate);
          var loaded := ExecuteLoad(d, address);
          if loaded.LoadFailed? {
            return InstructionTrap(loaded.cause, loaded.value);
          }
          destinationValue := Some(loaded.value);
          dataMemoryAccess := Some(Isa.DataMemoryAccess(Isa.LoadAccess, address, DataAccessWidth(d)));
          supported := true;
        case Store =>
          StorePath(raw, d, m);
          var address := Wrap(Register(d.source1) + d.immediate);
          var failure := ExecuteStore(d, address, Register(d.source2));
          if failure.Some? {
            return InstructionTrap(failure.value.0, failure.value.1);
          }
          dataMemoryAccess := Some(Isa.DataMemoryAccess(Isa.StoreAccess, address, DataAccessWidth(d)));
          supported := true;
        case MiscMemory =>
          SystemPath(raw, d, m);
          supported := d.function3 == 0;
        case System =>
          SystemPath(raw, d, m);
          if raw == 0x0000_0073 {
            return InstructionTrap(Isa.EnvironmentCallFromUserMode, 0);
          }
          if raw == 0x0010_0073 {
            return InstructionTrap(Isa.Breakpoint, 0);
          }
      }

      if !supported {
        return InstructionTrap(Isa.IllegalInstruction, raw);
      }
      r := Commit(d, destinationValue, nextProgramCounter, dataMemoryAccess, controlFlow);
    }

    /** Writes the destination register and the program counter, and reports. */
    method Commit(d: DecodedInstruction, destinationValue: Option<u32>, nextProgramCounter: u32,
                  dataMemoryAccess: Option<Isa.DataMemoryAccess>, controlFlow: Option<Isa.ControlFlow>)
      returns (r: StepResult)
      requires Valid() && d.InRange()
      modifies `observed, state, state.registers
      ensures Valid()
      ensures r == Completed(ExecutionObservation(d, old(state.programCounter), nextProgramCounter,
                                                  dataMemoryAccess, controlFlow))
      ensures observed == old(observed) + [r.observation]
      ensures Machine()
              == Isa.Machine(if destinationValue.Some?
                             then Cpu.Written(old(state.Registers()), d.destination, destinationValue.value)
                             else old(state.Registers()),
                             nextProgramCounter, old(memory.Contents()))
    {
      var programCounter := state.programCounter;
      if destinationValue.Some? {
        var _ := state.WriteRegister(d.destination, destinationValue.value);
      }
      state.SetProgramCounter(nextProgramCounter);
      var observation :=
        ExecutionObservation(d, programCounter, nextProgramCounter, dataMemoryAccess, controlFlow);
      observed := observed + [observation];
      r := Completed(observation);
    }

    method Run(instructionLimit: u64) returns (r: RunResult)
      requires Valid()
      modifies `observed, state, state.registers, memory.bytes
      ensures Valid()
      ensures r.instructionsExecuted <= instructionLimit
      ensures Machine() == After(old(Machine()), r.instructionsExecuted)
      ensures Retires(old(Machine()), r.instructionsExecuted)
      ensures observed == old(observed) + Observations(old(Machine()), r.instructionsExecuted)
      ensures match r
              case InstructionLimitReached(n) => n == instructionLimit
              case RunTrapped(n, trap) => n < instructionLimit && Report(Machine()) == Faulted(trap)
    {
      hide Isa.Step, Next, After;
      ghost var m := Machine();
      NoStepsYet(m);
      var executed: u64 := 0;
      while executed < instructionLimit
        invariant Valid() && executed <= instructionLimit
        invariant Machine() == After(m, executed) && Retires(m, executed)
        invariant observed == old(observed) + Observations(m, executed)
      {
        ghost var before := Machine();
        var result := Step();
        OneMoreStep(m, executed);
        match result {
          case Faulted(trap) =>
            assert Machine() == before;
            return RunTrapped(executed, trap);
          case Completed(o) =>
            assert Report(before) == Completed(o);
            executed := executed + 1;
        }
      }
      r := InstructionLimitReached(instructionLimit);
    }
  }

  lemma {:induction false} AfterUnfolds(m: Machine, n: nat)
    requires m.Valid()
    ensures After(m, n) == if n == 0 then m else Next(After(m, n - 1))
  {
    hide Next;
  }

  lemma {:induction false} NoStepsYet(m: Machine)
    requires m.Valid()
    ensures After(m, 0) == m && Observations(m, 0) == []
  {
    hide Next;
  }

  /** One more step of a run, by what it reports. */
  lemma {:induction false} OneMoreStep(m: Machine, n: nat)
    requires m.Valid() && Retires(m, n)
    ensures var here := After(m, n);
            match Report(here)
            case Completed(o) =>
              Retires(m, n + 1) && After(m, n + 1) == Next(here) && Observations(m, n + 1) == Observations(m, n) + [o]
            case Faulted(trap) => Next(here) == here
  {
    hide Isa.Step;
  }

  lemma {:induction false} WholeWord(memory: Image, address: u32)
    ensures memory.Load(address, 4).Done? ==>
              Wrap(SignedField(memory.Load(address, 4).value, 32)) == memory.Load(address, 4).value
  {
    Pow2Values();
  }

  /** Truncating the stored word to the access width loses nothing that is stored. */
  lemma {:induction false} NarrowStores(value: u32)
    ensures BitAnd(value, 0xFF) < 0x100 && BitAnd(value, 0xFFFF) < 0x1_0000
    ensures ToBytes(BitAnd(value, 0xFF), 1) == ToBytes(value, 1)
    ensures ToBytes(BitAnd(value, 0xFFFF), 2) == ToBytes(value, 2)
  {
    hide BitAnd, Pow2, ToBytes;
    Pow2Values();
    MaskIs(value, 8, 0x100);
    MaskIs(value, 16, 0x1_0000);
    LowByte(value);
    LowHalfword(value);
  }

  lemma {:induction false} LowByte(value: u32)
    ensures ToBytes(value % 0x100, 1) == ToBytes(value, 1)
  {
    hide ToBytes;
    ToBytesOf(value);
    ToBytesOf(value % 0x100);
  }

  lemma {:induction false} LowHalfword(value: u32)
    ensures ToBytes(value % 0x1_0000, 2) == ToBytes(value, 2)
  {
    hide ToBytes;
    ToBytesOf(value);
    ToBytesOf(value % 0x1_0000);
    ModSplit(value, 0x100, 0x100);
    var high, low := value / 0x100 % 0x100, value % 0x100;
    DivModUnique(value % 0x1_0000, 0x100, high, low);
    ModSmall(high, 0x100);
  }
}
