/** A reference semantics for RV32IM over mathematical integers, following the
    RISC-V Unprivileged ISA: sections 2.3 to 2.8 (base integer instructions) and
    7.1, 7.2 (multiplication and division).  Nothing here uses a bit operation
    except the three logical instructions themselves. */
module Isa {
  import opened Options
  import opened Words
  import opened GuestMemory
  import Cpu
  import opened Instructions

  type Reg = i: nat | i < 32

  /** Bytes moved by one load or store. */
  type Width = w: u8 | w == 1 || w == 2 || w == 4 witness 1

  datatype AluOp =
    | Add | Sub | Sll | Slt | Sltu | Xor | Srl | Sra | Or | And
    | Mul | Mulh | Mulhsu | Mulhu | Div | Divu | Rem | Remu

  datatype Condition = Eq | Ne | Lt | Ge | Ltu | Geu

  datatype Operation =
    | LoadUpper(rd: Reg, imm: int)
    | AddUpperToPc(rd: Reg, imm: int)
    | OpImm(op: AluOp, rd: Reg, rs1: Reg, imm: int)
    | OpReg(op: AluOp, rd: Reg, rs1: Reg, rs2: Reg)
    | Jump(rd: Reg, offset: int)
    | JumpRegister(rd: Reg, rs1: Reg, offset: int)
    | BranchIf(cond: Condition, rs1: Reg, rs2: Reg, offset: int)
    | LoadFrom(width: Width, signed: bool, rd: Reg, rs1: Reg, offset: int)
    | StoreTo(width: Width, rs1: Reg, rs2: Reg, offset: int)
    | Fence
    | EnvironmentCall
    | EnvironmentBreak
    | Unsupported

  // --------------------------------------------------------------- instruction set

  function ImmediateOperation(f3: nat, f7: nat): Option<AluOp> {
    match f3
    case 0 => Some(Add)
    case 1 => if f7 == 0x00 then Some(Sll) else None
    case 2 => Some(Slt)
    case 3 => Some(Sltu)
    case 4 => Some(Xor)
    case 5 => if f7 == 0x00 then Some(Srl) else if f7 == 0x20 then Some(Sra) else None
    case 6 => Some(Or)
    case 7 => Some(And)
    case _ => None
  }

  function RegisterOperation(f3: nat, f7: nat): Option<AluOp> {
    match (f7, f3)
    case (0x00, 0) => Some(Add)
    case (0x20, 0) => Some(Sub)
    case (0x00, 1) => Some(Sll)
    case (0x00, 2) => Some(Slt)
    case (0x00, 3) => Some(Sltu)
    case (0x00, 4) => Some(Xor)
    case (0x00, 5) => Some(Srl)
    case (0x20, 5) => Some(Sra)
    case (0x00, 6) => Some(Or)
    case (0x00, 7) => Some(And)
    case (0x01, 0) => Some(Mul)
    case (0x01, 1) => Some(Mulh)
    case (0x01, 2) => Some(Mulhsu)
    case (0x01, 3) => Some(Mulhu)
    case (0x01, 4) => Some(Div)
    case (0x01, 5) => Some(Divu)
    case (0x01, 6) => Some(Rem)
    case (0x01, 7) => Some(Remu)
    case (_, _) => None
  }

  function BranchCondition(f3: nat): Option<Condition> {
    match f3
    case 0 => Some(Eq)
    case 1 => Some(Ne)
    case 4 => Some(Lt)
    case 5 => Some(Ge)
    case 6 => Some(Ltu)
    case 7 => Some(Geu)
    case _ => None
  }

  function Rd(raw: u32): Reg {
    FieldRanges(raw);
    Bits(raw, 11, 7)
  }

  function Rs1(raw: u32): Reg {
    FieldRanges(raw);
    Bits(raw, 19, 15)
  }

  function Rs2(raw: u32): Reg {
    FieldRanges(raw);
    Bits(raw, 24, 20)
  }

  function Funct3(raw: u32): nat {
    Bits(raw, 14, 12)
  }

  function Funct7(raw: u32): nat {
    Bits(raw, 31, 25)
  }

  function DecodeBranch(raw: u32): Operation {
    match BranchCondition(Funct3(raw))
    case Some(cond) => BranchIf(cond, Rs1(raw), Rs2(raw), ImmB(raw))
    case None => Unsupported
  }

  function DecodeLoad(raw: u32): Operation {
    match Funct3(raw)
    case 0 => LoadFrom(1, true, Rd(raw), Rs1(raw), ImmI(raw))
    case 1 => LoadFrom(2, true, Rd(raw), Rs1(raw), ImmI(raw))
    case 2 => LoadFrom(4, true, Rd(raw), Rs1(raw), ImmI(raw))
    case 4 => LoadFrom(1, false, Rd(raw), Rs1(raw), ImmI(raw))
    case 5 => LoadFrom(2, false, Rd(raw), Rs1(raw), ImmI(raw))
    case _ => Unsupported
  }

  function DecodeStore(raw: u32): Operation {
    match Funct3(raw)
    case 0 => StoreTo(1, Rs1(raw), Rs2(raw), ImmS(raw))
    case 1 => StoreTo(2, Rs1(raw), Rs2(raw), ImmS(raw))
    case 2 => StoreTo(4, Rs1(raw), Rs2(raw), ImmS(raw))
    case _ => Unsupported
  }

  /** Shifts take their amount from the rs2 position of the word. */
  function DecodeImmediate(raw: u32): Operation {
    match ImmediateOperation(Funct3(raw), Funct7(raw))
    case Some(op) =>
      OpImm(op, Rd(raw), Rs1(raw), if op.Sll? || op.Srl? || op.Sra? then Rs2(raw) else ImmI(raw))
    case None => Unsupported
  }

  function DecodeRegister(raw: u32): Operation {
    match RegisterOperation(Funct3(raw), Funct7(raw))
    case Some(op) => OpReg(op, Rd(raw), Rs1(raw), Rs2(raw))
    case None => Unsupported
  }

  function DecodeSystem(raw: u32): Operation {
    if raw == 0x0000_0073 then EnvironmentCall
    else if raw == 0x0010_0073 then EnvironmentBreak
    else Unsupported
  }

  /** The instruction a word encodes. */
  function Decode(raw: u32): Operation {
    var opcode := raw % 0x80;
    if opcode == 0x37 then LoadUpper(Rd(raw), ImmU(raw))
    else if opcode == 0x17 then AddUpperToPc(Rd(raw), ImmU(raw))
    else if opcode == 0x6F then Jump(Rd(raw), ImmJ(raw))
    else if opcode == 0x67 then
      if Funct3(raw) == 0 then JumpRegister(Rd(raw), Rs1(raw), ImmI(raw)) else Unsupported
    else if opcode == 0x63 then DecodeBranch(raw)
    else if opcode == 0x03 then DecodeLoad(raw)
    else if opcode == 0x23 then DecodeStore(raw)
    else if opcode == 0x13 then DecodeImmediate(raw)
    else if opcode == 0x33 then DecodeRegister(raw)
    else if opcode == 0x0F then (if Funct3(raw) == 0 then Fence else Unsupported)
    else if opcode == 0x73 then DecodeSystem(raw)
    else Unsupported
  }

  // -------------------------------------------------------------------- arithmetic

  function Abs(x: int): nat {
    if x < 0 then -x else x
  }

  /** Division rounding toward zero; the remainder takes the dividend's sign. */
  function TruncatedQuotient(a: int, b: int): int
    requires b != 0
  {
    var q := Abs(a) / Abs(b);
    if (a < 0) != (b < 0) then -q else q
  }

  function TruncatedRemainder(a: int, b: int): int
    requires b != 0
  {
    var r := Abs(a) % Abs(b);
    if a < 0 then -r else r
  }

  function Compute(op: AluOp, a: u32, b: u32): u32 {
    match op
    case Add => Wrap(a + b)
    case Sub => Wrap(a - b)
    case Sll => Wrap(a * Pow2(b % 32))
    case Slt => if Signed(a) < Signed(b) then 1 else 0
    case Sltu => if a < b then 1 else 0
    case Xor => XorWord(a, b)
    case Srl => Wrap(a / Pow2(b % 32))
    case Sra => Wrap(Signed(a) / Pow2(b % 32))
    case Or => OrWord(a, b)
    case And => BitAnd(a, b)
    case Mul => Wrap(Signed(a) * Signed(b))
    case Mulh => Wrap(Signed(a) * Signed(b) / 0x1_0000_0000)
    case Mulhsu => Wrap(Signed(a) * b / 0x1_0000_0000)
    case Mulhu => Wrap(a * b / 0x1_0000_0000)
    case Div => if b == 0 then Wrap(-1) else Wrap(TruncatedQuotient(Signed(a), Signed(b)))
    case Divu => if b == 0 then Wrap(-1) else Wrap(a / b)
    case Rem => if b == 0 then a else Wrap(TruncatedRemainder(Signed(a), Signed(b)))
    case Remu => if b == 0 then a else Wrap(a % b)
  }

  predicate Holds(cond: Condition, a: u32, b: u32) {
    match cond
    case Eq => a == b
    case Ne => a != b
    case Lt => Signed(a) < Signed(b)
    case Ge => Signed(a) >= Signed(b)
    case Ltu => a < b
    case Geu => a >= b
  }

  predicate DividesTowardZero(a: int, b: int, q: int, r: int) {
    a == b * q + r && Abs(r) < Abs(b) && (r == 0 || (r < 0) == (a < 0))
  }

  lemma {:induction false} TruncatedDivisionDivides(a: int, b: int)
    requires b != 0
    ensures DividesTowardZero(a, b, TruncatedQuotient(a, b), TruncatedRemainder(a, b))
  {
    var m: int, n: int := Abs(a), Abs(b);
    var q := m / n;
    assert m == n * q + m % n;
    assert n * -q == -(n * q) && -n * q == -(n * q) && -n * -q == n * q;
  }

  /** What truncating division means: the only quotient and remainder that
      rebuild the dividend with a smaller remainder of the dividend's sign. */
  lemma {:induction false} TruncatedDivisionUnique(a: int, b: int, q: int, r: int)
    requires b != 0
    ensures DividesTowardZero(a, b, q, r) <==> q == TruncatedQuotient(a, b) && r == TruncatedRemainder(a, b)
  {
    TruncatedDivisionDivides(a, b);
    if DividesTowardZero(a, b, q, r) {
      assert -b * q == -(b * q) && b * -q == -(b * q) && -b * -q == b * q;
      var q' := if (a < 0) != (b < 0) then -q else q;
      assert Abs(a) == Abs(b) * q' + Abs(r);
      DivModUnique(Abs(a), Abs(b), q', Abs(r));
    }
  }

  // ---------------------------------------------------------------------- machine

  datatype Machine = Machine(regs: seq<u32>, pc: u32, memory: Image) {
    predicate Valid() {
      Cpu.RegistersValid(regs) && memory.Valid()
    }
  }

  datatype TrapCause =
    | InstructionAddressMisaligned | InstructionAccessFault | IllegalInstruction | Breakpoint
    | LoadAddressMisaligned | LoadAccessFault | StoreAddressMisaligned | StoreAccessFault
    | EnvironmentCallFromUserMode

  datatype DataMemoryAccessKind = LoadAccess | StoreAccess

  datatype DataMemoryAccess = DataMemoryAccess(kind: DataMemoryAccessKind, address: u32, width: u8)

  datatype ControlFlowKind = ConditionalBranch | DirectJump | IndirectJump

  datatype ControlFlow = ControlFlow(kind: ControlFlowKind, taken: bool)

  /** An instruction either retires, with the facts an observer may see, or
      traps and changes nothing. */
  datatype Outcome =
    | Retired(next: Machine, data: Option<DataMemoryAccess>, flow: Option<ControlFlow>)
    | Trapped(cause: TrapCause, value: u32)

  function Sequential(m: Machine): u32 {
    Wrap(m.pc + 4)
  }

  function SetRegister(m: Machine, rd: Reg, value: u32): Machine
    requires m.Valid()
  {
    m.(regs := Cpu.Written(m.regs, rd, value), pc := Sequential(m))
  }

  function JumpTo(m: Machine, rd: Reg, target: u32, kind: ControlFlowKind): Outcome
    requires m.Valid()
  {
    if target % 4 != 0 then Trapped(InstructionAddressMisaligned, target)
    else Retired(SetRegister(m, rd, Sequential(m)).(pc := target), None, Some(ControlFlow(kind, true)))
  }

  function ExecuteBranch(m: Machine, taken: bool, offset: int): Outcome {
    var target := if taken then Wrap(m.pc + offset) else Sequential(m);
    if taken && target % 4 != 0 then Trapped(InstructionAddressMisaligned, target)
    else Retired(m.(pc := target), None, Some(ControlFlow(ConditionalBranch, taken)))
  }

  function ExecuteLoad(m: Machine, width: Width, signed: bool, rd: Reg, address: u32): Outcome
    requires m.Valid()
  {
    match m.memory.Load(address, width)
    case Done(value) =>
      var extended := if signed then Wrap(SignedField(value, 8 * width)) else Wrap(value);
      Retired(SetRegister(m, rd, extended), Some(DataMemoryAccess(LoadAccess, address, width)), None)
    case Misaligned(_, _, _) => Trapped(LoadAddressMisaligned, address)
    case OutOfBounds(_, _, _) => Trapped(LoadAccessFault, address)
  }

  function ExecuteStore(m: Machine, width: Width, address: u32, value: u32): Outcome {
    match m.memory.Store(address, width, value)
    case Done(image) =>
      Retired(m.(memory := image, pc := Sequential(m)),
              Some(DataMemoryAccess(StoreAccess, address, width)), None)
    case Misaligned(_, _, _) => Trapped(StoreAddressMisaligned, address)
    case OutOfBounds(_, _, _) => Trapped(StoreAccessFault, address)
  }

  function Execute(i: Operation, raw: u32, m: Machine): Outcome
    requires m.Valid()
  {
    match i
    case LoadUpper(rd, imm) => Retired(SetRegister(m, rd, Wrap(imm)), None, None)
    case AddUpperToPc(rd, imm) => Retired(SetRegister(m, rd, Wrap(m.pc + imm)), None, None)
    case OpImm(op, rd, rs1, imm) =>
      Retired(SetRegister(m, rd, Compute(op, m.regs[rs1], Wrap(imm))), None, None)
    case OpReg(op, rd, rs1, rs2) =>
      Retired(SetRegister(m, rd, Compute(op, m.regs[rs1], m.regs[rs2])), None, None)
    case Jump(rd, offset) => JumpTo(m, rd, Wrap(m.pc + offset), DirectJump)
    case JumpRegister(rd, rs1, offset) =>
      var sum := Wrap(m.regs[rs1] + offset);
      JumpTo(m, rd, sum - sum % 2, IndirectJump)
    case BranchIf(cond, rs1, rs2, offset) => ExecuteBranch(m, Holds(cond, m.regs[rs1], m.regs[rs2]), offset)
    case LoadFrom(width, signed, rd, rs1, offset) =>
      ExecuteLoad(m, width, signed, rd, Wrap(m.regs[rs1] + offset))
    case StoreTo(width, rs1, rs2, offset) => ExecuteStore(m, width, Wrap(m.regs[rs1] + offset), m.regs[rs2])
    case Fence => Retired(m.(pc := Sequential(m)), None, None)
    case EnvironmentCall => Trapped(EnvironmentCallFromUserMode, 0)
    case EnvironmentBreak => Trapped(Breakpoint, 0)
    case Unsupported => Trapped(IllegalInstruction, raw)
  }

  /** One instruction: fetch, decode, execute. */
  function Step(m: Machine): Outcome
    requires m.Valid()
  {
    if m.pc % 4 != 0 then Trapped(InstructionAddressMisaligned, m.pc)
    else
      match m.memory.Load(m.pc, 4)
      case Done(raw) => Execute(Decode(raw), raw, m)
      case Misaligned(_, _, _) => Trapped(InstructionAccessFault, m.pc)
      case OutOfBounds(_, _, _) => Trapped(InstructionAccessFault, m.pc)
  }
}
