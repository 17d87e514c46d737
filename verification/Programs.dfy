/** The benchmark guest programs (benchmarks/benchmark_workload.cpp) as words
    built by its encoders, and the ISA operations those words denote. */
module Programs {
  import opened Options
  import opened Words
  import opened GuestMemory
  import Cpu
  import opened Instructions
  import Engine
  import BranchPrediction
  import opened Encoding
  import Isa

  const MEMORY_BASE := 0x1000
  const MEMORY_SIZE := 0x4000
  const DATA_BASE := 0x2000

  /** The benchmark's predictor: 256 counters, initially weakly not taken. */
  const PREDICTOR := BranchPrediction.PredictorConfiguration(BranchPrediction.BimodalTwoBit, 256, 1)

  const INTEGER_MIX: seq<u32> := [
    EncodeImmediateOperation(1, 0, 1, 1),
    EncodeImmediateOperation(2, 0, 2, 3),
    EncodeRegisterOperation(3, 4, 1, 2, 0),
    EncodeRegisterOperation(4, 0, 3, 2, 1),
    EncodeRegisterOperation(5, 0, 5, 4, 0),
    EncodeJump(-20)]

  const MEMORY_STRIDE: seq<u32> := [
    EncodeLoadWord(3, 1, 0),
    EncodeImmediateOperation(3, 0, 3, 1),
    EncodeStoreWord(1, 3, 0),
    EncodeImmediateOperation(1, 0, 1, 4),
    EncodeBranch(6, 1, 2, -16),
    EncodeLui(1, DATA_BASE),
    EncodeJump(-24)]

  const BRANCH_PATTERN: seq<u32> := [
    EncodeImmediateOperation(1, 0, 1, 1),
    EncodeImmediateOperation(2, 7, 1, 1),
    EncodeBranch(0, 2, 0, 8),
    EncodeImmediateOperation(3, 0, 3, 1),
    EncodeBranch(1, 1, 4, -16),
    EncodeImmediateOperation(1, 0, 0, 0),
    EncodeJump(-24)]

  // ----------------------------------------------------- what encoded words denote

  /** Two signed words with the same 32 bits are the same number. */
  lemma {:induction false} WrapInjective(a: int, b: int)
    requires Wrap(a) == Wrap(b) && -0x8000_0000 <= a < 0x8000_0000 && -0x8000_0000 <= b < 0x8000_0000
    ensures a == b
  {
  }

  lemma {:induction false} ImmediateBounds(raw: u32)
    ensures -0x800 <= ImmI(raw) < 0x800 && -0x800 <= ImmS(raw) < 0x800
    ensures -0x1000 <= ImmB(raw) < 0x1000 && -0x10_0000 <= ImmJ(raw) < 0x10_0000
  {
    Sizes();
    SignedBounds(Bits(raw, 31, 20), 12, 0x1000, 0x800);
    SignedBounds(Bits(raw, 31, 25) * 0x20 + Bits(raw, 11, 7), 12, 0x1000, 0x800);
    ImmediateB(raw);
    ImmediateJ(raw);
    SignedBounds(RawImmediateB(raw), 13, 0x2000, 0x1000);
    SignedBounds(RawImmediateJ(raw), 21, 0x20_0000, 0x10_0000);
    BitsTable(raw);
    ImmediateS(raw);
    hide Bits, Pow2, SignedField, RawImmediateS, RawImmediateB, RawImmediateJ;
  }

  lemma {:induction false} SignedBounds(v: nat, n: nat, size: nat, half: int)
    requires n >= 1 && Pow2(n) == size && Pow2(n - 1) == half && size == 2 * half
    ensures v < size ==> -half <= SignedField(v, n) < half
  {
    hide Pow2;
  }

  lemma {:induction false} EncodedFields(raw: u32, d: DecodedInstruction)
    requires Encodes(raw, d)
    ensures raw % 0x80 == OpcodeBits(d.opcode) && Expected(raw, d.opcode) == d.(raw := raw)
  {
    hide DecodeInstruction, Expected;
    Engine.DecodedIs(raw, d.(raw := raw));
  }

  lemma {:induction false} ImmediateOperationFields(rd: Isa.Reg, f3: u8, rs1: Isa.Reg, imm: int)
    requires f3 < 8 && -0x800 <= imm < 0x800
    ensures var raw := EncodeImmediateOperation(rd, f3, rs1, imm);
            && raw % 0x80 == 0x13 && Isa.Rd(raw) == rd && Isa.Funct3(raw) == f3 && Isa.Rs1(raw) == rs1
            && ImmI(raw) == imm && Isa.Funct7(raw) == Wrap(imm) % 0x1000 / 0x20 && Isa.Rs2(raw) == Wrap(imm) % 0x20
  {
    hide EncodeImmediateOperation, DecodeInstruction, Isa.Rd, Isa.Rs1, Isa.Rs2, Isa.Funct3, Isa.Funct7, ImmI;
    var raw := EncodeImmediateOperation(rd, f3, rs1, imm);
    EncodeImmediateOperationMeaning(rd, f3, rs1, imm);
    var d := Record(OpImmediate, rd, rs1, 0, f3, Wrap(imm) % 0x1000 / 0x20, Wrap(imm));
    Engine.ImmediateFieldsAre(raw, d.(raw := raw));
    ImmediateBounds(raw);
    WrapInjective(ImmI(raw), imm);
    WrapSmall(Isa.Rs2(raw));
  }

  /** The supported function codes, shifts included, mean the operation they
      select; a shift takes its amount from the low five immediate bits. */
  lemma {:induction false} ImmediateOperationDenotes(rd: Isa.Reg, f3: u8, rs1: Isa.Reg, imm: int)
    requires f3 < 8 && -0x800 <= imm < 0x800
    ensures Isa.Decode(EncodeImmediateOperation(rd, f3, rs1, imm))
            == match Isa.ImmediateOperation(f3, Wrap(imm) % 0x1000 / 0x20)
               case Some(op) =>
                 Isa.OpImm(op, rd, rs1, if op.Sll? || op.Srl? || op.Sra? then Wrap(imm) % 0x20 else imm)
               case None => Isa.Unsupported
  {
    hide EncodeImmediateOperation, Isa.ImmediateOperation, Isa.Rd, Isa.Rs1, Isa.Rs2, Isa.Funct3, Isa.Funct7, ImmI, Wrap;
    hide Isa.DecodeBranch, Isa.DecodeLoad, Isa.DecodeStore, Isa.DecodeRegister, Isa.DecodeSystem;
    ImmediateOperationFields(rd, f3, rs1, imm);
  }

  lemma {:induction false} RegisterOperationDenotes(rd: Isa.Reg, f3: u8, rs1: Isa.Reg, rs2: Isa.Reg, f7: u8,
                                                    op: Isa.AluOp)
    requires f3 < 8 && f7 < 0x80 && Isa.RegisterOperation(f3, f7) == Some(op)
    ensures Isa.Decode(EncodeRegisterOperation(rd, f3, rs1, rs2, f7)) == Isa.OpReg(op, rd, rs1, rs2)
  {
    hide EncodeRegisterOperation, Encodes, Bits;
    var raw := EncodeRegisterOperation(rd, f3, rs1, rs2, f7);
    EncodeRegisterOperationMeaning(rd, f3, rs1, rs2, f7);
    EncodedFields(raw, Record(Op, rd, rs1, rs2, f3, f7, 0));
    assert Isa.Decode(raw) == Isa.DecodeRegister(raw);
  }

  lemma {:induction false} LoadWordDenotes(rd: Isa.Reg, rs1: Isa.Reg, imm: int)
    requires -0x800 <= imm < 0x800
    ensures Isa.Decode(EncodeLoadWord(rd, rs1, imm)) == Isa.LoadFrom(4, true, rd, rs1, imm)
  {
    hide EncodeLoadWord, Encodes, Bits, ImmI;
    var raw := EncodeLoadWord(rd, rs1, imm);
    EncodeLoadWordMeaning(rd, rs1, imm);
    EncodedFields(raw, Record(Load, rd, rs1, 0, 2, Wrap(imm) % 0x1000 / 0x20, Wrap(imm)));
    ImmediateBounds(raw);
    WrapInjective(ImmI(raw), imm);
    hide Wrap;
    assert Isa.Decode(raw) == Isa.DecodeLoad(raw);
  }

  lemma {:induction false} StoreWordDenotes(rs1: Isa.Reg, rs2: Isa.Reg, imm: int)
    requires -0x800 <= imm < 0x800
    ensures Isa.Decode(EncodeStoreWord(rs1, rs2, imm)) == Isa.StoreTo(4, rs1, rs2, imm)
  {
    hide EncodeStoreWord, Encodes, Bits, ImmS;
    var raw := EncodeStoreWord(rs1, rs2, imm);
    EncodeStoreWordMeaning(rs1, rs2, imm);
    EncodedFields(raw, Record(Store, 0, rs1, rs2, 2, 0, Wrap(imm)));
    ImmediateBounds(raw);
    WrapInjective(ImmS(raw), imm);
    hide Wrap;
    assert Isa.Decode(raw) == Isa.DecodeStore(raw);
  }

  lemma {:induction false} BranchDenotes(f3: u8, rs1: Isa.Reg, rs2: Isa.Reg, imm: int, cond: Isa.Condition)
    requires f3 < 8 && Isa.BranchCondition(f3) == Some(cond) && -0x1000 <= imm < 0x1000 && imm % 2 == 0
    ensures Isa.Decode(EncodeBranch(f3, rs1, rs2, imm)) == Isa.BranchIf(cond, rs1, rs2, imm)
  {
    hide EncodeBranch, Encodes, Bits, ImmB;
    var raw := EncodeBranch(f3, rs1, rs2, imm);
    EncodeBranchMeaning(f3, rs1, rs2, imm);
    EncodedFields(raw, Record(Branch, 0, rs1, rs2, f3, 0, Wrap(imm)));
    ImmediateBounds(raw);
    WrapInjective(ImmB(raw), imm);
    hide Wrap;
    assert Isa.Decode(raw) == Isa.DecodeBranch(raw);
  }

  lemma {:induction false} JumpDenotes(imm: int)
    requires -0x10_0000 <= imm < 0x10_0000 && imm % 2 == 0
    ensures Isa.Decode(EncodeJump(imm)) == Isa.Jump(0, imm)
  {
    hide EncodeJump, Encodes, Bits, ImmJ;
    var raw := EncodeJump(imm);
    EncodeJumpMeaning(imm);
    EncodedFields(raw, Record(Jal, 0, 0, 0, 0, 0, Wrap(imm)));
    ImmediateBounds(raw);
    WrapInjective(ImmJ(raw), imm);
  }

  /** The encoder masks the low twelve bits away. */
  lemma {:induction false} LuiDenotes(rd: Isa.Reg, imm: u32)
    ensures var i := Isa.Decode(EncodeLui(rd, imm)); i.LoadUpper? && i.rd == rd && Wrap(i.imm) == imm - imm % 0x1000
  {
    hide EncodeLui, Encodes, Bits, ImmU;
    var raw := EncodeLui(rd, imm);
    EncodeLuiMeaning(rd, imm);
    EncodedFields(raw, Record(Lui, rd, 0, 0, 0, 0, imm - imm % 0x1000));
  }

  // ------------------------------------------------------------ programs in memory

  /** The guest memory with a program's words at its start. */
  ghost predicate ProgramLoaded(memory: Image, program: seq<u32>) {
    && memory.base == MEMORY_BASE && |memory.bytes| == MEMORY_SIZE && 4 * |program| <= MEMORY_SIZE
    && forall i | 0 <= i < |program| :: memory.Load(MEMORY_BASE + 4 * i, 4) == Done(program[i])
  }

  function ZeroRegisters(): (regs: seq<u32>)
    ensures |regs| == Cpu.REGISTER_COUNT && forall i | 0 <= i < Cpu.REGISTER_COUNT :: regs[i] == 0
  {
    seq(Cpu.REGISTER_COUNT, _ => 0)
  }

  /** A freshly reset guest: the program, zeros after it, these registers, and the
      PC at the first instruction. */
  ghost predicate Starts(m: Engine.Machine, program: seq<u32>, regs: seq<u32>) {
    && m.Valid() && m.pc == MEMORY_BASE && m.regs == regs && ProgramLoaded(m.memory, program)
    && forall a: int | MEMORY_BASE + 4 * |program| <= a < MEMORY_BASE + MEMORY_SIZE :: m.memory.ByteAt(a) == 0
  }

  lemma {:induction false} ProgramStep(m: Engine.Machine, program: seq<u32>, i: nat)
    requires m.Valid() && ProgramLoaded(m.memory, program) && i < |program| && m.pc == MEMORY_BASE + 4 * i
    ensures Isa.Step(m) == Isa.Execute(Isa.Decode(program[i]), program[i], m)
  {
    hide Isa.Execute, Isa.Decode, Image.Load;
    assert m.memory.Load(MEMORY_BASE + 4 * i, 4) == Done(program[i]);
  }

  /** Storing outside the program leaves it loaded. */
  lemma {:induction false} ProgramKept(m: Image, program: seq<u32>, address: u32, value: u32)
    requires ProgramLoaded(m, program) && address >= MEMORY_BASE + 4 * |program|
    requires m.Store(address, 4, value).Done?
    ensures ProgramLoaded(m.Store(address, 4, value).value, program)
  {
    hide Image.Load;
    forall i | 0 <= i < |program|
      ensures m.Store(address, 4, value).value.Load(MEMORY_BASE + 4 * i, 4) == Done(program[i])
    {
      StoreKeepsDisjointLoads(m, address, 4, value, MEMORY_BASE + 4 * i, 4);
    }
  }

  /** The predictor slots of the third and fifth instruction. */
  lemma {:induction false} BranchSlots()
    ensures BranchPrediction.SlotOf(MEMORY_BASE + 8, 256) == 2 && BranchPrediction.SlotOf(MEMORY_BASE + 16, 256) == 4
  {
  }
}
