/** The benchmark guests as plain numbers: the words in memory, the registers they
    start with, and the configuration they are measured under. */
module WorkloadLaws {
  import opened Words
  import opened GuestMemory
  import opened Instructions
  import Engine
  import opened Encoding
  import opened Programs
  import opened Workloads

  /** The word a record is encoded by is made of the record's fields. */
  lemma {:induction false} WordIs(raw: u32, d: DecodedInstruction)
    requires Encodes(raw, d)
    ensures Placed(d).Fit() && raw == Word(Placed(d))
  {
    hide Placed, Word, DecodeInstruction;
    EncodeOfDecode(raw);
    assert Placed(d.(raw := raw)) == Placed(d) by { PlacedIgnoresWord(d, raw); }
  }

  lemma {:induction false} PlacedIgnoresWord(d: DecodedInstruction, raw: u32)
    ensures Placed(d.(raw := raw)) == Placed(d)
  {
    hide BranchLow, BranchHigh, UpperFields, JumpUpper;
  }

  lemma {:induction false} ImmediateWordIs(rd: u8, f3: u8, rs1: u8, imm: int, raw: u32)
    requires rd < 32 && f3 < 8 && rs1 < 32 && 0 <= imm < 0x800
    requires raw == imm * 0x10_0000 + rs1 * 0x8000 + f3 * 0x1000 + rd * 0x80 + 0x13
    ensures EncodeImmediateOperation(rd, f3, rs1, imm) == raw
  {
    hide EncodeImmediateOperation, Encodes, Wrap, Placed;
    EncodeImmediateOperationMeaning(rd, f3, rs1, imm);
    WrapSmall(imm);
    ModSmall(imm, 0x1000);
    var d := Record(OpImmediate, rd, rs1, 0, f3, imm / 0x20, imm);
    assert Placed(d) == Fields(0x13, rd, f3, rs1, imm % 0x20, imm / 0x20) by { PlacedImmediate(d, imm); }
    WordIs(EncodeImmediateOperation(rd, f3, rs1, imm), d);
  }

  lemma {:induction false} PlacedImmediate(d: DecodedInstruction, v: nat)
    requires d.format == I && d.immediate == v < 0x800
    ensures Placed(d) == Fields(OpcodeBits(d.opcode), d.destination, d.function3, d.source1, v % 0x20, v / 0x20)
  {
    ModSmall(v, 0x1000);
  }

  lemma {:induction false} RegisterWordIs(rd: u8, f3: u8, rs1: u8, rs2: u8, f7: u8, raw: u32)
    requires rd < 32 && f3 < 8 && rs1 < 32 && rs2 < 32 && f7 < 0x80
    requires raw == f7 * 0x200_0000 + rs2 * 0x10_0000 + rs1 * 0x8000 + f3 * 0x1000 + rd * 0x80 + 0x33
    ensures EncodeRegisterOperation(rd, f3, rs1, rs2, f7) == raw
  {
    hide EncodeRegisterOperation, Encodes;
    EncodeRegisterOperationMeaning(rd, f3, rs1, rs2, f7);
    WordIs(EncodeRegisterOperation(rd, f3, rs1, rs2, f7), Record(Op, rd, rs1, rs2, f3, f7, 0));
  }

  lemma {:induction false} JumpWordIs(imm: int, v: nat, raw: u32)
    requires v == Wrap(imm) % 0x20_0000 && v % 2 == 0 && raw == JumpUpper(v) * 0x1000 + 0x6F
    ensures EncodeJump(imm) == raw
  {
    hide EncodeJump, JumpUpper, Wrap;
    EncodeJumpWord(imm, v);
    JumpRange(v);
    UpperFieldsWord(0x6F, 0, JumpUpper(v));
  }

  lemma {:induction false} JumpRange(v: nat)
    requires v < 0x20_0000
    ensures JumpUpper(v) < 0x10_0000
  {
  }

  lemma {:induction false} JumpWords()
    ensures EncodeJump(-20) == 0xFEDF_F06F && EncodeJump(-24) == 0xFE9F_F06F
  {
    hide EncodeJump;
    JumpWordIs(-20, 0x1F_FFEC, 0xFEDF_F06F);
    JumpWordIs(-24, 0x1F_FFE8, 0xFE9F_F06F);
  }

  lemma {:induction false} BranchWordIs(f3: u8, rs1: u8, rs2: u8, imm: int, v: nat, raw: u32)
    requires f3 < 8 && rs1 < 32 && rs2 < 32 && v == Wrap(imm) % 0x2000 && v % 2 == 0
    requires raw == BranchHigh(v) * 0x200_0000 + rs2 * 0x10_0000 + rs1 * 0x8000 + f3 * 0x1000
                    + BranchLow(v) * 0x80 + 0x63
    ensures EncodeBranch(f3, rs1, rs2, imm) == raw
  {
    hide EncodeBranch, BranchHigh, BranchLow, Wrap;
    EncodeBranchWord(f3, rs1, rs2, imm, v);
  }

  lemma {:induction false} BranchOffsets()
    ensures Wrap(-16) % 0x2000 == 0x1FF0 && BranchHigh(0x1FF0) == 0x7F && BranchLow(0x1FF0) == 0x11
    ensures Wrap(8) % 0x2000 == 8 && BranchHigh(8) == 0 && BranchLow(8) == 8
  {
  }

  lemma {:induction false} BranchWords()
    ensures EncodeBranch(6, 1, 2, -16) == 0xFE20_E8E3
    ensures EncodeBranch(0, 2, 0, 8) == 0x0001_0463
    ensures EncodeBranch(1, 1, 4, -16) == 0xFE40_98E3
  {
    hide EncodeBranch, Wrap, BranchHigh, BranchLow;
    BranchOffsets();
    BranchWordIs(6, 1, 2, -16, 0x1FF0, 0xFE20_E8E3);
    BranchWordIs(0, 2, 0, 8, 8, 0x0001_0463);
    BranchWordIs(1, 1, 4, -16, 0x1FF0, 0xFE40_98E3);
  }

  lemma {:induction false} MemoryWords()
    ensures EncodeLoadWord(3, 1, 0) == 0x0000_A183 && EncodeStoreWord(1, 3, 0) == 0x0030_A023
    ensures EncodeLui(1, 0x2000) == 0x0000_20B7
  {
    hide EncodeLoadWord, EncodeStoreWord, EncodeLui, Encodes;
    EncodeLoadWordMeaning(3, 1, 0);
    WordIs(EncodeLoadWord(3, 1, 0), Record(Load, 3, 1, 0, 2, 0, 0));
    EncodeStoreWordMeaning(1, 3, 0);
    WordIs(EncodeStoreWord(1, 3, 0), Record(Store, 0, 1, 3, 2, 0, 0));
    EncodeLuiMeaning(1, 0x2000);
    WordIs(EncodeLui(1, 0x2000), Record(Lui, 1, 0, 0, 0, 0, 0x2000));
  }

  /** The three programs, word by word. */
  lemma {:induction false} ProgramWords()
    ensures ProgramOf(IntegerMix)
            == [0x0010_8093, 0x0031_0113, 0x0020_C1B3, 0x0221_8233, 0x0042_82B3, 0xFEDF_F06F]
    ensures ProgramOf(MemoryStride)
            == [0x0000_A183, 0x0011_8193, 0x0030_A023, 0x0040_8093, 0xFE20_E8E3, 0x0000_20B7, 0xFE9F_F06F]
    ensures ProgramOf(BranchPattern)
            == [0x0010_8093, 0x0010_F113, 0x0001_0463, 0x0011_8193, 0xFE40_98E3, 0x0000_0093, 0xFE9F_F06F]
  {
    hide EncodeImmediateOperation, EncodeRegisterOperation, EncodeLoadWord, EncodeStoreWord, EncodeBranch;
    hide EncodeJump, EncodeLui;
    ImmediateWordIs(1, 0, 1, 1, 0x0010_8093);
    ImmediateWordIs(2, 0, 2, 3, 0x0031_0113);
    RegisterWordIs(3, 4, 1, 2, 0, 0x0020_C1B3);
    RegisterWordIs(4, 0, 3, 2, 1, 0x0221_8233);
    RegisterWordIs(5, 0, 5, 4, 0, 0x0042_82B3);
    ImmediateWordIs(3, 0, 3, 1, 0x0011_8193);
    ImmediateWordIs(1, 0, 1, 4, 0x0040_8093);
    ImmediateWordIs(2, 7, 1, 1, 0x0010_F113);
    ImmediateWordIs(1, 0, 0, 0, 0x0000_0093);
    JumpWords();
    BranchWords();
    MemoryWords();
  }

  /** What a reset guest is: the PC at 0x1000 in sixteen kibibytes from there, and
      the program's words followed by zeros. */
  lemma {:induction false} StartIs(m: Engine.Machine, program: seq<u32>, regs: seq<u32>)
    requires Starts(m, program, regs)
    ensures m.pc == 0x1000 && m.regs == regs && m.memory.base == 0x1000 && |m.memory.bytes| == 0x4000
    ensures forall i | 0 <= i < |program| :: m.memory.Load(0x1000 + 4 * i, 4) == Done(program[i])
    ensures forall a: int | 0x1000 + 4 * |program| <= a < 0x5000 :: m.memory.ByteAt(a) == 0
  {
    hide Image.Load;
  }

  /** The few registers a guest starts with. */
  lemma {:induction false} RegistersAre(kind: WorkloadKind, regs: seq<u32>)
    requires regs == RegistersOf(kind)
    ensures |regs| == 32
    ensures forall r | 0 <= r < 32 ::
              regs[r] == match kind
                         case IntegerMix => if r == 1 then 1 else if r == 2 then 3 else 0
                         case MemoryStride => if r == 1 then 0x2000 else if r == 2 then 0x2400 else 0
                         case BranchPattern => if r == 4 then 256 else 0
  {
  }
}
