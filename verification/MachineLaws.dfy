/** The instruction set as laws of one step, in the numbers of the instruction
    word: opcodes, function codes and fields are divisions of the word, results
    are arithmetic over the integers.  No table or helper of the reference stands
    for any of them, so each law holds the reference itself to its meaning. */
module MachineLaws {
  import opened Options
  import opened Words
  import opened GuestMemory
  import opened Instructions
  import opened Engine
  import Isa

  // ----------------------------------------------------------------------- fields

  /** The immediates of the five formats, as words. */
  lemma {:induction false} ImmediateWords(raw: u32)
    ensures var t := raw / 0x10_0000; Wrap(ImmI(raw)) == if t < 0x800 then t else t + 0xFFFF_F000
    ensures var t := raw / 0x200_0000 * 0x20 + raw / 0x80 % 0x20;
            Wrap(ImmS(raw)) == if t < 0x800 then t else t + 0xFFFF_F000
    ensures Wrap(ImmU(raw)) == raw - raw % 0x1000
  {
    BitsTable(raw);
    Pow2Values();
    hide Bits, Pow2;
    assert raw - raw % 0x1000 == raw / 0x1000 * 0x1000;
  }

  lemma {:induction false} BranchOffsetWord(raw: u32)
    ensures var t := raw / 0x8000_0000 * 0x1000 + raw / 0x80 % 2 * 0x800 + raw / 0x200_0000 % 0x40 * 0x20
                     + raw / 0x100 % 0x10 * 2;
            Wrap(ImmB(raw)) == if t < 0x1000 then t else t + 0xFFFF_E000
  {
    BitsTableBJ(raw);
    Pow2Values();
    hide Bits, Pow2;
  }

  lemma {:induction false} JumpOffsetWord(raw: u32)
    ensures var t := raw / 0x8000_0000 * 0x10_0000 + raw / 0x1000 % 0x100 * 0x1000 + raw / 0x10_0000 % 2 * 0x800
                     + raw / 0x20_0000 % 0x400 * 2;
            Wrap(ImmJ(raw)) == if t < 0x10_0000 then t else t + 0xFFE0_0000
  {
    BitsTableBJ(raw);
    Pow2Values();
    hide Bits, Pow2;
  }

  /** Every decoded record, field by field. */
  lemma {:induction false} DecodedFields(raw: u32)
    ensures var rd, f3, rs1, rs2, f7 := raw / 0x80 % 0x20, raw / 0x1000 % 8, raw / 0x8000 % 0x20,
                                        raw / 0x10_0000 % 0x20, raw / 0x200_0000;
            var i := Wrap(ImmI(raw));
            DecodeInstruction(raw)
            == if raw % 0x80 == 0x33 then Some(DecodedInstruction(raw, 0, Op, R, rd, rs1, rs2, f3, f7))
               else if raw % 0x80 == 0x03 then Some(DecodedInstruction(raw, i, Load, I, rd, rs1, 0, f3, f7))
               else if raw % 0x80 == 0x0F then Some(DecodedInstruction(raw, i, MiscMemory, I, rd, rs1, 0, f3, f7))
               else if raw % 0x80 == 0x13 then Some(DecodedInstruction(raw, i, OpImmediate, I, rd, rs1, 0, f3, f7))
               else if raw % 0x80 == 0x67 then Some(DecodedInstruction(raw, i, Jalr, I, rd, rs1, 0, f3, f7))
               else if raw % 0x80 == 0x73 then Some(DecodedInstruction(raw, i, System, I, rd, rs1, 0, f3, f7))
               else if raw % 0x80 == 0x23 then
                 Some(DecodedInstruction(raw, Wrap(ImmS(raw)), Store, S, 0, rs1, rs2, f3, 0))
               else if raw % 0x80 == 0x63 then
                 Some(DecodedInstruction(raw, Wrap(ImmB(raw)), Branch, B, 0, rs1, rs2, f3, 0))
               else if raw % 0x80 == 0x37 then Some(DecodedInstruction(raw, Wrap(ImmU(raw)), Lui, U, rd, 0, 0, 0, 0))
               else if raw % 0x80 == 0x17 then Some(DecodedInstruction(raw, Wrap(ImmU(raw)), Auipc, U, rd, 0, 0, 0, 0))
               else if raw % 0x80 == 0x6F then Some(DecodedInstruction(raw, Wrap(ImmJ(raw)), Jal, J, rd, 0, 0, 0, 0))
               else None
  {
    BitsTable(raw);
    DecodeMeaning(raw);
    hide Bits, ImmI, ImmS, ImmB, ImmU, ImmJ, DecodeInstruction, Wrap;
    assert OpcodeBits(Load) == 0x03 && OpcodeBits(MiscMemory) == 0x0F && OpcodeBits(OpImmediate) == 0x13;
    assert OpcodeBits(Auipc) == 0x17 && OpcodeBits(Store) == 0x23 && OpcodeBits(Op) == 0x33;
    assert OpcodeBits(Lui) == 0x37 && OpcodeBits(Branch) == 0x63 && OpcodeBits(Jalr) == 0x67;
    assert OpcodeBits(Jal) == 0x6F && OpcodeBits(System) == 0x73;
  }

  /** Bit k of a number, by division. */
  lemma {:induction false} BitIs(a: nat, k: nat)
    ensures Bit(a, k) <==> a / Pow2(k) % 2 == 1
  {
    if k > 0 {
      BitIs(a / 2, k - 1);
      ModSplit(a, 2, Pow2(k - 1));
    }
  }

  // ---------------------------------------------------------------- register writes

  /** The step retires to the next word, reporting the given access and no branch,
      and nothing but register rd changes. */
  ghost predicate Advances(m: Machine, rd: nat, data: Option<Isa.DataMemoryAccess>)
    requires m.Valid()
  {
    && Report(m).Completed?
    && Report(m).observation.programCounter == m.pc
    && Report(m).observation.nextProgramCounter == Next(m).pc == (m.pc + 4) % 0x1_0000_0000
    && Report(m).observation.dataMemoryAccess == data && Report(m).observation.controlFlow == None
    && Next(m).memory == m.memory
    && |m.regs| == 32 && |Next(m).regs| == 32 && Next(m).regs[0] == 0
    && forall i | 0 <= i < 32 && i != rd :: Next(m).regs[i] == m.regs[i]
  }

  lemma {:induction false} WriteAdvances(m: Machine, rd: Isa.Reg, value: u32, data: Option<Isa.DataMemoryAccess>)
    requires m.Valid() && Isa.Step(m) == Isa.Retired(Isa.SetRegister(m, rd, value), data, None)
    ensures Advances(m, rd, data) && (rd != 0 ==> Next(m).regs[rd] == value)
  {
    hide Isa.Step;
  }

  lemma {:induction false} Unsupported(m: Machine, raw: u32)
    requires m.Valid() && m.pc % 4 == 0 && m.memory.Load(m.pc, 4) == Done(raw) && Isa.Decode(raw) == Isa.Unsupported
    ensures Report(m) == Faulted(Trap(Isa.IllegalInstruction, m.pc, raw)) && Next(m) == m
  {
    hide Isa.Decode;
  }

  lemma {:induction false} RegisterStep(m: Machine, raw: u32, rd: Isa.Reg, f3: nat, rs1: Isa.Reg, rs2: Isa.Reg, f7: nat)
    requires m.Valid() && m.pc % 4 == 0 && m.memory.Load(m.pc, 4) == Done(raw) && raw % 0x80 == 0x33
    requires rd == raw / 0x80 % 0x20 && f3 == raw / 0x1000 % 8 && rs1 == raw / 0x8000 % 0x20
    requires rs2 == raw / 0x10_0000 % 0x20 && f7 == raw / 0x200_0000
    ensures match Isa.RegisterOperation(f3, f7)
            case None => Report(m) == Faulted(Trap(Isa.IllegalInstruction, m.pc, raw)) && Next(m) == m
            case Some(op) =>
              Advances(m, rd, None) && (rd != 0 ==> Next(m).regs[rd] == Isa.Compute(op, m.regs[rs1], m.regs[rs2]))
  {
    BitsTable(raw);
    hide Bits, Isa.Compute, Isa.RegisterOperation, Advances;
    assert Isa.Decode(raw) == Isa.DecodeRegister(raw);
    match Isa.RegisterOperation(f3, f7) {
      case None => Unsupported(m, raw);
      case Some(op) => WriteAdvances(m, rd, Isa.Compute(op, m.regs[rs1], m.regs[rs2]), None);
    }
  }

  // ------------------------------------------------------------------- arithmetic

  lemma {:induction false} SignedOrder(a: u32, b: u32)
    ensures Signed(a) < Signed(b) <==> (a + 0x8000_0000) % 0x1_0000_0000 < (b + 0x8000_0000) % 0x1_0000_0000
  {
  }

  /** Subtraction undoes addition. */
  lemma {:induction false} SubtractComputes(a: u32, b: u32)
    ensures (Isa.Compute(Isa.Sub, a, b) + b) % 0x1_0000_0000 == a
  {
  }

  lemma {:induction false} LogicBits(a: u32, b: u32, k: nat)
    ensures Bit(XorWord(a, b), k) == (Bit(a, k) != Bit(b, k))
    ensures Bit(OrWord(a, b), k) == (Bit(a, k) || Bit(b, k))
    ensures Bit(BitAnd(a, b), k) == (Bit(a, k) && Bit(b, k))
  {
    BitXorBits(a, b, k);
    BitOrBits(a, b, k);
    BitAndBits(a, b, k);
  }

  lemma {:induction false} SignedOfWrap(x: int)
    requires -0x8000_0000 <= x < 0x8000_0000
    ensures Signed(Wrap(x)) == x
  {
  }

  lemma {:induction false} QuotientFits(a: u32, b: u32)
    requires b != 0 && !(a == 0x8000_0000 && b == 0xFFFF_FFFF)
    ensures Signed(b) != 0 && -0x8000_0000 <= Isa.TruncatedQuotient(Signed(a), Signed(b)) < 0x8000_0000
    ensures -0x8000_0000 <= Isa.TruncatedRemainder(Signed(a), Signed(b)) < 0x8000_0000
  {
    var m: int, n: int := Isa.Abs(Signed(a)), Isa.Abs(Signed(b));
    var q, r := m / n, m % n;
    assert m == n * q + r;
    if q < 0 {
      MultiplyMonotone(n, q, -1);
    }
    MultiplyMonotone(q, 1, n);
    if n >= 2 && q >= 0x8000_0000 {
      MultiplyMonotone(q, 2, n);
    }
  }

  /** Signed division and remainder: by zero, overflowing, and otherwise the
      quotient rounded toward zero with its remainder. */
  lemma {:induction false} DivisionResults(a: u32, b: u32)
    ensures var q, r := Isa.Compute(Isa.Div, a, b), Isa.Compute(Isa.Rem, a, b);
            if b == 0 then q == 0xFFFF_FFFF && r == a
            else if a == 0x8000_0000 && b == 0xFFFF_FFFF then q == 0x8000_0000 && r == 0
            else Signed(a) == Signed(b) * Signed(q) + Signed(r) && Isa.Abs(Signed(r)) < Isa.Abs(Signed(b))
                 && (r == 0 || (Signed(r) < 0) == (Signed(a) < 0))
  {
    if b != 0 {
      if a == 0x8000_0000 && b == 0xFFFF_FFFF {
      } else {
        QuotientFits(a, b);
        Isa.TruncatedDivisionDivides(Signed(a), Signed(b));
        SignedOfWrap(Isa.TruncatedQuotient(Signed(a), Signed(b)));
        SignedOfWrap(Isa.TruncatedRemainder(Signed(a), Signed(b)));
      }
    }
  }

  /** Register-register instructions: the encodings that exist, by their function
      codes; all others trap and change nothing. */
  lemma {:induction false} RegisterEncodings(m: Machine, raw: u32, rd: Isa.Reg, f3: nat, rs1: Isa.Reg, rs2: Isa.Reg,
                                             f7: nat)
    requires m.Valid() && m.pc % 4 == 0 && m.memory.Load(m.pc, 4) == Done(raw) && raw % 0x80 == 0x33
    requires rd == raw / 0x80 % 0x20 && f3 == raw / 0x1000 % 8 && rs1 == raw / 0x8000 % 0x20
    requires rs2 == raw / 0x10_0000 % 0x20 && f7 == raw / 0x200_0000
    ensures if f7 == 0 || f7 == 1 || (f7 == 0x20 && (f3 == 0 || f3 == 5)) then Advances(m, rd, None)
            else Report(m) == Faulted(Trap(Isa.IllegalInstruction, m.pc, raw)) && Next(m) == m
  {
    hide Advances, Isa.Compute, Next, Report, Isa.Step, Image.Load;
    RegisterStep(m, raw, rd, f3, rs1, rs2, f7);
  }

  /** The results of the base instructions with function code 0. */
  lemma {:induction false} BaseResults(m: Machine, raw: u32, rd: Isa.Reg, f3: nat, rs1: Isa.Reg, rs2: Isa.Reg,
                                       f7: nat, a: u32, b: u32, v: u32)
    requires m.Valid() && m.pc % 4 == 0 && m.memory.Load(m.pc, 4) == Done(raw) && raw % 0x80 == 0x33
    requires rd == raw / 0x80 % 0x20 && f3 == raw / 0x1000 % 8 && rs1 == raw / 0x8000 % 0x20
    requires rs2 == raw / 0x10_0000 % 0x20 && f7 == raw / 0x200_0000
    requires f7 == 0 && rd != 0 && a == m.regs[rs1] && b == m.regs[rs2] && v == Next(m).regs[rd]
    ensures && (f3 == 0 ==> v == (a + b) % 0x1_0000_0000)
            && (f3 == 1 ==> v == a * Pow2(b % 32) % 0x1_0000_0000)
            && (f3 == 2 ==>
                  v == if (a + 0x8000_0000) % 0x1_0000_0000 < (b + 0x8000_0000) % 0x1_0000_0000 then 1 else 0)
            && (f3 == 3 ==> v == if a < b then 1 else 0)
            && (f3 == 4 ==> forall k: nat :: Bit(v, k) == (Bit(a, k) != Bit(b, k)))
            && (f3 == 5 ==> v == a / Pow2(b % 32))
            && (f3 == 6 ==> forall k: nat :: Bit(v, k) == (Bit(a, k) || Bit(b, k)))
            && (f3 == 7 ==> forall k: nat :: Bit(v, k) == (Bit(a, k) && Bit(b, k)))
  {
    hide Advances, Isa.Compute, Bit, Pow2, Next, Report, Isa.Step, Image.Load;
    RegisterStep(m, raw, rd, f3, rs1, rs2, f7);
    BaseComputes(f3, a, b, v);
  }

  /** Those with function code 0x20: the difference that addition undoes, and the
      shift that keeps the sign. */
  lemma {:induction false} AlternateResults(m: Machine, raw: u32, rd: Isa.Reg, f3: nat, rs1: Isa.Reg, rs2: Isa.Reg,
                                            f7: nat, a: u32, b: u32, v: u32)
    requires m.Valid() && m.pc % 4 == 0 && m.memory.Load(m.pc, 4) == Done(raw) && raw % 0x80 == 0x33
    requires rd == raw / 0x80 % 0x20 && f3 == raw / 0x1000 % 8 && rs1 == raw / 0x8000 % 0x20
    requires rs2 == raw / 0x10_0000 % 0x20 && f7 == raw / 0x200_0000
    requires f7 == 0x20 && rd != 0 && a == m.regs[rs1] && b == m.regs[rs2] && v == Next(m).regs[rd]
    ensures && (f3 == 0 ==> (v + b) % 0x1_0000_0000 == a)
            && (f3 == 5 ==>
                  v == if a < 0x8000_0000 then a / Pow2(b % 32)
                       else (a - 0x1_0000_0000) / Pow2(b % 32) + 0x1_0000_0000)
  {
    hide Advances, Pow2, Isa.Compute, Next, Report, Isa.Step, Image.Load;
    RegisterStep(m, raw, rd, f3, rs1, rs2, f7);
    SubtractComputes(a, b);
    ShiftsDown(a, b);
  }

  lemma {:induction false} WordBits(a: u32, b: u32)
    ensures forall k: nat :: Bit(XorWord(a, b), k) == (Bit(a, k) != Bit(b, k))
    ensures forall k: nat :: Bit(OrWord(a, b), k) == (Bit(a, k) || Bit(b, k))
    ensures forall k: nat :: Bit(BitAnd(a, b), k) == (Bit(a, k) && Bit(b, k))
  {
    hide Bit, XorWord, OrWord, BitAnd;
    forall k: nat
      ensures Bit(XorWord(a, b), k) == (Bit(a, k) != Bit(b, k))
      ensures Bit(OrWord(a, b), k) == (Bit(a, k) || Bit(b, k))
      ensures Bit(BitAnd(a, b), k) == (Bit(a, k) && Bit(b, k))
    {
      LogicBits(a, b, k);
    }
  }

  /** The same results for the operands alone. */
  lemma {:induction false} BaseComputes(f3: nat, a: u32, b: u32, v: u32)
    requires f3 < 8 && v == Isa.Compute(Isa.RegisterOperation(f3, 0).value, a, b)
    ensures && (f3 == 0 ==> v == (a + b) % 0x1_0000_0000)
            && (f3 == 1 ==> v == a * Pow2(b % 32) % 0x1_0000_0000)
            && (f3 == 2 ==>
                  v == if (a + 0x8000_0000) % 0x1_0000_0000 < (b + 0x8000_0000) % 0x1_0000_0000 then 1 else 0)
            && (f3 == 3 ==> v == if a < b then 1 else 0)
            && (f3 == 4 ==> forall k: nat :: Bit(v, k) == (Bit(a, k) != Bit(b, k)))
            && (f3 == 5 ==> v == a / Pow2(b % 32))
            && (f3 == 6 ==> forall k: nat :: Bit(v, k) == (Bit(a, k) || Bit(b, k)))
            && (f3 == 7 ==> forall k: nat :: Bit(v, k) == (Bit(a, k) && Bit(b, k)))
  {
    hide Bit, XorWord, OrWord, BitAnd, Pow2;
    SignedOrder(a, b);
    WordBits(a, b);
    ShiftedDown(a, Pow2(b % 32));
  }

  lemma {:induction false} ShiftsDown(a: u32, b: u32)
    ensures Isa.Compute(Isa.Sra, a, b)
            == if a < 0x8000_0000 then a / Pow2(b % 32)
               else (a - 0x1_0000_0000) / Pow2(b % 32) + 0x1_0000_0000
  {
    hide Pow2;
    ShiftedDown(a, Pow2(b % 32));
  }

  lemma {:induction false} QuotientComputes(a: u32, b: u32, v: u32)
    requires v == Isa.Compute(Isa.Div, a, b)
    ensures var sa, sb, sv := Signed(a), Signed(b), Signed(v);
            && (b == 0 ==> v == 0xFFFF_FFFF)
            && (a == 0x8000_0000 && b == 0xFFFF_FFFF ==> v == 0x8000_0000)
            && (b != 0 && !(a == 0x8000_0000 && b == 0xFFFF_FFFF) ==>
                  var rest := sa - sb * sv;
                  (-sb < rest < sb || sb < rest < -sb)
                  && (rest == 0 || (rest < 0 && sa < 0) || (rest > 0 && sa >= 0)))
  {
    hide Isa.Compute;
    DivisionResults(a, b);
  }

  lemma {:induction false} RemainderComputes(a: u32, b: u32, v: u32)
    requires v == Isa.Compute(Isa.Rem, a, b)
    ensures var sa, sb, sv := Signed(a), Signed(b), Signed(v);
            && (b == 0 ==> v == a)
            && (a == 0x8000_0000 && b == 0xFFFF_FFFF ==> v == 0)
            && (b != 0 && !(a == 0x8000_0000 && b == 0xFFFF_FFFF) ==>
                  (sv == 0 || (sv < 0 && sa < 0) || (sv > 0 && sa >= 0))
                  && (-sb < sv < sb || sb < sv < -sb)
                  && exists q: int :: sa == sb * q + sv)
  {
    hide Isa.Compute;
    DivisionResults(a, b);
  }

  lemma {:induction false} MultiplyComputes(a: u32, b: u32)
    ensures Isa.Compute(Isa.Mul, a, b) == Wrap(Signed(a) * Signed(b))
    ensures Isa.Compute(Isa.Mulh, a, b) == Wrap(Signed(a) * Signed(b) / 0x1_0000_0000)
    ensures Isa.Compute(Isa.Mulhsu, a, b) == Wrap(Signed(a) * b / 0x1_0000_0000)
    ensures Isa.Compute(Isa.Mulhu, a, b) == Wrap(a * b / 0x1_0000_0000)
  {
  }

  lemma {:induction false} UnsignedDivideComputes(a: u32, b: u32)
    ensures Isa.Compute(Isa.Divu, a, b) == if b == 0 then 0xFFFF_FFFF else a / b
    ensures Isa.Compute(Isa.Remu, a, b) == if b == 0 then a else a % b
  {
    if b != 0 {
      DividedWord(a, b);
      WrapSmall(a / b);
      WrapSmall(a % b);
    }
  }

  /** The multiply instructions: the low and high words of the exact product. */
  lemma {:induction false} MultiplyResults(m: Machine, raw: u32, rd: Isa.Reg, f3: nat, rs1: Isa.Reg, rs2: Isa.Reg,
                                           f7: nat, a: u32, b: u32, v: u32)
    requires m.Valid() && m.pc % 4 == 0 && m.memory.Load(m.pc, 4) == Done(raw) && raw % 0x80 == 0x33
    requires rd == raw / 0x80 % 0x20 && f3 == raw / 0x1000 % 8 && rs1 == raw / 0x8000 % 0x20
    requires rs2 == raw / 0x10_0000 % 0x20 && f7 == raw / 0x200_0000
    requires f7 == 1 && rd != 0 && a == m.regs[rs1] && b == m.regs[rs2] && v == Next(m).regs[rd]
    ensures var sa, sb: int := if a < 0x8000_0000 then a else a - 0x1_0000_0000,
                               if b < 0x8000_0000 then b else b - 0x1_0000_0000;
            && (f3 == 0 ==> v == sa * sb % 0x1_0000_0000)
            && (f3 == 1 ==> v == sa * sb / 0x1_0000_0000 % 0x1_0000_0000)
            && (f3 == 2 ==> v == sa * b / 0x1_0000_0000 % 0x1_0000_0000)
            && (f3 == 3 ==> v == a * b / 0x1_0000_0000 % 0x1_0000_0000)
  {
    hide Advances, Isa.Compute, Next, Report, Isa.Step, Image.Load;
    RegisterStep(m, raw, rd, f3, rs1, rs2, f7);
    MultiplyComputes(a, b);
  }

  /** Signed division rounds toward zero; by zero it gives all ones, and the overflowing
      quotient is the dividend. */
  lemma {:induction false} DivideResults(m: Machine, raw: u32, rd: Isa.Reg, f3: nat, rs1: Isa.Reg, rs2: Isa.Reg,
                                         f7: nat, a: u32, b: u32, v: u32)
    requires m.Valid() && m.pc % 4 == 0 && m.memory.Load(m.pc, 4) == Done(raw) && raw % 0x80 == 0x33
    requires rd == raw / 0x80 % 0x20 && f3 == raw / 0x1000 % 8 && rs1 == raw / 0x8000 % 0x20
    requires rs2 == raw / 0x10_0000 % 0x20 && f7 == raw / 0x200_0000
    requires f7 == 1 && f3 == 4 && rd != 0 && a == m.regs[rs1] && b == m.regs[rs2] && v == Next(m).regs[rd]
    ensures var sa, sb, sv: int := if a < 0x8000_0000 then a else a - 0x1_0000_0000,
                                   if b < 0x8000_0000 then b else b - 0x1_0000_0000,
                                   if v < 0x8000_0000 then v else v - 0x1_0000_0000;
            if b == 0 then v == 0xFFFF_FFFF
            else if a == 0x8000_0000 && b == 0xFFFF_FFFF then v == 0x8000_0000
            else
              var rest := sa - sb * sv;
              (-sb < rest < sb || sb < rest < -sb)
              && (rest == 0 || (rest < 0 && sa < 0) || (rest > 0 && sa >= 0))
  {
    hide Advances, Isa.Compute, Next, Report, Isa.Step, Image.Load;
    RegisterStep(m, raw, rd, f3, rs1, rs2, f7);
    QuotientComputes(a, b, v);
  }

  /** The signed remainder has the dividend's sign; by zero it is the dividend. */
  lemma {:induction false} RemainderResults(m: Machine, raw: u32, rd: Isa.Reg, f3: nat, rs1: Isa.Reg, rs2: Isa.Reg,
                                            f7: nat, a: u32, b: u32, v: u32)
    requires m.Valid() && m.pc % 4 == 0 && m.memory.Load(m.pc, 4) == Done(raw) && raw % 0x80 == 0x33
    requires rd == raw / 0x80 % 0x20 && f3 == raw / 0x1000 % 8 && rs1 == raw / 0x8000 % 0x20
    requires rs2 == raw / 0x10_0000 % 0x20 && f7 == raw / 0x200_0000
    requires f7 == 1 && f3 == 6 && rd != 0 && a == m.regs[rs1] && b == m.regs[rs2] && v == Next(m).regs[rd]
    ensures var sa, sb, sv: int := if a < 0x8000_0000 then a else a - 0x1_0000_0000,
                                   if b < 0x8000_0000 then b else b - 0x1_0000_0000,
                                   if v < 0x8000_0000 then v else v - 0x1_0000_0000;
            if b == 0 then v == a
            else if a == 0x8000_0000 && b == 0xFFFF_FFFF then v == 0
            else
              (sv == 0 || (sv < 0 && sa < 0) || (sv > 0 && sa >= 0))
              && (-sb < sv < sb || sb < sv < -sb)
              && exists q: int :: sa == sb * q + sv
  {
    hide Advances, Isa.Compute, Next, Report, Isa.Step, Image.Load;
    RegisterStep(m, raw, rd, f3, rs1, rs2, f7);
    RemainderComputes(a, b, v);
  }

  /** Unsigned division and remainder. */
  lemma {:induction false} UnsignedResults(m: Machine, raw: u32, rd: Isa.Reg, f3: nat, rs1: Isa.Reg, rs2: Isa.Reg,
                                           f7: nat, a: u32, b: u32, v: u32)
    requires m.Valid() && m.pc % 4 == 0 && m.memory.Load(m.pc, 4) == Done(raw) && raw % 0x80 == 0x33
    requires rd == raw / 0x80 % 0x20 && f3 == raw / 0x1000 % 8 && rs1 == raw / 0x8000 % 0x20
    requires rs2 == raw / 0x10_0000 % 0x20 && f7 == raw / 0x200_0000
    requires f7 == 1 && (f3 == 5 || f3 == 7) && rd != 0 && a == m.regs[rs1] && b == m.regs[rs2] && v == Next(m).regs[rd]
    ensures v == if f3 == 5 then (if b == 0 then 0xFFFF_FFFF else a / b) else (if b == 0 then a else a % b)
  {
    hide Advances, Isa.Compute, Next, Report, Isa.Step, Image.Load;
    RegisterStep(m, raw, rd, f3, rs1, rs2, f7);
    UnsignedDivideComputes(a, b);
  }

  /** Dividing a word or its signed reading by a positive number needs no wrapping
      beyond adding the word size back to a negative quotient. */
  lemma {:induction false} ShiftedDown(a: u32, d: int)
    requires d > 0
    ensures Wrap(a / d) == a / d
    ensures a >= 0x8000_0000 ==> Wrap((a - 0x1_0000_0000) / d) == (a - 0x1_0000_0000) / d + 0x1_0000_0000
    ensures a < 0x8000_0000 ==> Signed(a) == a
    ensures a >= 0x8000_0000 ==> Signed(a) == a - 0x1_0000_0000
  {
    DividedWord(a, d);
    WrapSmall(a / d);
    if a >= 0x8000_0000 {
      DividedNegative(a - 0x1_0000_0000, d);
      WrapNegative((a - 0x1_0000_0000) / d);
    }
  }

  lemma {:induction false} WrapNegative(q: int)
    requires -0x1_0000_0000 <= q < 0
    ensures Wrap(q) == q + 0x1_0000_0000
  {
  }

  lemma {:induction false} DividedNegative(n: int, d: int)
    requires d > 0 && n < 0
    ensures n <= n / d < 0
  {
    var q, r := n / d, n % d;
    assert n == d * q + r;
    if q >= 0 {
      MultiplyMonotone(d, 0, q);
    } else if q < n {
      assert -(q + 1) * d == -(d * q) - d;
      MultiplyMonotone(-(q + 1), 1, d);
    }
  }

  lemma {:induction false} DividedWord(a: nat, d: int)
    requires d > 0
    ensures 0 <= a / d <= a
  {
    assert a == d * (a / d) + a % d;
    if a / d < 0 {
      MultiplyMonotone(d, a / d, -1);
    } else {
      MultiplyMonotone(a / d, 1, d);
    }
  }

  // -------------------------------------------------------- immediates and constants

  lemma {:induction false} ShiftAmountWord(raw: u32)
    ensures Wrap(Isa.Rs2(raw)) == raw / 0x10_0000 % 0x20
  {
    BitsTable(raw);
    hide Bits;
  }

  lemma {:induction false} ImmediateStep(m: Machine, raw: u32, rd: Isa.Reg, f3: nat, rs1: Isa.Reg, f7: nat, w: u32)
    requires m.Valid() && m.pc % 4 == 0 && m.memory.Load(m.pc, 4) == Done(raw) && raw % 0x80 == 0x13
    requires rd == raw / 0x80 % 0x20 && f3 == raw / 0x1000 % 8 && rs1 == raw / 0x8000 % 0x20
    requires f7 == raw / 0x200_0000
    requires w == if f3 == 1 || f3 == 5 then raw / 0x10_0000 % 0x20
                  else if raw / 0x10_0000 < 0x800 then raw / 0x10_0000 else raw / 0x10_0000 + 0xFFFF_F000
    ensures match Isa.ImmediateOperation(f3, f7)
            case None => Report(m) == Faulted(Trap(Isa.IllegalInstruction, m.pc, raw)) && Next(m) == m
            case Some(op) =>
              Advances(m, rd, None) && (rd != 0 ==> Next(m).regs[rd] == Isa.Compute(op, m.regs[rs1], w))
  {
    BitsTable(raw);
    ImmediateWords(raw);
    ShiftAmountWord(raw);
    hide Bits, ImmI, Wrap, Isa.Compute, Advances, Next, Report, Isa.Rs2;
    assert Isa.Decode(raw) == Isa.DecodeImmediate(raw);
    match Isa.ImmediateOperation(f3, f7) {
      case None => Unsupported(m, raw);
      case Some(op) => WriteAdvances(m, rd, Isa.Compute(op, m.regs[rs1], w), None);
    }
  }

  /** Register-immediate instructions: all function codes exist; a shift needs its
      upper bits to be one of the known codes. */
  lemma {:induction false} ImmediateEncodings(m: Machine, raw: u32, rd: Isa.Reg, f3: nat, f7: nat)
    requires m.Valid() && m.pc % 4 == 0 && m.memory.Load(m.pc, 4) == Done(raw) && raw % 0x80 == 0x13
    requires rd == raw / 0x80 % 0x20 && f3 == raw / 0x1000 % 8 && f7 == raw / 0x200_0000
    ensures if (f3 == 1 && f7 != 0) || (f3 == 5 && f7 != 0 && f7 != 0x20) then
              Report(m) == Faulted(Trap(Isa.IllegalInstruction, m.pc, raw)) && Next(m) == m
            else Advances(m, rd, None)
  {
    hide Advances, Isa.Compute, Next, Report, Isa.Step, Image.Load;
    ImmediateStep(m, raw, rd, f3, raw / 0x8000 % 0x20, f7,
                  if f3 == 1 || f3 == 5 then raw / 0x10_0000 % 0x20
                  else if raw / 0x10_0000 < 0x800 then raw / 0x10_0000 else raw / 0x10_0000 + 0xFFFF_F000);
  }

  /** Their results, on the sign-extended twelve-bit immediate. */
  lemma {:induction false} ImmediateResults(m: Machine, raw: u32, rd: Isa.Reg, f3: nat, rs1: Isa.Reg,
                                            a: u32, w: u32, v: u32)
    requires m.Valid() && m.pc % 4 == 0 && m.memory.Load(m.pc, 4) == Done(raw) && raw % 0x80 == 0x13
    requires rd == raw / 0x80 % 0x20 && f3 == raw / 0x1000 % 8 && rs1 == raw / 0x8000 % 0x20
    requires f3 != 1 && f3 != 5 && rd != 0 && a == m.regs[rs1] && v == Next(m).regs[rd]
    requires w == if raw / 0x10_0000 < 0x800 then raw / 0x10_0000 else raw / 0x10_0000 + 0xFFFF_F000
    ensures && (f3 == 0 ==> v == (a + w) % 0x1_0000_0000)
            && (f3 == 2 ==>
                  v == if (a + 0x8000_0000) % 0x1_0000_0000 < (w + 0x8000_0000) % 0x1_0000_0000 then 1 else 0)
            && (f3 == 3 ==> v == if a < w then 1 else 0)
            && (f3 == 4 ==> forall k: nat :: Bit(v, k) == (Bit(a, k) != Bit(w, k)))
            && (f3 == 6 ==> forall k: nat :: Bit(v, k) == (Bit(a, k) || Bit(w, k)))
            && (f3 == 7 ==> forall k: nat :: Bit(v, k) == (Bit(a, k) && Bit(w, k)))
  {
    hide Advances, Isa.Compute, Next, Report, Isa.Step, Image.Load, Bit, Pow2;
    ImmediateStep(m, raw, rd, f3, rs1, raw / 0x200_0000, w);
    BaseComputes(f3, a, w, v);
  }

  /** Shifts by the amount in the rs2 position of the word. */
  lemma {:induction false} ImmediateShifts(m: Machine, raw: u32, rd: Isa.Reg, f3: nat, rs1: Isa.Reg, f7: nat,
                                           a: u32, amount: u32, v: u32)
    requires m.Valid() && m.pc % 4 == 0 && m.memory.Load(m.pc, 4) == Done(raw) && raw % 0x80 == 0x13
    requires rd == raw / 0x80 % 0x20 && f3 == raw / 0x1000 % 8 && rs1 == raw / 0x8000 % 0x20
    requires f7 == raw / 0x200_0000 && amount == raw / 0x10_0000 % 0x20
    requires rd != 0 && a == m.regs[rs1] && v == Next(m).regs[rd]
    ensures f3 == 1 && f7 == 0 ==> v == a * Pow2(amount) % 0x1_0000_0000
    ensures f3 == 5 && f7 == 0 ==> v == a / Pow2(amount)
    ensures f3 == 5 && f7 == 0x20 ==>
              v == if a < 0x8000_0000 then a / Pow2(amount)
                   else (a - 0x1_0000_0000) / Pow2(amount) + 0x1_0000_0000
  {
    hide Advances, Isa.Compute, Next, Report, Isa.Step, Image.Load, Bit, Pow2;
    if f3 == 1 || f3 == 5 {
      ImmediateStep(m, raw, rd, f3, rs1, f7, amount);
      ModSmall(amount, 32);
      if f7 == 0 {
        BaseComputes(f3, a, amount, v);
      }
      ShiftsDown(a, amount);
    }
  }

  /** LUI puts the upper twenty bits of the word in a register; AUIPC adds them to
      the program counter. */
  lemma {:induction false} UpperResults(m: Machine, raw: u32, rd: Isa.Reg)
    requires m.Valid() && m.pc % 4 == 0 && m.memory.Load(m.pc, 4) == Done(raw)
    requires raw % 0x80 == 0x37 || raw % 0x80 == 0x17
    requires rd == raw / 0x80 % 0x20
    ensures Advances(m, rd, None)
    ensures rd != 0 && raw % 0x80 == 0x37 ==> Next(m).regs[rd] == raw - raw % 0x1000
    ensures rd != 0 && raw % 0x80 == 0x17 ==> Next(m).regs[rd] == (m.pc + (raw - raw % 0x1000)) % 0x1_0000_0000
  {
    BitsTable(raw);
    ImmediateWords(raw);
    WrapSum(m.pc, ImmU(raw));
    hide Bits, ImmU, Advances, Next, Report;
    var value := if raw % 0x80 == 0x37 then Wrap(ImmU(raw)) else Wrap(m.pc + ImmU(raw));
    WriteAdvances(m, rd, value, None);
  }

  // ------------------------------------------------------------- transfers of control

  /** The step goes to the target, leaves the address of the next word in register
      rd, reports the jump, and changes nothing else; or it traps, because the
      target is not a word address. */
  ghost predicate JumpsTo(m: Machine, rd: nat, target: u32, kind: Isa.ControlFlowKind)
    requires m.Valid()
  {
    if target % 4 != 0 then
      Report(m) == Faulted(Trap(Isa.InstructionAddressMisaligned, m.pc, target)) && Next(m) == m
    else
      && Report(m).Completed?
      && Report(m).observation.programCounter == m.pc
      && Report(m).observation.nextProgramCounter == Next(m).pc == target
      && Report(m).observation.dataMemoryAccess == None
      && Report(m).observation.controlFlow == Some(Isa.ControlFlow(kind, true))
      && Next(m).memory == m.memory
      && |m.regs| == 32 && |Next(m).regs| == 32 && Next(m).regs[0] == 0
      && (0 < rd < 32 ==> Next(m).regs[rd] == (m.pc + 4) % 0x1_0000_0000)
      && forall i | 0 <= i < 32 && i != rd :: Next(m).regs[i] == m.regs[i]
  }

  lemma {:induction false} StepJumps(m: Machine, rd: Isa.Reg, target: u32, kind: Isa.ControlFlowKind)
    requires m.Valid() && Isa.Step(m) == Isa.JumpTo(m, rd, target, kind)
    ensures JumpsTo(m, rd, target, kind)
  {
    hide Isa.Step;
  }

  /** JAL jumps by its offset and links. */
  lemma {:induction false} JumpAndLink(m: Machine, raw: u32, rd: Isa.Reg, t: nat, target: u32)
    requires m.Valid() && m.pc % 4 == 0 && m.memory.Load(m.pc, 4) == Done(raw) && raw % 0x80 == 0x6F
    requires rd == raw / 0x80 % 0x20
    requires t == raw / 0x8000_0000 * 0x10_0000 + raw / 0x1000 % 0x100 * 0x1000 + raw / 0x10_0000 % 2 * 0x800
                  + raw / 0x20_0000 % 0x400 * 2
    requires target == (m.pc + (if t < 0x10_0000 then t else t + 0xFFE0_0000)) % 0x1_0000_0000
    ensures JumpsTo(m, rd, target, Isa.DirectJump)
  {
    BitsTable(raw);
    JumpOffsetWord(raw);
    WrapSum(m.pc, ImmJ(raw));
    hide Bits, ImmJ, JumpsTo, Isa.JumpTo, Next, Report;
    StepJumps(m, rd, target, Isa.DirectJump);
  }

  /** JALR jumps to a register plus an offset, with the lowest bit cleared, and
      links; it needs function code 0. */
  lemma {:induction false} JumpAndLinkRegister(m: Machine, raw: u32, rd: Isa.Reg, rs1: Isa.Reg, w: u32, sum: u32)
    requires m.Valid() && m.pc % 4 == 0 && m.memory.Load(m.pc, 4) == Done(raw) && raw % 0x80 == 0x67
    requires rd == raw / 0x80 % 0x20 && rs1 == raw / 0x8000 % 0x20
    requires w == if raw / 0x10_0000 < 0x800 then raw / 0x10_0000 else raw / 0x10_0000 + 0xFFFF_F000
    requires sum == (m.regs[rs1] + w) % 0x1_0000_0000
    ensures if raw / 0x1000 % 8 == 0 then JumpsTo(m, rd, sum - sum % 2, Isa.IndirectJump)
            else Report(m) == Faulted(Trap(Isa.IllegalInstruction, m.pc, raw)) && Next(m) == m
  {
    hide ImmI, JumpsTo, Isa.JumpTo, Next, Report, Isa.Decode, Isa.Step, Image.Load;
    hide Wrap;
    AddImmediate(m.regs[rs1], raw, w);
    JumpRegisterWord(raw, rd, rs1);
    if raw / 0x1000 % 8 == 0 {
      JumpRegisterStep(m, raw, rd, rs1, ImmI(raw), sum);
      StepJumps(m, rd, sum - sum % 2, Isa.IndirectJump);
    } else {
      Unsupported(m, raw);
    }
  }

  lemma {:induction false} AddImmediate(a: u32, raw: u32, w: u32)
    requires w == if raw / 0x10_0000 < 0x800 then raw / 0x10_0000 else raw / 0x10_0000 + 0xFFFF_F000
    ensures Wrap(a + ImmI(raw)) == (a + w) % 0x1_0000_0000
  {
    hide ImmI;
    ImmediateWords(raw);
    WrapSum(a, ImmI(raw));
  }

  lemma {:induction false} JumpRegisterStep(m: Machine, raw: u32, rd: Isa.Reg, rs1: Isa.Reg, offset: int, sum: u32)
    requires m.Valid() && m.pc % 4 == 0 && m.memory.Load(m.pc, 4) == Done(raw)
    requires Isa.Decode(raw) == Isa.JumpRegister(rd, rs1, offset) && sum == Wrap(m.regs[rs1] + offset)
    ensures Isa.Step(m) == Isa.JumpTo(m, rd, sum - sum % 2, Isa.IndirectJump)
  {
    hide Isa.Decode, Isa.JumpTo, Wrap;
  }

  lemma {:induction false} JumpRegisterWord(raw: u32, rd: Isa.Reg, rs1: Isa.Reg)
    requires raw % 0x80 == 0x67 && rd == raw / 0x80 % 0x20 && rs1 == raw / 0x8000 % 0x20
    ensures Isa.Decode(raw) == if raw / 0x1000 % 8 == 0 then Isa.JumpRegister(rd, rs1, ImmI(raw)) else Isa.Unsupported
  {
    BitsTable(raw);
    hide Bits, ImmI;
  }

  /** Calls return.  A completed JAL or JALR leaves the address of the next word in
      its register, and a `jalr x0, 0(rd)` standing at its target comes back there
      with every register and all of memory as the call left them. */
  lemma {:induction false} CallReturns(m: Machine, raw: u32, rd: Isa.Reg)
    requires m.Valid() && m.pc % 4 == 0 && m.memory.Load(m.pc, 4) == Done(raw) && rd == raw / 0x80 % 0x20 && rd != 0
    requires raw % 0x80 == 0x6F || (raw % 0x80 == 0x67 && raw / 0x1000 % 8 == 0)
    requires Report(m).Completed?
    ensures Next(m).regs[rd] == (m.pc + 4) % 0x1_0000_0000
    ensures Next(m).memory.Load(Next(m).pc, 4) == Done(0x67 + 0x8000 * rd) ==>
              && After(m, 2).pc == (m.pc + 4) % 0x1_0000_0000
              && After(m, 2).memory == m.memory
              && |After(m, 2).regs| == 32 && |Next(m).regs| == 32 && |m.regs| == 32
              && (forall i | 0 <= i < 32 :: After(m, 2).regs[i] == Next(m).regs[i])
              && (forall i | 0 <= i < 32 && i != rd :: After(m, 2).regs[i] == m.regs[i])
  {
    hide Next, Report, Isa.Step, Image.Load, After, JumpsTo;
    CallLinks(m, raw, rd);
    AfterUnfolds(m, 2);
    AfterUnfolds(m, 1);
    AfterUnfolds(m, 0);
    var there := Next(m);
    if there.memory.Load(there.pc, 4) == Done(0x67 + 0x8000 * rd) {
      ReturnGoesBack(there, rd, there.regs[rd]);
    }
  }

  lemma {:induction false} ReturnGoesBack(m: Machine, rd: Isa.Reg, link: u32)
    requires m.Valid() && m.pc % 4 == 0 && m.memory.Load(m.pc, 4) == Done(0x67 + 0x8000 * rd)
    requires m.regs[rd] == link && link % 4 == 0
    ensures Next(m).pc == link && Next(m).memory == m.memory
    ensures |m.regs| == 32 && |Next(m).regs| == 32 && forall i | 0 <= i < 32 :: Next(m).regs[i] == m.regs[i]
  {
    hide Next, Report, Isa.Step, Image.Load;
    ReturnWord(rd);
    WordAddress(link);
    JumpAndLinkRegister(m, 0x67 + 0x8000 * rd, 0, rd, 0, link);
  }

  lemma {:induction false} WordAddress(link: u32)
    requires link % 4 == 0
    ensures link % 2 == 0 && (link + 0) % 0x1_0000_0000 == link
  {
    DivModUnique(link, 2, 2 * (link / 4), 0);
    ModSmall(link, 0x1_0000_0000);
  }

  lemma {:induction false} ReturnWord(rd: Isa.Reg)
    ensures var raw := 0x67 + 0x8000 * rd;
            && raw < 0x1_0000_0000 && raw % 0x80 == 0x67 && raw / 0x1000 % 8 == 0 && raw / 0x80 % 0x20 == 0
            && raw / 0x8000 % 0x20 == rd && raw / 0x10_0000 == 0
  {
  }

  lemma {:induction false} CallLinks(m: Machine, raw: u32, rd: Isa.Reg)
    requires m.Valid() && m.pc % 4 == 0 && m.memory.Load(m.pc, 4) == Done(raw) && rd == raw / 0x80 % 0x20
    requires raw % 0x80 == 0x6F || (raw % 0x80 == 0x67 && raw / 0x1000 % 8 == 0)
    requires Report(m).Completed?
    ensures Next(m).pc % 4 == 0 && Next(m).memory == m.memory && |m.regs| == 32 && |Next(m).regs| == 32
    ensures rd != 0 ==> Next(m).regs[rd] == (m.pc + 4) % 0x1_0000_0000
    ensures forall i | 0 <= i < 32 && i != rd :: Next(m).regs[i] == m.regs[i]
  {
    hide Next, Report, Isa.Step, Image.Load;
    if raw % 0x80 == 0x6F {
      var t := raw / 0x8000_0000 * 0x10_0000 + raw / 0x1000 % 0x100 * 0x1000 + raw / 0x10_0000 % 2 * 0x800
               + raw / 0x20_0000 % 0x400 * 2;
      JumpAndLink(m, raw, rd, t, (m.pc + (if t < 0x10_0000 then t else t + 0xFFE0_0000)) % 0x1_0000_0000);
    } else {
      var w := if raw / 0x10_0000 < 0x800 then raw / 0x10_0000 else raw / 0x10_0000 + 0xFFFF_F000;
      var rs1: Isa.Reg := raw / 0x8000 % 0x20;
      JumpAndLinkRegister(m, raw, rd, rs1, w, (m.regs[rs1] + w) % 0x1_0000_0000);
    }
  }

  /** A call and its return in a machine of twenty bytes: `jal x1, 16` at 0x1000
      with `jalr x0, 0(x1)` sixteen bytes on. */
  lemma {:induction false} CallExample(m: Machine)
    requires m == Isa.Machine(seq(32, _ => 0), 0x1000,
                              Image(0x1000, [0xEF, 0x00, 0x00, 0x01] + seq(12, _ => 0) + [0x67, 0x80, 0x00, 0x00]))
    ensures m.Valid() && Next(m).pc == 0x1010 && |Next(m).regs| == 32 && Next(m).regs[1] == 0x1004
    ensures After(m, 2).pc == 0x1004
  {
    hide Next, Report, Isa.Step, LittleEndian, After;
    var bytes := m.memory.bytes;
    assert bytes[0..4] == [0xEF, 0x00, 0x00, 0x01] && bytes[16..20] == [0x67, 0x80, 0x00, 0x00];
    LittleEndianOf(bytes[0..4]);
    LittleEndianOf(bytes[16..20]);
    assert m.memory.Load(0x1000, 4) == Done(0x0100_00EF) && m.memory.Load(0x1010, 4) == Done(0x0000_8067);
    JumpAndLink(m, 0x0100_00EF, 1, 16, 0x1010);
    CallReturns(m, 0x0100_00EF, 1);
  }

  /** Branches: the six conditions and their target. */
  lemma {:induction false} BranchResults(m: Machine, raw: u32, f3: nat, rs1: Isa.Reg, rs2: Isa.Reg, t: nat,
                                         target: u32, taken: bool, a: u32, b: u32)
    requires m.Valid() && m.pc % 4 == 0 && m.memory.Load(m.pc, 4) == Done(raw) && raw % 0x80 == 0x63
    requires f3 == raw / 0x1000 % 8 && rs1 == raw / 0x8000 % 0x20 && rs2 == raw / 0x10_0000 % 0x20
    requires a == m.regs[rs1] && b == m.regs[rs2]
    requires t == raw / 0x8000_0000 * 0x1000 + raw / 0x80 % 2 * 0x800 + raw / 0x200_0000 % 0x40 * 0x20
                  + raw / 0x100 % 0x10 * 2
    requires target == (m.pc + (if t < 0x1000 then t else t + 0xFFFF_E000)) % 0x1_0000_0000
    requires taken == if f3 == 0 then a == b
                      else if f3 == 1 then a != b
                      else if f3 == 4 then
                        (a + 0x8000_0000) % 0x1_0000_0000 < (b + 0x8000_0000) % 0x1_0000_0000
                      else if f3 == 5 then
                        (a + 0x8000_0000) % 0x1_0000_0000 >= (b + 0x8000_0000) % 0x1_0000_0000
                      else if f3 == 6 then a < b
                      else f3 == 7 && a >= b
    ensures f3 == 2 || f3 == 3 ==> Report(m) == Faulted(Trap(Isa.IllegalInstruction, m.pc, raw)) && Next(m) == m
    ensures f3 != 2 && f3 != 3 && taken && target % 4 != 0 ==>
              Report(m) == Faulted(Trap(Isa.InstructionAddressMisaligned, m.pc, target)) && Next(m) == m
    ensures f3 != 2 && f3 != 3 && !(taken && target % 4 != 0) ==>
              && Report(m).Completed?
              && Report(m).observation.controlFlow == Some(Isa.ControlFlow(Isa.ConditionalBranch, taken))
              && Report(m).observation.dataMemoryAccess == None
              && Report(m).observation.programCounter == m.pc
              && Report(m).observation.nextProgramCounter == Next(m).pc
              && Next(m).pc == (if taken then target else (m.pc + 4) % 0x1_0000_0000)
              && Next(m).regs == m.regs && Next(m).memory == m.memory
  {
    BitsTable(raw);
    BranchOffsetWord(raw);
    WrapSum(m.pc, ImmB(raw));
    hide Bits, ImmB, Isa.ExecuteBranch, Next, Report;
    assert Isa.Decode(raw) == Isa.DecodeBranch(raw);
    if f3 == 2 || f3 == 3 {
      Unsupported(m, raw);
    } else {
      SignedOrder(a, b);
      SignedOrder(b, a);
      StepBranches(m, taken, ImmB(raw), target);
    }
  }

  lemma {:induction false} StepBranches(m: Machine, taken: bool, offset: int, target: u32)
    requires m.Valid() && Isa.Step(m) == Isa.ExecuteBranch(m, taken, offset) && Wrap(m.pc + offset) == target
    ensures taken && target % 4 != 0 ==>
              Report(m) == Faulted(Trap(Isa.InstructionAddressMisaligned, m.pc, target)) && Next(m) == m
    ensures !(taken && target % 4 != 0) ==>
              && Report(m).Completed?
              && Report(m).observation.controlFlow == Some(Isa.ControlFlow(Isa.ConditionalBranch, taken))
              && Report(m).observation.dataMemoryAccess == None
              && Report(m).observation.programCounter == m.pc
              && Report(m).observation.nextProgramCounter == Next(m).pc
              && Next(m).pc == (if taken then target else (m.pc + 4) % 0x1_0000_0000)
              && Next(m).regs == m.regs && Next(m).memory == m.memory
  {
    hide Isa.Step, Wrap;
    assert Isa.Sequential(m) == (m.pc + 4) % 0x1_0000_0000 by { NextWord(m); }
  }

  lemma {:induction false} NextWord(m: Machine)
    ensures Isa.Sequential(m) == (m.pc + 4) % 0x1_0000_0000
  {
  }

  // ------------------------------------------------------------- memory and traps

  /** A load of one, two or four bytes: aligned and mapped, or which error; the
      value is the little-endian sum of the bytes. */
  lemma {:induction false} LoadIs(image: Image, address: u32, width: nat)
    requires width == 1 || width == 2 || width == 4
    ensures image.Load(address, width).Done? <==>
              address % width == 0 && image.base <= address && address + width <= image.base + |image.bytes|
    ensures address % width != 0 ==> image.Load(address, width) == Misaligned(address, width, Read)
    ensures address % width == 0 && !image.Load(address, width).Done? ==>
              image.Load(address, width) == OutOfBounds(address, width, Read)
    ensures image.Load(address, width).Done? ==>
              var b, at := image.bytes, address - image.base;
              image.Load(address, width).value
              == if width == 1 then b[at] as int
                 else if width == 2 then b[at] as int + 0x100 * b[at + 1] as int
                 else b[at] as int + 0x100 * b[at + 1] as int + 0x1_0000 * b[at + 2] as int
                      + 0x100_0000 * b[at + 3] as int
  {
    hide LittleEndian;
    if image.Load(address, width).Done? {
      LittleEndianOf(image.bytes[address - image.base..address - image.base + width]);
    }
  }

  /** A store of one, two or four bytes: the same conditions, and the bytes. */
  lemma {:induction false} StoreIs(image: Image, address: u32, width: nat, value: u32)
    requires width == 1 || width == 2 || width == 4
    ensures image.Store(address, width, value).Done? <==>
              address % width == 0 && image.base <= address && address + width <= image.base + |image.bytes|
    ensures address % width != 0 ==> image.Store(address, width, value) == Misaligned(address, width, Write)
    ensures address % width == 0 && !image.Store(address, width, value).Done? ==>
              image.Store(address, width, value) == OutOfBounds(address, width, Write)
    ensures image.Store(address, width, value).Done? ==>
              var after, at := image.Store(address, width, value).value, address - image.base;
              && after.base == image.base && |after.bytes| == |image.bytes|
              && after.bytes[at] == value % 0x100
              && (width >= 2 ==> after.bytes[at + 1] == value / 0x100 % 0x100)
              && (width == 4 ==>
                    after.bytes[at + 2] == value / 0x1_0000 % 0x100
                    && after.bytes[at + 3] == value / 0x100_0000 % 0x100)
              && forall i | 0 <= i < |image.bytes| && !(at <= i < at + width) :: after.bytes[i] == image.bytes[i]
  {
    hide ToBytes;
    ToBytesOf(value);
  }

  lemma {:induction false} LoadStep(m: Machine, raw: u32, rd: Isa.Reg, f3: nat, rs1: Isa.Reg, w: u32, address: u32,
                                    width: Isa.Width)
    requires m.Valid() && m.pc % 4 == 0 && m.memory.Load(m.pc, 4) == Done(raw) && raw % 0x80 == 0x03
    requires rd == raw / 0x80 % 0x20 && f3 == raw / 0x1000 % 8 && rs1 == raw / 0x8000 % 0x20
    requires w == if raw / 0x10_0000 < 0x800 then raw / 0x10_0000 else raw / 0x10_0000 + 0xFFFF_F000
    requires address == (m.regs[rs1] + w) % 0x1_0000_0000
    requires width == if f3 % 4 == 0 then 1 else if f3 % 4 == 1 then 2 else 4
    ensures f3 == 3 || f3 == 6 || f3 == 7 ==> Isa.Decode(raw) == Isa.Unsupported
    ensures f3 != 3 && f3 != 6 && f3 != 7 ==> Isa.Step(m) == Isa.ExecuteLoad(m, width, f3 < 4, rd, address)
  {
    hide ImmI, Wrap, Isa.ExecuteLoad, Bits;
    BitsTable(raw);
    AddImmediate(m.regs[rs1], raw, w);
    assert Isa.Decode(raw) == Isa.DecodeLoad(raw);
  }

  /** Loads: which exist, where they read, when they trap, and what they leave in
      the register, by their function codes. */
  lemma {:induction false} LoadOutcomes(m: Machine, raw: u32, rd: Isa.Reg, f3: nat, rs1: Isa.Reg, w: u32,
                                        address: u32, width: Isa.Width)
    requires m.Valid() && m.pc % 4 == 0 && m.memory.Load(m.pc, 4) == Done(raw) && raw % 0x80 == 0x03
    requires rd == raw / 0x80 % 0x20 && f3 == raw / 0x1000 % 8 && rs1 == raw / 0x8000 % 0x20
    requires w == if raw / 0x10_0000 < 0x800 then raw / 0x10_0000 else raw / 0x10_0000 + 0xFFFF_F000
    requires address == (m.regs[rs1] + w) % 0x1_0000_0000
    requires width == if f3 % 4 == 0 then 1 else if f3 % 4 == 1 then 2 else 4
    ensures if f3 == 3 || f3 == 6 || f3 == 7 then
              Report(m) == Faulted(Trap(Isa.IllegalInstruction, m.pc, raw)) && Next(m) == m
            else if address % width != 0 then
              Report(m) == Faulted(Trap(Isa.LoadAddressMisaligned, m.pc, address)) && Next(m) == m
            else if address < m.memory.base || address + width > m.memory.base + |m.memory.bytes| then
              Report(m) == Faulted(Trap(Isa.LoadAccessFault, m.pc, address)) && Next(m) == m
            else
              Advances(m, rd, Some(Isa.DataMemoryAccess(Isa.LoadAccess, address, width)))
  {
    hide Advances, Isa.Decode, Next, Report;
    LoadStep(m, raw, rd, f3, rs1, w, address, width);
    if f3 == 3 || f3 == 6 || f3 == 7 {
      Unsupported(m, raw);
    } else {
      LoadedOutcome(m, width, f3 < 4, rd, address);
    }
  }

  lemma {:induction false} LoadedOutcome(m: Machine, width: Isa.Width, signed: bool, rd: Isa.Reg, address: u32)
    requires m.Valid() && Isa.Step(m) == Isa.ExecuteLoad(m, width, signed, rd, address)
    ensures if address % width != 0 then
              Report(m) == Faulted(Trap(Isa.LoadAddressMisaligned, m.pc, address)) && Next(m) == m
            else if address < m.memory.base || address + width > m.memory.base + |m.memory.bytes| then
              Report(m) == Faulted(Trap(Isa.LoadAccessFault, m.pc, address)) && Next(m) == m
            else
              Advances(m, rd, Some(Isa.DataMemoryAccess(Isa.LoadAccess, address, width)))
              && m.memory.Load(address, width).Done?
              && (rd != 0 ==>
                    Next(m).regs[rd]
                    == var value := m.memory.Load(address, width).value;
                       if signed then Wrap(SignedField(value, 8 * width)) else Wrap(value))
  {
    hide Isa.Step, Wrap, SignedField, LittleEndian, Advances;
    if m.memory.Load(address, width).Done? {
      var value := m.memory.Load(address, width).value;
      WriteAdvances(m, rd, if signed then Wrap(SignedField(value, 8 * width)) else Wrap(value),
                    Some(Isa.DataMemoryAccess(Isa.LoadAccess, address, width)));
    }
  }

  lemma {:induction false} Extensions(x: nat)
    ensures x < 0x100 ==> Wrap(SignedField(x, 8)) == if x < 0x80 then x else x + 0xFFFF_FF00
    ensures x < 0x1_0000 ==> Wrap(SignedField(x, 16)) == if x < 0x8000 then x else x + 0xFFFF_0000
    ensures x < 0x1_0000_0000 ==> Wrap(SignedField(x, 32)) == x && Wrap(x) == x
  {
    Pow2Values();
    hide Pow2;
  }

  /** What a load leaves in its register: the byte or halfword with its top bit
      spread, or with zeros above, or the whole word. */
  lemma {:induction false} LoadResults(m: Machine, raw: u32, rd: Isa.Reg, f3: nat, rs1: Isa.Reg, w: u32,
                                       address: u32, width: Isa.Width, at: nat, v: u32)
    requires m.Valid() && m.pc % 4 == 0 && m.memory.Load(m.pc, 4) == Done(raw) && raw % 0x80 == 0x03
    requires rd == raw / 0x80 % 0x20 && f3 == raw / 0x1000 % 8 && rs1 == raw / 0x8000 % 0x20
    requires w == if raw / 0x10_0000 < 0x800 then raw / 0x10_0000 else raw / 0x10_0000 + 0xFFFF_F000
    requires address == (m.regs[rs1] + w) % 0x1_0000_0000
    requires width == if f3 % 4 == 0 then 1 else if f3 % 4 == 1 then 2 else 4
    requires f3 != 3 && f3 != 6 && f3 != 7 && address % width == 0
    requires at == address - m.memory.base && at + width <= |m.memory.bytes|
    requires rd != 0 && v == Next(m).regs[rd]
    ensures var b := m.memory.bytes;
            var low: int := b[at];
            && (f3 == 0 ==> v == if low < 0x80 then low else low + 0xFFFF_FF00)
            && (f3 == 4 ==> v == low)
            && (f3 == 1 || f3 == 5 ==>
                  var half: int := low + 0x100 * b[at + 1] as int;
                  v == if f3 == 5 || half < 0x8000 then half else half + 0xFFFF_0000)
            && (f3 == 2 ==>
                  v == low + 0x100 * b[at + 1] as int + 0x1_0000 * b[at + 2] as int + 0x100_0000 * b[at + 3] as int)
  {
    hide Advances, Isa.Decode, Next, Report, Wrap, SignedField, Isa.Step, Image.Load, Isa.ExecuteLoad;
    LoadStep(m, raw, rd, f3, rs1, w, address, width);
    LoadedOutcome(m, width, f3 < 4, rd, address);
    LoadIs(m.memory, address, width);
    Extensions(m.memory.Load(address, width).value);
  }

  lemma {:induction false} StoreStep(m: Machine, raw: u32, f3: nat, rs1: Isa.Reg, rs2: Isa.Reg, t: nat, address: u32,
                                     width: Isa.Width)
    requires m.Valid() && m.pc % 4 == 0 && m.memory.Load(m.pc, 4) == Done(raw) && raw % 0x80 == 0x23
    requires f3 == raw / 0x1000 % 8 && rs1 == raw / 0x8000 % 0x20 && rs2 == raw / 0x10_0000 % 0x20
    requires t == raw / 0x200_0000 * 0x20 + raw / 0x80 % 0x20
    requires address == (m.regs[rs1] + (if t < 0x800 then t else t + 0xFFFF_F000)) % 0x1_0000_0000
    requires width == if f3 == 0 then 1 else if f3 == 1 then 2 else 4
    ensures f3 > 2 ==> Isa.Decode(raw) == Isa.Unsupported
    ensures f3 <= 2 ==> Isa.Step(m) == Isa.ExecuteStore(m, width, address, m.regs[rs2])
  {
    hide ImmS, Wrap, Isa.ExecuteStore, Bits;
    BitsTable(raw);
    AddStoreOffset(m.regs[rs1], raw, t);
    assert Isa.Decode(raw) == Isa.DecodeStore(raw);
  }

  lemma {:induction false} AddStoreOffset(a: u32, raw: u32, t: nat)
    requires t == raw / 0x200_0000 * 0x20 + raw / 0x80 % 0x20
    ensures Wrap(a + ImmS(raw)) == (a + (if t < 0x800 then t else t + 0xFFFF_F000)) % 0x1_0000_0000
  {
    hide ImmS;
    ImmediateWords(raw);
    WrapSum(a, ImmS(raw));
  }

  /** Stores: which exist, where they write, when they trap, and the bytes they
      leave in memory. */
  lemma {:induction false} StoreOutcomes(m: Machine, raw: u32, f3: nat, rs1: Isa.Reg, rs2: Isa.Reg, t: nat,
                                         address: u32, width: Isa.Width)
    requires m.Valid() && m.pc % 4 == 0 && m.memory.Load(m.pc, 4) == Done(raw) && raw % 0x80 == 0x23
    requires f3 == raw / 0x1000 % 8 && rs1 == raw / 0x8000 % 0x20 && rs2 == raw / 0x10_0000 % 0x20
    requires t == raw / 0x200_0000 * 0x20 + raw / 0x80 % 0x20
    requires address == (m.regs[rs1] + (if t < 0x800 then t else t + 0xFFFF_F000)) % 0x1_0000_0000
    requires width == if f3 == 0 then 1 else if f3 == 1 then 2 else 4
    ensures if f3 > 2 then Report(m) == Faulted(Trap(Isa.IllegalInstruction, m.pc, raw)) && Next(m) == m
            else if address % width != 0 then
              Report(m) == Faulted(Trap(Isa.StoreAddressMisaligned, m.pc, address)) && Next(m) == m
            else if address < m.memory.base || address + width > m.memory.base + |m.memory.bytes| then
              Report(m) == Faulted(Trap(Isa.StoreAccessFault, m.pc, address)) && Next(m) == m
            else
              && Report(m).Completed?
              && Report(m).observation.programCounter == m.pc
              && Report(m).observation.nextProgramCounter == Next(m).pc == (m.pc + 4) % 0x1_0000_0000
              && Report(m).observation.dataMemoryAccess == Some(Isa.DataMemoryAccess(Isa.StoreAccess, address, width))
              && Report(m).observation.controlFlow == None
              && Next(m).regs == m.regs
              && Next(m).memory.base == m.memory.base && |Next(m).memory.bytes| == |m.memory.bytes|
              && var b, at, value := Next(m).memory.bytes, address - m.memory.base, m.regs[rs2];
                 && b[at] == value % 0x100
                 && (width >= 2 ==> b[at + 1] == value / 0x100 % 0x100)
                 && (width == 4 ==> b[at + 2] == value / 0x1_0000 % 0x100 && b[at + 3] == value / 0x100_0000 % 0x100)
                 && forall i | 0 <= i < |b| && !(at <= i < at + width) :: b[i] == m.memory.bytes[i]
  {
    hide Isa.Decode, Next, Report, Isa.Step;
    StoreStep(m, raw, f3, rs1, rs2, t, address, width);
    if f3 > 2 {
      Unsupported(m, raw);
    } else {
      StoredOutcome(m, width, address, m.regs[rs2]);
    }
  }

  lemma {:induction false} StoredOutcome(m: Machine, width: Isa.Width, address: u32, value: u32)
    requires m.Valid() && Isa.Step(m) == Isa.ExecuteStore(m, width, address, value)
    ensures if address % width != 0 then
              Report(m) == Faulted(Trap(Isa.StoreAddressMisaligned, m.pc, address)) && Next(m) == m
            else if address < m.memory.base || address + width > m.memory.base + |m.memory.bytes| then
              Report(m) == Faulted(Trap(Isa.StoreAccessFault, m.pc, address)) && Next(m) == m
            else
              && Report(m).Completed?
              && Report(m).observation.programCounter == m.pc
              && Report(m).observation.nextProgramCounter == Next(m).pc == (m.pc + 4) % 0x1_0000_0000
              && Report(m).observation.dataMemoryAccess == Some(Isa.DataMemoryAccess(Isa.StoreAccess, address, width))
              && Report(m).observation.controlFlow == None
              && Next(m).regs == m.regs
              && Next(m).memory.base == m.memory.base && |Next(m).memory.bytes| == |m.memory.bytes|
              && var b, at := Next(m).memory.bytes, address - m.memory.base;
                 && b[at] == value % 0x100
                 && (width >= 2 ==> b[at + 1] == value / 0x100 % 0x100)
                 && (width == 4 ==> b[at + 2] == value / 0x1_0000 % 0x100 && b[at + 3] == value / 0x100_0000 % 0x100)
                 && forall i | 0 <= i < |b| && !(at <= i < at + width) :: b[i] == m.memory.bytes[i]
  {
    hide Isa.Step, ToBytes, Image.Store;
    StoreIs(m.memory, address, width, value);
  }

  /** What cannot be fetched: the PC is not a word address, or its word is not
      mapped. */
  lemma {:induction false} FetchTraps(m: Machine)
    requires m.Valid()
    ensures m.pc % 4 != 0 ==>
              Report(m) == Faulted(Trap(Isa.InstructionAddressMisaligned, m.pc, m.pc)) && Next(m) == m
    ensures m.pc % 4 == 0 && (m.pc < m.memory.base || m.pc + 4 > m.memory.base + |m.memory.bytes|) ==>
              Report(m) == Faulted(Trap(Isa.InstructionAccessFault, m.pc, m.pc)) && Next(m) == m
  {
    hide Isa.Execute, Isa.Decode, LittleEndian;
  }

  /** Fences do nothing; calls and breaks trap with their causes; every word outside
      the eleven opcodes, and every other system word, is an illegal instruction. */
  lemma {:induction false} SystemWords(m: Machine, raw: u32)
    requires m.Valid() && m.pc % 4 == 0 && m.memory.Load(m.pc, 4) == Done(raw)
    ensures raw % 0x80 == 0x0F && raw / 0x1000 % 8 == 0 ==> Advances(m, 0, None)
    ensures raw == 0x73 ==> Report(m) == Faulted(Trap(Isa.EnvironmentCallFromUserMode, m.pc, 0)) && Next(m) == m
    ensures raw == 0x10_0073 ==> Report(m) == Faulted(Trap(Isa.Breakpoint, m.pc, 0)) && Next(m) == m
    ensures (raw % 0x80 == 0x73 && raw != 0x73 && raw != 0x10_0073)
            || (raw % 0x80 == 0x0F && raw / 0x1000 % 8 != 0)
            || raw % 0x80 !in {0x03, 0x0F, 0x13, 0x17, 0x23, 0x33, 0x37, 0x63, 0x67, 0x6F, 0x73}
            ==> Report(m) == Faulted(Trap(Isa.IllegalInstruction, m.pc, raw)) && Next(m) == m
  {
    hide Isa.DecodeBranch, Isa.DecodeLoad, Isa.DecodeStore, Isa.DecodeImmediate, Isa.DecodeRegister;
    hide Bits, Advances, Next, Report;
    BitsTable(raw);
    if Isa.Decode(raw) == Isa.Unsupported {
      Unsupported(m, raw);
    }
    if Isa.Decode(raw) == Isa.Fence {
      FenceAdvances(m);
    }
    if raw == 0x73 || raw == 0x10_0073 {
      SystemTraps(m);
    }
  }

  lemma {:induction false} FenceAdvances(m: Machine)
    requires m.Valid() && Isa.Step(m) == Isa.Retired(m.(pc := Isa.Sequential(m)), None, None)
    ensures Advances(m, 0, None)
  {
    hide Isa.Step;
  }

  lemma {:induction false} SystemTraps(m: Machine)
    requires m.Valid() && Isa.Step(m).Trapped?
    ensures Report(m) == Faulted(Trap(Isa.Step(m).cause, m.pc, Isa.Step(m).value)) && Next(m) == m
  {
    hide Isa.Step;
  }

  /** A completed step reports the decoded record of the word it fetched. */
  lemma {:induction false} ObservedInstruction(m: Machine, raw: u32)
    requires m.Valid() && m.memory.Load(m.pc, 4) == Done(raw) && Report(m).Completed?
    ensures DecodeInstruction(raw) == Some(Report(m).observation.instruction)
  {
    hide DecodeInstruction, Isa.Decode;
    if DecodeInstruction(raw).None? {
      UndecodedIsUnsupported(raw);
    }
  }
}
