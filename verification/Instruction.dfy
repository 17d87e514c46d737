/** Instruction decoding (src/instruction.cpp): fields and scattered immediates
    picked out with shifts and masks, against the bit positions of section 2.3
    of the RISC-V Unprivileged ISA. */
module Instructions {
  import opened Options
  import opened Words

  datatype Opcode =
    | Load | MiscMemory | OpImmediate | Auipc | Store | Op | Lui | Branch | Jalr | Jal | System

  datatype InstructionFormat = R | I | S | B | U | J

  datatype DecodedInstruction = DecodedInstruction(
    raw: u32, immediate: u32, opcode: Opcode, format: InstructionFormat,
    destination: u8, source1: u8, source2: u8, function3: u8, function7: u8)
  {
    predicate InRange() {
      destination < 32 && source1 < 32 && source2 < 32 && function3 < 8 && function7 < 128
    }
  }

  function OpcodeBits(opcode: Opcode): (bits: u8)
    ensures bits < 0x80
  {
    match opcode
    case Load => 0x03
    case MiscMemory => 0x0F
    case OpImmediate => 0x13
    case Auipc => 0x17
    case Store => 0x23
    case Op => 0x33
    case Lui => 0x37
    case Branch => 0x63
    case Jalr => 0x67
    case Jal => 0x6F
    case System => 0x73
  }

  // ------------------------------------------------------------------ the decoder

  function Field(raw: u32, shift: nat, mask: nat): u8 {
    BitAnd(ShiftRight(raw, shift), mask) % 0x100
  }

  /** `value &= (1 << n) - 1; (value ^ sign) - sign`, all in 32-bit words. */
  function SignExtend(value: u32, bitCount: nat): u32
    requires 1 <= bitCount <= 31
  {
    var signBit := ShiftLeft(1, bitCount - 1);
    var mask := Wrap(ShiftLeft(1, bitCount) - 1);
    Wrap(BitXor(BitAnd(value, mask), signBit) - signBit)
  }

  function DecodeOpcode(raw: u32): (r: Option<Opcode>)
    ensures r.Some? ==> raw % 0x80 == OpcodeBits(r.value)
    ensures r.None? ==> forall o: Opcode :: raw % 0x80 != OpcodeBits(o)
  {
    OpcodeMask(raw);
    var bits := BitAnd(raw, 0x7F);
    if bits == 0x03 then Some(Load)
    else if bits == 0x0F then Some(MiscMemory)
    else if bits == 0x13 then Some(OpImmediate)
    else if bits == 0x17 then Some(Auipc)
    else if bits == 0x23 then Some(Store)
    else if bits == 0x33 then Some(Op)
    else if bits == 0x37 then Some(Lui)
    else if bits == 0x63 then Some(Branch)
    else if bits == 0x67 then Some(Jalr)
    else if bits == 0x6F then Some(Jal)
    else if bits == 0x73 then Some(System)
    else None
  }

  function FormatForOpcode(opcode: Opcode): InstructionFormat {
    match opcode
    case Op => R
    case Load | MiscMemory | OpImmediate | Jalr | System => I
    case Store => S
    case Branch => B
    case Auipc | Lui => U
    case Jal => J
  }

  function RawImmediateS(raw: u32): nat {
    BitOr(ShiftLeft(ShiftRight(raw, 25), 5), BitAnd(ShiftRight(raw, 7), 0x1F))
  }

  function RawImmediateB(raw: u32): nat {
    BitOr(BitOr(BitOr(ShiftLeft(ShiftRight(raw, 31), 12),
                      ShiftLeft(BitAnd(ShiftRight(raw, 7), 0x01), 11)),
                ShiftLeft(BitAnd(ShiftRight(raw, 25), 0x3F), 5)),
          ShiftLeft(BitAnd(ShiftRight(raw, 8), 0x0F), 1))
  }

  function RawImmediateJ(raw: u32): nat {
    BitOr(BitOr(BitOr(ShiftLeft(ShiftRight(raw, 31), 20),
                      ShiftLeft(BitAnd(ShiftRight(raw, 12), 0xFF), 12)),
                ShiftLeft(BitAnd(ShiftRight(raw, 20), 0x01), 11)),
          ShiftLeft(BitAnd(ShiftRight(raw, 21), 0x3FF), 1))
  }

  function ImmediateFieldI(raw: u32): u32 {
    SignExtend(ShiftRight(raw, 20), 12)
  }

  function ImmediateFieldS(raw: u32): u32 {
    ImmediateS(raw);
    SignExtend(RawImmediateS(raw), 12)
  }

  function ImmediateFieldB(raw: u32): u32 {
    ImmediateB(raw);
    SignExtend(RawImmediateB(raw), 13)
  }

  function ImmediateFieldU(raw: u32): u32 {
    BitAnd(raw, 0xFFFF_F000)
  }

  function ImmediateFieldJ(raw: u32): u32 {
    ImmediateJ(raw);
    SignExtend(RawImmediateJ(raw), 21)
  }

  function DecodeInstruction(raw: u32): Option<DecodedInstruction> {
    match DecodeOpcode(raw)
    case None => None
    case Some(opcode) =>
      var blank := DecodedInstruction(raw, 0, opcode, FormatForOpcode(opcode), 0, 0, 0, 0, 0);
      match blank.format
      case R => Some(blank.(destination := Field(raw, 7, 0x1F), function3 := Field(raw, 12, 0x07),
                            source1 := Field(raw, 15, 0x1F), source2 := Field(raw, 20, 0x1F),
                            function7 := Field(raw, 25, 0x7F)))
      case I => Some(blank.(destination := Field(raw, 7, 0x1F), function3 := Field(raw, 12, 0x07),
                            source1 := Field(raw, 15, 0x1F), function7 := Field(raw, 25, 0x7F),
                            immediate := ImmediateFieldI(raw)))
      case S => Some(blank.(function3 := Field(raw, 12, 0x07), source1 := Field(raw, 15, 0x1F),
                            source2 := Field(raw, 20, 0x1F), immediate := ImmediateFieldS(raw)))
      case B => Some(blank.(function3 := Field(raw, 12, 0x07), source1 := Field(raw, 15, 0x1F),
                            source2 := Field(raw, 20, 0x1F), immediate := ImmediateFieldB(raw)))
      case U => Some(blank.(destination := Field(raw, 7, 0x1F), immediate := ImmediateFieldU(raw)))
      case J => Some(blank.(destination := Field(raw, 7, 0x1F), immediate := ImmediateFieldJ(raw)))
  }

  // -------------------------------------------------------------------- reference

  /** Bits hi..lo of an instruction word, as the ISA manual writes raw[hi:lo]. */
  function Bits(raw: u32, hi: nat, lo: nat): nat
    requires lo <= hi < 32
  {
    raw / Pow2(lo) % Pow2(hi - lo + 1)
  }

  /** An n-bit field read as a two's-complement number. */
  function SignedField(v: nat, n: nat): int
    requires n >= 1
  {
    if v >= Pow2(n - 1) then v - Pow2(n) else v
  }

  function ImmI(raw: u32): int {
    SignedField(Bits(raw, 31, 20), 12)
  }

  function ImmS(raw: u32): int {
    SignedField(Bits(raw, 31, 25) * 0x20 + Bits(raw, 11, 7), 12)
  }

  function ImmB(raw: u32): int {
    SignedField(Bits(raw, 31, 31) * 0x1000 + Bits(raw, 7, 7) * 0x800
                + Bits(raw, 30, 25) * 0x20 + Bits(raw, 11, 8) * 2, 13)
  }

  function ImmU(raw: u32): int {
    Bits(raw, 31, 12) * 0x1000
  }

  function ImmJ(raw: u32): int {
    SignedField(Bits(raw, 31, 31) * 0x10_0000 + Bits(raw, 19, 12) * 0x1000
                + Bits(raw, 20, 20) * 0x800 + Bits(raw, 30, 21) * 2, 21)
  }

  // ----------------------------------------------------- the decoder's bit tricks

  /** Shifting down and masking reads one field. */
  lemma {:induction false} ShiftMask(raw: u32, lo: nat, n: nat, place: nat, size: nat)
    requires place == Pow2(lo) && size == Pow2(n)
    ensures BitAnd(ShiftRight(raw, lo), size - 1) == raw / place % size
  {
    ShiftRightIs(raw, lo, place);
    MaskIs(ShiftRight(raw, lo), n, size);
  }

  lemma {:induction false} OpcodeMask(raw: u32)
    ensures BitAnd(raw, 0x7F) == raw % 0x80
  {
    hide BitAnd, BitOr, BitXor, ShiftRight, Scaled, Pow2;
    Pow2Values();
    MaskIs(raw, 7, 0x80);
  }

  lemma {:induction false} BitsAre(raw: u32, hi: nat, lo: nat, place: nat, size: nat)
    requires lo <= hi < 32 && place == Pow2(lo) && size == Pow2(hi - lo + 1)
    ensures Bits(raw, hi, lo) == raw / place % size
  {
  }

  lemma {:induction false} BitsTable(raw: u32)
    ensures Bits(raw, 6, 0) == raw % 0x80
    ensures Bits(raw, 11, 7) == raw / 0x80 % 0x20
    ensures Bits(raw, 14, 12) == raw / 0x1000 % 8
    ensures Bits(raw, 19, 15) == raw / 0x8000 % 0x20
    ensures Bits(raw, 24, 20) == raw / 0x10_0000 % 0x20
    ensures Bits(raw, 31, 25) == raw / 0x200_0000
    ensures Bits(raw, 31, 20) == raw / 0x10_0000
    ensures Bits(raw, 31, 12) == raw / 0x1000
  {
    Pow2Values();
    BitsAre(raw, 6, 0, 1, 0x80);
    BitsAre(raw, 11, 7, 0x80, 0x20);
    BitsAre(raw, 14, 12, 0x1000, 8);
    BitsAre(raw, 19, 15, 0x8000, 0x20);
    BitsAre(raw, 24, 20, 0x10_0000, 0x20);
    BitsAre(raw, 31, 25, 0x200_0000, 0x80);
    BitsAre(raw, 31, 20, 0x10_0000, 0x1000);
    BitsAre(raw, 31, 12, 0x1000, 0x10_0000);
  }

  lemma {:induction false} BitsTableBJ(raw: u32)
    ensures Bits(raw, 31, 31) == raw / 0x8000_0000
    ensures Bits(raw, 7, 7) == raw / 0x80 % 2
    ensures Bits(raw, 30, 25) == raw / 0x200_0000 % 0x40
    ensures Bits(raw, 11, 8) == raw / 0x100 % 0x10
    ensures Bits(raw, 19, 12) == raw / 0x1000 % 0x100
    ensures Bits(raw, 20, 20) == raw / 0x10_0000 % 2
    ensures Bits(raw, 30, 21) == raw / 0x20_0000 % 0x400
  {
    Pow2Values();
    BitsAre(raw, 31, 31, 0x8000_0000, 2);
    BitsAre(raw, 7, 7, 0x80, 2);
    BitsAre(raw, 30, 25, 0x200_0000, 0x40);
    BitsAre(raw, 11, 8, 0x100, 0x10);
    BitsAre(raw, 19, 12, 0x1000, 0x100);
    BitsAre(raw, 20, 20, 0x10_0000, 2);
    BitsAre(raw, 30, 21, 0x20_0000, 0x400);
  }

  lemma {:induction false} FieldAt(raw: u32, lo: nat, n: nat, place: nat, size: nat)
    requires place == Pow2(lo) && size == Pow2(n) && size <= 0x80
    ensures Field(raw, lo, size - 1) == raw / place % size
  {
    hide BitAnd, BitOr, BitXor, ShiftRight, Scaled, Pow2;
    ShiftMask(raw, lo, n, place, size);
    var f := raw / place % size;
    assert 0 <= f < size;
    assert f % 0x100 == f;
  }

  lemma {:induction false} FieldTable(raw: u32)
    ensures Field(raw, 7, 0x1F) == raw / 0x80 % 0x20
    ensures Field(raw, 12, 0x07) == raw / 0x1000 % 8
    ensures Field(raw, 15, 0x1F) == raw / 0x8000 % 0x20
    ensures Field(raw, 20, 0x1F) == raw / 0x10_0000 % 0x20
    ensures Field(raw, 25, 0x7F) == raw / 0x200_0000
  {
    hide BitAnd, BitOr, BitXor, ShiftRight, Scaled, Pow2;
    Pow2Values();
    FieldAt(raw, 7, 5, 0x80, 0x20);
    FieldAt(raw, 12, 3, 0x1000, 8);
    FieldAt(raw, 15, 5, 0x8000, 0x20);
    FieldAt(raw, 20, 5, 0x10_0000, 0x20);
    TopField(raw);
  }

  lemma {:induction false} TopField(raw: u32)
    ensures Field(raw, 25, 0x7F) == raw / 0x200_0000
  {
    hide BitAnd, BitOr, BitXor, ShiftRight, Scaled, Pow2;
    Pow2Values();
    FieldAt(raw, 25, 7, 0x200_0000, 0x80);
    assert raw / 0x200_0000 < 0x80;
  }

  /** Or-ing a shifted fragment below what is already there adds its weight. */
  lemma {:induction false} OrFragment(high: nat, above: nat, size: nat, fragment: nat, shift: nat, weight: nat)
    requires weight == Pow2(shift) && size == Pow2(above)
    requires 0 <= fragment * weight < size <= TWO_32
    ensures BitOr(high * size, ShiftLeft(fragment, shift)) == high * size + fragment * weight
  {
    hide BitAnd, BitOr, BitXor, ShiftRight, Scaled, Pow2;
    ShiftLeftIs(fragment, shift, weight);
    ScaledIs(high, above, size);
    OrIsAdd(high, above, fragment * weight);
  }

  lemma {:induction false} FragmentsS(a: nat, b: nat)
    requires a < 0x80 && b < 0x20
    ensures BitOr(ShiftLeft(a, 5), b) == a * 0x20 + b
  {
    hide BitAnd, BitOr, BitXor, ShiftRight, Scaled, Pow2;
    Pow2Values();
    ShiftLeftIs(a, 5, 0x20);
    ScaledIs(a, 5, 0x20);
    OrIsAdd(a, 5, b);
  }

  lemma {:induction false} FragmentsB(a: nat, b: nat, c: nat, d: nat)
    requires a < 2 && b < 2 && c < 0x40 && d < 0x10
    ensures BitOr(BitOr(BitOr(ShiftLeft(a, 12), ShiftLeft(b, 11)), ShiftLeft(c, 5)), ShiftLeft(d, 1))
            == a * 0x1000 + b * 0x800 + c * 0x20 + d * 2
  {
    hide BitAnd, BitOr, BitXor, ShiftRight, Scaled, Pow2;
    Pow2Values();
    ShiftLeftIs(a, 12, 0x1000);
    OrFragment(a, 12, 0x1000, b, 11, 0x800);
    var ab := 2 * a + b;
    assert a * 0x1000 + b * 0x800 == ab * 0x800;
    OrFragment(ab, 11, 0x800, c, 5, 0x20);
    var abc := 0x40 * ab + c;
    assert BitOr(BitOr(ShiftLeft(a, 12), ShiftLeft(b, 11)), ShiftLeft(c, 5)) == abc * 0x20;
    OrFragment(abc, 5, 0x20, d, 1, 2);
  }

  lemma {:induction false} FragmentsJ(a: nat, b: nat, c: nat, d: nat)
    requires a < 2 && b < 0x100 && c < 2 && d < 0x400
    ensures BitOr(BitOr(BitOr(ShiftLeft(a, 20), ShiftLeft(b, 12)), ShiftLeft(c, 11)), ShiftLeft(d, 1))
            == a * 0x10_0000 + b * 0x1000 + c * 0x800 + d * 2
  {
    hide BitAnd, BitOr, BitXor, ShiftRight, Scaled, Pow2;
    Pow2Values();
    ShiftLeftIs(a, 20, 0x10_0000);
    OrFragment(a, 20, 0x10_0000, b, 12, 0x1000);
    var ab := 0x100 * a + b;
    assert a * 0x10_0000 + b * 0x1000 == ab * 0x1000;
    OrFragment(ab, 12, 0x1000, c, 11, 0x800);
    var abc := 2 * ab + c;
    assert BitOr(BitOr(ShiftLeft(a, 20), ShiftLeft(b, 12)), ShiftLeft(c, 11)) == abc * 0x800;
    OrFragment(abc, 11, 0x800, d, 1, 2);
  }

  /** The or-ed fragments of each scattered immediate are its weighted bits. */
  lemma {:induction false} ImmediateS(raw: u32)
    ensures RawImmediateS(raw) == Bits(raw, 31, 25) * 0x20 + Bits(raw, 11, 7) < 0x1000
  {
    hide BitAnd, BitOr, BitXor, ShiftRight, Scaled, Pow2;
    BitsTable(raw);
    Pow2Values();
    ShiftRightIs(raw, 25, 0x200_0000);
    ShiftMask(raw, 7, 5, 0x80, 0x20);
    FragmentsS(raw / 0x200_0000, raw / 0x80 % 0x20);
  }

  lemma {:induction false} ImmediateB(raw: u32)
    ensures RawImmediateB(raw) == Bits(raw, 31, 31) * 0x1000 + Bits(raw, 7, 7) * 0x800
                                  + Bits(raw, 30, 25) * 0x20 + Bits(raw, 11, 8) * 2 < 0x2000
  {
    hide BitAnd, BitOr, BitXor, ShiftRight, Scaled, Pow2;
    BitsTableBJ(raw);
    Pow2Values();
    ShiftRightIs(raw, 31, 0x8000_0000);
    ShiftMask(raw, 7, 1, 0x80, 2);
    ShiftMask(raw, 25, 6, 0x200_0000, 0x40);
    ShiftMask(raw, 8, 4, 0x100, 0x10);
    FragmentsB(raw / 0x8000_0000, raw / 0x80 % 2, raw / 0x200_0000 % 0x40, raw / 0x100 % 0x10);
  }

  lemma {:induction false} ImmediateJ(raw: u32)
    ensures RawImmediateJ(raw) == Bits(raw, 31, 31) * 0x10_0000 + Bits(raw, 19, 12) * 0x1000
                                  + Bits(raw, 20, 20) * 0x800 + Bits(raw, 30, 21) * 2 < 0x20_0000
  {
    hide BitAnd, BitOr, BitXor, ShiftRight, Scaled, Pow2;
    BitsTableBJ(raw);
    Pow2Values();
    ShiftRightIs(raw, 31, 0x8000_0000);
    ShiftMask(raw, 12, 8, 0x1000, 0x100);
    ShiftMask(raw, 20, 1, 0x10_0000, 2);
    ShiftMask(raw, 21, 10, 0x20_0000, 0x400);
    FragmentsJ(raw / 0x8000_0000, raw / 0x1000 % 0x100, raw / 0x10_0000 % 2, raw / 0x20_0000 % 0x400);
  }

  lemma {:induction false} Pow2Fits(n: nat)
    requires n <= 31
    ensures Pow2(n) <= 0x8000_0000
  {
    Pow2Values();
    Pow2Monotone(n, 31);
  }

  lemma {:induction false} OneShifted(n: nat)
    requires n <= 31
    ensures ShiftLeft(1, n) == Pow2(n) && Wrap(ShiftLeft(1, n) - 1) == Pow2(n) - 1
  {
    hide BitAnd, BitOr, BitXor, ShiftRight, Scaled, Pow2;
    Pow2Fits(n);
    ShiftLeftIs(1, n, Pow2(n));
  }

  /** Flipping the top bit and subtracting it again extends that bit. */
  lemma {:induction false} FlippedSign(low: nat, n: nat)
    requires 1 <= n <= 31 && low < Pow2(n)
    ensures Wrap(BitXor(low, Pow2(n - 1)) - Pow2(n - 1)) == Wrap(SignedField(low, n))
  {
    assert Pow2(n) == 2 * Pow2(n - 1);
    hide BitXor, Pow2, Wrap;
    XorTopBit(low, n - 1);
    var half := Pow2(n - 1);
    assert BitXor(low, half) - half == SignedField(low, n);
  }

  lemma {:induction false} MaskedSign(value: u32, n: nat, mask: nat, half: nat)
    requires 1 <= n <= 31 && mask == Pow2(n) - 1 && half == Pow2(n - 1)
    ensures SignExtend(value, n) == Wrap(BitXor(BitAnd(value, mask), half) - half)
  {
    hide BitAnd, BitXor, Pow2, Wrap, ShiftLeft;
    OneShifted(n - 1);
    OneShifted(n);
  }

  lemma {:induction false} ExtendedLow(value: u32, n: nat, low: nat)
    requires 1 <= n <= 31 && low == BitAnd(value, Pow2(n) - 1) && low < Pow2(n)
    ensures SignExtend(value, n) == Wrap(SignedField(low, n))
  {
    hide BitAnd, BitXor, Pow2, SignExtend, SignedField, Wrap;
    MaskedSign(value, n, Pow2(n) - 1, Pow2(n - 1));
    FlippedSign(low, n);
  }

  /** Mask, xor and subtract is two's-complement extension of the low n bits. */
  lemma {:induction false} SignExtendMeaning(value: u32, n: nat)
    requires 1 <= n <= 31
    ensures SignExtend(value, n) == Wrap(SignedField(value % Pow2(n), n))
  {
    hide BitAnd, BitXor, Pow2, SignExtend, SignedField, Wrap;
    MaskIs(value, n, Pow2(n));
    ExtendedLow(value, n, value % Pow2(n));
  }

  /** A value that already fits is extended as it stands. */
  lemma {:induction false} SignExtendField(value: u32, n: nat, size: nat)
    requires 1 <= n <= 31 && size == Pow2(n) && value < size
    ensures SignExtend(value, n) == Wrap(SignedField(value, n))
  {
    hide SignExtend, Pow2;
    SignExtendMeaning(value, n);
    ModSmall(value, size);
  }

  /** What the ISA manual's tables say a word with this opcode decodes to. */
  function Expected(raw: u32, opcode: Opcode): DecodedInstruction {
    var rd, f3, rs1, rs2, f7 :=
      Bits(raw, 11, 7), Bits(raw, 14, 12), Bits(raw, 19, 15), Bits(raw, 24, 20), Bits(raw, 31, 25);
    FieldRanges(raw);
    match FormatForOpcode(opcode)
    case R => DecodedInstruction(raw, 0, opcode, R, rd, rs1, rs2, f3, f7)
    case I => DecodedInstruction(raw, Wrap(ImmI(raw)), opcode, I, rd, rs1, 0, f3, f7)
    case S => DecodedInstruction(raw, Wrap(ImmS(raw)), opcode, S, 0, rs1, rs2, f3, 0)
    case B => DecodedInstruction(raw, Wrap(ImmB(raw)), opcode, B, 0, rs1, rs2, f3, 0)
    case U => DecodedInstruction(raw, Wrap(ImmU(raw)), opcode, U, rd, 0, 0, 0, 0)
    case J => DecodedInstruction(raw, Wrap(ImmJ(raw)), opcode, J, rd, 0, 0, 0, 0)
  }

  lemma {:induction false} FieldRanges(raw: u32)
    ensures Bits(raw, 11, 7) < 32 && Bits(raw, 14, 12) < 8 && Bits(raw, 19, 15) < 32
    ensures Bits(raw, 24, 20) < 32 && Bits(raw, 31, 25) < 128
  {
    BitsTable(raw);
  }

  /** The decoder accepts exactly the eleven major opcodes, and every field it
      fills in is the one the manual's tables give. */
  lemma {:induction false} DecodeMeaning(raw: u32)
    ensures DecodeInstruction(raw).None? <==> forall o: Opcode :: raw % 0x80 != OpcodeBits(o)
    ensures forall o: Opcode | raw % 0x80 == OpcodeBits(o) ::
              DecodeInstruction(raw) == Some(Expected(raw, o)) && Expected(raw, o).InRange()
  {
    match DecodeOpcode(raw)
    case None =>
    case Some(opcode) =>
      OpcodeUnique(raw, opcode);
      FieldsMeaning(raw, opcode);
  }

  lemma {:induction false} OpcodeUnique(raw: u32, opcode: Opcode)
    requires raw % 0x80 == OpcodeBits(opcode)
    ensures forall o: Opcode | raw % 0x80 == OpcodeBits(o) :: o == opcode
  {
  }

  lemma {:induction false} FieldsMeaning(raw: u32, opcode: Opcode)
    requires DecodeOpcode(raw) == Some(opcode)
    ensures DecodeInstruction(raw) == Some(Expected(raw, opcode)) && Expected(raw, opcode).InRange()
  {
    hide BitAnd, BitOr, BitXor, ShiftRight, Scaled, Pow2;
    FieldTable(raw);
    BitsTable(raw);
    match FormatForOpcode(opcode) {
      case R =>
      case I => ImmediateIWord(raw);
      case S => ImmediateSWord(raw);
      case B => ImmediateBWord(raw);
      case U => ImmediateUWord(raw);
      case J => ImmediateJWord(raw);
    }
  }

  lemma {:induction false} ImmediateIWord(raw: u32)
    ensures ImmediateFieldI(raw) == Wrap(ImmI(raw))
  {
    hide BitAnd, BitOr, BitXor, ShiftRight, Scaled, Pow2;
    Pow2Values();
    BitsTable(raw);
    ShiftRightIs(raw, 20, 0x10_0000);
    SignExtendField(raw / 0x10_0000, 12, 0x1000);
  }

  lemma {:induction false} ImmediateSWord(raw: u32)
    ensures ImmediateFieldS(raw) == Wrap(ImmS(raw))
  {
    hide BitAnd, BitOr, BitXor, ShiftRight, Scaled, Pow2;
    Pow2Values();
    ImmediateS(raw);
    SignExtendField(RawImmediateS(raw), 12, 0x1000);
  }

  lemma {:induction false} ImmediateBWord(raw: u32)
    ensures ImmediateFieldB(raw) == Wrap(ImmB(raw))
  {
    hide BitAnd, BitOr, BitXor, ShiftRight, Scaled, Pow2;
    Pow2Values();
    ImmediateB(raw);
    SignExtendField(RawImmediateB(raw), 13, 0x2000);
  }

  lemma {:induction false} ImmediateUWord(raw: u32)
    ensures ImmediateFieldU(raw) == Wrap(ImmU(raw))
  {
    hide BitAnd, BitOr, BitXor, ShiftRight, Scaled, Pow2;
    Pow2Values();
    BitsTable(raw);
    MaskHigh(raw, 12, 32, 0x1000, 0xFFFF_F000);
    assert raw - raw % 0x1000 == raw / 0x1000 * 0x1000;
  }

  lemma {:induction false} ImmediateJWord(raw: u32)
    ensures ImmediateFieldJ(raw) == Wrap(ImmJ(raw))
  {
    hide BitAnd, BitOr, BitXor, ShiftRight, Scaled, Pow2;
    Pow2Values();
    ImmediateJ(raw);
    SignExtendField(RawImmediateJ(raw), 21, 0x20_0000);
  }
}
