/** Instruction encoding (benchmarks/benchmark_workload.cpp, the encode_*
    functions) against the decoder: words with a major opcode and canonical
    decoded records are in one-to-one correspondence. */
module Encoding {
  import opened Options
  import opened Words
  import opened Instructions

  // ------------------------------------------------------------- the six positions

  /** The six contiguous fields every format is cut along. */
  datatype Fields = Fields(op: nat, rd: nat, f3: nat, rs1: nat, rs2: nat, f7: nat) {
    predicate Fit() {
      op < 0x80 && rd < 0x20 && f3 < 8 && rs1 < 0x20 && rs2 < 0x20 && f7 < 0x80
    }
  }

  function Word(f: Fields): u32
    requires f.Fit()
  {
    f.op + 0x80 * f.rd + 0x1000 * f.f3 + 0x8000 * f.rs1 + 0x10_0000 * f.rs2 + 0x200_0000 * f.f7
  }

  function FieldsOf(raw: u32): (f: Fields)
    ensures f.Fit()
  {
    Fields(raw % 0x80, raw / 0x80 % 0x20, raw / 0x1000 % 8, raw / 0x8000 % 0x20, raw / 0x10_0000 % 0x20,
           raw / 0x200_0000)
  }

  /** Dividing again by the next field's size. */
  lemma {:induction false} NestedPositions(raw: u32)
    ensures raw / 0x1000 == raw / 0x80 / 0x20
    ensures raw / 0x8000 == raw / 0x1000 / 8
    ensures raw / 0x10_0000 == raw / 0x8000 / 0x20
    ensures raw / 0x200_0000 == raw / 0x10_0000 / 0x20
  {
    ModSplit(raw, 0x80, 0x20);
    ModSplit(raw, 0x1000, 8);
    ModSplit(raw, 0x8000, 0x20);
    ModSplit(raw, 0x10_0000, 0x20);
  }

  lemma {:induction false} WordOfFields(raw: u32)
    ensures Word(FieldsOf(raw)) == raw
  {
    NestedPositions(raw);
  }

  lemma {:induction false} FieldsOfWord(f: Fields)
    requires f.Fit()
    ensures FieldsOf(Word(f)) == f
  {
    var raw := Word(f);
    NestedPositions(raw);
    var x5: int := f.f7;
    var x4: int := f.rs2 + 0x20 * x5;
    var x3: int := f.rs1 + 0x20 * x4;
    var x2: int := f.f3 + 8 * x3;
    var x1: int := f.rd + 0x20 * x2;
    DivModUnique(raw, 0x80, x1, f.op);
    DivModUnique(x1, 0x20, x2, f.rd);
    DivModUnique(x2, 8, x3, f.f3);
    DivModUnique(x3, 0x20, x4, f.rs1);
    DivModUnique(x4, 0x20, x5, f.rs2);
  }

  // -------------------------------------------------------- scattered immediates

  /** Bits 12 and 10:5 of a branch offset go to the f7 position, 4:1 and 11 to rd. */
  function BranchHigh(v: nat): nat {
    v / 0x1000 * 0x40 + v / 0x20 % 0x40
  }

  function BranchLow(v: nat): nat {
    v / 2 % 0x10 * 2 + v / 0x800 % 2
  }

  function BranchValue(high: nat, low: nat): nat {
    high / 0x40 * 0x1000 + low % 2 * 0x800 + high % 0x40 * 0x20 + low / 2 * 2
  }

  lemma {:induction false} BranchValueSplits(v: nat)
    requires v < 0x2000 && v % 2 == 0
    ensures BranchHigh(v) < 0x80 && BranchLow(v) < 0x20 && BranchValue(BranchHigh(v), BranchLow(v)) == v
  {
    ModSplit(v, 2, 0x10);
    ModSplit(v, 0x20, 0x40);
    ModSplit(v, 0x800, 2);
    var e, c, b, a := v / 0x1000, v / 0x800 % 2, v / 0x20 % 0x40, v / 2 % 0x10;
    DivModUnique(BranchHigh(v), 0x40, e, b);
    DivModUnique(BranchLow(v), 2, a, c);
  }

  lemma {:induction false} BranchValueJoins(high: nat, low: nat)
    requires high < 0x80 && low < 0x20
    ensures BranchValue(high, low) < 0x2000 && BranchValue(high, low) % 2 == 0
    ensures BranchHigh(BranchValue(high, low)) == high && BranchLow(BranchValue(high, low)) == low
  {
    var e, c, b, a := high / 0x40, low % 2, high % 0x40, low / 2;
    var v := BranchValue(high, low);
    assert v == 0x1000 * e + 0x800 * c + 0x20 * b + 2 * a;
    DivModUnique(v, 0x1000, e, 0x800 * c + 0x20 * b + 2 * a);
    DivModUnique(v, 0x800, 2 * e + c, 0x20 * b + 2 * a);
    DivModUnique(2 * e + c, 2, e, c);
    DivModUnique(v, 0x20, 0x80 * e + 0x40 * c + b, 2 * a);
    DivModUnique(0x80 * e + 0x40 * c + b, 0x40, 2 * e + c, b);
    DivModUnique(v, 2, 0x800 * e + 0x400 * c + 0x10 * b + a, 0);
    DivModUnique(0x800 * e + 0x400 * c + 0x10 * b + a, 0x10, 0x80 * e + 0x40 * c + b, a);
  }

  /** A jump offset fills the upper twenty bits in the order 20, 10:1, 11, 19:12. */
  function JumpUpper(v: nat): nat {
    v / 0x10_0000 * 0x8_0000 + v / 2 % 0x400 * 0x200 + v / 0x800 % 2 * 0x100 + v / 0x1000 % 0x100
  }

  function JumpValue(upper: nat): nat {
    upper / 0x8_0000 * 0x10_0000 + upper % 0x100 * 0x1000 + upper / 0x100 % 2 * 0x800 + upper / 0x200 % 0x400 * 2
  }

  lemma {:induction false} JumpDigits(u: nat, e: nat, c: nat, b: nat, a: nat)
    requires e < 2 && c < 0x400 && b < 2 && a < 0x100 && u == 0x8_0000 * e + 0x200 * c + 0x100 * b + a
    ensures u < 0x10_0000 && JumpValue(u) == 0x10_0000 * e + 0x1000 * a + 0x800 * b + 2 * c
  {
    DivModUnique(u, 0x8_0000, e, 0x200 * c + 0x100 * b + a);
    DivModUnique(u, 0x100, 0x800 * e + 2 * c + b, a);
    DivModUnique(0x800 * e + 2 * c + b, 2, 0x400 * e + c, b);
    DivModUnique(u, 0x200, 0x400 * e + c, 0x100 * b + a);
    DivModUnique(0x400 * e + c, 0x400, e, c);
  }

  lemma {:induction false} JumpValueDigits(v: nat, e: nat, c: nat, b: nat, a: nat)
    requires e < 2 && c < 0x400 && b < 2 && a < 0x100 && v == 0x10_0000 * e + 0x1000 * a + 0x800 * b + 2 * c
    ensures v < 0x20_0000 && v % 2 == 0 && JumpUpper(v) == 0x8_0000 * e + 0x200 * c + 0x100 * b + a
  {
    DivModUnique(v, 0x10_0000, e, 0x1000 * a + 0x800 * b + 2 * c);
    DivModUnique(v, 0x1000, 0x100 * e + a, 0x800 * b + 2 * c);
    DivModUnique(0x100 * e + a, 0x100, e, a);
    DivModUnique(v, 0x800, 0x200 * e + 2 * a + b, 2 * c);
    DivModUnique(0x200 * e + 2 * a + b, 2, 0x100 * e + a, b);
    DivModUnique(v, 2, 0x8_0000 * e + 0x800 * a + 0x400 * b + c, 0);
    DivModUnique(0x8_0000 * e + 0x800 * a + 0x400 * b + c, 0x400, 0x200 * e + 2 * a + b, c);
  }

  lemma {:induction false} JumpValueSplits(v: nat)
    requires v < 0x20_0000 && v % 2 == 0
    ensures JumpUpper(v) < 0x10_0000 && JumpValue(JumpUpper(v)) == v
  {
    var e, a, b, c := v / 0x10_0000, v / 0x1000 % 0x100, v / 0x800 % 2, v / 2 % 0x400;
    assert v == 0x10_0000 * e + 0x1000 * a + 0x800 * b + 2 * c by {
      ModSplit(v, 2, 0x400);
      ModSplit(v, 0x800, 2);
      ModSplit(v, 0x1000, 0x100);
    }
    JumpDigits(JumpUpper(v), e, c, b, a);
  }

  lemma {:induction false} JumpValueJoins(upper: nat)
    requires upper < 0x10_0000
    ensures JumpValue(upper) < 0x20_0000 && JumpValue(upper) % 2 == 0 && JumpUpper(JumpValue(upper)) == upper
  {
    var e, c, b, a := upper / 0x8_0000, upper / 0x200 % 0x400, upper / 0x100 % 2, upper % 0x100;
    assert upper == 0x8_0000 * e + 0x200 * c + 0x100 * b + a by {
      ModSplit(upper, 0x100, 2);
      ModSplit(upper, 0x200, 0x400);
    }
    JumpValueDigits(JumpValue(upper), e, c, b, a);
  }

  // ------------------------------------------------------------- signed immediates

  /** The word's signed value fits an immediate of this size. */
  predicate InSignedRange(w: u32, half: int) {
    -half <= Signed(w) < half
  }

  /** Keeping the low bits of an in-range immediate and extending them restores it. */
  lemma {:induction false} ShortImmediate(w: u32, n: nat, size: nat, copies: nat)
    requires n >= 1 && Pow2(n) == size && 2 * Pow2(n - 1) == size && size * copies == 0x1_0000_0000
    requires InSignedRange(w, Pow2(n - 1))
    ensures w % size < size && Wrap(SignedField(w % size, n)) == w
  {
    hide Pow2;
    var half := Pow2(n - 1);
    assert copies >= 1;
    assert size * (copies - 1) == 0x1_0000_0000 - size;
    if w < half {
      ModSmall(w, size);
    } else {
      var low := w - (0x1_0000_0000 - size);
      ModAdd(low, size, copies - 1);
      ModSmall(low, size);
    }
  }

  /** Extending a field gives an in-range word with that field as its low bits. */
  lemma {:induction false} ExtendedImmediate(v: nat, n: nat, size: nat, copies: nat)
    requires n >= 1 && Pow2(n) == size && 2 * Pow2(n - 1) == size && size * copies == 0x1_0000_0000
    requires v < size && copies >= 2
    ensures var w := Wrap(SignedField(v, n)); InSignedRange(w, Pow2(n - 1)) && w % size == v
  {
    hide Pow2;
    var half := Pow2(n - 1);
    assert size * (copies - 1) == 0x1_0000_0000 - size;
    assert size * 2 <= size * copies by { MultiplyMonotone(size, 2, copies); }
    if v < half {
      ModSmall(v, size);
    } else {
      assert Wrap(SignedField(v, n)) == v + size * (copies - 1);
      ModAdd(v, size, copies - 1);
      ModSmall(v, size);
    }
  }

  // ------------------------------------------------------------ decoded and encoded

  /** A decoded record that some word decodes to: unused fields are zero and the
      immediate is one the format can hold. */
  predicate Canonical(d: DecodedInstruction) {
    && d.format == FormatForOpcode(d.opcode) && d.InRange()
    && match d.format
       case R => d.immediate == 0
       case I =>
         d.source2 == 0 && InSignedRange(d.immediate, 0x800) && d.function7 == d.immediate % 0x1000 / 0x20
       case S => d.destination == 0 && d.function7 == 0 && InSignedRange(d.immediate, 0x800)
       case B =>
         d.destination == 0 && d.function7 == 0 && InSignedRange(d.immediate, 0x1000) && d.immediate % 2 == 0
       case U =>
         d.source1 == d.source2 == d.function3 == d.function7 == 0 && d.immediate % 0x1000 == 0
       case J =>
         && d.source1 == d.source2 == d.function3 == d.function7 == 0
         && InSignedRange(d.immediate, 0x10_0000) && d.immediate % 2 == 0
  }

  /** The upper twenty bits as fields. */
  function UpperFields(op: nat, rd: nat, upper: nat): Fields {
    Fields(op, rd, upper % 8, upper / 8 % 0x20, upper / 0x100 % 0x20, upper / 0x2000)
  }

  /** Where each part of a decoded record goes in the word. */
  function Placed(d: DecodedInstruction): Fields {
    var op, v := OpcodeBits(d.opcode), d.immediate % 0x1000;
    match d.format
    case R => Fields(op, d.destination, d.function3, d.source1, d.source2, d.function7)
    case I => Fields(op, d.destination, d.function3, d.source1, v % 0x20, v / 0x20)
    case S => Fields(op, v % 0x20, d.function3, d.source1, d.source2, v / 0x20)
    case B =>
      var offset := d.immediate % 0x2000;
      Fields(op, BranchLow(offset), d.function3, d.source1, d.source2, BranchHigh(offset))
    case U => UpperFields(op, d.destination, d.immediate / 0x1000)
    case J => UpperFields(op, d.destination, JumpUpper(d.immediate % 0x20_0000))
  }

  /** The immediates as the six fields hold them. */
  lemma {:induction false} ImmediateFields(raw: u32)
    ensures var f := FieldsOf(raw);
            && raw / 0x10_0000 == f.rs2 + 0x20 * f.f7
            && ImmI(raw) == SignedField(f.rs2 + 0x20 * f.f7, 12)
            && ImmS(raw) == SignedField(f.rd + 0x20 * f.f7, 12)
  {
    hide Pow2, SignedField, Bits;
    NestedPositions(raw);
    BitsTable(raw);
  }

  lemma {:induction false} LowFieldSplits(x: nat)
    ensures x % 0x20 % 2 == x % 2 && x % 0x20 / 2 == x / 2 % 0x10
  {
    ModSplit(x, 2, 0x10);
    DivModUnique(x % 0x20, 2, x / 2 % 0x10, x % 2);
  }

  lemma {:induction false} BranchFragments(raw: u32)
    ensures var f := FieldsOf(raw);
            && raw / 0x8000_0000 == f.f7 / 0x40
            && raw / 0x80 % 2 == f.rd % 2
            && raw / 0x100 % 0x10 == f.rd / 2
  {
    ModSplit(raw, 0x200_0000, 0x40);
    ModSplit(raw, 0x80, 2);
    LowFieldSplits(raw / 0x80);
  }

  lemma {:induction false} BranchBits(raw: u32)
    ensures var f := FieldsOf(raw);
            && Bits(raw, 31, 31) == f.f7 / 0x40 && Bits(raw, 7, 7) == f.rd % 2
            && Bits(raw, 30, 25) == f.f7 % 0x40 && Bits(raw, 11, 8) == f.rd / 2
  {
    hide Pow2, Bits;
    BitsTableBJ(raw);
    BranchFragments(raw);
  }

  lemma {:induction false} BranchFields(raw: u32)
    ensures ImmB(raw) == SignedField(BranchValue(FieldsOf(raw).f7, FieldsOf(raw).rd), 13)
  {
    hide Pow2, SignedField, Bits, FieldsOf;
    BranchBits(raw);
  }

  lemma {:induction false} UpperFragments(raw: u32)
    ensures var upper := raw / 0x1000;
            && upper < 0x10_0000
            && raw / 0x8000_0000 == upper / 0x8_0000
            && raw / 0x10_0000 == upper / 0x100
            && raw / 0x20_0000 == upper / 0x200
            && raw / 0x8000 == upper / 8
            && raw / 0x200_0000 == upper / 0x2000
  {
    ModSplit(raw, 0x1000, 0x8_0000);
    ModSplit(raw, 0x1000, 0x100);
    ModSplit(raw, 0x1000, 0x200);
    ModSplit(raw, 0x1000, 8);
    ModSplit(raw, 0x1000, 0x2000);
  }

  lemma {:induction false} UpperFieldsAre(raw: u32)
    ensures var f, upper := FieldsOf(raw), raw / 0x1000;
            && upper < 0x10_0000
            && f == UpperFields(raw % 0x80, f.rd, upper)
  {
    UpperFragments(raw);
  }

  lemma {:induction false} UpperImmediates(raw: u32)
    ensures ImmU(raw) == raw / 0x1000 * 0x1000
    ensures ImmJ(raw) == SignedField(JumpValue(raw / 0x1000), 21)
  {
    hide Pow2, SignedField, Bits;
    BitsTable(raw);
    BitsTableBJ(raw);
    UpperFragments(raw);
  }

  lemma {:induction false} Sizes()
    ensures Pow2(11) == 0x800 && Pow2(12) == 0x1000 && Pow2(13) == 0x2000 && Pow2(20) == 0x10_0000
    ensures Pow2(21) == 0x20_0000
  {
    Pow2Values();
  }

  lemma {:induction false} PlacedShort(raw: u32, opcode: Opcode)
    requires raw % 0x80 == OpcodeBits(opcode) && FormatForOpcode(opcode) in {R, I, S}
    ensures Canonical(Expected(raw, opcode)) && Placed(Expected(raw, opcode)) == FieldsOf(raw)
  {
    hide Pow2, SignedField, Bits, ImmI, ImmS, ImmB, ImmU, ImmJ, BranchValue, BranchHigh, BranchLow;
    hide JumpValue, JumpUpper, Wrap, InSignedRange;
    FieldRanges(raw);
    BitsTable(raw);
    Sizes();
    ImmediateFields(raw);
    var f := FieldsOf(raw);
    ExtendedImmediate(f.rs2 + 0x20 * f.f7, 12, 0x1000, 0x10_0000);
    ExtendedImmediate(f.rd + 0x20 * f.f7, 12, 0x1000, 0x10_0000);
  }

  lemma {:induction false} PlacedBranch(raw: u32, opcode: Opcode)
    requires raw % 0x80 == OpcodeBits(opcode) && FormatForOpcode(opcode) == B
    ensures Canonical(Expected(raw, opcode)) && Placed(Expected(raw, opcode)) == FieldsOf(raw)
  {
    hide Pow2, SignedField, Bits, ImmI, ImmS, ImmB, ImmU, ImmJ, BranchValue, BranchHigh, BranchLow;
    hide JumpValue, JumpUpper, Wrap, InSignedRange;
    FieldRanges(raw);
    BitsTable(raw);
    Sizes();
    var f := FieldsOf(raw);
    BranchFields(raw);
    BranchValueJoins(f.f7, f.rd);
    ExtendedImmediate(BranchValue(f.f7, f.rd), 13, 0x2000, 0x8_0000);
    EvenBelow(Wrap(ImmB(raw)), 0x2000, 0x1000);
  }

  lemma {:induction false} PlacedUpper(raw: u32, opcode: Opcode)
    requires raw % 0x80 == OpcodeBits(opcode) && FormatForOpcode(opcode) in {U, J}
    ensures Canonical(Expected(raw, opcode)) && Placed(Expected(raw, opcode)) == FieldsOf(raw)
  {
    hide Pow2, SignedField, Bits, ImmI, ImmS, ImmB, ImmU, ImmJ, BranchValue, BranchHigh, BranchLow;
    hide JumpValue, JumpUpper, Wrap, InSignedRange;
    FieldRanges(raw);
    BitsTable(raw);
    Sizes();
    UpperFieldsAre(raw);
    UpperImmediates(raw);
    UpperWord(raw / 0x1000);
    JumpValueJoins(raw / 0x1000);
    ExtendedImmediate(JumpValue(raw / 0x1000), 21, 0x20_0000, 0x800);
    EvenBelow(Wrap(ImmJ(raw)), 0x20_0000, 0x10_0000);
  }

  /** Re-encoding what a word decodes to gives the same fields. */
  lemma {:induction false} PlacedAgain(raw: u32, opcode: Opcode)
    requires raw % 0x80 == OpcodeBits(opcode)
    ensures Canonical(Expected(raw, opcode)) && Placed(Expected(raw, opcode)) == FieldsOf(raw)
  {
    hide Placed, Canonical, Expected, FieldsOf;
    match FormatForOpcode(opcode) {
      case B => PlacedBranch(raw, opcode);
      case U => PlacedUpper(raw, opcode);
      case J => PlacedUpper(raw, opcode);
      case _ => PlacedShort(raw, opcode);
    }
  }

  lemma {:induction false} EvenBelow(w: u32, size: nat, half: nat)
    requires size == 2 * half > 0
    ensures w % 2 == w % size % 2
  {
    ModSplit(w, 2, half);
  }

  lemma {:induction false} UpperWord(upper: nat)
    requires upper < 0x10_0000
    ensures Wrap(upper * 0x1000) == upper * 0x1000 && Wrap(upper * 0x1000) % 0x1000 == 0
    ensures Wrap(upper * 0x1000) / 0x1000 == upper
  {
    DivModUnique(upper * 0x1000, 0x1000, upper, 0);
  }

  lemma {:induction false} UpperFieldsWord(op: nat, rd: nat, upper: nat)
    requires op < 0x80 && rd < 0x20 && upper < 0x10_0000
    ensures UpperFields(op, rd, upper).Fit()
    ensures Word(UpperFields(op, rd, upper)) == op + 0x80 * rd + 0x1000 * upper
    ensures Word(UpperFields(op, rd, upper)) / 0x1000 == upper
  {
    ModSplit(upper, 8, 0x20);
    ModSplit(upper, 0x100, 0x20);
    DivModUnique(op + 0x80 * rd + 0x1000 * upper, 0x1000, upper, op + 0x80 * rd);
  }

  lemma {:induction false} PlacedFits(d: DecodedInstruction)
    requires Canonical(d)
    ensures Placed(d).Fit() && Placed(d).op == OpcodeBits(d.opcode)
  {
    hide JumpUpper, BranchHigh, BranchLow, InSignedRange;
    match d.format {
      case R =>
      case I =>
      case S =>
      case B =>
        LowBitsEven(d.immediate, 0x2000, 0x1000);
        BranchValueSplits(d.immediate % 0x2000);
      case U => UpperFieldsWord(OpcodeBits(d.opcode), d.destination, d.immediate / 0x1000);
      case J =>
        LowBitsEven(d.immediate, 0x20_0000, 0x10_0000);
        JumpValueSplits(d.immediate % 0x20_0000);
        UpperFieldsWord(OpcodeBits(d.opcode), d.destination, JumpUpper(d.immediate % 0x20_0000));
    }
  }

  lemma {:induction false} LowBitsEven(w: u32, size: nat, half: nat)
    requires size == 2 * half > 0 && w % 2 == 0
    ensures 0 <= w % size < size && w % size % 2 == 0
  {
    EvenBelow(w, size, half);
  }

  /** Decoding a word built from a canonical record gives the record's immediate. */
  lemma {:induction false} ImmediateAgain(d: DecodedInstruction, raw: u32)
    requires Canonical(d) && Placed(d).Fit() && raw == Word(Placed(d)) && FieldsOf(raw) == Placed(d)
    ensures match d.format
            case R => true
            case I => Wrap(ImmI(raw)) == d.immediate
            case S => Wrap(ImmS(raw)) == d.immediate
            case B => Wrap(ImmB(raw)) == d.immediate
            case U => Wrap(ImmU(raw)) == d.immediate
            case J => Wrap(ImmJ(raw)) == d.immediate
  {
    hide Pow2, SignedField, Bits, ImmI, ImmS, ImmB, ImmU, ImmJ, BranchValue, BranchHigh, BranchLow;
    hide JumpValue, JumpUpper, Wrap, InSignedRange, Word, FieldsOf;
    Sizes();
    match d.format {
      case R =>
      case I =>
        ImmediateFields(raw);
        ShortImmediate(d.immediate, 12, 0x1000, 0x10_0000);
      case S =>
        ImmediateFields(raw);
        ShortImmediate(d.immediate, 12, 0x1000, 0x10_0000);
      case B =>
        LowBitsEven(d.immediate, 0x2000, 0x1000);
        BranchFields(raw);
        BranchValueSplits(d.immediate % 0x2000);
        ShortImmediate(d.immediate, 13, 0x2000, 0x8_0000);
      case U =>
        UpperImmediates(raw);
        UpperFieldsWord(OpcodeBits(d.opcode), d.destination, d.immediate / 0x1000);
        UpperWord(d.immediate / 0x1000);
      case J =>
        LowBitsEven(d.immediate, 0x20_0000, 0x10_0000);
        UpperImmediates(raw);
        JumpValueSplits(d.immediate % 0x20_0000);
        UpperFieldsWord(OpcodeBits(d.opcode), d.destination, JumpUpper(d.immediate % 0x20_0000));
        ShortImmediate(d.immediate, 21, 0x20_0000, 0x800);
    }
  }

  lemma {:induction false} FieldsAgain(d: DecodedInstruction, raw: u32)
    requires Canonical(d) && FieldsOf(raw) == Placed(d)
    ensures raw % 0x80 == OpcodeBits(d.opcode)
    ensures var e := Expected(raw, d.opcode);
            e == d.(raw := raw, immediate := e.immediate) && (d.format == R ==> e.immediate == 0)
  {
    hide Pow2, Bits, ImmI, ImmS, ImmB, ImmU, ImmJ, BranchHigh, BranchLow, JumpUpper, Wrap, InSignedRange;
    BitsTable(raw);
    FieldRanges(raw);
  }

  /** Encode, then decode: every canonical record comes back. */
  lemma {:induction false} DecodeOfEncode(d: DecodedInstruction)
    requires Canonical(d)
    ensures Placed(d).Fit()
    ensures DecodeInstruction(Word(Placed(d))) == Some(d.(raw := Word(Placed(d))))
  {
    hide Placed, Word, FieldsOf, DecodeInstruction, Bits, ImmI, ImmS, ImmB, ImmU, ImmJ, Wrap;
    PlacedFits(d);
    var raw := Word(Placed(d));
    FieldsOfWord(Placed(d));
    ImmediateAgain(d, raw);
    FieldsAgain(d, raw);
    DecodeMeaning(raw);
  }

  /** Decode, then encode: every word with a major opcode comes back. */
  lemma {:induction false} EncodeOfDecode(raw: u32)
    requires DecodeInstruction(raw).Some?
    ensures var d := DecodeInstruction(raw).value;
            Canonical(d) && Placed(d).Fit() && Word(Placed(d)) == raw
  {
    hide Placed, Word, FieldsOf, DecodeInstruction, Bits, ImmI, ImmS, ImmB, ImmU, ImmJ, Wrap, Canonical, Expected;
    DecodeMeaning(raw);
    var opcode :| raw % 0x80 == OpcodeBits(opcode);
    PlacedAgain(raw, opcode);
    WordOfFields(raw);
  }

  // ------------------------------------------------------------- the source's encoders

  function Or3(a: nat, b: nat, c: nat): nat {
    BitOr(BitOr(a, b), c)
  }

  function Or4(a: nat, b: nat, c: nat, d: nat): nat {
    BitOr(Or3(a, b, c), d)
  }

  function Or5(a: nat, b: nat, c: nat, d: nat, e: nat): nat {
    BitOr(Or4(a, b, c, d), e)
  }

  function EncodeImmediateOperation(destination: u8, function3: u8, source: u8, immediate: int): u32 {
    Wrap(Or5(ShiftLeft(BitAnd(Wrap(immediate), 0xFFF), 20), ShiftLeft(source, 15), ShiftLeft(function3, 12),
             ShiftLeft(destination, 7), 0x13))
  }

  function EncodeRegisterOperation(destination: u8, function3: u8, source1: u8, source2: u8, function7: u8): u32 {
    Wrap(BitOr(Or5(ShiftLeft(function7, 25), ShiftLeft(source2, 20), ShiftLeft(source1, 15), ShiftLeft(function3, 12),
                   ShiftLeft(destination, 7)),
               0x33))
  }

  function EncodeLoadWord(destination: u8, source: u8, immediate: int): u32 {
    Wrap(Or5(ShiftLeft(BitAnd(Wrap(immediate), 0xFFF), 20), ShiftLeft(source, 15), ShiftLeft(2, 12),
             ShiftLeft(destination, 7), 0x03))
  }

  function EncodeStoreWord(addressSource: u8, valueSource: u8, immediate: int): u32 {
    var bits := BitAnd(Wrap(immediate), 0xFFF);
    Wrap(BitOr(Or5(ShiftLeft(ShiftRight(bits, 5), 25), ShiftLeft(valueSource, 20), ShiftLeft(addressSource, 15),
                   ShiftLeft(2, 12), ShiftLeft(BitAnd(bits, 0x1F), 7)),
               0x23))
  }

  function EncodeBranch(function3: u8, source1: u8, source2: u8, immediate: int): u32 {
    var bits := BitAnd(Wrap(immediate), 0x1FFF);
    Wrap(Or4(Or5(ShiftLeft(BitAnd(ShiftRight(bits, 12), 0x01), 31), ShiftLeft(BitAnd(ShiftRight(bits, 5), 0x3F), 25),
                 ShiftLeft(source2, 20), ShiftLeft(source1, 15), ShiftLeft(function3, 12)),
             ShiftLeft(BitAnd(ShiftRight(bits, 1), 0x0F), 8), ShiftLeft(BitAnd(ShiftRight(bits, 11), 0x01), 7), 0x63))
  }

  function EncodeJump(immediate: int): u32 {
    var bits := BitAnd(Wrap(immediate), 0x1F_FFFF);
    Wrap(Or5(ShiftLeft(BitAnd(ShiftRight(bits, 20), 0x01), 31), ShiftLeft(BitAnd(ShiftRight(bits, 1), 0x3FF), 21),
             ShiftLeft(BitAnd(ShiftRight(bits, 11), 0x01), 20), ShiftLeft(BitAnd(ShiftRight(bits, 12), 0xFF), 12),
             0x6F))
  }

  function EncodeLui(destination: u8, immediate: u32): u32 {
    Wrap(Or3(BitAnd(immediate, 0xFFFF_F000), ShiftLeft(destination, 7), 0x37))
  }

  /** Or-ing in a field below everything collected so far. */
  lemma {:induction false} OrBelow(high: nat, above: nat, size: nat, part: nat)
    requires size == Pow2(above) && part < size
    ensures BitOr(high * size, part) == high * size + part
  {
    hide BitOr, Scaled, Pow2;
    ScaledIs(high, above, size);
    OrIsAdd(high, above, part);
  }

  lemma {:induction false} Shifts(a: nat)
    ensures a < 0x100_0000 ==> ShiftLeft(a, 7) == a * 0x80
    ensures a < 0x10_0000 ==> ShiftLeft(a, 12) == a * 0x1000
    ensures a < 0x2_0000 ==> ShiftLeft(a, 15) == a * 0x8000
    ensures a < 0x1000 ==> ShiftLeft(a, 20) == a * 0x10_0000
    ensures a < 0x80 ==> ShiftLeft(a, 25) == a * 0x200_0000
  {
    hide ShiftLeft, Pow2;
    Pow2Values();
    if a < 0x100_0000 { ShiftLeftIs(a, 7, 0x80); }
    if a < 0x10_0000 { ShiftLeftIs(a, 12, 0x1000); }
    if a < 0x2_0000 { ShiftLeftIs(a, 15, 0x8000); }
    if a < 0x1000 { ShiftLeftIs(a, 20, 0x10_0000); }
    if a < 0x80 { ShiftLeftIs(a, 25, 0x200_0000); }
  }

  /** The four lower positions under whatever fills the upper twelve bits. */
  lemma {:induction false} OrLower(top: nat, rs1: nat, f3: nat, rd: nat, op: nat)
    requires top < 0x1000 && rs1 < 0x20 && f3 < 8 && rd < 0x20 && op < 0x80
    ensures Or5(top * 0x10_0000, ShiftLeft(rs1, 15), ShiftLeft(f3, 12), ShiftLeft(rd, 7), op)
            == top * 0x10_0000 + rs1 * 0x8000 + f3 * 0x1000 + rd * 0x80 + op
  {
    OrMiddle(top, rs1, f3);
    OrLowest((top * 0x20 + rs1) * 8 + f3, rd, op);
  }

  lemma {:induction false} OrMiddle(top: nat, rs1: nat, f3: nat)
    requires top < 0x1000 && rs1 < 0x20 && f3 < 8
    ensures Or3(top * 0x10_0000, ShiftLeft(rs1, 15), ShiftLeft(f3, 12))
            == ((top * 0x20 + rs1) * 8 + f3) * 0x1000
  {
    hide BitOr, ShiftLeft, Pow2;
    Pow2Values();
    Shifts(rs1);
    Shifts(f3);
    OrBelow(top, 20, 0x10_0000, rs1 * 0x8000);
    OrBelow(top * 0x20 + rs1, 15, 0x8000, f3 * 0x1000);
  }

  lemma {:induction false} OrLowest(upper: nat, rd: nat, op: nat)
    requires upper < 0x10_0000 && rd < 0x20 && op < 0x80
    ensures Or3(upper * 0x1000, ShiftLeft(rd, 7), op) == upper * 0x1000 + rd * 0x80 + op
  {
    hide BitOr, ShiftLeft, Pow2;
    Pow2Values();
    Shifts(rd);
    OrBelow(upper, 12, 0x1000, rd * 0x80);
    OrBelow(upper * 0x20 + rd, 7, 0x80, op);
  }

  lemma {:induction false} OrTop(f7: nat, rs2: nat)
    requires f7 < 0x80 && rs2 < 0x20
    ensures BitOr(ShiftLeft(f7, 25), ShiftLeft(rs2, 20)) == (f7 * 0x20 + rs2) * 0x10_0000
  {
    hide BitOr, ShiftLeft, Pow2;
    Pow2Values();
    Shifts(f7);
    Shifts(rs2);
    OrBelow(f7, 25, 0x200_0000, rs2 * 0x10_0000);
  }

  /** The six positions or-ed together from the top are the word. */
  lemma {:induction false} OrFields(f: Fields)
    requires f.Fit()
    ensures BitOr(Or5(ShiftLeft(f.f7, 25), ShiftLeft(f.rs2, 20), ShiftLeft(f.rs1, 15), ShiftLeft(f.f3, 12),
                      ShiftLeft(f.rd, 7)), f.op)
            == Word(f)
  {
    hide BitOr, ShiftLeft;
    OrTop(f.f7, f.rs2);
    OrLower(f.f7 * 0x20 + f.rs2, f.rs1, f.f3, f.rd, f.op);
  }

  // ---------------------------------------------------------- what the encoders encode

  /** The low bits an encoder keeps of a 32-bit immediate. */
  lemma {:induction false} KeptBits(w: u32)
    ensures BitAnd(w, 0xFFF) == w % 0x1000 && BitAnd(w, 0x1FFF) == w % 0x2000
    ensures BitAnd(w, 0x1F_FFFF) == w % 0x20_0000 && BitAnd(w, 0xFFFF_F000) == w / 0x1000 * 0x1000
  {
    hide BitAnd, Pow2;
    Pow2Values();
    MaskIs(w, 12, 0x1000);
    MaskIs(w, 13, 0x2000);
    MaskIs(w, 21, 0x20_0000);
    MaskHigh(w, 12, 32, 0x1000, 0xFFFF_F000);
  }

  /** A record with only these fields filled in. */
  function Record(opcode: Opcode, destination: u8, source1: u8, source2: u8, function3: u8, function7: u8,
                  immediate: u32): DecodedInstruction {
    DecodedInstruction(0, immediate, opcode, FormatForOpcode(opcode), destination, source1, source2,
                       function3, function7)
  }

  /** What it means for a word to encode a record. */
  predicate Encodes(raw: u32, d: DecodedInstruction) {
    DecodeInstruction(raw) == Some(d.(raw := raw))
  }

  lemma {:induction false} EncodesWord(d: DecodedInstruction, raw: u32)
    requires Canonical(d) && Placed(d).Fit() && raw == Word(Placed(d))
    ensures Encodes(raw, d)
  {
    hide Placed, Word, DecodeInstruction, Canonical;
    DecodeOfEncode(d);
  }

  /** The signed value of an int32 argument survives the cast to a word. */
  lemma {:induction false} CastImmediate(immediate: int, half: int)
    requires 0 < half <= 0x8000_0000 && -half <= immediate < half
    ensures InSignedRange(Wrap(immediate), half)
  {
  }

  lemma {:induction false} TwelveBits(w: u32)
    ensures w % 0x1000 % 0x20 + 0x20 * (w % 0x1000 / 0x20) == w % 0x1000
    ensures w % 0x1000 % 0x20 < 0x20 && w % 0x1000 / 0x20 < 0x80
  {
  }

  /** An I-format word, from its low twelve immediate bits. */
  lemma {:induction false} ImmediateWord(v: nat, rs1: nat, f3: nat, rd: nat, op: nat)
    requires v < 0x1000 && rs1 < 0x20 && f3 < 8 && rd < 0x20 && op < 0x80
    ensures Fields(op, rd, f3, rs1, v % 0x20, v / 0x20).Fit()
    ensures Wrap(Or5(ShiftLeft(v, 20), ShiftLeft(rs1, 15), ShiftLeft(f3, 12), ShiftLeft(rd, 7), op))
            == Word(Fields(op, rd, f3, rs1, v % 0x20, v / 0x20))
  {
    hide BitOr, Or5, ShiftLeft;
    Shifts(v);
    OrLower(v, rs1, f3, rd, op);
  }

  lemma {:induction false} EncodeImmediateOperationMeaning(destination: u8, function3: u8, source: u8, immediate: int)
    requires destination < 32 && function3 < 8 && source < 32 && -0x800 <= immediate < 0x800
    ensures var w := Wrap(immediate);
            Encodes(EncodeImmediateOperation(destination, function3, source, immediate),
                    Record(OpImmediate, destination, source, 0, function3, w % 0x1000 / 0x20, w))
  {
    hide Or5, BitAnd, ShiftLeft, DecodeInstruction, InSignedRange, Encodes, Word, Wrap;
    var w := Wrap(immediate);
    CastImmediate(immediate, 0x800);
    KeptBits(w);
    ImmediateWord(w % 0x1000, source, function3, destination, 0x13);
    var d := Record(OpImmediate, destination, source, 0, function3, w % 0x1000 / 0x20, w);
    EncodesWord(d, EncodeImmediateOperation(destination, function3, source, immediate));
  }

  lemma {:induction false} EncodeLoadWordMeaning(destination: u8, source: u8, immediate: int)
    requires destination < 32 && source < 32 && -0x800 <= immediate < 0x800
    ensures var w := Wrap(immediate);
            Encodes(EncodeLoadWord(destination, source, immediate),
                    Record(Load, destination, source, 0, 2, w % 0x1000 / 0x20, w))
  {
    hide Or5, BitAnd, ShiftLeft, DecodeInstruction, InSignedRange, Encodes, Word, Wrap;
    var w := Wrap(immediate);
    CastImmediate(immediate, 0x800);
    KeptBits(w);
    ImmediateWord(w % 0x1000, source, 2, destination, 0x03);
    var d := Record(Load, destination, source, 0, 2, w % 0x1000 / 0x20, w);
    EncodesWord(d, EncodeLoadWord(destination, source, immediate));
  }

  lemma {:induction false} EncodeRegisterOperationMeaning(destination: u8, function3: u8, source1: u8, source2: u8,
                                                          function7: u8)
    requires destination < 32 && function3 < 8 && source1 < 32 && source2 < 32 && function7 < 0x80
    ensures Encodes(EncodeRegisterOperation(destination, function3, source1, source2, function7),
                    Record(Op, destination, source1, source2, function3, function7, 0))
  {
    hide BitOr, Or5, ShiftLeft, DecodeInstruction, Encodes;
    var d := Record(Op, destination, source1, source2, function3, function7, 0);
    OrFields(Placed(d));
    EncodesWord(d, EncodeRegisterOperation(destination, function3, source1, source2, function7));
  }

  lemma {:induction false} EncodeStoreWordMeaning(addressSource: u8, valueSource: u8, immediate: int)
    requires addressSource < 32 && valueSource < 32 && -0x800 <= immediate < 0x800
    ensures Encodes(EncodeStoreWord(addressSource, valueSource, immediate),
                    Record(Store, 0, addressSource, valueSource, 2, 0, Wrap(immediate)))
  {
    hide BitOr, BitAnd, Or5, ShiftLeft, ShiftRight, DecodeInstruction, InSignedRange, Encodes, Pow2;
    var w := Wrap(immediate);
    CastImmediate(immediate, 0x800);
    KeptBits(w);
    TwelveBits(w);
    Pow2Values();
    ShiftRightIs(w % 0x1000, 5, 0x20);
    MaskIs(w % 0x1000, 5, 0x20);
    var d := Record(Store, 0, addressSource, valueSource, 2, 0, w);
    OrFields(Placed(d));
    EncodesWord(d, EncodeStoreWord(addressSource, valueSource, immediate));
  }

  lemma {:induction false} EncodeLuiMeaning(destination: u8, immediate: u32)
    requires destination < 32
    ensures Encodes(EncodeLui(destination, immediate),
                    Record(Lui, destination, 0, 0, 0, 0, immediate - immediate % 0x1000))
  {
    hide BitOr, BitAnd, ShiftLeft, DecodeInstruction, Encodes, Word, UpperFields;
    KeptBits(immediate);
    var upper := immediate / 0x1000;
    UpperWord(upper);
    OrLowest(upper, destination, 0x37);
    UpperFieldsWord(0x37, destination, upper);
    var d := Record(Lui, destination, 0, 0, 0, 0, upper * 0x1000);
    EncodesWord(d, EncodeLui(destination, immediate));
  }

  /** The four fragments of a branch offset, picked with shifts and masks. */
  lemma {:induction false} BranchFragmentBits(v: nat)
    requires v < 0x2000
    ensures BitAnd(ShiftRight(v, 12), 0x01) == v / 0x1000 && BitAnd(ShiftRight(v, 5), 0x3F) == v / 0x20 % 0x40
    ensures BitAnd(ShiftRight(v, 1), 0x0F) == v / 2 % 0x10 && BitAnd(ShiftRight(v, 11), 0x01) == v / 0x800 % 2
  {
    hide BitAnd, ShiftRight, Pow2;
    Pow2Values();
    ShiftMask(v, 12, 1, 0x1000, 2);
    ShiftMask(v, 5, 6, 0x20, 0x40);
    ShiftMask(v, 1, 4, 2, 0x10);
    ShiftMask(v, 11, 1, 0x800, 2);
  }

  /** The upper half of a branch word: offset bits above the two sources. */
  lemma {:induction false} OrBranchTop(e: nat, b: nat, rs2: nat, rs1: nat, f3: nat)
    requires e < 2 && b < 0x40 && rs2 < 0x20 && rs1 < 0x20 && f3 < 8
    ensures Or5(ShiftLeft(e, 31), ShiftLeft(b, 25), ShiftLeft(rs2, 20), ShiftLeft(rs1, 15), ShiftLeft(f3, 12))
            == (((e * 0x40 + b) * 0x20 + rs2) * 0x20 + rs1) * 0x8000 + f3 * 0x1000
  {
    hide BitOr, ShiftLeft, Pow2;
    Pow2Values();
    ShiftLeftIs(e, 31, 0x8000_0000);
    Shifts(b);
    OrBelow(e, 31, 0x8000_0000, b * 0x200_0000);
    Shifts(rs2);
    var f7: nat := e * 0x40 + b;
    OrBelow(f7, 25, 0x200_0000, rs2 * 0x10_0000);
    OrMiddle(f7 * 0x20 + rs2, rs1, f3);
  }

  /** The lower half: the other offset bits above the opcode. */
  lemma {:induction false} OrBranchLow(upper: nat, a: nat, c: nat, op: nat)
    requires upper < 0x10_0000 && a < 0x10 && c < 2 && op < 0x80
    ensures Or4(upper * 0x1000, ShiftLeft(a, 8), ShiftLeft(c, 7), op) == upper * 0x1000 + (a * 2 + c) * 0x80 + op
  {
    hide BitOr, ShiftLeft, Pow2;
    Pow2Values();
    ShiftLeftIs(a, 8, 0x100);
    Shifts(c);
    OrBelow(upper, 12, 0x1000, a * 0x100);
    OrBelow(upper * 0x10 + a, 8, 0x100, c * 0x80);
    OrBelow((upper * 0x10 + a) * 2 + c, 7, 0x80, op);
  }

  lemma {:induction false} BranchWord(e: nat, b: nat, a: nat, c: nat, f3: nat, rs1: nat, rs2: nat)
    requires e < 2 && b < 0x40 && a < 0x10 && c < 2 && f3 < 8 && rs1 < 0x20 && rs2 < 0x20
    ensures Or4(Or5(ShiftLeft(e, 31), ShiftLeft(b, 25), ShiftLeft(rs2, 20), ShiftLeft(rs1, 15), ShiftLeft(f3, 12)),
                ShiftLeft(a, 8), ShiftLeft(c, 7), 0x63)
            == Word(Fields(0x63, a * 2 + c, f3, rs1, rs2, e * 0x40 + b))
  {
    hide BitOr, Or4, Or5, ShiftLeft;
    OrBranchTop(e, b, rs2, rs1, f3);
    OrBranchLow((((e * 0x40 + b) * 0x20 + rs2) * 0x20 + rs1) * 8 + f3, a, c, 0x63);
  }

  lemma {:induction false} EncodeBranchParts(function3: u8, source1: u8, source2: u8, immediate: int, v: nat)
    requires v == Wrap(immediate) % 0x2000
    ensures EncodeBranch(function3, source1, source2, immediate)
            == Wrap(Or4(Or5(ShiftLeft(v / 0x1000, 31), ShiftLeft(v / 0x20 % 0x40, 25), ShiftLeft(source2, 20),
                            ShiftLeft(source1, 15), ShiftLeft(function3, 12)),
                        ShiftLeft(v / 2 % 0x10, 8), ShiftLeft(v / 0x800 % 2, 7), 0x63))
  {
    hide BitOr, BitAnd, Or4, Or5, ShiftLeft, ShiftRight;
    KeptBits(Wrap(immediate));
    BranchFragmentBits(v);
  }

  lemma {:induction false} EncodeBranchWord(function3: u8, source1: u8, source2: u8, immediate: int, v: nat)
    requires function3 < 8 && source1 < 32 && source2 < 32
    requires v == Wrap(immediate) % 0x2000 && v % 2 == 0
    ensures Fields(0x63, BranchLow(v), function3, source1, source2, BranchHigh(v)).Fit()
    ensures EncodeBranch(function3, source1, source2, immediate)
            == Word(Fields(0x63, BranchLow(v), function3, source1, source2, BranchHigh(v)))
  {
    hide BitOr, BitAnd, Or3, Or4, Or5, ShiftLeft, ShiftRight, Word, BranchValue, EncodeBranch;
    EncodeBranchParts(function3, source1, source2, immediate, v);
    BranchValueSplits(v);
    WrapSmall(Word(Fields(0x63, BranchLow(v), function3, source1, source2, BranchHigh(v))));
    hide Wrap;
    BranchWord(v / 0x1000, v / 0x20 % 0x40, v / 2 % 0x10, v / 0x800 % 2, function3, source1, source2);
  }

  lemma {:induction false} EncodeBranchMeaning(function3: u8, source1: u8, source2: u8, immediate: int)
    requires function3 < 8 && source1 < 32 && source2 < 32 && -0x1000 <= immediate < 0x1000 && immediate % 2 == 0
    ensures Encodes(EncodeBranch(function3, source1, source2, immediate),
                    Record(Branch, 0, source1, source2, function3, 0, Wrap(immediate)))
  {
    hide DecodeInstruction, InSignedRange, Encodes, EncodeBranch, BranchHigh, BranchLow, Word, Wrap;
    var w := Wrap(immediate);
    CastImmediate(immediate, 0x1000);
    EvenCast(immediate);
    LowBitsEven(w, 0x2000, 0x1000);
    EncodeBranchWord(function3, source1, source2, immediate, w % 0x2000);
    var d := Record(Branch, 0, source1, source2, function3, 0, w);
    EncodesWord(d, EncodeBranch(function3, source1, source2, immediate));
  }

  lemma {:induction false} EvenCast(immediate: int)
    requires immediate % 2 == 0
    ensures Wrap(immediate) % 2 == 0
  {
    ModSplit(immediate, 2, 0x8000_0000);
  }

  lemma {:induction false} JumpFragmentBits(v: nat)
    requires v < 0x20_0000
    ensures BitAnd(ShiftRight(v, 20), 0x01) == v / 0x10_0000 && BitAnd(ShiftRight(v, 1), 0x3FF) == v / 2 % 0x400
    ensures BitAnd(ShiftRight(v, 11), 0x01) == v / 0x800 % 2 && BitAnd(ShiftRight(v, 12), 0xFF) == v / 0x1000 % 0x100
  {
    hide BitAnd, ShiftRight, Pow2;
    Pow2Values();
    ShiftMask(v, 20, 1, 0x10_0000, 2);
    ShiftMask(v, 1, 10, 2, 0x400);
    ShiftMask(v, 11, 1, 0x800, 2);
    ShiftMask(v, 12, 8, 0x1000, 0x100);
  }

  lemma {:induction false} OrJump(e: nat, c: nat, b: nat, a: nat, op: nat)
    requires e < 2 && c < 0x400 && b < 2 && a < 0x100 && op < 0x80
    ensures Or5(ShiftLeft(e, 31), ShiftLeft(c, 21), ShiftLeft(b, 20), ShiftLeft(a, 12), op)
            == (0x8_0000 * e + 0x200 * c + 0x100 * b + a) * 0x1000 + op
  {
    hide BitOr, ShiftLeft, Pow2;
    Pow2Values();
    ShiftLeftIs(e, 31, 0x8000_0000);
    ShiftLeftIs(c, 21, 0x20_0000);
    Shifts(b);
    Shifts(a);
    OrBelow(e, 31, 0x8000_0000, c * 0x20_0000);
    OrBelow(e * 0x400 + c, 21, 0x20_0000, b * 0x10_0000);
    OrBelow((e * 0x400 + c) * 2 + b, 20, 0x10_0000, a * 0x1000);
    OrBelow(0x8_0000 * e + 0x200 * c + 0x100 * b + a, 12, 0x1000, op);
  }

  lemma {:induction false} EncodeJumpWord(immediate: int, v: nat)
    requires v == Wrap(immediate) % 0x20_0000 && v % 2 == 0
    ensures UpperFields(0x6F, 0, JumpUpper(v)).Fit()
    ensures EncodeJump(immediate) == Word(UpperFields(0x6F, 0, JumpUpper(v)))
  {
    hide BitOr, BitAnd, Or5, ShiftLeft, ShiftRight, Word, UpperFields, JumpValue;
    KeptBits(Wrap(immediate));
    JumpFragmentBits(v);
    JumpValueSplits(v);
    UpperFieldsWord(0x6F, 0, JumpUpper(v));
    OrJump(v / 0x10_0000, v / 2 % 0x400, v / 0x800 % 2, v / 0x1000 % 0x100, 0x6F);
  }

  lemma {:induction false} EncodeJumpMeaning(immediate: int)
    requires -0x10_0000 <= immediate < 0x10_0000 && immediate % 2 == 0
    ensures Encodes(EncodeJump(immediate), Record(Jal, 0, 0, 0, 0, 0, Wrap(immediate)))
  {
    hide DecodeInstruction, InSignedRange, Encodes, Word, UpperFields, EncodeJump, JumpUpper, Wrap;
    var w := Wrap(immediate);
    CastImmediate(immediate, 0x10_0000);
    EvenCast(immediate);
    LowBitsEven(w, 0x20_0000, 0x10_0000);
    EncodeJumpWord(immediate, w % 0x20_0000);
    var d := Record(Jal, 0, 0, 0, 0, 0, w);
    EncodesWord(d, EncodeJump(immediate));
  }
}
