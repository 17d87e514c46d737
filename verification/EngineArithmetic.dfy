/** The engine's arithmetic (src/execution_engine.cpp), done with unsigned words,
    sign masks and magnitudes, and the proofs that it is the ISA's signed
    arithmetic. */
module EngineArithmetic {
  import opened Options
  import opened Words
  import opened Instructions
  import Isa

  predicate SignedLessThan(left: u32, right: u32) {
    BitXor(left, 0x8000_0000) < BitXor(right, 0x8000_0000)
  }

  function ArithmeticShiftRight(value: u32, shiftAmount: nat): u32
    requires shiftAmount < 32
  {
    if shiftAmount == 0 then value
    else
      var result := ShiftRight(value, shiftAmount);
      if BitAnd(value, 0x8000_0000) != 0 then OrWord(result, ShiftLeft(0xFFFF_FFFF, 32 - shiftAmount))
      else result
  }

  predicate IsNegativeWord(value: u32) {
    BitAnd(value, 0x8000_0000) != 0
  }

  function SignedMagnitude(value: u32): u32 {
    if IsNegativeWord(value) then Wrap(0 - value) else value
  }

  function ApplySign(magnitude: u32, negative: bool): u32 {
    if negative then Wrap(0 - magnitude) else magnitude
  }

  function Wrap64(x: int): u64 {
    x % 0x1_0000_0000_0000_0000
  }

  function SignedProductBits(source1: u32, source2: u32, source2IsSigned: bool): u64 {
    var source1Negative := IsNegativeWord(source1);
    var source2Negative := source2IsSigned && IsNegativeWord(source2);
    var source2Magnitude: int := if source2IsSigned then SignedMagnitude(source2) else source2;
    var magnitude := Wrap64(SignedMagnitude(source1) * source2Magnitude);
    if source1Negative != source2Negative then Wrap64(0 - magnitude) else magnitude
  }

  /** Quotient and remainder. */
  function SignedDivide(dividend: u32, divisor: u32): (u32, u32) {
    if divisor == 0 then (0xFFFF_FFFF, dividend)
    else
      var dividendMagnitude := SignedMagnitude(dividend);
      var divisorMagnitude := SignedMagnitude(divisor);
      MagnitudeMeaning(divisor);
      MagnitudeQuotient(dividendMagnitude, divisorMagnitude);
      var quotientMagnitude: u32 := dividendMagnitude / divisorMagnitude;
      var remainderMagnitude: u32 := dividendMagnitude % divisorMagnitude;
      (ApplySign(quotientMagnitude, IsNegativeWord(dividend) != IsNegativeWord(divisor)),
       ApplySign(remainderMagnitude, IsNegativeWord(dividend)))
  }

  /** The high word of a 64-bit product. */
  function HighWord(bits: u64): u32 {
    Wrap(bits / 0x1_0000_0000)
  }

  function ExecuteMExtension(i: DecodedInstruction, source1: u32, source2: u32): Option<u32> {
    if i.function7 != 0x01 then None
    else
      var unsignedProduct := Wrap64(source1 * source2);
      match i.function3
      case 0 => Some(Wrap(unsignedProduct))
      case 1 => Some(HighWord(SignedProductBits(source1, source2, true)))
      case 2 => Some(HighWord(SignedProductBits(source1, source2, false)))
      case 3 => Some(HighWord(unsignedProduct))
      case 4 => Some(SignedDivide(source1, source2).0)
      case 5 => Some(if source2 == 0 then 0xFFFF_FFFF else Wrap(source1 / source2))
      case 6 => Some(SignedDivide(source1, source2).1)
      case 7 => Some(if source2 == 0 then source1 else Wrap(source1 % source2))
      case _ => None
  }

  function ExecuteOpImmediate(i: DecodedInstruction, source: u32): Option<u32> {
    ShiftAmountRange(i.immediate);
    var shiftAmount := BitAnd(i.immediate, 0x1F);
    match i.function3
    case 0 => Some(Wrap(source + i.immediate))
    case 1 => if i.function7 != 0x00 then None else Some(ShiftLeft(source, shiftAmount))
    case 2 => Some(if SignedLessThan(source, i.immediate) then 1 else 0)
    case 3 => Some(if source < i.immediate then 1 else 0)
    case 4 => Some(XorWord(source, i.immediate))
    case 5 =>
      if i.function7 == 0x00 then Some(ShiftRight(source, shiftAmount))
      else if i.function7 == 0x20 then Some(ArithmeticShiftRight(source, shiftAmount))
      else None
    case 6 => Some(OrWord(source, i.immediate))
    case 7 => Some(BitAnd(source, i.immediate))
    case _ => None
  }

  function ExecuteOp(i: DecodedInstruction, source1: u32, source2: u32): Option<u32> {
    if i.function7 == 0x01 then ExecuteMExtension(i, source1, source2)
    else
      ShiftAmountRange(source2);
      var shiftAmount := BitAnd(source2, 0x1F);
      match i.function3
      case 0 =>
        if i.function7 == 0x00 then Some(Wrap(source1 + source2))
        else if i.function7 == 0x20 then Some(Wrap(source1 - source2))
        else None
      case 1 => if i.function7 != 0x00 then None else Some(ShiftLeft(source1, shiftAmount))
      case 2 =>
        if i.function7 != 0x00 then None else Some(if SignedLessThan(source1, source2) then 1 else 0)
      case 3 => if i.function7 != 0x00 then None else Some(if source1 < source2 then 1 else 0)
      case 4 => if i.function7 != 0x00 then None else Some(XorWord(source1, source2))
      case 5 =>
        if i.function7 == 0x00 then Some(ShiftRight(source1, shiftAmount))
        else if i.function7 == 0x20 then Some(ArithmeticShiftRight(source1, shiftAmount))
        else None
      case 6 => if i.function7 != 0x00 then None else Some(OrWord(source1, source2))
      case 7 => if i.function7 != 0x00 then None else Some(BitAnd(source1, source2))
      case _ => None
  }

  function EvaluateBranch(i: DecodedInstruction, source1: u32, source2: u32): Option<bool> {
    match i.function3
    case 0 => Some(source1 == source2)
    case 1 => Some(source1 != source2)
    case 4 => Some(SignedLessThan(source1, source2))
    case 5 => Some(!SignedLessThan(source1, source2))
    case 6 => Some(source1 < source2)
    case 7 => Some(source1 >= source2)
    case _ => None
  }

  function SignExtendByte(value: u8): u32 {
    if BitAnd(value, 0x80) != 0 then OrWord(value, 0xFFFF_FF00) else value
  }

  function SignExtendHalfword(value: u16): u32 {
    if BitAnd(value, 0x8000) != 0 then OrWord(value, 0xFFFF_0000) else value
  }

  // ------------------------------------------------------------ comparison, signs

  lemma {:induction false} ShiftAmountRange(x: u32)
    ensures BitAnd(x, 0x1F) == x % 32
  {
    hide BitAnd, Pow2;
    Pow2Values();
    MaskIs(x, 5, 0x20);
  }

  lemma {:induction false} SignBit(v: u32)
    ensures BitAnd(v, 0x8000_0000) == if v >= 0x8000_0000 then 0x8000_0000 else 0
    ensures BitXor(v, 0x8000_0000) == if v >= 0x8000_0000 then v - 0x8000_0000 else v + 0x8000_0000
  {
    hide BitAnd, BitXor, Pow2;
    Pow2Values();
    MaskHigh(v, 31, 32, 0x8000_0000, 0x8000_0000);
    XorTopBit(v, 31);
  }

  /** Flipping both sign bits turns the signed order into the unsigned one. */
  lemma {:induction false} SignedLessThanMeaning(a: u32, b: u32)
    ensures SignedLessThan(a, b) <==> Signed(a) < Signed(b)
  {
    hide BitAnd, BitXor;
    SignBit(a);
    SignBit(b);
  }

  lemma {:induction false} MagnitudeMeaning(v: u32)
    ensures IsNegativeWord(v) <==> Signed(v) < 0
    ensures SignedMagnitude(v) == Isa.Abs(Signed(v))
    ensures v != 0 ==> SignedMagnitude(v) > 0
  {
    hide BitAnd, BitXor;
    SignBit(v);
  }

  // ------------------------------------------------------------------------ shifts

  lemma {:induction false} FloorShift(v: int, d: int, c: int)
    requires d > 0
    ensures (v - d * c) / d == v / d - c
  {
    ModAdd(v, d, -c);
    assert d * -c == -(d * c);
  }

  lemma {:induction false} FloorBounds(v: nat, d: int, c: int)
    requires d > 0 && v < d * c
    ensures 0 <= v / d < c
  {
    var q, r := v / d, v % d;
    assert v == d * q + r;
    if q >= c {
      MultiplyMonotone(d, c, q);
    }
    if q < 0 {
      MultiplyMonotone(d, q, -1);
    }
  }

  lemma {:induction false} ShiftedOnes(low: nat)
    requires 1 <= low <= 0x8000_0000
    ensures (0xFFFF_FFFF * low) % 0x1_0000_0000 == 0x1_0000_0000 - low
  {
    ModAdd(0x1_0000_0000 - low, 0x1_0000_0000, low - 1);
    ModSmall(0x1_0000_0000 - low, 0x1_0000_0000);
  }

  /** The sign-fill mask: all ones shifted up to cover the vacated bits. */
  lemma {:induction false} FillMask(s: nat)
    requires 1 <= s <= 31
    ensures Pow2(s) * Pow2(32 - s) == 0x1_0000_0000
    ensures ShiftLeft(0xFFFF_FFFF, 32 - s) == 0x1_0000_0000 - Pow2(32 - s)
    ensures Scaled(Pow2(s) - 1, 32 - s) == 0x1_0000_0000 - Pow2(32 - s)
  {
    hide Scaled, Pow2;
    Pow2Values();
    Pow2Add(s, 32 - s);
    var low, high := Pow2(32 - s), Pow2(s);
    Pow2Monotone(32 - s, 31);
    ScaledIs(0xFFFF_FFFF, 32 - s, low);
    ScaledIs(high - 1, 32 - s, low);
    assert (high - 1) * low == high * low - low;
    ShiftedOnes(low);
  }

  lemma {:induction false} NegativeShift(v: u32, s: nat)
    requires 1 <= s <= 31 && v >= 0x8000_0000
    ensures BitOr(ShiftRight(v, s), ShiftLeft(0xFFFF_FFFF, 32 - s))
            == 0x1_0000_0000 - Pow2(32 - s) + v / Pow2(s) < 0x1_0000_0000
    ensures Signed(v) / Pow2(s) == v / Pow2(s) - Pow2(32 - s)
  {
    hide BitOr, ShiftRight, Scaled, Pow2;
    var d, c := Pow2(s), Pow2(32 - s);
    FillMask(s);
    ShiftRightIs(v, s, d);
    FloorBounds(v, d, c);
    OrIsAdd(d - 1, 32 - s, v / d);
    FloorShift(v, d, c);
  }

  /** Wrapping a small negative quotient adds the word size once. */
  lemma {:induction false} WrapBelowZero(q: int, c: int, r: u32)
    requires r == 0x1_0000_0000 - c + q
    ensures Wrap(q - c) == r
  {
    ModAdd(q - c, 0x1_0000_0000, 1);
    ModSmall(r, 0x1_0000_0000);
  }

  lemma {:induction false} ShiftOfNegative(v: u32, s: nat)
    requires 1 <= s <= 31 && v >= 0x8000_0000
    ensures ArithmeticShiftRight(v, s) == Wrap(Signed(v) / Pow2(s))
  {
    hide BitAnd, BitOr, ShiftRight, Scaled, Pow2, ShiftLeft, Signed, Wrap;
    SignBit(v);
    NegativeShift(v, s);
    WrapBelowZero(v / Pow2(s), Pow2(32 - s), ArithmeticShiftRight(v, s));
  }

  lemma {:induction false} ShiftOfPositive(v: u32, s: nat)
    requires 1 <= s <= 31 && v < 0x8000_0000
    ensures ArithmeticShiftRight(v, s) == Wrap(Signed(v) / Pow2(s))
  {
    hide BitAnd, BitOr, ShiftRight, Scaled, Pow2, ShiftLeft, OrWord, Wrap;
    SignBit(v);
    ShiftRightIs(v, s, Pow2(s));
    WrapSmall(ShiftRight(v, s));
  }

  /** Shifting in copies of the sign bit is floor division of the signed value. */
  lemma {:induction false} ArithmeticShiftMeaning(v: u32, s: nat)
    requires s < 32
    ensures ArithmeticShiftRight(v, s) == Wrap(Signed(v) / Pow2(s))
  {
    hide BitAnd, BitOr, ShiftRight, Scaled, ShiftLeft, OrWord;
    if s == 0 {
      WrapSigned(v);
    } else if v >= 0x8000_0000 {
      ShiftOfNegative(v, s);
    } else {
      ShiftOfPositive(v, s);
    }
  }

  lemma {:induction false} WrapSigned(v: u32)
    ensures Wrap(Signed(v)) == v
  {

  }

  lemma {:induction false} LogicalShifts(v: u32, s: nat)
    ensures ShiftLeft(v, s) == Wrap(v * Pow2(s))
    ensures ShiftRight(v, s) == Wrap(v / Pow2(s))
  {
    hide ShiftRight, Scaled, Pow2;
    ScaledIs(v, s, Pow2(s));
    ShiftRightIs(v, s, Pow2(s));
    WrapSmall(ShiftRight(v, s));
  }

  // ---------------------------------------------------------------- multiplication

  /** Signed words differ from unsigned ones by multiples of 2^32 only. */
  lemma {:induction false} LowProduct(a: u32, b: u32)
    ensures Wrap(Wrap64(a * b)) == Wrap(Signed(a) * Signed(b))
  {
    var x, y := Signed(a), Signed(b);
    var i, j := (a - x) / 0x1_0000_0000, (b - y) / 0x1_0000_0000;
    assert a == x + 0x1_0000_0000 * i && b == y + 0x1_0000_0000 * j;
    var k := x * j + i * b;
    ProductSplit(x, i, y, j);
    assert a * b == x * y + 0x1_0000_0000 * k;
    ModAdd(x * y, 0x1_0000_0000, k);
    ModSplit(a * b, 0x1_0000_0000, 0x1_0000_0000);
    var high := a * b / 0x1_0000_0000 % 0x1_0000_0000;
    ModAdd(a * b % 0x1_0000_0000, 0x1_0000_0000, high);
  }

  lemma {:induction false} ProductSplit(x: int, i: int, y: int, j: int)
    ensures (x + 0x1_0000_0000 * i) * (y + 0x1_0000_0000 * j)
            == x * y + 0x1_0000_0000 * (x * j + i * (y + 0x1_0000_0000 * j))
  {

  }

  /** The high word of a number kept modulo 2^64 is its floor over 2^32. */
  lemma {:induction false} HighWordMeaning(x: int)
    ensures HighWord(Wrap64(x)) == Wrap(x / 0x1_0000_0000)
  {
    ModSplit(x, 0x1_0000_0000, 0x1_0000_0000);
    var high := x / 0x1_0000_0000 % 0x1_0000_0000;
    DivModUnique(Wrap64(x), 0x1_0000_0000, high, x % 0x1_0000_0000);
  }

  lemma {:induction false} ProductBound(a: u32, b: u32)
    ensures 0 <= a * b < 0x1_0000_0000_0000_0000
  {
    MultiplyMonotone(a, 0, b);
    MultiplyMonotone(a, b, 0xFFFF_FFFF);
  }

  lemma {:induction false} ProductSigns(x: int, y: int)
    ensures x * y == if (x < 0) == (y < 0) then Isa.Abs(x) * Isa.Abs(y) else -(Isa.Abs(x) * Isa.Abs(y))
  {
    assert -x * y == -(x * y) && x * -y == -(x * y) && -x * -y == x * y;
  }

  /** Sign-and-magnitude multiplication gives the two's-complement product. */
  lemma {:induction false} SignedProductMeaning(a: u32, b: u32, isSigned: bool)
    ensures SignedProductBits(a, b, isSigned) == Wrap64(Signed(a) * (if isSigned then Signed(b) else b))
  {
    hide BitAnd;
    MagnitudeMeaning(a);
    MagnitudeMeaning(b);
    var y := if isSigned then Signed(b) else b;
    var magnitudeB: u32 := if isSigned then SignedMagnitude(b) else b;
    assert magnitudeB == Isa.Abs(y);
    hide IsNegativeWord, SignedMagnitude;
    var p := SignedMagnitude(a) * magnitudeB;
    ProductBound(SignedMagnitude(a), magnitudeB);
    ProductSigns(Signed(a), y);
    assert Wrap64(p) == p;
    assert Signed(a) * y == if (Signed(a) < 0) == (y < 0) then p else -p;
  }

  // ---------------------------------------------------------------------- division

  lemma {:induction false} MagnitudeQuotient(m: u32, n: u32)
    requires n > 0
    ensures 0 <= m / n <= m && 0 <= m % n < n
  {
    var q, r := m / n, m % n;
    assert m == n * q + r;
    if q < 0 {
      MultiplyMonotone(n, q, -1);
    }
    MultiplyMonotone(q, 1, n);
  }

  /** Dividing magnitudes and restoring signs rounds toward zero, and the
      overflowing quotient wraps to the most negative word. */
  lemma {:induction false} SignedDivideMeaning(a: u32, b: u32)
    requires b != 0
    ensures Signed(b) != 0
    ensures SignedDivide(a, b) == (Wrap(Isa.TruncatedQuotient(Signed(a), Signed(b))),
                                   Wrap(Isa.TruncatedRemainder(Signed(a), Signed(b))))
  {
    hide BitAnd;
    MagnitudeMeaning(a);
    MagnitudeMeaning(b);
    MagnitudeQuotient(SignedMagnitude(a), SignedMagnitude(b));
    hide IsNegativeWord, SignedMagnitude;
    WrapSmall(SignedMagnitude(a) / SignedMagnitude(b));
    WrapSmall(SignedMagnitude(a) % SignedMagnitude(b));
  }

  // ---------------------------------------------------------------- sign extension

  lemma {:induction false} SignExtendByteMeaning(v: u8)
    ensures SignExtendByte(v) == Wrap(SignedField(v, 8))
  {
    hide BitAnd, BitOr, Pow2, Scaled;
    Pow2Values();
    MaskHigh(v, 7, 8, 0x80, 0x80);
    ScaledIs(0xFF_FFFF, 8, 0x100);
    OrIsAdd(0xFF_FFFF, 8, v);
  }

  lemma {:induction false} SignExtendHalfwordMeaning(v: u16)
    ensures SignExtendHalfword(v) == Wrap(SignedField(v, 16))
  {
    hide BitAnd, BitOr, Pow2, Scaled;
    Pow2Values();
    MaskHigh(v, 15, 16, 0x8000, 0x8000);
    ScaledIs(0xFFFF, 16, 0x1_0000);
    OrIsAdd(0xFFFF, 16, v);
  }

  // ----------------------------------------------------- the tables, against the ISA

  lemma {:induction false} MultiplyMeaning(i: DecodedInstruction, a: u32, b: u32)
    requires i.InRange()
    ensures ExecuteMExtension(i, a, b)
            == if i.function7 != 0x01 then None
               else Some(Isa.Compute(Isa.RegisterOperation(i.function3, 0x01).value, a, b))
  {
    hide BitAnd, IsNegativeWord, SignedMagnitude, SignedProductBits, SignedDivide;
    LowProduct(a, b);
    HighWordMeaning(a * b);
    HighWordMeaning(Signed(a) * Signed(b));
    HighWordMeaning(Signed(a) * b);
    SignedProductMeaning(a, b, true);
    SignedProductMeaning(a, b, false);
    if b != 0 {
      SignedDivideMeaning(a, b);
    } else {
      assert SignedDivide(a, 0) == (0xFFFF_FFFF, a) by { DivideByZero(a); }
    }
  }

  lemma {:induction false} DivideByZero(a: u32)
    ensures SignedDivide(a, 0) == (0xFFFF_FFFF, a)
  {

  }

  /** Register-register instructions: each supported encoding computes the ISA's
      result, and every other encoding is rejected. */
  lemma {:induction false} OpMeaning(i: DecodedInstruction, a: u32, b: u32)
    requires i.InRange()
    ensures ExecuteOp(i, a, b)
            == match Isa.RegisterOperation(i.function3, i.function7)
               case Some(op) => Some(Isa.Compute(op, a, b))
               case None => None
  {
    hide BitAnd, BitOr, BitXor, ShiftRight, Scaled, Pow2, ExecuteMExtension, ArithmeticShiftRight;
    hide SignedLessThan, ShiftLeft, OrWord, XorWord;
    MultiplyMeaning(i, a, b);
    ShiftAmountRange(b);
    LogicalShifts(a, b % 32);
    ArithmeticShiftMeaning(a, b % 32);
    SignedLessThanMeaning(a, b);
  }

  /** Register-immediate instructions, given the immediate word. */
  lemma {:induction false} OpImmediateMeaning(i: DecodedInstruction, a: u32)
    requires i.InRange()
    ensures ExecuteOpImmediate(i, a)
            == match Isa.ImmediateOperation(i.function3, i.function7)
               case Some(op) =>
                 Some(Isa.Compute(op, a,
                                  if i.function3 == 1 || i.function3 == 5 then i.immediate % 32 else i.immediate))
               case None => None
  {
    hide BitAnd, BitOr, BitXor, ShiftRight, Scaled, Pow2, ArithmeticShiftRight, SignedLessThan;
    hide ShiftLeft, OrWord, XorWord;
    var s := i.immediate % 32;
    assert s % 32 == s;
    ShiftAmountRange(i.immediate);
    LogicalShifts(a, s);
    ArithmeticShiftMeaning(a, s);
    SignedLessThanMeaning(a, i.immediate);
    hide Signed, Wrap;
  }

  lemma {:induction false} BranchMeaning(i: DecodedInstruction, a: u32, b: u32)
    ensures EvaluateBranch(i, a, b)
            == match Isa.BranchCondition(i.function3)
               case Some(cond) => Some(Isa.Holds(cond, a, b))
               case None => None
  {
    hide SignedLessThan;
    SignedLessThanMeaning(a, b);
  }
}
