/** An optional value, as the source's std::optional. */
module Options {
  datatype Option<+T> = None | Some(value: T)
}

/** Counting the positions below a bound that satisfy a property, and intervals. */
module Counting {
  ghost function Where(n: nat, p: int -> bool): set<int> {
    set i | 0 <= i < n && p(i)
  }

  lemma {:induction false} WhereNone(p: int -> bool)
    ensures |Where(0, p)| == 0
  {
    assert Where(0, p) == {};
  }

  lemma {:induction false} WhereStep(n: nat, p: int -> bool)
    ensures |Where(n + 1, p)| == |Where(n, p)| + (if p(n) then 1 else 0)
  {
    if p(n) {
      assert Where(n + 1, p) == Where(n, p) + {n};
    } else {
      assert Where(n + 1, p) == Where(n, p);
    }
  }

  /** The n integers from low on. */
  ghost function Between(low: int, n: nat): (s: set<int>)
    ensures |s| == n
    ensures forall i :: i in s <==> low <= i < low + n
  {
    if n == 0 then {} else Between(low, n - 1) + {low + n - 1}
  }

  lemma {:induction false} Interval(s: set<int>, low: int, n: nat)
    requires forall i :: i in s <==> low <= i < low + n
    ensures |s| == n
  {
    assert s == Between(low, n);
  }
}

/** Machine words as bounded integers, and the arithmetic meaning of the bit
    operations the emulator is written with.  The operations are defined bit by
    bit; the lemmas say what each idiom of the source computes. */
module Words {

  type u8 = x: int | 0 <= x < 0x100
  type u16 = x: int | 0 <= x < 0x1_0000
  type u32 = x: int | 0 <= x < 0x1_0000_0000
  type u64 = x: int | 0 <= x < 0x1_0000_0000_0000_0000

  const TWO_32 := 0x1_0000_0000

  function Pow2(n: nat): (p: int)
    ensures p >= 1
  {
    if n == 0 then 1 else 2 * Pow2(n - 1)
  }

  /** Reduction modulo the word size: what an unsigned 32-bit operation keeps. */
  function Wrap(x: int): u32 {
    x % 0x1_0000_0000
  }

  /** The two's-complement value of a 32-bit word. */
  function Signed(w: u32): int {
    if w < 0x8000_0000 then w else w - 0x1_0000_0000
  }

  /** Bit k of a natural number. */
  predicate Bit(a: nat, k: nat) {
    if k == 0 then a % 2 == 1 else Bit(a / 2, k - 1)
  }

  function BitAnd(a: nat, b: nat): (r: nat)
    ensures r <= a && r <= b
  {
    if a == 0 || b == 0 then 0
    else 2 * BitAnd(a / 2, b / 2) + (if a % 2 == 1 && b % 2 == 1 then 1 else 0)
  }

  function BitOr(a: nat, b: nat): (r: nat)
    ensures r <= a + b
    decreases a + b
  {
    if a == 0 then b else if b == 0 then a
    else 2 * BitOr(a / 2, b / 2) + (if a % 2 == 1 || b % 2 == 1 then 1 else 0)
  }

  function BitXor(a: nat, b: nat): (r: nat)
    ensures r <= a + b
    decreases a + b
  {
    if a == 0 then b else if b == 0 then a
    else 2 * BitXor(a / 2, b / 2) + (if a % 2 != b % 2 then 1 else 0)
  }

  function ShiftRight(a: nat, n: nat): (r: nat)
    ensures r <= a
  {
    if n == 0 then a else ShiftRight(a / 2, n - 1)
  }

  /** a shifted left by n bits, with no word to fall out of. */
  function Scaled(a: nat, n: nat): (r: nat)
    ensures r >= a
  {
    if n == 0 then a else 2 * Scaled(a, n - 1)
  }

  /** A 32-bit left shift: bits pushed past the word are lost. */
  function ShiftLeft(a: nat, n: nat): (r: u32) {
    Wrap(Scaled(a, n))
  }

  /** The low n bits of a number. */
  function LowBits(a: nat, n: nat): (r: nat)
    ensures r <= a && r < Pow2(n)
  {
    if n == 0 then 0 else 2 * LowBits(a / 2, n - 1) + a % 2
  }

  // ---------------------------------------------------------------- arithmetic

  lemma {:induction false} MultipleAtLeast(d: int, k: int)
    requires d > 0 && k >= 1
    ensures d * k >= d
  {
  }

  lemma {:induction false} DivModUnique(a: int, d: int, q: int, r: int)
    requires d > 0 && 0 <= r < d && a == d * q + r
    ensures a / d == q && a % d == r
  {
    var gap := q - a / d;
    assert d * gap == d * q - d * (a / d) == a % d - r;
    assert d * -gap == -(d * gap);
    if gap >= 1 {
      MultipleAtLeast(d, gap);
    } else if gap <= -1 {
      MultipleAtLeast(d, -gap);
    }
  }

  lemma {:induction false} ModSmall(x: int, d: int)
    requires 0 <= x < d
    ensures x % d == x && x / d == 0
  {
    DivModUnique(x, d, 0, x);
  }

  lemma {:induction false} MultiplyMonotone(m: int, x: int, y: int)
    requires m >= 0 && x <= y
    ensures m * x <= m * y
  {
  }

  /** Dividing by a product is dividing twice. */
  lemma {:induction false} ModSplit(a: int, m: int, d: int)
    requires m > 0 && d > 0 && m * d > 0
    ensures a % (m * d) == m * (a / m % d) + a % m
    ensures a / (m * d) == a / m / d
  {
    var b := a / m;
    var q, r := b / d, b % d;
    assert a == m * b + a % m;
    assert b == d * q + r;
    assert m * b == m * (d * q) + m * r;
    assert m * (d * q) == (m * d) * q;
    assert m * r + a % m < m * d by {
      assert m * r <= m * (d - 1) by { MultiplyMonotone(m, r, d - 1); }
      assert m * (d - 1) == m * d - m;
    }
    assert m * r >= 0 by { MultiplyMonotone(m, 0, r); }
    DivModUnique(a, m * d, q, m * r + a % m);
  }

  lemma {:induction false} ModAdd(a: int, d: int, k: int)
    requires d > 0
    ensures (a + d * k) % d == a % d
    ensures (a + d * k) / d == a / d + k
  {
    assert d * (a / d + k) == d * (a / d) + d * k;
    DivModUnique(a + d * k, d, a / d + k, a % d);
  }

  lemma {:induction false} WrapSmall(x: int)
    requires 0 <= x < TWO_32
    ensures Wrap(x) == x
  {
  }

  lemma {:induction false} Pow2Add(m: nat, n: nat)
    ensures Pow2(m + n) == Pow2(m) * Pow2(n)
  {
    if m > 0 {
      Pow2Add(m - 1, n);
    }
  }

  lemma {:induction false} Pow2Monotone(m: nat, n: nat)
    requires m <= n
    ensures Pow2(m) <= Pow2(n)
  {
    if m < n {
      Pow2Monotone(m, n - 1);
    }
  }

  lemma {:induction false} Pow2Values()
    ensures Pow2(0) == 1 && Pow2(1) == 2 && Pow2(2) == 4 && Pow2(3) == 8 && Pow2(4) == 16 && Pow2(5) == 32
    ensures Pow2(6) == 64 && Pow2(7) == 128 && Pow2(8) == 256
    ensures Pow2(10) == 0x400 && Pow2(11) == 0x800 && Pow2(12) == 0x1000 && Pow2(13) == 0x2000
    ensures Pow2(15) == 0x8000 && Pow2(16) == 0x1_0000
    ensures Pow2(20) == 0x10_0000 && Pow2(21) == 0x20_0000 && Pow2(24) == 0x100_0000 && Pow2(25) == 0x200_0000
    ensures Pow2(31) == 0x8000_0000 && Pow2(32) == 0x1_0000_0000
  {
    assert Pow2(8) == 256;
    Pow2Add(8, 8);
    Pow2Add(16, 16);
    Pow2Add(16, 8);
    Pow2Add(16, 15);
  }

  // --------------------------------------------- shifts and masks as arithmetic

  lemma {:induction false} ScaledIs(a: nat, n: nat, weight: nat)
    requires weight == Pow2(n)
    ensures Scaled(a, n) == a * weight
  {
    if n > 0 {
      ScaledIs(a, n - 1, Pow2(n - 1));
      assert a * (2 * Pow2(n - 1)) == 2 * (a * Pow2(n - 1));
    }
  }

  lemma {:induction false} ShiftLeftIs(a: nat, n: nat, weight: nat)
    requires weight == Pow2(n) && a * weight < TWO_32
    ensures ShiftLeft(a, n) == a * weight
  {
    ScaledIs(a, n, weight);
  }

  /** `a >> n` is division by 2^n. */
  lemma {:induction false} ShiftRightIs(a: nat, n: nat, place: nat)
    requires place == Pow2(n)
    ensures ShiftRight(a, n) == a / place
  {
    if n > 0 {
      ShiftRightIs(a / 2, n - 1, Pow2(n - 1));
      ModSplit(a, 2, Pow2(n - 1));
    }
  }

  lemma {:induction false} LowBitsIs(a: nat, n: nat, size: nat)
    requires size == Pow2(n)
    ensures LowBits(a, n) == a % size
  {
    if n > 0 {
      LowBitsIs(a / 2, n - 1, Pow2(n - 1));
      ModSplit(a, 2, Pow2(n - 1));
    }
  }

  lemma {:induction false} MaskIsLowBits(a: nat, n: nat)
    ensures BitAnd(a, Pow2(n) - 1) == LowBits(a, n)
  {
    if n > 0 {
      MaskIsLowBits(a / 2, n - 1);
    }
  }

  /** `a & (2^n - 1)` is reduction modulo 2^n. */
  lemma {:induction false} MaskIs(a: nat, n: nat, size: nat)
    requires size == Pow2(n)
    ensures BitAnd(a, size - 1) == a % size
  {
    MaskIsLowBits(a, n);
    LowBitsIs(a, n, size);
  }

  lemma {:induction false} MaskHighBits(a: nat, k: nat, m: nat)
    requires k <= m && a < Pow2(m)
    ensures Pow2(m) >= Pow2(k) && BitAnd(a, Pow2(m) - Pow2(k)) == a - LowBits(a, k)
  {
    hide BitAnd;
    Pow2Monotone(k, m);
    if k == 0 {
      MaskKeeps(a, m);
    } else {
      MaskHighBits(a / 2, k - 1, m - 1);
      BitAndDigits(a, Pow2(m) - Pow2(k));
    }
  }

  /** Clearing the low k bits of an m-bit number: `a & ~(2^k - 1)`. */
  lemma {:induction false} MaskHigh(a: nat, k: nat, m: nat, size: nat, mask: nat)
    requires k <= m && a < Pow2(m) && size == Pow2(k) && mask == Pow2(m) - size
    ensures BitAnd(a, mask) == a - a % size
  {
    MaskHighBits(a, k, m);
    LowBitsIs(a, k, size);
  }

  lemma {:induction false} MaskKeeps(a: nat, n: nat)
    requires a < Pow2(n)
    ensures BitAnd(a, Pow2(n) - 1) == a
  {
    if n > 0 {
      MaskKeeps(a / 2, n - 1);
    }
  }

  /** `(h << k) | b` where b fits in k bits is a sum. */
  lemma {:induction false} OrIsAdd(h: nat, k: nat, b: nat)
    requires b < Pow2(k)
    ensures BitOr(Scaled(h, k), b) == Scaled(h, k) + b
    ensures BitOr(b, Scaled(h, k)) == Scaled(h, k) + b
  {
    if k > 0 {
      OrIsAdd(h, k - 1, b / 2);
    }
  }

  /** `v ^ 2^k` flips the top bit of a (k+1)-bit value. */
  lemma {:induction false} XorTopBit(v: nat, k: nat)
    requires v < 2 * Pow2(k)
    ensures BitXor(v, Pow2(k)) == if v < Pow2(k) then v + Pow2(k) else v - Pow2(k)
  {
    if k > 0 {
      XorTopBit(v / 2, k - 1);
    }
  }

  ghost predicate IsPowerOfTwo(v: int) {
    exists n: nat :: v == Pow2(n)
  }

  lemma {:induction false} PowerOfTwoHalves(v: nat)
    requires v > 0 && v % 2 == 0
    ensures IsPowerOfTwo(v) <==> IsPowerOfTwo(v / 2)
  {
    if n: nat :| v == Pow2(n) {
      assert v / 2 == Pow2(n - 1);
    }
    if n: nat :| v / 2 == Pow2(n) {
      assert v == Pow2(n + 1);
    }
  }

  /** `v & (v - 1) == 0` for a positive v says that v is a power of two. */
  lemma {:induction false} PowerOfTwoTest(v: nat)
    requires v > 0
    ensures BitAnd(v, v - 1) == 0 <==> IsPowerOfTwo(v)
  {
    if v == 1 {
      assert v == Pow2(0);
    } else if v % 2 == 1 {
      assert BitAnd(v, v - 1) == 2 * BitAnd(v / 2, v / 2);
      BitAndSelf(v / 2);
      forall n: nat ensures v != Pow2(n) {
        assert n > 0 ==> Pow2(n) == 2 * Pow2(n - 1);
      }
    } else {
      PowerOfTwoTest(v / 2);
      PowerOfTwoHalves(v);
      assert BitAnd(v, v - 1) == 2 * BitAnd(v / 2, v / 2 - 1);
    }
  }

  lemma {:induction false} BitAndSelf(a: nat)
    ensures BitAnd(a, a) == a
  {
    if a > 0 {
      BitAndSelf(a / 2);
    }
  }

  // ------------------------------------------------------- meaning, bit by bit

  lemma {:induction false} BitAndDigits(a: nat, b: nat)
    ensures BitAnd(a, b) / 2 == BitAnd(a / 2, b / 2)
    ensures BitAnd(a, b) % 2 == if a % 2 == 1 && b % 2 == 1 then 1 else 0
  {
  }

  lemma {:induction false} BitAndBits(a: nat, b: nat, k: nat)
    ensures Bit(BitAnd(a, b), k) == (Bit(a, k) && Bit(b, k))
    decreases k
  {
    BitAndDigits(a, b);
    hide BitAnd;
    if k > 0 {
      BitAndBits(a / 2, b / 2, k - 1);
    }
  }

  lemma {:induction false} BitOrDigits(a: nat, b: nat)
    ensures BitOr(a, b) / 2 == BitOr(a / 2, b / 2)
    ensures BitOr(a, b) % 2 == if a % 2 == 1 || b % 2 == 1 then 1 else 0
  {
  }

  lemma {:induction false} BitOrBits(a: nat, b: nat, k: nat)
    ensures Bit(BitOr(a, b), k) == (Bit(a, k) || Bit(b, k))
    decreases k
  {
    BitOrDigits(a, b);
    hide BitOr;
    if k > 0 {
      BitOrBits(a / 2, b / 2, k - 1);
    }
  }

  lemma {:induction false} BitXorDigits(a: nat, b: nat)
    ensures BitXor(a, b) / 2 == BitXor(a / 2, b / 2)
    ensures BitXor(a, b) % 2 == if a % 2 != b % 2 then 1 else 0
  {
  }

  lemma {:induction false} BitXorBits(a: nat, b: nat, k: nat)
    ensures Bit(BitXor(a, b), k) == (Bit(a, k) != Bit(b, k))
    decreases k
  {
    BitXorDigits(a, b);
    hide BitXor;
    if k > 0 {
      BitXorBits(a / 2, b / 2, k - 1);
    }
  }

  /** The operations stay inside any word size that holds both operands. */
  lemma {:induction false} BitwiseBound(a: nat, b: nat, n: nat)
    requires a < Pow2(n) && b < Pow2(n)
    ensures BitOr(a, b) < Pow2(n) && BitXor(a, b) < Pow2(n)
  {
    if n > 0 {
      BitwiseBound(a / 2, b / 2, n - 1);
    }
  }

  function OrWord(a: u32, b: u32): (r: u32)
    ensures r == BitOr(a, b)
  {
    Pow2Values();
    BitwiseBound(a, b, 32);
    BitOr(a, b)
  }

  function XorWord(a: u32, b: u32): (r: u32)
    ensures r == BitXor(a, b)
  {
    Pow2Values();
    BitwiseBound(a, b, 32);
    BitXor(a, b)
  }
}
