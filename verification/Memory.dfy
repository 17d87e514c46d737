/** The guest's flat byte memory (src/memory.cpp): checked, little-endian,
    updated in place, against a mathematical image of its contents. */
module GuestMemory {
  import opened Words

  datatype MemoryOperation = Read | Write

  /** A value, or one of the two typed memory errors. */
  datatype Access<+T> =
    | Done(value: T)
    | OutOfBounds(address: u32, width: nat, operation: MemoryOperation)
    | Misaligned(address: u32, width: nat, operation: MemoryOperation)

  // ------------------------------------------------------------------ reference

  function LittleEndian(bytes: seq<u8>): nat {
    if bytes == [] then 0 else bytes[0] + 256 * LittleEndian(bytes[1..])
  }

  lemma {:induction false} LittleEndianBound(bytes: seq<u8>)
    ensures |bytes| <= 1 ==> LittleEndian(bytes) < 0x100
    ensures |bytes| <= 2 ==> LittleEndian(bytes) < 0x1_0000
    ensures |bytes| <= 3 ==> LittleEndian(bytes) < 0x100_0000
    ensures |bytes| <= 4 ==> LittleEndian(bytes) < 0x1_0000_0000
  {
    if bytes != [] {
      LittleEndianBound(bytes[1..]);
    }
  }

  function ToBytes(value: nat, width: nat): (bytes: seq<u8>)
    ensures |bytes| == width
  {
    if width == 0 then [] else [value % 256] + ToBytes(value / 256, width - 1)
  }

  /** What a memory holds: a run of bytes starting at a guest address. */
  datatype Image = Image(base: u32, bytes: seq<u8>) {
    predicate Valid() {
      base + |bytes| <= TWO_32
    }

    function End(): int {
      base + |bytes|
    }

    predicate Maps(address: int, width: nat) {
      base <= address && address + width <= base + |bytes|
    }

    function ByteAt(address: int): u8
      requires Maps(address, 1)
    {
      bytes[address - base]
    }

    /** A naturally aligned little-endian load of `width` bytes. */
    function Load(address: u32, width: nat): (r: Access<nat>)
      requires width > 0
      ensures r.Done? && width <= 4 ==> r.value < 0x1_0000_0000
    {
      if address % width != 0 then Misaligned(address, width, Read)
      else if !Maps(address, width) then OutOfBounds(address, width, Read)
      else
        var data := bytes[address - base..address - base + width];
        LittleEndianBound(data);
        Done(LittleEndian(data))
    }

    function Patched(address: int, data: seq<u8>): (r: Image)
      requires Maps(address, |data|)
      ensures r.base == base && |r.bytes| == |bytes|
    {
      var offset := address - base;
      Image(base, bytes[..offset] + data + bytes[offset + |data|..])
    }

    /** A naturally aligned little-endian store of the low `width` bytes. */
    function Store(address: u32, width: nat, value: nat): (r: Access<Image>)
      requires width > 0
      ensures r.Done? ==> r.value.base == base && |r.value.bytes| == |bytes|
    {
      if address % width != 0 then Misaligned(address, width, Write)
      else if !Maps(address, width) then OutOfBounds(address, width, Write)
      else Done(Patched(address, ToBytes(value, width)))
    }
  }

  lemma {:induction false} ToBytesRoundTrip(value: nat, width: nat)
    ensures LittleEndian(ToBytes(value, width)) == value % Pow2(8 * width)
  {
    if width > 0 {
      ToBytesRoundTrip(value / 256, width - 1);
      Pow2Add(8, 8 * (width - 1));
      Pow2Values();
      ModSplit(value, 256, Pow2(8 * (width - 1)));
      assert ToBytes(value, width)[1..] == ToBytes(value / 256, width - 1);
    }
  }

  /** Reading back a store gives the stored bytes; every other byte is kept. */
  lemma {:induction false} StoreThenLoad(m: Image, address: u32, width: nat, value: nat)
    requires width > 0 && m.Store(address, width, value).Done?
    ensures var after := m.Store(address, width, value).value;
            && after.Load(address, width) == Done(value % Pow2(8 * width))
            && forall a | m.Maps(a, 1) && !(address <= a < address + width) ::
                 after.ByteAt(a) == m.ByteAt(a)
  {
    var after := m.Store(address, width, value).value;
    var offset := address - m.base;
    assert after.bytes[offset..offset + width] == ToBytes(value, width);
    ToBytesRoundTrip(value, width);
  }

  /** A store leaves every load of a disjoint range as it was. */
  lemma {:induction false} StoreKeepsDisjointLoads(m: Image, address: u32, width: nat, value: nat, other: u32, w: nat)
    requires width > 0 && w > 0 && m.Store(address, width, value).Done?
    requires other + w <= address || address + width <= other
    ensures m.Store(address, width, value).value.Load(other, w) == m.Load(other, w)
  {
    var after := m.Store(address, width, value).value;
    if m.Maps(other, w) {
      var offset := other - m.base;
      assert after.bytes[offset..offset + w] == m.bytes[offset..offset + w];
    }
  }

  // -------------------------------------------------------- the source's bit tricks

  /** Or-ing in a byte above everything collected so far. */
  lemma {:induction false} OrByte(low: nat, b: u8, k: nat, weight: nat)
    requires weight == Pow2(k) && low < weight && b * weight < TWO_32
    ensures BitOr(low, ShiftLeft(b, k)) == low + b * weight
  {
    ShiftLeftIs(b, k, weight);
    ScaledIs(b, k, weight);
    OrIsAdd(b, k, low);
  }

  lemma {:induction false} HalfwordBytes(b0: u8, b1: u8)
    ensures BitOr(b0, ShiftLeft(b1, 8)) == LittleEndian([b0, b1]) < 0x1_0000
  {
    Pow2Values();
    OrByte(b0, b1, 8, 0x100);
    LittleEndianOf([b0, b1]);
  }

  lemma {:induction false} WordBytes(b0: u8, b1: u8, b2: u8, b3: u8)
    ensures BitOr(BitOr(BitOr(b0, ShiftLeft(b1, 8)), ShiftLeft(b2, 16)), ShiftLeft(b3, 24))
            == LittleEndian([b0, b1, b2, b3]) < TWO_32
  {
    Pow2Values();
    hide BitOr, Scaled, Pow2;
    OrByte(b0, b1, 8, 0x100);
    OrByte(b0 + 0x100 * b1, b2, 16, 0x1_0000);
    OrByte(b0 + 0x100 * b1 + 0x1_0000 * b2, b3, 24, 0x100_0000);
    LittleEndianOf([b0, b1, b2, b3]);
  }

  lemma {:induction false} LittleEndianOf(bytes: seq<u8>)
    requires |bytes| <= 4
    ensures |bytes| == 1 ==> LittleEndian(bytes) == bytes[0]
    ensures |bytes| == 2 ==> LittleEndian(bytes) == bytes[0] as int + 0x100 * bytes[1] as int
    ensures |bytes| == 4 ==>
              LittleEndian(bytes)
              == bytes[0] as int + 0x100 * bytes[1] as int + 0x1_0000 * bytes[2] as int + 0x100_0000 * bytes[3] as int
  {
    if |bytes| > 0 {
      var t1 := bytes[1..];
      assert |bytes| > 1 ==> LittleEndian(t1) == t1[0] + 256 * LittleEndian(t1[1..]);
      if |bytes| > 2 {
        var t2 := t1[1..];
        assert LittleEndian(t2) == t2[0] + 256 * LittleEndian(t2[1..]);
        if |bytes| > 3 {
          var t3 := t2[1..];
          assert LittleEndian(t3) == t3[0] + 256 * LittleEndian(t3[1..]);
        }
      }
    }
  }

  lemma {:induction false} ByteTricks(value: u32)
    ensures BitAnd(value, 0xFF) == value % 0x100
    ensures BitAnd(ShiftRight(value, 8), 0xFF) == value / 0x100 % 0x100
    ensures BitAnd(ShiftRight(value, 16), 0xFF) == value / 0x1_0000 % 0x100
    ensures BitAnd(ShiftRight(value, 24), 0xFF) == value / 0x100_0000 % 0x100
  {
    Pow2Values();
    ByteTrick(value, 0, 1);
    ByteTrick(value, 8, 0x100);
    ByteTrick(value, 16, 0x1_0000);
    ByteTrick(value, 24, 0x100_0000);
  }

  lemma {:induction false} ByteTrick(value: u32, n: nat, place: nat)
    requires place == Pow2(n)
    ensures BitAnd(ShiftRight(value, n), 0xFF) == value / place % 0x100
  {
    ShiftRightIs(value, n, place);
    Pow2Values();
    MaskIs(ShiftRight(value, n), 8, 0x100);
  }

  lemma {:induction false} ToBytesOf(value: u32)
    ensures ToBytes(value, 1) == [value % 0x100]
    ensures ToBytes(value, 2) == [value % 0x100, value / 0x100 % 0x100]
    ensures ToBytes(value, 4) == [value % 0x100, value / 0x100 % 0x100,
                                  value / 0x1_0000 % 0x100, value / 0x100_0000 % 0x100]
  {
    var v1 := value / 256;
    var v2 := v1 / 256;
    var v3 := v2 / 256;
    assert v2 == value / 0x1_0000 && v3 == value / 0x100_0000;
    assert ToBytes(v3, 1) == [v3 % 256] + ToBytes(v3 / 256, 0);
    assert ToBytes(v2, 2) == [v2 % 256] + ToBytes(v3, 1);
    assert ToBytes(v1, 1) == [v1 % 256] + ToBytes(v1 / 256, 0);
    assert ToBytes(v1, 3) == [v1 % 256] + ToBytes(v2, 2);
  }

  // -------------------------------------------------------------------- the class

  predicate RegionFits(base: u32, size: nat) {
    size <= TWO_32 - base
  }

  method MapRegion(base: u32, size: nat) returns (m: Memory?)
    ensures m != null <==> base + size <= TWO_32
    ensures m != null ==>
              m.Valid() && fresh(m) && fresh(m.bytes) && m.Contents() == Image(base, seq(size, _ => 0))
  {
    if !RegionFits(base, size) {
      return null;
    }
    m := new Memory(base, size);
  }

  class Memory {
    const base: u32
    const bytes: array<u8>

    ghost predicate Valid() {
      base + bytes.Length <= TWO_32
    }

    ghost function Contents(): (image: Image)
      reads bytes
    {
      Image(base, bytes[..])
    }

    constructor (base: u32, size: nat)
      requires RegionFits(base, size)
      ensures Valid() && fresh(bytes)
      ensures Contents() == Image(base, seq(size, _ => 0))
    {
      this.base := base;
      bytes := new u8[size](_ => 0);
    }

    function EndAddressExclusive(): int {
      base + bytes.Length
    }

    /** The offset of an access that lies wholly inside the region. */
    function CheckedOffset(address: u32, width: nat, operation: MemoryOperation): (r: Access<nat>)
      ensures r == if base <= address && address + width <= base + bytes.Length then Done(address - base)
                   else OutOfBounds(address, width, operation)
    {
      if address < base then OutOfBounds(address, width, operation)
      else
        var offset := address - base;
        if offset > bytes.Length || width > bytes.Length - offset then OutOfBounds(address, width, operation)
        else Done(offset)
    }

    function Read8(address: u32): (r: Access<u8>)
      reads bytes
      ensures r == Contents().Load(address, 1)
    {
      match CheckedOffset(address, 1, Read)
      case Done(offset) =>
        LittleEndianOf(bytes[offset..offset + 1]);
        Done(bytes[offset])
      case OutOfBounds(a, w, o) => OutOfBounds(a, w, o)
    }

    function Read16(address: u32): (r: Access<u16>)
      reads bytes
      ensures r == Contents().Load(address, 2)
    {
      if address % 2 != 0 then Misaligned(address, 2, Read)
      else
        match CheckedOffset(address, 2, Read)
        case Done(offset) =>
          HalfwordBytes(bytes[offset], bytes[offset + 1]);
          assert bytes[offset..offset + 2] == [bytes[offset], bytes[offset + 1]];
          Done(BitOr(bytes[offset], ShiftLeft(bytes[offset + 1], 8)))
        case OutOfBounds(a, w, o) => OutOfBounds(a, w, o)
    }

    function Read32(address: u32): (r: Access<u32>)
      reads bytes
      ensures r == Contents().Load(address, 4)
    {
      if address % 4 != 0 then Misaligned(address, 4, Read)
      else
        match CheckedOffset(address, 4, Read)
        case Done(offset) =>
          WordBytes(bytes[offset], bytes[offset + 1], bytes[offset + 2], bytes[offset + 3]);
          assert bytes[offset..offset + 4]
              == [bytes[offset], bytes[offset + 1], bytes[offset + 2], bytes[offset + 3]];
          Done(BitOr(BitOr(BitOr(bytes[offset], ShiftLeft(bytes[offset + 1], 8)),
                           ShiftLeft(bytes[offset + 2], 16)),
                     ShiftLeft(bytes[offset + 3], 24)))
        case OutOfBounds(a, w, o) => OutOfBounds(a, w, o)
    }

    function ReadSpan(address: u32, width: nat): (r: Access<seq<u8>>)
      reads bytes
      ensures r.Done? <==> Contents().Maps(address, width)
      ensures !r.Done? ==> r == OutOfBounds(address, width, Read)
      ensures r.Done? ==>
                |r.value| == width && forall i | 0 <= i < width :: r.value[i] == Contents().ByteAt(address + i)
    {
      match CheckedOffset(address, width, Read)
      case Done(offset) => Done(bytes[offset..offset + width])
      case OutOfBounds(a, w, o) => OutOfBounds(a, w, o)
    }

    method Write8(address: u32, value: u8) returns (r: Access<()>)
      modifies bytes
      ensures match old(Contents()).Store(address, 1, value)
              case Done(image) => r == Done(()) && Contents() == image
              case OutOfBounds(a, w, o) => r == OutOfBounds(a, w, o) && Contents() == old(Contents())
              case Misaligned(a, w, o) => r == Misaligned(a, w, o) && Contents() == old(Contents())
    {
      var checked := CheckedOffset(address, 1, Write);
      if checked.OutOfBounds? {
        return OutOfBounds(address, 1, Write);
      }
      ToBytesOf(value);
      bytes[checked.value] := value;
      assert bytes[..] == old(Contents()).Patched(address, [value]).bytes;
      r := Done(());
    }

    method Write16(address: u32, value: u16) returns (r: Access<()>)
      modifies bytes
      ensures match old(Contents()).Store(address, 2, value)
              case Done(image) => r == Done(()) && Contents() == image
              case OutOfBounds(a, w, o) => r == OutOfBounds(a, w, o) && Contents() == old(Contents())
              case Misaligned(a, w, o) => r == Misaligned(a, w, o) && Contents() == old(Contents())
    {
      hide BitAnd, ShiftRight, ToBytes;
      if address % 2 != 0 {
        return Misaligned(address, 2, Write);
      }
      var checked := CheckedOffset(address, 2, Write);
      if checked.OutOfBounds? {
        return OutOfBounds(address, 2, Write);
      }
      var offset := checked.value;
      ByteTricks(value);
      bytes[offset] := BitAnd(value, 0xFF);
      bytes[offset + 1] := BitAnd(ShiftRight(value, 8), 0xFF);
      ToBytesOf(value);
      ghost var data := [value % 0x100, value / 0x100 % 0x100];
      assert ToBytes(value, 2) == data;
      assert bytes[..] == old(Contents()).Patched(address, data).bytes;
      r := Done(());
    }

    method Write32(address: u32, value: u32) returns (r: Access<()>)
      modifies bytes
      ensures match old(Contents()).Store(address, 4, value)
              case Done(image) => r == Done(()) && Contents() == image
              case OutOfBounds(a, w, o) => r == OutOfBounds(a, w, o) && Contents() == old(Contents())
              case Misaligned(a, w, o) => r == Misaligned(a, w, o) && Contents() == old(Contents())
    {
      hide BitAnd, ShiftRight, ToBytes;
      if address % 4 != 0 {
        return Misaligned(address, 4, Write);
      }
      var checked := CheckedOffset(address, 4, Write);
      if checked.OutOfBounds? {
        return OutOfBounds(address, 4, Write);
      }
      var offset := checked.value;
      ByteTricks(value);
      bytes[offset] := BitAnd(value, 0xFF);
      bytes[offset + 1] := BitAnd(ShiftRight(value, 8), 0xFF);
      bytes[offset + 2] := BitAnd(ShiftRight(value, 16), 0xFF);
      bytes[offset + 3] := BitAnd(ShiftRight(value, 24), 0xFF);
      ToBytesOf(value);
      ghost var data := [value % 0x100, value / 0x100 % 0x100, value / 0x1_0000 % 0x100, value / 0x100_0000 % 0x100];
      assert ToBytes(value, 4) == data;
      assert bytes[..] == old(Contents()).Patched(address, data).bytes;
      r := Done(());
    }

    method Clear()
      modifies bytes
      ensures Contents() == Image(base, seq(bytes.Length, _ => 0))
    {
      for i := 0 to bytes.Length
        invariant forall k :: 0 <= k < i ==> bytes[k] == 0
      {
        bytes[i] := 0;
      }
    }
  }
}
