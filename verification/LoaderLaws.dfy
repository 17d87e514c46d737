/** The ELF32 file format the loader reads, defined by a writer of its own, and
    what a loaded or rejected file means in terms of the file's bytes. */
module LoaderLaws {
  import opened Options
  import opened Words
  import opened GuestMemory
  import Counting
  import opened ElfLoading

  // ------------------------------------------------------------------------ fields

  /** Which bytes of the file header the loader asks for, and what they must be. */
  lemma {:induction false} HeaderBytes(file: seq<u8>)
    ensures FileDefect(file).None? <==>
              && |file| >= 52
              && file[0] == 0x7F && file[1] == 0x45 && file[2] == 0x4C && file[3] == 0x46
              && file[4] == 1 && file[5] == 1 && file[6] == 1 && file[7] == 0 && file[8] == 0
              && LittleEndian(file[16..18]) == 2 && LittleEndian(file[18..20]) == 243
              && LittleEndian(file[20..24]) == 1 && LittleEndian(file[36..40]) == 0
              && LittleEndian(file[40..42]) == 52 && LittleEndian(file[42..44]) == 32
              && 0 < LittleEndian(file[44..46]) < 0xFFFF
              && 52 <= LittleEndian(file[28..32])
              && LittleEndian(file[28..32]) + 32 * LittleEndian(file[44..46]) <= |file|
  {
    hide LittleEndian, ReadU16, ReadU32;
    if |file| >= 52 {
      assert file[..4] == [file[0], file[1], file[2], file[3]];
    }
  }

  /** The rejection of a file header, in the order of the checks: the first of
      these conditions that holds of its bytes. */
  lemma {:induction false} HeaderDefects(file: seq<u8>)
    ensures |file| < 52 ==> FileDefect(file) == Some(TruncatedHeader)
    ensures |file| >= 52 ==>
              FileDefect(file)
              == if file[..4] != [0x7F, 0x45, 0x4C, 0x46] then Some(InvalidMagic)
                 else if file[4] != 1 then Some(UnsupportedClass)
                 else if file[5] != 1 then Some(UnsupportedEndianness)
                 else if file[6] != 1 then Some(UnsupportedIdentificationVersion)
                 else if file[7] != 0 then Some(UnsupportedOsAbi)
                 else if file[8] != 0 then Some(UnsupportedAbiVersion)
                 else if LittleEndian(file[16..18]) != 2 then Some(UnsupportedFileType)
                 else if LittleEndian(file[18..20]) != 243 then Some(UnsupportedMachine)
                 else if LittleEndian(file[20..24]) != 1 then Some(UnsupportedFileVersion)
                 else if LittleEndian(file[36..40]) != 0 then Some(UnsupportedIsaFlags)
                 else if LittleEndian(file[40..42]) != 52 then Some(InvalidElfHeaderSize)
                 else if LittleEndian(file[44..46]) == 0 then Some(MissingProgramHeaderTable)
                 else if LittleEndian(file[44..46]) == 0xFFFF then Some(UnsupportedProgramHeaderCount)
                 else if LittleEndian(file[42..44]) != 32 then Some(InvalidProgramHeaderEntrySize)
                 else if LittleEndian(file[28..32]) < 52 then Some(InvalidProgramHeaderOffset)
                 else if LittleEndian(file[28..32]) + 32 * LittleEndian(file[44..46]) > |file| then
                   Some(ProgramHeaderTableOutOfBounds)
                 else None
  {
    hide LittleEndian, ReadU16, ReadU32;
  }

  /** The entry point, the number of program headers, and every field of each, by
      the bytes they are read from. */
  lemma {:induction false} HeaderFields(file: seq<u8>, i: nat, p: nat)
    requires FileDefect(file).None? && |file| >= 52
    requires i < LittleEndian(file[44..46]) && p == LittleEndian(file[28..32]) + 32 * i
    ensures EntryPoint(file) == LittleEndian(file[24..28])
    ensures |Headers(file)| == LittleEndian(file[44..46]) && p + 32 <= |file|
    ensures var h := Headers(file)[i];
            && h.kind == LittleEndian(file[p..p + 4])
            && h.segment.fileOffset == LittleEndian(file[p + 4..p + 8])
            && h.segment.virtualAddress == LittleEndian(file[p + 8..p + 12])
            && h.segment.fileSize == LittleEndian(file[p + 16..p + 20])
            && h.segment.memorySize == LittleEndian(file[p + 20..p + 24])
            && h.segment.flags == LittleEndian(file[p + 24..p + 28])
            && h.alignment == LittleEndian(file[p + 28..p + 32])
  {
    hide LittleEndian, FileDefect;
    assert Headers(file)[i] == HeaderAt(file, i);
  }

  // ------------------------------------------------------------------------ writer

  /** A program header as the format lays it out, physical address included. */
  datatype Record = Record(
    kind: u32, offset: u32, virtualAddress: u32, physicalAddress: u32,
    fileSize: u32, memorySize: u32, flags: u32, alignment: u32)

  function FourWords(a: u32, b: u32, c: u32, d: u32): (bytes: seq<u8>)
    ensures |bytes| == 16
  {
    ToBytes(a, 4) + ToBytes(b, 4) + ToBytes(c, 4) + ToBytes(d, 4)
  }

  function RecordBytes(r: Record): (bytes: seq<u8>)
    ensures |bytes| == 32
  {
    FourWords(r.kind, r.offset, r.virtualAddress, r.physicalAddress)
    + FourWords(r.fileSize, r.memorySize, r.flags, r.alignment)
  }

  function TableBytes(records: seq<Record>): (bytes: seq<u8>)
    ensures |bytes| == 32 * |records|
  {
    if records == [] then []
    else TableBytes(records[..|records| - 1]) + RecordBytes(records[|records| - 1])
  }

  /** Magic, 32-bit class, little-endian data, version 1, no OS ABI; an executable
      for machine 243, version 1. */
  function Identification(): (bytes: seq<u8>)
    ensures |bytes| == 24
  {
    [0x7F, 0x45, 0x4C, 0x46, 1, 1, 1, 0] + [0, 0, 0, 0, 0, 0, 0, 0] + [2, 0, 243, 0, 1, 0, 0, 0]
  }

  /** Header size, program header entry size and count, and no section table. */
  function Sizes(count: u16): (bytes: seq<u8>)
    ensures |bytes| == 12
  {
    [52, 0, 32, 0] + ToBytes(count, 2) + [0, 0, 0, 0, 0, 0]
  }

  /** An executable: the file header, anything, the table, anything. */
  function Assembled(entry: u32, gap: seq<u8>, records: seq<Record>, payload: seq<u8>): seq<u8>
    requires 52 + |gap| < 0x1_0000_0000 && |records| < 0x1_0000
  {
    Identification() + FourWords(entry, 52 + |gap|, 0, 0) + Sizes(|records|) + gap + TableBytes(records) + payload
  }

  lemma {:induction false} Within(before: seq<u8>, block: seq<u8>, after: seq<u8>, file: seq<u8>, at: nat,
                                  a: nat, b: nat)
    requires file == before + block + after && at == |before| && a <= b <= |block|
    ensures at + b <= |file| && file[at + a..at + b] == block[a..b]
  {
  }

  lemma {:induction false} WordBack(x: u32)
    ensures LittleEndian(ToBytes(x, 4)) == x
  {
    hide LittleEndian, ToBytes;
    ToBytesRoundTrip(x, 4);
    Pow2Values();
  }

  lemma {:induction false} FourWordsBack(a: u32, b: u32, c: u32, d: u32)
    ensures var bytes := FourWords(a, b, c, d);
            && LittleEndian(bytes[0..4]) == a && LittleEndian(bytes[4..8]) == b
            && LittleEndian(bytes[8..12]) == c && LittleEndian(bytes[12..16]) == d
  {
    hide LittleEndian, ToBytes;
    var bytes := FourWords(a, b, c, d);
    var ab := ToBytes(a, 4) + ToBytes(b, 4);
    assert bytes[0..4] == ToBytes(a, 4) && bytes[4..8] == ToBytes(b, 4);
    Within(ab, ToBytes(c, 4), ToBytes(d, 4), bytes, 8, 0, 4);
    Within(ab + ToBytes(c, 4), ToBytes(d, 4), [], bytes, 12, 0, 4);
    WordBack(a);
    WordBack(b);
    WordBack(c);
    WordBack(d);
  }

  /** The fields of a record, wherever it stands in a file. */
  lemma {:induction false} RecordBack(file: seq<u8>, p: nat, r: Record)
    requires p + 32 <= |file| && file[p..p + 32] == RecordBytes(r)
    ensures LittleEndian(file[p..p + 4]) == r.kind && LittleEndian(file[p + 4..p + 8]) == r.offset
    ensures LittleEndian(file[p + 8..p + 12]) == r.virtualAddress
    ensures LittleEndian(file[p + 12..p + 16]) == r.physicalAddress
    ensures LittleEndian(file[p + 16..p + 20]) == r.fileSize && LittleEndian(file[p + 20..p + 24]) == r.memorySize
    ensures LittleEndian(file[p + 24..p + 28]) == r.flags && LittleEndian(file[p + 28..p + 32]) == r.alignment
  {
    hide LittleEndian, FourWords;
    var low := FourWords(r.kind, r.offset, r.virtualAddress, r.physicalAddress);
    var high := FourWords(r.fileSize, r.memorySize, r.flags, r.alignment);
    FourWordsBack(r.kind, r.offset, r.virtualAddress, r.physicalAddress);
    FourWordsBack(r.fileSize, r.memorySize, r.flags, r.alignment);
    QuarterAt(file, p, low, high, 0);
    QuarterAt(file, p, low, high, 4);
    QuarterAt(file, p, low, high, 8);
    QuarterAt(file, p, low, high, 12);
  }

  lemma {:induction false} QuarterAt(file: seq<u8>, p: nat, low: seq<u8>, high: seq<u8>, q: nat)
    requires p + 32 <= |file| && file[p..p + 32] == low + high && |low| == |high| == 16 && q + 4 <= 16
    ensures file[p + q..p + q + 4] == low[q..q + 4]
    ensures file[p + 16 + q..p + 16 + q + 4] == high[q..q + 4]
  {
    SliceOfSlice(file, p, p + 32, q, q + 4);
    Within([], low, high, file[p..p + 32], 0, q, q + 4);
    SliceOfSlice(file, p, p + 32, 16 + q, 16 + q + 4);
    Within(low, high, [], file[p..p + 32], 16, q, q + 4);
  }

  lemma {:induction false} SliceOfSlice(s: seq<u8>, low: nat, high: nat, a: nat, b: nat)
    requires low <= high <= |s| && a <= b <= high - low
    ensures s[low..high][a..b] == s[low + a..low + b]
  {
    var t := s[low..high];
    forall k | 0 <= k < b - a ensures t[a..b][k] == s[low + a..low + b][k] {
      assert t[a + k] == s[low + (a + k)];
    }
  }

  lemma {:induction false} TableBack(records: seq<Record>, i: nat)
    requires i < |records|
    ensures TableBytes(records)[32 * i..32 * i + 32] == RecordBytes(records[i])
    decreases |records|
  {
    hide RecordBytes;
    var n := |records| - 1;
    var earlier := TableBytes(records[..n]);
    if i < n {
      TableBack(records[..n], i);
      assert TableBytes(records)[32 * i..32 * i + 32] == earlier[32 * i..32 * i + 32];
    }
  }

  /** Reading back what was written: an assembled executable has no header defect,
      its entry point is the one given, and its table is the records given. */
  lemma {:induction false} ReadBack(entry: u32, gap: seq<u8>, records: seq<Record>, payload: seq<u8>)
    requires 52 + |gap| < 0x1_0000_0000 && 0 < |records| < 0xFFFF
    ensures var file := Assembled(entry, gap, records, payload);
            && FileDefect(file).None? && EntryPoint(file) == entry
            && |Headers(file)| == |records|
            && forall i | 0 <= i < |records| ::
                 var r := records[i];
                 Headers(file)[i]
                 == ProgramHeader(r.kind, LoadSegment(r.offset, r.virtualAddress, r.fileSize, r.memorySize, r.flags),
                                  r.alignment)
  {
    hide LittleEndian, TableBytes, FileDefect, Headers, EntryPoint;
    var file := Assembled(entry, gap, records, payload);
    FixedBytes(entry, gap, records, payload);
    hide Assembled;
    HeaderBytes(file);
    HeaderFields(file, 0, 52 + |gap|);
    forall i | 0 <= i < |records|
      ensures var r := records[i];
              Headers(file)[i]
              == ProgramHeader(r.kind, LoadSegment(r.offset, r.virtualAddress, r.fileSize, r.memorySize, r.flags),
                               r.alignment)
    {
      HeaderBack(entry, gap, records, payload, i);
    }
  }

  lemma {:induction false} HeaderBack(entry: u32, gap: seq<u8>, records: seq<Record>, payload: seq<u8>, i: nat)
    requires 52 + |gap| < 0x1_0000_0000 && i < |records| < 0xFFFF
    requires FileDefect(Assembled(entry, gap, records, payload)).None?
    requires |Headers(Assembled(entry, gap, records, payload))| == |records|
    ensures var r := records[i];
            Headers(Assembled(entry, gap, records, payload))[i]
            == ProgramHeader(r.kind, LoadSegment(r.offset, r.virtualAddress, r.fileSize, r.memorySize, r.flags),
                             r.alignment)
  {
    hide LittleEndian, TableBytes, FileDefect, Headers, EntryPoint;
    var file := Assembled(entry, gap, records, payload);
    FixedBytes(entry, gap, records, payload);
    hide Assembled;
    RecordAt(entry, gap, records, payload, i);
    RecordBack(file, 52 + |gap| + 32 * i, records[i]);
    HeaderFields(file, i, 52 + |gap| + 32 * i);
  }

  lemma {:induction false} RecordAt(entry: u32, gap: seq<u8>, records: seq<Record>, payload: seq<u8>, i: nat)
    requires 52 + |gap| < 0x1_0000_0000 && i < |records| < 0xFFFF
    ensures var file, p := Assembled(entry, gap, records, payload), 52 + |gap| + 32 * i;
            p + 32 <= |file| && file[p..p + 32] == RecordBytes(records[i])
  {
    hide TableBytes, RecordBytes, Identification, FourWords, Sizes;
    TableBack(records, i);
    var before := Identification() + FourWords(entry, 52 + |gap|, 0, 0) + Sizes(|records|) + gap;
    Within(before, TableBytes(records), payload, Assembled(entry, gap, records, payload), 52 + |gap|,
           32 * i, 32 * i + 32);
  }

  /** The fields of the file header of an assembled executable. */
  lemma {:induction false} FixedBytes(entry: u32, gap: seq<u8>, records: seq<Record>, payload: seq<u8>)
    requires 52 + |gap| < 0x1_0000_0000 && |records| < 0x1_0000
    ensures var file := Assembled(entry, gap, records, payload);
            && |file| >= 52 + |gap| + 32 * |records|
            && file[0] == 0x7F && file[1] == 0x45 && file[2] == 0x4C && file[3] == 0x46
            && file[4] == 1 && file[5] == 1 && file[6] == 1 && file[7] == 0 && file[8] == 0
            && LittleEndian(file[16..18]) == 2 && LittleEndian(file[18..20]) == 243
            && LittleEndian(file[20..24]) == 1
            && LittleEndian(file[24..28]) == entry && LittleEndian(file[28..32]) == 52 + |gap|
            && LittleEndian(file[36..40]) == 0
            && LittleEndian(file[40..42]) == 52 && LittleEndian(file[42..44]) == 32
            && LittleEndian(file[44..46]) == |records|
  {
    hide LittleEndian, ToBytes, TableBytes;
    var file := Assembled(entry, gap, records, payload);
    var first, second, third := Identification(), FourWords(entry, 52 + |gap|, 0, 0), Sizes(|records|);
    var rest := gap + TableBytes(records) + payload;
    Blocks(first, second, third, gap, TableBytes(records), payload, rest, file);
    IdentificationAt(file, second + third + rest);
    FourWordsBack(entry, 52 + |gap|, 0, 0);
    Within(first, second, third + rest, file, 24, 0, 4);
    Within(first, second, third + rest, file, 24, 4, 8);
    Within(first, second, third + rest, file, 24, 12, 16);
    SizesBack(|records|);
    Within(first + second, third, rest, file, 40, 0, 2);
    Within(first + second, third, rest, file, 40, 2, 4);
    Within(first + second, third, rest, file, 40, 4, 6);
  }

  lemma {:induction false} Blocks(first: seq<u8>, second: seq<u8>, third: seq<u8>, gap: seq<u8>, table: seq<u8>,
                                  payload: seq<u8>, rest: seq<u8>, file: seq<u8>)
    requires file == first + second + third + gap + table + payload && rest == gap + table + payload
    ensures file == first + second + (third + rest)
    ensures file == (first + second) + third + rest
    ensures file == first + (second + third + rest)
  {
  }

  lemma {:induction false} IdentificationAt(file: seq<u8>, rest: seq<u8>)
    requires file == Identification() + rest
    ensures file[0] == 0x7F && file[1] == 0x45 && file[2] == 0x4C && file[3] == 0x46
    ensures file[4] == 1 && file[5] == 1 && file[6] == 1 && file[7] == 0 && file[8] == 0
    ensures LittleEndian(file[16..18]) == 2 && LittleEndian(file[18..20]) == 243
    ensures LittleEndian(file[20..24]) == 1
  {
    hide LittleEndian;
    assert file[16..18] == [2, 0] && file[18..20] == [243, 0] && file[20..24] == [1, 0, 0, 0];
    LittleEndianOf([2, 0]);
    LittleEndianOf([243, 0]);
    LittleEndianOf([1, 0, 0, 0]);
  }

  lemma {:induction false} SizesBack(count: u16)
    ensures var bytes := Sizes(count);
            LittleEndian(bytes[0..2]) == 52 && LittleEndian(bytes[2..4]) == 32 && LittleEndian(bytes[4..6]) == count
  {
    hide LittleEndian, ToBytes;
    var bytes := Sizes(count);
    assert bytes[0..2] == [52, 0] && bytes[2..4] == [32, 0] && bytes[4..6] == ToBytes(count, 2);
    LittleEndianOf([52, 0]);
    LittleEndianOf([32, 0]);
    ToBytesRoundTrip(count, 2);
    Pow2Values();
  }

  // ------------------------------------------------------------------------ tables

  /** An admissible table, header by header: no dynamic linking or thread-local
      storage; each load segment's file range inside the file, its alignment a power
      of two that its address and offset agree on, its memory range inside the
      32-bit space and the mapped memory; all of them in address order and disjoint. */
  lemma {:induction false} AdmissibleIs(hs: seq<ProgramHeader>, bounds: Bounds)
    ensures Admissible(hs, bounds) <==>
              && (forall i | 0 <= i < |hs| :: hs[i].kind != 2 && hs[i].kind != 3 && hs[i].kind != 7)
              && (forall i | 0 <= i < |hs| && hs[i].kind == 1 ::
                    var s := hs[i].segment;
                    && s.fileSize <= s.memorySize && s.fileOffset + s.fileSize <= bounds.fileLength
                    && (hs[i].alignment > 1 ==>
                          IsPowerOfTwo(hs[i].alignment)
                          && s.virtualAddress % hs[i].alignment == s.fileOffset % hs[i].alignment)
                    && s.virtualAddress + s.memorySize <= 0x1_0000_0000
                    && (s.memorySize != 0 ==>
                          bounds.base <= s.virtualAddress && s.virtualAddress + s.memorySize <= bounds.end))
              && (forall i, j | 0 <= i < j < |hs| && hs[i].kind == 1 && hs[j].kind == 1 ::
                    var s, t := hs[i].segment, hs[j].segment;
                    && s.virtualAddress <= t.virtualAddress
                    && (s.memorySize == 0 || t.memorySize == 0
                        || s.virtualAddress + s.memorySize <= t.virtualAddress
                        || t.virtualAddress + t.memorySize <= s.virtualAddress))
  {
    hide Loads, Sorted, PairwiseDisjoint, Individually, IsPowerOfTwo, InOrder;
    KindsAre(hs);
    SoundAre(hs, bounds);
    OrderIs(hs);
    OrderMeans(hs);
  }

  lemma {:induction false} KindsAre(hs: seq<ProgramHeader>)
    ensures (forall h | h in hs :: h.kind !in {2, 3, 7})
            <==> forall i | 0 <= i < |hs| :: hs[i].kind != 2 && hs[i].kind != 3 && hs[i].kind != 7
  {
    if forall i | 0 <= i < |hs| :: hs[i].kind != 2 && hs[i].kind != 3 && hs[i].kind != 7 {
      assert forall h | h in hs :: h.kind !in {2, 3, 7};
    } else {
      var i :| 0 <= i < |hs| && (hs[i].kind == 2 || hs[i].kind == 3 || hs[i].kind == 7);
      assert hs[i] in hs;
    }
  }

  lemma {:induction false} SoundAre(hs: seq<ProgramHeader>, bounds: Bounds)
    ensures (forall h | h in hs && h.kind == 1 :: Individually(h, bounds))
            <==>
            forall i | 0 <= i < |hs| && hs[i].kind == 1 ::
              var s := hs[i].segment;
              && s.fileSize <= s.memorySize && s.fileOffset + s.fileSize <= bounds.fileLength
              && (hs[i].alignment > 1 ==>
                    IsPowerOfTwo(hs[i].alignment)
                    && s.virtualAddress % hs[i].alignment == s.fileOffset % hs[i].alignment)
              && s.virtualAddress + s.memorySize <= 0x1_0000_0000
              && (s.memorySize != 0 ==>
                    bounds.base <= s.virtualAddress && s.virtualAddress + s.memorySize <= bounds.end)
  {
    hide IsPowerOfTwo;
    forall i | 0 <= i < |hs| ensures hs[i] in hs {
    }
  }

  /** One load segment may stand before another. */
  predicate Before(s: LoadSegment, t: LoadSegment) {
    && s.virtualAddress <= t.virtualAddress
    && (s.memorySize == 0 || t.memorySize == 0
        || s.virtualAddress + s.memorySize <= t.virtualAddress
        || t.virtualAddress + t.memorySize <= s.virtualAddress)
  }

  ghost predicate InOrder(hs: seq<ProgramHeader>) {
    forall i, j | 0 <= i < j < |hs| && hs[i].kind == 1 && hs[j].kind == 1 :: Before(hs[i].segment, hs[j].segment)
  }

  lemma {:induction false} OrderMeans(hs: seq<ProgramHeader>)
    ensures InOrder(hs) <==>
            forall i, j | 0 <= i < j < |hs| && hs[i].kind == 1 && hs[j].kind == 1 ::
              var s, t := hs[i].segment, hs[j].segment;
              && s.virtualAddress <= t.virtualAddress
              && (s.memorySize == 0 || t.memorySize == 0
                  || s.virtualAddress + s.memorySize <= t.virtualAddress
                  || t.virtualAddress + t.memorySize <= s.virtualAddress)
  {
  }

  lemma {:induction false} InOrderExtends(hs: seq<ProgramHeader>, k: nat)
    requires |hs| == k + 1
    ensures InOrder(hs) <==>
            && InOrder(hs[..k])
            && (hs[k].kind == 1 ==> forall i | 0 <= i < k && hs[i].kind == 1 :: Before(hs[i].segment, hs[k].segment))
  {
    hide Before;
    var earlier := hs[..k];
    assert forall i | 0 <= i < k :: earlier[i] == hs[i];
  }

  lemma {:induction false} OrderIs(hs: seq<ProgramHeader>)
    ensures Sorted(Loads(hs)) && PairwiseDisjoint(Loads(hs)) <==> InOrder(hs)
  {
    if hs != [] {
      hide Loads, Before, InOrder, Sorted, PairwiseDisjoint;
      OrderIs(hs[..|hs| - 1]);
      InOrderExtends(hs, |hs| - 1);
      OrderWithLast(hs, |hs| - 1);
    }
  }

  /** Order and disjointness of a longer table: of the shorter one, and of each
      earlier load segment with the last. */
  lemma {:induction false} OrderWithLast(hs: seq<ProgramHeader>, k: nat)
    requires |hs| == k + 1
    ensures Sorted(Loads(hs)) && PairwiseDisjoint(Loads(hs)) <==>
            && Sorted(Loads(hs[..k])) && PairwiseDisjoint(Loads(hs[..k]))
            && (hs[k].kind == 1 ==> forall i | 0 <= i < k && hs[i].kind == 1 :: Before(hs[i].segment, hs[k].segment))
  {
    assert hs[..k + 1] == hs;
    LoadsExtend(hs, k);
    var earlier, all := Loads(hs[..k]), Loads(hs);
    hide Loads, Before;
    if hs[k].kind == 1 {
      var last := hs[k].segment;
      ShorterOrder(earlier, last);
      if Sorted(earlier) && PairwiseDisjoint(earlier) {
        OrderExtends(earlier, last);
        forall t ensures t in earlier <==> exists i :: 0 <= i < k && hs[i].kind == 1 && hs[i].segment == t {
          LoadsAre(hs[..k], t);
          assert forall i | 0 <= i < k :: hs[..k][i] == hs[i];
        }
        LastPairs(hs, k, earlier);
      }
    } else {
      assert all == earlier;
    }
  }

  lemma {:induction false} ShorterOrder(earlier: seq<LoadSegment>, last: LoadSegment)
    ensures Sorted(earlier + [last]) ==> Sorted(earlier)
    ensures PairwiseDisjoint(earlier + [last]) ==> PairwiseDisjoint(earlier)
  {
    var all := earlier + [last];
    assert forall i | 0 <= i < |earlier| :: all[i] == earlier[i];
  }

  lemma {:induction false} LastPairs(hs: seq<ProgramHeader>, k: nat, earlier: seq<LoadSegment>)
    requires k < |hs|
    requires forall t :: t in earlier <==> exists i :: 0 <= i < k && hs[i].kind == 1 && hs[i].segment == t
    ensures var last := hs[k].segment;
            && !(exists t | t in earlier :: t.virtualAddress > last.virtualAddress)
            && (last.memorySize == 0
                || !(exists t | t in earlier :: t.memorySize != 0 && t.End() > last.virtualAddress))
            <==>
            forall i | 0 <= i < k && hs[i].kind == 1 :: Before(hs[i].segment, hs[k].segment)
  {
    forall i | 0 <= i < k && hs[i].kind == 1 ensures hs[i].segment in earlier {
    }
  }

  lemma {:induction false} EarlierHeaders(hs: seq<ProgramHeader>, k: nat, t: LoadSegment)
    requires k <= |hs|
    ensures t in Loads(hs[..k]) <==> exists i :: 0 <= i < k && hs[i].kind == 1 && hs[i].segment == t
  {
    hide Loads;
    LoadsAre(hs[..k], t);
    assert forall i | 0 <= i < k :: hs[..k][i] == hs[i];
  }

  /** The rejection of a header, in the order of the checks: the first of these
      conditions that holds of it and the load segments before it. */
  lemma {:induction false} DefectIs(hs: seq<ProgramHeader>, k: nat, bounds: Bounds, disordered: bool, overlapping: bool)
    requires k < |hs|
    requires disordered <==>
             exists i :: 0 <= i < k && hs[i].kind == 1 && hs[i].segment.virtualAddress > hs[k].segment.virtualAddress
    requires overlapping <==>
             exists i :: && 0 <= i < k && hs[i].kind == 1 && hs[i].segment.memorySize != 0
                         && hs[i].segment.virtualAddress + hs[i].segment.memorySize > hs[k].segment.virtualAddress
    ensures var h, s := hs[k], hs[k].segment;
            var end: int := s.virtualAddress + s.memorySize;
            DefectAt(hs, k, bounds)
            == if h.kind == 2 || h.kind == 3 then Some(UnsupportedDynamicLinking)
               else if h.kind == 7 then Some(UnsupportedThreadLocalStorage)
               else if h.kind != 1 then None
               else if disordered then Some(LoadSegmentsOutOfOrder)
               else if s.fileSize > s.memorySize then Some(SegmentFileSizeExceedsMemorySize)
               else if s.fileOffset + s.fileSize > bounds.fileLength then Some(SegmentFileRangeOutOfBounds)
               else if h.alignment > 1 && !IsPowerOfTwo(h.alignment) then Some(InvalidSegmentAlignment)
               else if h.alignment > 1 && s.virtualAddress % h.alignment != s.fileOffset % h.alignment then
                 Some(InvalidSegmentAlignment)
               else if end > 0x1_0000_0000 then Some(SegmentAddressRangeOverflow)
               else if s.memorySize != 0 && (s.virtualAddress < bounds.base || end > bounds.end) then
                 Some(SegmentOutsideMemory)
               else if s.memorySize != 0 && overlapping then Some(OverlappingLoadSegments)
               else None
  {
    hide Loads, IsPowerOfTwo;
    EarlierDisorder(hs, k);
    EarlierOverlap(hs, k);
  }

  lemma {:induction false} EarlierDisorder(hs: seq<ProgramHeader>, k: nat)
    requires k < |hs|
    ensures (exists t | t in Loads(hs[..k]) :: t.virtualAddress > hs[k].segment.virtualAddress) <==>
            exists i :: 0 <= i < k && hs[i].kind == 1 && hs[i].segment.virtualAddress > hs[k].segment.virtualAddress
  {
    hide Loads;
    if t :| t in Loads(hs[..k]) && t.virtualAddress > hs[k].segment.virtualAddress {
      EarlierHeaders(hs, k, t);
    }
    if i :| 0 <= i < k && hs[i].kind == 1 && hs[i].segment.virtualAddress > hs[k].segment.virtualAddress {
      EarlierHeaders(hs, k, hs[i].segment);
    }
  }

  lemma {:induction false} EarlierOverlap(hs: seq<ProgramHeader>, k: nat)
    requires k < |hs|
    ensures (exists t | t in Loads(hs[..k]) :: t.memorySize != 0 && t.End() > hs[k].segment.virtualAddress) <==>
            exists i :: && 0 <= i < k && hs[i].kind == 1 && hs[i].segment.memorySize != 0
                        && hs[i].segment.virtualAddress + hs[i].segment.memorySize > hs[k].segment.virtualAddress
  {
    hide Loads;
    if t :| t in Loads(hs[..k]) && t.memorySize != 0 && t.End() > hs[k].segment.virtualAddress {
      EarlierHeaders(hs, k, t);
      var i :| 0 <= i < k && hs[i].kind == 1 && hs[i].segment == t;
      assert hs[i].segment.virtualAddress + hs[i].segment.memorySize > hs[k].segment.virtualAddress;
    }
    if i :| 0 <= i < k && hs[i].kind == 1 && hs[i].segment.memorySize != 0
            && hs[i].segment.virtualAddress + hs[i].segment.memorySize > hs[k].segment.virtualAddress {
      EarlierHeaders(hs, k, hs[i].segment);
      assert hs[i].segment.End() > hs[k].segment.virtualAddress;
    }
  }

  /** The entry point is executable when some load segment with the lowest flag bit
      set covers it. */
  lemma {:induction false} ExecutableIs(hs: seq<ProgramHeader>, entry: int)
    ensures Executable(Loads(hs), entry) <==>
            exists i :: && 0 <= i < |hs| && hs[i].kind == 1 && hs[i].segment.flags % 2 == 1
                        && hs[i].segment.virtualAddress <= entry
                        && entry < hs[i].segment.virtualAddress + hs[i].segment.memorySize
  {
    hide Loads;
    if s :| s in Loads(hs) && s.Covers(entry) && s.flags % 2 == 1 {
      LoadsAre(hs, s);
    }
    if i :| 0 <= i < |hs| && hs[i].kind == 1 && hs[i].segment.flags % 2 == 1
            && hs[i].segment.virtualAddress <= entry
            && entry < hs[i].segment.virtualAddress + hs[i].segment.memorySize {
      LoadsAre(hs, hs[i].segment);
    }
  }

  /** The rejection of a file: its header's, then its first defective program
      header's, then that nothing would be loaded, then the entry point's. */
  lemma {:induction false} RejectionIs(file: seq<u8>, bounds: Bounds, empty: bool, executable: bool)
    requires |file| >= 52 && FileDefect(file).None?
    requires empty <==>
             forall i | 0 <= i < |Headers(file)| && Headers(file)[i].kind == 1 ::
               Headers(file)[i].segment.memorySize == 0
    requires executable <==>
             exists i :: && 0 <= i < |Headers(file)| && Headers(file)[i].kind == 1
                         && Headers(file)[i].segment.flags % 2 == 1
                         && Headers(file)[i].segment.virtualAddress <= LittleEndian(file[24..28])
                         && LittleEndian(file[24..28])
                            < Headers(file)[i].segment.virtualAddress + Headers(file)[i].segment.memorySize
    ensures Rejection(file, bounds)
            == if FirstDefect(Headers(file), 0, bounds).Some? then FirstDefect(Headers(file), 0, bounds)
               else if empty then Some(LoadFailure(NoLoadableSegments, None))
               else if LittleEndian(file[24..28]) % 4 != 0 then Some(LoadFailure(EntryPointMisaligned, None))
               else if !executable then Some(LoadFailure(EntryPointNotExecutable, None))
               else None
  {
    hide FileDefect, Headers, Loads, FirstDefect, LittleEndian, Executable, EntryPoint;
    EntryIs(file);
    EmptyIs(Headers(file));
    ExecutableIs(Headers(file), EntryPoint(file));
  }

  lemma {:induction false} EmptyIs(hs: seq<ProgramHeader>)
    ensures AllEmpty(Loads(hs)) <==> forall i | 0 <= i < |hs| && hs[i].kind == 1 :: hs[i].segment.memorySize == 0
  {
    hide Loads;
    forall i | 0 <= i < |hs| && hs[i].kind == 1 ensures hs[i].segment in Loads(hs) {
      LoadsAre(hs, hs[i].segment);
    }
    forall s | s in Loads(hs) ensures exists i :: 0 <= i < |hs| && hs[i].kind == 1 && hs[i].segment == s {
      LoadsAre(hs, s);
    }
  }

  // ------------------------------------------------------------------- the image

  /** The loaded image, header by header: each address of a load segment holds the
      file's byte at that distance from its offset, or zero past its file size, and
      every other byte is as it was. */
  lemma {:induction false} ImageIs(file: seq<u8>, hs: seq<ProgramHeader>, before: Image, after: Image)
    requires HoldsImage(file, Loads(hs), before, after)
    ensures forall i, a: int | 0 <= i < |hs| && hs[i].kind == 1
                               && hs[i].segment.virtualAddress <= a
                               && a < hs[i].segment.virtualAddress + hs[i].segment.memorySize ::
              var s := hs[i].segment;
              && s.fileOffset + s.fileSize <= |file| && after.Maps(a, 1)
              && after.ByteAt(a)
                 == if a < s.virtualAddress + s.fileSize then file[s.fileOffset + (a - s.virtualAddress)] else 0
    ensures after.base == before.base && |after.bytes| == |before.bytes|
    ensures forall a: int | before.Maps(a, 1)
                            && (forall i | 0 <= i < |hs| && hs[i].kind == 1 ::
                                  a < hs[i].segment.virtualAddress
                                  || a >= hs[i].segment.virtualAddress + hs[i].segment.memorySize) ::
              after.ByteAt(a) == before.ByteAt(a)
  {
    hide Loads;
    var segments := Loads(hs);
    forall i, a: int | 0 <= i < |hs| && hs[i].kind == 1
                       && hs[i].segment.virtualAddress <= a
                       && a < hs[i].segment.virtualAddress + hs[i].segment.memorySize
      ensures var s := hs[i].segment;
              && s.fileOffset + s.fileSize <= |file| && after.Maps(a, 1)
              && after.ByteAt(a)
                 == if a < s.virtualAddress + s.fileSize then file[s.fileOffset + (a - s.virtualAddress)] else 0
    {
      LoadsAre(hs, hs[i].segment);
      SegmentIs(file, segments, before, after, hs[i].segment, a);
    }
    forall a: int | before.Maps(a, 1)
                    && (forall i | 0 <= i < |hs| && hs[i].kind == 1 ::
                          a < hs[i].segment.virtualAddress
                          || a >= hs[i].segment.virtualAddress + hs[i].segment.memorySize)
      ensures after.ByteAt(a) == before.ByteAt(a)
    {
      forall s | s in segments ensures !s.Covers(a) {
        LoadsAre(hs, s);
      }
      assert Uncovered(segments, a);
    }
  }

  lemma {:induction false} SegmentIs(file: seq<u8>, segments: seq<LoadSegment>, before: Image, after: Image,
                                     s: LoadSegment, a: int)
    requires HoldsImage(file, segments, before, after) && s in segments
    requires s.virtualAddress <= a < s.virtualAddress + s.memorySize
    ensures s.fileOffset + s.fileSize <= |file| && after.Maps(a, 1)
    ensures after.ByteAt(a)
            == if a < s.virtualAddress + s.fileSize then file[s.fileOffset + (a - s.virtualAddress)] else 0
  {
    var i :| 0 <= i < |segments| && segments[i] == s;
    assert segments[i].Covers(a);
    assert Placeable(before, file, segments[i]);
    assert Declares(file, segments[i], a, after.ByteAt(a));
  }

  /** What a successful load counts: its nonempty load segments, the addresses they
      fill from the file, all the addresses they cover, and the first and last of
      these. */
  lemma {:induction false} TotalsAre(hs: seq<ProgramHeader>, bounds: Bounds, success: LoadSuccess, entry: u32,
                                     filled: set<int>, covered: set<int>)
    requires Admissible(hs, bounds) && Reports(success, Loads(hs), entry)
    requires forall a :: a in filled <==>
               exists i :: && 0 <= i < |hs| && hs[i].kind == 1
                           && hs[i].segment.virtualAddress <= a
                           && a < hs[i].segment.virtualAddress + hs[i].segment.fileSize
    requires forall a :: a in covered <==>
               exists i :: && 0 <= i < |hs| && hs[i].kind == 1
                           && hs[i].segment.virtualAddress <= a
                           && a < hs[i].segment.virtualAddress + hs[i].segment.memorySize
    ensures success.entryPoint == entry
    ensures success.loadableSegments == |set i | 0 <= i < |hs| && hs[i].kind == 1 && hs[i].segment.memorySize != 0|
    ensures success.fileBytesLoaded == |filled|
    ensures success.fileBytesLoaded + success.zeroFillBytes == |covered|
    ensures success.loadedAddressBegin in covered && success.loadedAddressEndExclusive - 1 in covered
    ensures forall a | a in covered :: success.loadedAddressBegin <= a < success.loadedAddressEndExclusive
  {
    hide Loads, SumFile, SumMemory, Individually, AddressesAre, Hull, CountNonempty;
    var segments := Loads(hs);
    NonemptyCount(hs);
    forall s | s in segments ensures s.fileSize <= s.memorySize {
      LoadsAre(hs, s);
      SizesSound(hs, bounds, s);
    }
    AddressesOf(hs, filled, false);
    AddressesOf(hs, covered, true);
    AddressCount(segments, filled, false);
    AddressCount(segments, covered, true);
    EndsCovered(segments, covered, success.loadedAddressBegin, success.loadedAddressEndExclusive);
  }

  lemma {:induction false} SizesSound(hs: seq<ProgramHeader>, bounds: Bounds, s: LoadSegment)
    requires Admissible(hs, bounds) && exists i :: 0 <= i < |hs| && hs[i].kind == 1 && hs[i].segment == s
    ensures s.fileSize <= s.memorySize
  {
    hide Loads, Sorted, PairwiseDisjoint;
    var i :| 0 <= i < |hs| && hs[i].kind == 1 && hs[i].segment == s;
    assert Individually(hs[i], bounds);
  }

  function Extent(s: LoadSegment, whole: bool): u32 {
    if whole then s.memorySize else s.fileSize
  }

  lemma {:induction false} AddressesOf(hs: seq<ProgramHeader>, addresses: set<int>, whole: bool)
    requires forall a :: a in addresses <==>
               exists i :: && 0 <= i < |hs| && hs[i].kind == 1
                           && hs[i].segment.virtualAddress <= a
                           && a < hs[i].segment.virtualAddress + Extent(hs[i].segment, whole)
    ensures AddressesAre(Loads(hs), addresses, whole)
  {
    hide Loads, Extent;
    forall a
      ensures a in addresses <==>
              exists s :: s in Loads(hs) && s.virtualAddress <= a < s.virtualAddress + Extent(s, whole)
    {
      if i :| 0 <= i < |hs| && hs[i].kind == 1 && hs[i].segment.virtualAddress <= a
              && a < hs[i].segment.virtualAddress + Extent(hs[i].segment, whole) {
        LoadsAre(hs, hs[i].segment);
      }
      if s :| s in Loads(hs) && s.virtualAddress <= a < s.virtualAddress + Extent(s, whole) {
        LoadsAre(hs, s);
      }
    }
  }

  /** The addresses inside some segment's whole or file-backed range. */
  ghost predicate AddressesAre(segments: seq<LoadSegment>, addresses: set<int>, whole: bool) {
    forall a :: a in addresses <==>
      exists s :: s in segments && s.virtualAddress <= a < s.virtualAddress + Extent(s, whole)
  }

  /** Disjoint segments cover as many addresses as their sizes add up to. */
  lemma {:induction false} AddressCount(segments: seq<LoadSegment>, addresses: set<int>, whole: bool)
    requires PairwiseDisjoint(segments) && forall s | s in segments :: s.fileSize <= s.memorySize
    requires AddressesAre(segments, addresses, whole)
    ensures |addresses| == if whole then SumMemory(segments) else SumFile(segments)
    decreases |segments|
  {
    hide PairwiseDisjoint, Extent, AddressesAre;
    if segments == [] {
      NoAddresses(addresses, whole);
    } else {
      var n := |segments| - 1;
      var rest := WithoutLast(segments, n, addresses, whole);
      assert forall s | s in segments[..n] :: s in segments;
      AddressCount(segments[..n], rest, whole);
      ExtentIs(segments[n], whole);
    }
  }

  lemma {:induction false} NoAddresses(addresses: set<int>, whole: bool)
    requires AddressesAre([], addresses, whole)
    ensures |addresses| == 0
  {
    assert forall a :: a !in addresses;
    assert addresses == {};
  }

  lemma {:induction false} WithoutLast(segments: seq<LoadSegment>, n: nat, addresses: set<int>, whole: bool)
    returns (rest: set<int>)
    requires PairwiseDisjoint(segments) && forall s | s in segments :: s.fileSize <= s.memorySize
    requires AddressesAre(segments, addresses, whole) && |segments| == n + 1
    ensures PairwiseDisjoint(segments[..n]) && AddressesAre(segments[..n], rest, whole)
    ensures |addresses| == |rest| + Extent(segments[n], whole)
  {
    hide PairwiseDisjoint, Extent, AddressesAre;
    var own := Counting.Between(segments[n].virtualAddress, Extent(segments[n], whole));
    rest := addresses - own;
    LastApart(segments, n, own, whole);
    OtherAddresses(segments, n, own, addresses, whole);
    assert addresses == rest + own;
  }

  lemma {:induction false} OtherAddresses(segments: seq<LoadSegment>, n: nat, own: set<int>, addresses: set<int>,
                                          whole: bool)
    requires |segments| == n + 1
    requires forall a :: a in own <==>
               segments[n].virtualAddress <= a < segments[n].virtualAddress + Extent(segments[n], whole)
    requires forall a, s | s in segments[..n] && s.virtualAddress <= a < s.virtualAddress + Extent(s, whole) ::
               a !in own
    requires AddressesAre(segments, addresses, whole)
    ensures own <= addresses
    ensures AddressesAre(segments[..n], addresses - own, whole)
  {
    hide Extent;
    var earlier := segments[..n];
    assert segments == earlier + [segments[n]];
    forall a
      ensures a in addresses - own <==>
              exists s :: s in earlier && s.virtualAddress <= a < s.virtualAddress + Extent(s, whole)
    {
      if s :| s in earlier && s.virtualAddress <= a < s.virtualAddress + Extent(s, whole) {
        assert s in segments;
      }
    }
    forall a | a in own ensures a in addresses {
      assert segments[n] in segments;
    }
  }

  lemma {:induction false} ExtentIs(s: LoadSegment, whole: bool)
    ensures Extent(s, whole) == if whole then s.memorySize else s.fileSize
  {
  }

  /** The addresses of the last segment are its own. */
  lemma {:induction false} LastApart(segments: seq<LoadSegment>, n: nat, own: set<int>, whole: bool)
    requires PairwiseDisjoint(segments) && |segments| == n + 1
    requires forall s | s in segments :: s.fileSize <= s.memorySize
    requires forall a :: a in own <==>
               segments[n].virtualAddress <= a < segments[n].virtualAddress + Extent(segments[n], whole)
    ensures forall a, s | s in segments[..n] && s.virtualAddress <= a < s.virtualAddress + Extent(s, whole) ::
              a !in own
    ensures PairwiseDisjoint(segments[..n])
  {
    forall a, s | s in segments[..n] && s.virtualAddress <= a < s.virtualAddress + Extent(s, whole)
      ensures a !in own
    {
      var i :| 0 <= i < n && segments[..n][i] == s;
      assert Disjoint(segments[i], segments[n]);
    }
    assert forall i | 0 <= i < n :: segments[..n][i] == segments[i];
  }

  lemma {:induction false} EndsCovered(segments: seq<LoadSegment>, covered: set<int>, begin: int, end: int)
    requires Hull(segments, begin, end)
    requires AddressesAre(segments, covered, true)
    ensures begin in covered && end - 1 in covered && forall a | a in covered :: begin <= a < end
  {
    var s :| s in segments && s.memorySize != 0 && s.virtualAddress == begin;
    assert s.virtualAddress <= begin < s.virtualAddress + Extent(s, true);
    var t :| t in segments && t.memorySize != 0 && t.End() == end;
    assert t.virtualAddress <= end - 1 < t.virtualAddress + Extent(t, true);
  }

  lemma {:induction false} NonemptyCount(hs: seq<ProgramHeader>)
    ensures CountNonempty(Loads(hs))
            == |set i | 0 <= i < |hs| && hs[i].kind == 1 && hs[i].segment.memorySize != 0|
  {
    hide CountNonempty, Loads;
    NothingNonempty();
    assert hs[..0] == [];
    var p := i => 0 <= i < |hs| && hs[i].kind == 1 && hs[i].segment.memorySize != 0;
    for k := 0 to |hs|
      invariant CountNonempty(Loads(hs[..k])) == |Counting.Where(k, p)|
    {
      Counting.WhereStep(k, p);
      LoadsExtend(hs, k);
      NonemptyExtends(Loads(hs[..k]), hs[k].segment);
      assert Loads(hs[..k]) + [] == Loads(hs[..k]);
    }
    assert hs[..|hs|] == hs;
    assert Counting.Where(|hs|, p) == set i | 0 <= i < |hs| && hs[i].kind == 1 && hs[i].segment.memorySize != 0;
  }

  lemma {:induction false} NothingNonempty()
    ensures CountNonempty(Loads([])) == 0
  {
  }

  lemma {:induction false} NonemptyExtends(segments: seq<LoadSegment>, s: LoadSegment)
    ensures CountNonempty(segments + [s]) == CountNonempty(segments) + (if s.memorySize != 0 then 1 else 0)
  {
    assert (segments + [s])[..|segments|] == segments;
  }
}
