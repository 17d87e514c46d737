/** The ELF32 loader (src/elf_loader.cpp): everything is checked first, in one
    pass that compares each segment only with its predecessors' running ends;
    then the declared image is written byte by byte. */
module ElfLoading {
  import opened Options
  import opened Words
  import opened GuestMemory
  import Cpu

  const HEADER_SIZE := 52
  const PROGRAM_HEADER_SIZE := 32

  datatype LoadError =
    | TruncatedHeader | InvalidMagic | UnsupportedClass | UnsupportedEndianness
    | UnsupportedIdentificationVersion | UnsupportedOsAbi | UnsupportedAbiVersion
    | UnsupportedFileType | UnsupportedMachine | UnsupportedFileVersion | UnsupportedIsaFlags
    | InvalidElfHeaderSize | InvalidProgramHeaderOffset | MissingProgramHeaderTable
    | UnsupportedProgramHeaderCount | InvalidProgramHeaderEntrySize | ProgramHeaderTableOutOfBounds
    | UnsupportedDynamicLinking | UnsupportedThreadLocalStorage | LoadSegmentsOutOfOrder
    | SegmentFileSizeExceedsMemorySize | SegmentFileRangeOutOfBounds | SegmentAddressRangeOverflow
    | SegmentOutsideMemory | InvalidSegmentAlignment | OverlappingLoadSegments | NoLoadableSegments
    | EntryPointMisaligned | EntryPointNotExecutable

  datatype LoadFailure = LoadFailure(code: LoadError, programHeaderIndex: Option<nat>)

  datatype LoadSuccess = LoadSuccess(
    entryPoint: u32, loadableSegments: nat, fileBytesLoaded: u64, zeroFillBytes: u64,
    loadedAddressBegin: u32, loadedAddressEndExclusive: u64)

  datatype LoadResult = Loaded(success: LoadSuccess) | NotLoaded(failure: LoadFailure)

  datatype LoadSegment = LoadSegment(
    fileOffset: u32, virtualAddress: u32, fileSize: u32, memorySize: u32, flags: u32)
  {
    function End(): int {
      virtualAddress + memorySize
    }

    predicate Covers(address: int) {
      virtualAddress <= address < End()
    }
  }

  datatype ProgramHeader = ProgramHeader(kind: u32, segment: LoadSegment, alignment: u32)

  // ---------------------------------------------------------------- reading fields

  function ReadU16(file: seq<u8>, offset: nat): (r: u16)
    requires offset + 2 <= |file|
    ensures r == LittleEndian(file[offset..offset + 2])
  {
    HalfwordBytes(file[offset], file[offset + 1]);
    assert file[offset..offset + 2] == [file[offset], file[offset + 1]];
    BitOr(file[offset], ShiftLeft(file[offset + 1], 8))
  }

  function ReadU32(file: seq<u8>, offset: nat): (r: u32)
    requires offset + 4 <= |file|
    ensures r == LittleEndian(file[offset..offset + 4])
  {
    WordBytes(file[offset], file[offset + 1], file[offset + 2], file[offset + 3]);
    assert file[offset..offset + 4] == [file[offset], file[offset + 1], file[offset + 2], file[offset + 3]];
    BitOr(BitOr(BitOr(file[offset], ShiftLeft(file[offset + 1], 8)), ShiftLeft(file[offset + 2], 16)),
          ShiftLeft(file[offset + 3], 24))
  }

  predicate RangeFits(offset: u64, size: u64, limit: nat)
    ensures RangeFits(offset, size, limit) <==> offset + size <= limit
  {
    offset <= limit && size <= limit - offset
  }

  predicate PowerOfTwo(value: u32)
    ensures PowerOfTwo(value) <==> IsPowerOfTwo(value)
  {
    if value == 0 then
      assert forall n: nat :: Pow2(n) >= 1;
      false
    else
      PowerOfTwoTest(value);
      BitAnd(value, value - 1) == 0
  }

  /** The executable bit of a segment's flags. */
  predicate MayExecute(flags: u32)
    ensures MayExecute(flags) <==> flags % 2 == 1
  {
    Pow2Values();
    MaskIs(flags, 1, 2);
    BitAnd(flags, 0x1) != 0
  }

  predicate WordAligned(address: u32)
    ensures WordAligned(address) <==> address % 4 == 0
  {
    Pow2Values();
    MaskIs(address, 2, 4);
    BitAnd(address, 0x3) == 0
  }

  // ---------------------------------------------------------------- the file header

  /** The first header check that fails, in the loader's order. */
  function FileDefect(file: seq<u8>): Option<LoadError> {
    hide ReadU16, ReadU32;
    if |file| < HEADER_SIZE then Some(TruncatedHeader)
    else if file[..4] != [0x7F, 0x45, 0x4C, 0x46] then Some(InvalidMagic)
    else if file[4] != 1 then Some(UnsupportedClass)
    else if file[5] != 1 then Some(UnsupportedEndianness)
    else if file[6] != 1 then Some(UnsupportedIdentificationVersion)
    else if file[7] != 0 then Some(UnsupportedOsAbi)
    else if file[8] != 0 then Some(UnsupportedAbiVersion)
    else if ReadU16(file, 16) != 2 then Some(UnsupportedFileType)
    else if ReadU16(file, 18) != 243 then Some(UnsupportedMachine)
    else if ReadU32(file, 20) != 1 then Some(UnsupportedFileVersion)
    else if ReadU32(file, 36) != 0 then Some(UnsupportedIsaFlags)
    else if ReadU16(file, 40) != HEADER_SIZE then Some(InvalidElfHeaderSize)
    else if ReadU16(file, 44) == 0 then Some(MissingProgramHeaderTable)
    else if ReadU16(file, 44) == 0xFFFF then Some(UnsupportedProgramHeaderCount)
    else if ReadU16(file, 42) != PROGRAM_HEADER_SIZE then Some(InvalidProgramHeaderEntrySize)
    else if ReadU32(file, 28) < HEADER_SIZE then Some(InvalidProgramHeaderOffset)
    else if !RangeFits(ReadU32(file, 28), ReadU16(file, 44) * ReadU16(file, 42), |file|) then
      Some(ProgramHeaderTableOutOfBounds)
    else None
  }

  function EntryPoint(file: seq<u8>): u32
    requires FileDefect(file).None?
  {
    ReadU32(file, 24)
  }

  function HeaderCount(file: seq<u8>): nat
    requires FileDefect(file).None?
  {
    ReadU16(file, 44)
  }

  /** Where the header with this index starts; its 32 bytes lie in the file. */
  function HeaderOffset(file: seq<u8>, index: nat): (offset: nat)
    requires FileDefect(file).None? && index < HeaderCount(file)
    ensures offset == LittleEndian(file[28..32]) + 32 * index
    ensures offset + 32 <= |file|
  {
    ReadU32(file, 28) + index * PROGRAM_HEADER_SIZE
  }

  function HeaderAt(file: seq<u8>, index: nat): ProgramHeader
    requires FileDefect(file).None? && index < HeaderCount(file)
  {
    var at := HeaderOffset(file, index);
    hide ReadU32;
    ProgramHeader(ReadU32(file, at),
                  LoadSegment(ReadU32(file, at + 4), ReadU32(file, at + 8), ReadU32(file, at + 16),
                              ReadU32(file, at + 20), ReadU32(file, at + 24)),
                  ReadU32(file, at + 28))
  }

  function Headers(file: seq<u8>): (hs: seq<ProgramHeader>)
    requires FileDefect(file).None?
    ensures |hs| == HeaderCount(file) && forall i | 0 <= i < |hs| :: hs[i] == HeaderAt(file, i)
  {
    hide HeaderAt;
    seq(HeaderCount(file), i requires 0 <= i < HeaderCount(file) => HeaderAt(file, i))
  }

  // ------------------------------------------------------ which tables are loadable

  /** The memory and file a table is checked against. */
  datatype Bounds = Bounds(fileLength: nat, base: u32, end: nat)

  /** The loadable segments of a table, in order. */
  function Loads(hs: seq<ProgramHeader>): (segments: seq<LoadSegment>)
    ensures |segments| <= |hs|
  {
    if hs == [] then []
    else
      var last := hs[|hs| - 1];
      Loads(hs[..|hs| - 1]) + (if last.kind == 1 then [last.segment] else [])
  }

  /** The load segments are those of the headers of type 1. */
  lemma {:induction false} LoadsAre(hs: seq<ProgramHeader>, t: LoadSegment)
    ensures t in Loads(hs) <==> exists i :: 0 <= i < |hs| && hs[i].kind == 1 && hs[i].segment == t
  {
    if hs != [] {
      var k := |hs| - 1;
      LoadsAre(hs[..k], t);
      if i :| 0 <= i < |hs| && hs[i].kind == 1 && hs[i].segment == t {
        assert i < k ==> hs[..k][i] == hs[i];
      }
      if i :| 0 <= i < k && hs[..k][i].kind == 1 && hs[..k][i].segment == t {
        assert hs[i].kind == 1 && hs[i].segment == t;
      }
      if hs[k].kind == 1 && hs[k].segment == t {
        assert 0 <= k < |hs|;
      }
    }
  }

  /** What is wrong with one header, whatever the others are, in the order it
      would be reported between the checks against earlier segments. */
  ghost predicate Individually(h: ProgramHeader, bounds: Bounds) {
    var s := h.segment;
    && s.fileSize <= s.memorySize
    && s.fileOffset + s.fileSize <= bounds.fileLength
    && (h.alignment > 1 ==>
          IsPowerOfTwo(h.alignment) && s.virtualAddress % h.alignment == s.fileOffset % h.alignment)
    && s.End() <= 0x1_0000_0000
    && (s.memorySize != 0 ==> bounds.base <= s.virtualAddress && s.End() <= bounds.end)
  }

  /** The error for a header after the given earlier segments, stated against all
      of them rather than against running values. */
  ghost function Defect(earlier: seq<LoadSegment>, h: ProgramHeader, bounds: Bounds): Option<LoadError> {
    var s := h.segment;
    if h.kind == 2 || h.kind == 3 then Some(UnsupportedDynamicLinking)
    else if h.kind == 7 then Some(UnsupportedThreadLocalStorage)
    else if h.kind != 1 then None
    else if exists t | t in earlier :: t.virtualAddress > s.virtualAddress then Some(LoadSegmentsOutOfOrder)
    else if s.fileSize > s.memorySize then Some(SegmentFileSizeExceedsMemorySize)
    else if s.fileOffset + s.fileSize > bounds.fileLength then Some(SegmentFileRangeOutOfBounds)
    else if h.alignment > 1
            && !(IsPowerOfTwo(h.alignment) && s.virtualAddress % h.alignment == s.fileOffset % h.alignment) then
      Some(InvalidSegmentAlignment)
    else if s.End() > 0x1_0000_0000 then Some(SegmentAddressRangeOverflow)
    else if s.memorySize != 0 && !(bounds.base <= s.virtualAddress && s.End() <= bounds.end) then
      Some(SegmentOutsideMemory)
    else if s.memorySize != 0 && exists t | t in earlier :: t.memorySize != 0 && t.End() > s.virtualAddress then
      Some(OverlappingLoadSegments)
    else None
  }

  ghost function DefectAt(hs: seq<ProgramHeader>, k: nat, bounds: Bounds): Option<LoadError>
    requires k < |hs|
  {
    Defect(Loads(hs[..k]), hs[k], bounds)
  }

  /** The first defective header at or after k. */
  ghost function FirstDefect(hs: seq<ProgramHeader>, k: nat, bounds: Bounds): (r: Option<LoadFailure>)
    requires k <= |hs|
    ensures r.Some? ==>
              && r.value.programHeaderIndex.Some?
              && k <= r.value.programHeaderIndex.value < |hs|
              && DefectAt(hs, r.value.programHeaderIndex.value, bounds) == Some(r.value.code)
              && forall i | k <= i < r.value.programHeaderIndex.value :: DefectAt(hs, i, bounds).None?
    ensures r.None? ==> forall i | k <= i < |hs| :: DefectAt(hs, i, bounds).None?
    decreases |hs| - k
  {
    hide DefectAt;
    if k == |hs| then None
    else if DefectAt(hs, k, bounds).Some? then Some(LoadFailure(DefectAt(hs, k, bounds).value, Some(k)))
    else FirstDefect(hs, k + 1, bounds)
  }

  predicate Disjoint(s: LoadSegment, t: LoadSegment) {
    s.memorySize == 0 || t.memorySize == 0 || s.End() <= t.virtualAddress || t.End() <= s.virtualAddress
  }

  ghost predicate Sorted(segments: seq<LoadSegment>) {
    forall i, j | 0 <= i < j < |segments| :: segments[i].virtualAddress <= segments[j].virtualAddress
  }

  ghost predicate PairwiseDisjoint(segments: seq<LoadSegment>) {
    forall i, j | 0 <= i < j < |segments| :: Disjoint(segments[i], segments[j])
  }

  /** The declarative reading of a loadable table: no dynamic linking or TLS, each
      load segment fine by itself, all of them sorted and pairwise disjoint. */
  ghost predicate Admissible(hs: seq<ProgramHeader>, bounds: Bounds) {
    && (forall h | h in hs :: h.kind !in {2, 3, 7})
    && (forall h | h in hs && h.kind == 1 :: Individually(h, bounds))
    && Sorted(Loads(hs)) && PairwiseDisjoint(Loads(hs))
  }

  lemma {:induction false} LoadsExtend(hs: seq<ProgramHeader>, k: nat)
    requires k < |hs|
    ensures Loads(hs[..k + 1]) == Loads(hs[..k]) + (if hs[k].kind == 1 then [hs[k].segment] else [])
  {
    assert hs[..k + 1][..k] == hs[..k];
  }

  /** Adding one header keeps a table admissible exactly when it has no defect. */
  lemma {:induction false} AdmissibleExtends(hs: seq<ProgramHeader>, k: nat, bounds: Bounds)
    requires k < |hs| && Admissible(hs[..k], bounds)
    ensures Admissible(hs[..k + 1], bounds) <==> DefectAt(hs, k, bounds).None?
  {
    LoadsExtend(hs, k);
    var h, earlier, all := hs[k], Loads(hs[..k]), Loads(hs[..k + 1]);
    hide Loads;
    assert hs[..k + 1] == hs[..k] + [h];
    if h.kind == 1 {
      OrderExtends(earlier, h.segment);
    } else {
      assert all == earlier;
    }
  }

  lemma {:induction false} OrderExtends(earlier: seq<LoadSegment>, s: LoadSegment)
    requires Sorted(earlier) && PairwiseDisjoint(earlier)
    ensures Sorted(earlier + [s]) <==> !(exists t | t in earlier :: t.virtualAddress > s.virtualAddress)
    ensures Sorted(earlier + [s]) ==>
              (PairwiseDisjoint(earlier + [s]) <==>
               s.memorySize == 0 || !(exists t | t in earlier :: t.memorySize != 0 && t.End() > s.virtualAddress))
  {
    var all := earlier + [s];
    var n := |earlier|;
    assert all[n] == s;
    assert forall i | 0 <= i < n :: all[i] == earlier[i];
    assert Sorted(all) <==> forall i | 0 <= i < n :: all[i].virtualAddress <= all[n].virtualAddress;
    if Sorted(all) {
      assert forall i | 0 <= i < n :: all[i].virtualAddress <= all[n].virtualAddress;
      assert PairwiseDisjoint(all) <==> forall i | 0 <= i < n :: Disjoint(all[i], all[n]);
    }
  }

  lemma {:induction false} NoDefectBelow(hs: seq<ProgramHeader>, k: nat, bounds: Bounds)
    requires k <= |hs|
    ensures Admissible(hs[..k], bounds) <==> forall i | 0 <= i < k :: DefectAt(hs, i, bounds).None?
  {
    hide DefectAt;
    if k > 0 {
      NoDefectBelow(hs, k - 1, bounds);
      if Admissible(hs[..k - 1], bounds) {
        AdmissibleExtends(hs, k - 1, bounds);
      } else if Admissible(hs[..k], bounds) {
        AdmissibleShrinks(hs, k - 1, bounds);
      }
    }
  }

  lemma {:induction false} AdmissibleShrinks(hs: seq<ProgramHeader>, k: nat, bounds: Bounds)
    requires k < |hs| && Admissible(hs[..k + 1], bounds)
    ensures Admissible(hs[..k], bounds)
  {
    LoadsExtend(hs, k);
    hide Loads;
    assert hs[..k + 1] == hs[..k] + [hs[k]];
    var earlier, all := Loads(hs[..k]), Loads(hs[..k + 1]);
    assert earlier == all[..|earlier|];
  }

  /** The one-pass check accepts exactly the admissible tables, and otherwise
      reports the first header that spoils its prefix. */
  lemma {:induction false} TableAccepted(hs: seq<ProgramHeader>, bounds: Bounds)
    ensures FirstDefect(hs, 0, bounds).None? <==> Admissible(hs, bounds)
    ensures FirstDefect(hs, 0, bounds).Some? ==>
              var k := FirstDefect(hs, 0, bounds).value.programHeaderIndex.value;
              Admissible(hs[..k], bounds) && !Admissible(hs[..k + 1], bounds)
  {
    hide DefectAt, Admissible;
    assert hs[..|hs|] == hs;
    NoDefectBelow(hs, |hs|, bounds);
    var first := FirstDefect(hs, 0, bounds);
    if first.Some? {
      NoDefectBelow(hs, first.value.programHeaderIndex.value, bounds);
      NoDefectBelow(hs, first.value.programHeaderIndex.value + 1, bounds);
    }
  }

  // ------------------------------------------------------------- the loaded image

  /** A segment that can be written into a memory from a file. */
  predicate Placeable(m: Image, file: seq<u8>, s: LoadSegment) {
    && s.fileSize <= s.memorySize && s.fileOffset + s.fileSize <= |file|
    && (s.memorySize != 0 ==> m.Maps(s.virtualAddress, s.memorySize))
  }

  predicate AllPlaceable(m: Image, file: seq<u8>, segments: seq<LoadSegment>) {
    forall i | 0 <= i < |segments| :: Placeable(m, file, segments[i])
  }

  /** The file's bytes, then zeros. */
  function SegmentBytes(file: seq<u8>, s: LoadSegment): (bytes: seq<u8>)
    requires s.fileSize <= s.memorySize && s.fileOffset + s.fileSize <= |file|
    ensures |bytes| == s.memorySize
  {
    file[s.fileOffset..s.fileOffset + s.fileSize] + seq(s.memorySize - s.fileSize, _ => 0)
  }

  function Place(m: Image, file: seq<u8>, s: LoadSegment): (r: Image)
    requires Placeable(m, file, s)
    ensures r.base == m.base && |r.bytes| == |m.bytes|
  {
    if s.memorySize == 0 then m else m.Patched(s.virtualAddress, SegmentBytes(file, s))
  }

  function PlaceAll(m: Image, file: seq<u8>, segments: seq<LoadSegment>): (r: Image)
    requires AllPlaceable(m, file, segments)
    ensures r.base == m.base && |r.bytes| == |m.bytes|
  {
    if segments == [] then m
    else
      var n := |segments| - 1;
      Place(PlaceAll(m, file, segments[..n]), file, segments[n])
  }

  /** What the segments declare for one of their addresses. */
  predicate Declares(file: seq<u8>, s: LoadSegment, address: int, byte: u8)
    requires s.fileOffset + s.fileSize <= |file|
  {
    s.Covers(address)
    && byte == if address - s.virtualAddress < s.fileSize then file[s.fileOffset + (address - s.virtualAddress)] else 0
  }

  /** Every covered byte is the declared one; every other byte is as before. */
  ghost predicate HoldsImage(file: seq<u8>, segments: seq<LoadSegment>, before: Image, after: Image) {
    && after.base == before.base && |after.bytes| == |before.bytes|
    && AllPlaceable(before, file, segments)
    && (forall i, a: int | 0 <= i < |segments| && segments[i].Covers(a) ::
          Declares(file, segments[i], a, after.ByteAt(a)))
    && (forall a: int | before.Maps(a, 1) && Uncovered(segments, a) :: after.ByteAt(a) == before.ByteAt(a))
  }

  ghost predicate Uncovered(segments: seq<LoadSegment>, address: int) {
    forall s | s in segments :: !s.Covers(address)
  }

  lemma {:induction false} PlaceBytes(m: Image, file: seq<u8>, s: LoadSegment, a: int)
    requires Placeable(m, file, s) && m.Maps(a, 1)
    ensures if s.Covers(a) then Declares(file, s, a, Place(m, file, s).ByteAt(a))
            else Place(m, file, s).ByteAt(a) == m.ByteAt(a)
  {
  }

  /** Writing pairwise disjoint segments one after another, in any file, leaves
      exactly the declared image. */
  lemma {:induction false} PlacedImage(m: Image, file: seq<u8>, segments: seq<LoadSegment>)
    requires AllPlaceable(m, file, segments) && PairwiseDisjoint(segments)
    ensures HoldsImage(file, segments, m, PlaceAll(m, file, segments))
  {
    if segments != [] {
      var n := |segments| - 1;
      var earlier, s := segments[..n], segments[n];
      assert segments == earlier + [s];
      PlacedImage(m, file, earlier);
      var mid, after := PlaceAll(m, file, earlier), PlaceAll(m, file, segments);
      hide Place, PlaceAll;
      assert after == Place(mid, file, s) by { PlaceAllUnfolds(m, file, segments); }
      forall i, a: int | 0 <= i < |segments| && segments[i].Covers(a)
        ensures Declares(file, segments[i], a, after.ByteAt(a))
      {
        PlaceBytes(mid, file, s, a);
        if i < n {
          assert Disjoint(segments[i], segments[n]);
          assert Declares(file, earlier[i], a, mid.ByteAt(a));
        }
      }
      forall a: int | m.Maps(a, 1) && Uncovered(segments, a) ensures after.ByteAt(a) == m.ByteAt(a) {
        PlaceBytes(mid, file, s, a);
        assert Uncovered(earlier, a);
      }
    }
  }

  lemma {:induction false} PlaceAllUnfolds(m: Image, file: seq<u8>, segments: seq<LoadSegment>)
    requires segments != [] && AllPlaceable(m, file, segments)
    ensures PlaceAll(m, file, segments)
            == Place(PlaceAll(m, file, segments[..|segments| - 1]), file, segments[|segments| - 1])
  {
  }

  // -------------------------------------------------------------- running values

  function SumFile(segments: seq<LoadSegment>): nat {
    if segments == [] then 0
    else SumFile(segments[..|segments| - 1]) + segments[|segments| - 1].fileSize
  }

  function SumMemory(segments: seq<LoadSegment>): nat {
    if segments == [] then 0
    else SumMemory(segments[..|segments| - 1]) + segments[|segments| - 1].memorySize
  }

  lemma {:induction false} SumsExtend(segments: seq<LoadSegment>, s: LoadSegment)
    ensures SumFile(segments + [s]) == SumFile(segments) + s.fileSize
    ensures SumMemory(segments + [s]) == SumMemory(segments) + s.memorySize
  {
    assert (segments + [s])[..|segments|] == segments;
  }

  /** The tightest address range holding every nonempty segment. */
  ghost predicate Hull(segments: seq<LoadSegment>, begin: int, end: int) {
    && (forall s | s in segments && s.memorySize != 0 :: begin <= s.virtualAddress && s.End() <= end)
    && (exists s :: s in segments && s.memorySize != 0 && s.virtualAddress == begin)
    && (exists s :: s in segments && s.memorySize != 0 && s.End() == end)
  }

  ghost predicate AllEmpty(segments: seq<LoadSegment>) {
    forall s | s in segments :: s.memorySize == 0
  }

  /** What the loader's three running values say about the segments so far. */
  ghost predicate Tracks(segments: seq<LoadSegment>, previous: Option<u32>, first: Option<u32>, end: Option<u64>) {
    && (previous.None? <==> segments == [])
    && (previous.Some? ==>
          (forall s | s in segments :: s.virtualAddress <= previous.value)
          && exists s :: s in segments && s.virtualAddress == previous.value)
    && (AllEmpty(segments) <==> first.None?) && (first.None? <==> end.None?)
    && (first.Some? ==> Hull(segments, first.value, end.value))
    && SumMemory(segments) <= if first.None? then 0 else end.value - first.value
  }

  /** Comparing with the running values is comparing with every earlier segment. */
  lemma {:induction false} RunningComparisons(segments: seq<LoadSegment>, previous: Option<u32>, first: Option<u32>,
                                              end: Option<u64>, address: u32)
    requires Tracks(segments, previous, first, end)
    ensures (exists t | t in segments :: t.virtualAddress > address)
            <==> previous.Some? && address < previous.value
    ensures (exists t | t in segments :: t.memorySize != 0 && t.End() > address)
            <==> end.Some? && address < end.value
  {
  }

  lemma {:induction false} TracksExtend(segments: seq<LoadSegment>, previous: Option<u32>, first: Option<u32>,
                                        end: Option<u64>, s: LoadSegment, begin: u32, newEnd: u64)
    requires Tracks(segments, previous, first, end)
    requires previous.Some? ==> s.virtualAddress >= previous.value
    requires s.memorySize != 0 && end.Some? ==> s.virtualAddress >= end.value
    requires begin == if first.None? then s.virtualAddress else first.value
    requires newEnd == s.End()
    ensures if s.memorySize == 0 then Tracks(segments + [s], Some(s.virtualAddress), first, end)
            else Tracks(segments + [s], Some(s.virtualAddress), Some(begin), Some(newEnd))
  {
    SumsExtend(segments, s);
    hide SumMemory;
    var all := segments + [s];
    assert s in all;
    assert forall t :: t in all <==> t in segments || t == s;
    if s.memorySize == 0 {
      assert AllEmpty(all) <==> AllEmpty(segments);
      assert first.Some? ==> Hull(all, first.value, end.value);
    } else {
      assert Hull(all, begin, newEnd);
    }
  }

  function CountNonempty(segments: seq<LoadSegment>): nat {
    if segments == [] then 0
    else CountNonempty(segments[..|segments| - 1]) + (if segments[|segments| - 1].memorySize != 0 then 1 else 0)
  }

  lemma {:induction false} NoneCounted(segments: seq<LoadSegment>)
    ensures CountNonempty(segments) == 0 <==> AllEmpty(segments)
  {
    if segments != [] {
      NoneCounted(segments[..|segments| - 1]);
      assert segments == segments[..|segments| - 1] + [segments[|segments| - 1]];
    }
  }

  ghost predicate Executable(segments: seq<LoadSegment>, address: int) {
    exists s :: s in segments && s.Covers(address) && s.flags % 2 == 1
  }

  predicate AnyExecutable(segments: seq<LoadSegment>, entry: u32)
    ensures AnyExecutable(segments, entry) <==> Executable(segments, entry)
  {
    if segments == [] then false
    else
      var s := segments[0];
      assert segments == [s] + segments[1..];
      (s.memorySize != 0 && MayExecute(s.flags) && entry >= s.virtualAddress && entry < s.End())
      || AnyExecutable(segments[1..], entry)
  }

  // ------------------------------------------------------------------- the outcome

  /** The failure a file is rejected with, if any. */
  ghost function Rejection(file: seq<u8>, bounds: Bounds): Option<LoadFailure> {
    hide FileDefect, Loads, DefectAt;
    if FileDefect(file).Some? then Some(LoadFailure(FileDefect(file).value, None))
    else
      var hs := Headers(file);
      var entry: int := EntryPoint(file);
      if FirstDefect(hs, 0, bounds).Some? then FirstDefect(hs, 0, bounds)
      else if AllEmpty(Loads(hs)) then Some(LoadFailure(NoLoadableSegments, None))
      else if entry % 4 != 0 then Some(LoadFailure(EntryPointMisaligned, None))
      else if !Executable(Loads(hs), entry) then Some(LoadFailure(EntryPointNotExecutable, None))
      else None
  }

  /** A file loads exactly when its headers are sound, its table is admissible,
      and its entry point is an aligned address of an executable segment. */
  lemma {:induction false} LoadableExactly(file: seq<u8>, bounds: Bounds)
    ensures Rejection(file, bounds).None? <==>
              && FileDefect(file).None?
              && Admissible(Headers(file), bounds)
              && EntryPoint(file) % 4 == 0
              && Executable(Loads(Headers(file)), EntryPoint(file))
  {
    hide FileDefect, Loads, DefectAt, FirstDefect, Admissible, EntryPoint;
    if FileDefect(file).None? {
      TableAccepted(Headers(file), bounds);
    }
  }

  /** What a successful load reports about its segments. */
  ghost predicate Reports(success: LoadSuccess, segments: seq<LoadSegment>, entry: u32) {
    && success.entryPoint == entry
    && success.loadableSegments == CountNonempty(segments)
    && success.fileBytesLoaded == SumFile(segments)
    && success.fileBytesLoaded + success.zeroFillBytes == SumMemory(segments)
       <= success.loadedAddressEndExclusive - success.loadedAddressBegin
    && Hull(segments, success.loadedAddressBegin, success.loadedAddressEndExclusive)
  }

  // ------------------------------------------------------------- the loader's loops

  /** Extending a patch by one byte. */
  lemma {:induction false} PatchMore(m: Image, address: int, data: seq<u8>, b: u8)
    requires m.Maps(address, |data| + 1)
    ensures m.Patched(address, data).Patched(address + |data|, [b]) == m.Patched(address, data + [b])
  {
    var at := address - m.base;
    assert m.Patched(address, data).bytes[at + |data| + 1..] == m.bytes[at + |data| + 1..];
  }

  lemma {:induction false} StoreByte(m: Image, address: u32, b: u8)
    requires m.Maps(address, 1)
    ensures m.Store(address, 1, b) == Done(m.Patched(address, [b]))
  {
    ToBytesOf(b);
  }

  lemma {:induction false} SegmentBytesAre(m: Image, file: seq<u8>, s: LoadSegment)
    requires Placeable(m, file, s) && s.memorySize != 0
    ensures var data := SegmentBytes(file, s);
            && data[..s.memorySize] == data && m.Patched(s.virtualAddress, data[..0]) == m
            && (forall d | 0 <= d < s.fileSize :: data[d] == file[s.fileOffset + d])
            && (forall d | s.fileSize <= d < s.memorySize :: data[d] == 0)
  {
  }

  method WriteSegment(file: seq<u8>, s: LoadSegment, memory: Memory)
    requires memory.Valid() && Placeable(memory.Contents(), file, s)
    modifies memory.bytes
    ensures memory.Contents() == Place(old(memory.Contents()), file, s)
  {
    hide SegmentBytes, Image.Patched;
    if s.memorySize == 0 {
      return;
    }
    ghost var before := memory.Contents();
    ghost var data := SegmentBytes(file, s);
    SegmentBytesAre(before, file, s);
    for offset := 0 to s.fileSize
      invariant memory.Contents() == before.Patched(s.virtualAddress, data[..offset])
    {
      WriteByte(memory, before, s.virtualAddress, data, offset, file[s.fileOffset + offset]);
    }
    for offset := s.fileSize to s.memorySize
      invariant memory.Contents() == before.Patched(s.virtualAddress, data[..offset])
    {
      WriteByte(memory, before, s.virtualAddress, data, offset, 0);
    }
  }

  /** One byte of a segment; the access is always in bounds. */
  method WriteByte(memory: Memory, ghost before: Image, address: u32, ghost data: seq<u8>, offset: nat, b: u8)
    requires memory.Valid() && before.base == memory.base && before.Maps(address, |data|) && before.Valid()
    requires offset < |data| && data[offset] == b
    requires memory.Contents() == before.Patched(address, data[..offset])
    modifies memory.bytes
    ensures memory.Contents() == before.Patched(address, data[..offset + 1])
  {
    hide Image.Patched, Image.Store;
    PatchMore(before, address, data[..offset], b);
    assert data[..offset + 1] == data[..offset] + [b];
    StoreByte(memory.Contents(), address + offset, b);
    var written := memory.Write8(address + offset, b);
    assert written.Done?;
  }

  method WriteSegments(file: seq<u8>, segments: seq<LoadSegment>, memory: Memory)
    returns (fileBytes: nat, zeroBytes: nat)
    requires memory.Valid() && AllPlaceable(memory.Contents(), file, segments)
    modifies memory.bytes
    ensures memory.Contents() == PlaceAll(old(memory.Contents()), file, segments)
    ensures fileBytes == SumFile(segments) && fileBytes + zeroBytes == SumMemory(segments)
  {
    hide Place;
    ghost var before := memory.Contents();
    fileBytes, zeroBytes := 0, 0;
    for i := 0 to |segments|
      invariant memory.Contents() == PlaceAll(before, file, segments[..i])
      invariant fileBytes == SumFile(segments[..i]) && fileBytes + zeroBytes == SumMemory(segments[..i])
    {
      var s := segments[i];
      assert segments[..i + 1] == segments[..i] + [s];
      SumsExtend(segments[..i], s);
      PlaceAllUnfolds(before, file, segments[..i + 1]);
      assert segments[..i + 1][..i] == segments[..i];
      WriteSegment(file, s, memory);
      fileBytes := fileBytes + s.fileSize;
      zeroBytes := zeroBytes + (s.memorySize - s.fileSize);
    }
    assert segments[..|segments|] == segments;
  }

  /** One header against the running values of the pass. */
  method CheckHeader(file: seq<u8>, h: ProgramHeader, memory: Memory, ghost earlier: seq<LoadSegment>,
                     previous: Option<u32>, ghost first: Option<u32>, end: Option<u64>)
    returns (code: Option<LoadError>)
    requires memory.Valid() && Tracks(earlier, previous, first, end)
    ensures code == Defect(earlier, h, Bounds(|file|, memory.base, memory.EndAddressExclusive()))
  {
    hide Tracks;
    if h.kind == 2 || h.kind == 3 {
      return Some(UnsupportedDynamicLinking);
    }
    if h.kind == 7 {
      return Some(UnsupportedThreadLocalStorage);
    }
    if h.kind != 1 {
      return None;
    }
    var s := h.segment;
    RunningComparisons(earlier, previous, first, end, s.virtualAddress);
    if previous.Some? && s.virtualAddress < previous.value {
      return Some(LoadSegmentsOutOfOrder);
    }
    if s.fileSize > s.memorySize {
      return Some(SegmentFileSizeExceedsMemorySize);
    }
    if !RangeFits(s.fileOffset, s.fileSize, |file|) {
      return Some(SegmentFileRangeOutOfBounds);
    }
    if h.alignment > 1
       && (!PowerOfTwo(h.alignment) || s.virtualAddress % h.alignment != s.fileOffset % h.alignment) {
      return Some(InvalidSegmentAlignment);
    }
    var segmentEnd := s.virtualAddress + s.memorySize;
    if segmentEnd > 0x1_0000_0000 {
      return Some(SegmentAddressRangeOverflow);
    }
    if s.memorySize != 0 {
      if s.virtualAddress < memory.base || segmentEnd > memory.EndAddressExclusive() {
        return Some(SegmentOutsideMemory);
      }
      if end.Some? && s.virtualAddress < end.value {
        return Some(OverlappingLoadSegments);
      }
    }
    code := None;
  }

  method CheckTable(file: seq<u8>, memory: Memory)
    returns (failure: Option<LoadFailure>, segments: seq<LoadSegment>, first: Option<u32>, end: Option<u64>)
    requires memory.Valid() && FileDefect(file).None?
    ensures failure == FirstDefect(Headers(file), 0, Bounds(|file|, memory.base, memory.EndAddressExclusive()))
    ensures failure.None? ==> segments == Loads(Headers(file))
    ensures failure.None? ==> exists previous :: Tracks(segments, previous, first, end)
  {
    hide FileDefect, HeaderAt, Tracks, Defect;
    ghost var bounds := Bounds(|file|, memory.base, memory.EndAddressExclusive());
    ghost var hs := Headers(file);
    segments, first, end := [], None, None;
    var previous: Option<u32> := None;
    assert Tracks([], None, None, None) by { NothingTracked(); }
    for index := 0 to HeaderCount(file)
      invariant segments == Loads(hs[..index])
      invariant Tracks(segments, previous, first, end)
      invariant FirstDefect(hs, index, bounds) == FirstDefect(hs, 0, bounds)
    {
      var h := HeaderAt(file, index);
      var code := CheckHeader(file, h, memory, segments, previous, first, end);
      LoadsExtend(hs, index);
      if code.Some? {
        failure := Some(LoadFailure(code.value, Some(index)));
        return;
      }
      if h.kind == 1 {
        var s := h.segment;
        CleanSegment(segments, h, bounds, previous, first, end);
        TracksExtend(segments, previous, first, end, s, if first.None? then s.virtualAddress else first.value, s.End());
        previous := Some(s.virtualAddress);
        if s.memorySize != 0 {
          if first.None? {
            first := Some(s.virtualAddress);
          }
          end := Some(s.End());
        }
        segments := segments + [s];
      }
    }
    assert hs[..|hs|] == hs;
    failure := None;
  }

  lemma {:induction false} NothingTracked()
    ensures Tracks([], None, None, None)
  {
  }

  lemma {:induction false} CleanSegment(earlier: seq<LoadSegment>, h: ProgramHeader, bounds: Bounds,
                                        previous: Option<u32>, first: Option<u32>, end: Option<u64>)
    requires Tracks(earlier, previous, first, end)
    requires h.kind == 1 && Defect(earlier, h, bounds).None?
    ensures previous.Some? ==> h.segment.virtualAddress >= previous.value
    ensures h.segment.memorySize != 0 && end.Some? ==> h.segment.virtualAddress >= end.value
    ensures h.segment.End() <= 0x1_0000_0000
  {
    hide Tracks;
    RunningComparisons(earlier, previous, first, end, h.segment.virtualAddress);
  }

  lemma {:induction false} AdmissiblePlaceable(file: seq<u8>, hs: seq<ProgramHeader>, bounds: Bounds, m: Image)
    requires Admissible(hs, bounds) && bounds == Bounds(|file|, m.base, m.End())
    ensures AllPlaceable(m, file, Loads(hs)) && PairwiseDisjoint(Loads(hs))
  {
    if hs != [] {
      var k := |hs| - 1;
      assert hs[..k + 1] == hs;
      AdmissibleShrinks(hs, k, bounds);
      AdmissiblePlaceable(file, hs[..k], bounds, m);
      LoadsExtend(hs, k);
    }
  }

  /** Loading a file: either nothing changes and the rejection is reported, or
      memory holds exactly the declared image, the entry point is the PC, and the
      reported totals and envelope are those of the segments. */
  method LoadElf32(file: seq<u8>, state: Cpu.CpuState, memory: Memory) returns (r: LoadResult)
    requires memory.Valid()
    modifies memory.bytes, state`programCounter
    ensures var bounds := Bounds(|file|, memory.base, memory.EndAddressExclusive());
            match r
            case NotLoaded(failure) =>
              && Rejection(file, bounds) == Some(failure)
              && memory.Contents() == old(memory.Contents())
              && state.programCounter == old(state.programCounter)
            case Loaded(success) =>
              && Rejection(file, bounds).None?
              && var segments := Loads(Headers(file));
              && Reports(success, segments, EntryPoint(file))
              && HoldsImage(file, segments, old(memory.Contents()), memory.Contents())
              && state.programCounter == EntryPoint(file)
              && |file| >= 52 && success.entryPoint == state.programCounter == LittleEndian(file[24..28])
  {
    hide FileDefect, HeaderAt, Tracks, FirstDefect, DefectAt, Admissible, HoldsImage, Hull;
    var defect := FileDefect(file);
    if defect.Some? {
      return NotLoaded(LoadFailure(defect.value, None));
    }
    ghost var bounds := Bounds(|file|, memory.base, memory.EndAddressExclusive());
    var failure, segments, first, end := CheckTable(file, memory);
    if failure.Some? {
      return NotLoaded(failure.value);
    }
    var nonempty := CountNonempty(segments);
    NoneCounted(segments);
    if nonempty == 0 {
      return NotLoaded(LoadFailure(NoLoadableSegments, None));
    }
    var entry := EntryPoint(file);
    if !WordAligned(entry) {
      return NotLoaded(LoadFailure(EntryPointMisaligned, None));
    }
    if !AnyExecutable(segments, entry) {
      return NotLoaded(LoadFailure(EntryPointNotExecutable, None));
    }
    TableAccepted(Headers(file), bounds);
    AdmissiblePlaceable(file, Headers(file), bounds, memory.Contents());
    PlacedImage(memory.Contents(), file, segments);
    Envelope(segments, first, end);
    var fileBytes, zeroBytes := WriteSegments(file, segments, memory);
    EntryIs(file);
    state.SetProgramCounter(entry);
    r := Loaded(LoadSuccess(entry, nonempty, fileBytes, zeroBytes, first.value, end.value));
  }

  lemma {:induction false} EntryIs(file: seq<u8>)
    requires FileDefect(file).None?
    ensures |file| >= 52 && EntryPoint(file) == LittleEndian(file[24..28])
  {
    hide LittleEndian, ReadU16;
  }

  lemma {:induction false} Envelope(segments: seq<LoadSegment>, first: Option<u32>, end: Option<u64>)
    requires exists previous :: Tracks(segments, previous, first, end)
    requires !AllEmpty(segments)
    ensures first.Some? && end.Some? && Hull(segments, first.value, end.value)
    ensures SumMemory(segments) <= end.value - first.value
  {
  }
}
