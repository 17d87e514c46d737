/** Freestanding stack placement (src/stack.cpp): the highest 16-byte aligned
    block below the end of memory, if it clears the loaded image. */
module StackPlacement {
  import opened Options
  import opened Words
  import GuestMemory
  import Cpu
  import opened ElfLoading

  const STACK_POINTER := 2
  const ADDRESS_SPACE := 0x1_0000_0000

  datatype StackError = InvalidOccupiedRange | InvalidStackSize | StackDoesNotFit | StackOverlapsLoadedImage

  datatype StackResult =
    | StackReady(initialStackPointer: u32, stackBottom: u64, stackTopExclusive: u64, stackSizeBytes: u64)
    | StackFailed(code: StackError)

  // ---------------------------------------------------------------- specification

  /** A 16-byte aligned block holding the request between two addresses. */
  ghost predicate StackBlock(bottom: int, size: int, requested: int, floor: int, ceiling: int) {
    bottom % 16 == 0 && size % 16 == 0 && requested <= size && floor <= bottom && bottom + size <= ceiling
  }

  ghost predicate StackFits(requested: int, floor: int, ceiling: int) {
    exists bottom: int, size: int :: StackBlock(bottom, size, requested, floor, ceiling)
  }

  // ------------------------------------------------------------- the alignment trick

  /** `value & ~15`, in 64-bit words. */
  function AlignDown(value: u64): (r: u64)
    ensures r == value - value % 16
  {
    hide BitAnd;
    Pow2Values();
    Pow2Add(32, 32);
    MaskHigh(value, 4, 64, 16, 0xFFFF_FFFF_FFFF_FFF0);
    BitAnd(value, 0xFFFF_FFFF_FFFF_FFF0)
  }

  function LowWord(value: u64): (r: u32)
    ensures r == value % 0x1_0000_0000
  {
    hide BitAnd;
    Pow2Values();
    MaskIs(value, 32, 0x1_0000_0000);
    BitAnd(value, 0xFFFF_FFFF)
  }

  /** The block tried is the best one: it fits above a floor if any block does. */
  lemma {:induction false} HighestBlock(requested: int, floor: int, ceiling: int, top: int, size: int)
    requires top == ceiling - ceiling % 16
    requires requested <= size < requested + 16 && size % 16 == 0
    ensures StackFits(requested, floor, ceiling) <==> floor <= top - size
  {
    if floor <= top - size {
      assert StackBlock(top - size, size, requested, floor, ceiling);
    }
    forall b: int, n: int | StackBlock(b, n, requested, floor, ceiling) ensures floor <= top - size {
      var i, j, k, t := b / 16, n / 16, size / 16, ceiling / 16;
      assert b == 16 * i && n == 16 * j && size == 16 * k && top == 16 * t;
    }
  }

  lemma {:induction false} NothingFits(requested: int, floor: int, ceiling: int)
    requires requested > ceiling - floor
    ensures !StackFits(requested, floor, ceiling)
  {
  }

  /** Rounding up to a multiple of 16 by adding 15 and clearing four bits. */
  lemma {:induction false} RoundedUp(requested: u64, size: u64)
    requires requested + 15 < 0x1_0000_0000_0000_0000 && size == AlignDown(requested + 15)
    ensures requested <= size < requested + 16 && size % 16 == 0
  {
    hide BitAnd;
    var x: int := requested + 15;
    assert x == 16 * (x / 16) + x % 16 && size == 16 * (x / 16);
  }

  lemma {:induction false} BlockBelow(bottom: int, size: int, requested: int, floor: int, ceiling: int)
    requires bottom == ceiling - ceiling % 16 - size && size % 16 == 0 && requested <= size && floor <= bottom
    ensures StackBlock(bottom, size, requested, floor, ceiling)
  {
    assert ceiling == 16 * (ceiling / 16) + ceiling % 16 && size == 16 * (size / 16);
    assert bottom == 16 * (ceiling / 16 - size / 16);
  }

  // ------------------------------------------------------------------- the operation

  method InitializeFreestandingStack(state: Cpu.CpuState, memory: GuestMemory.Memory, occupiedBegin: u64,
                                     occupiedEnd: u64, requestedSize: u64)
    returns (r: StackResult)
    requires state.Valid() && memory.Valid()
    modifies state.registers
    ensures state.Valid()
    ensures var base, end := memory.base, memory.EndAddressExclusive();
            match r
            case StackFailed(code) =>
              && state.Registers() == old(state.Registers())
              && code == (if !(base <= occupiedBegin <= occupiedEnd <= end) then InvalidOccupiedRange
                          else if requestedSize == 0 || requestedSize > ADDRESS_SPACE then InvalidStackSize
                          else if !StackFits(requestedSize, base, end) then StackDoesNotFit
                          else StackOverlapsLoadedImage)
              && (base <= occupiedBegin <= occupiedEnd <= end && requestedSize > 0 ==>
                    !StackFits(requestedSize, occupiedEnd, end))
            case StackReady(pointer, bottom, top, size) =>
              && base <= occupiedBegin <= occupiedEnd <= end && requestedSize > 0
              && StackBlock(bottom, size, requestedSize, occupiedEnd, end)
              && top == bottom + size && end - 16 < top && size < requestedSize + 16
              && pointer == top % 0x1_0000_0000
              && state.Registers() == Cpu.Written(old(state.Registers()), STACK_POINTER, pointer)
    ensures var base, end := memory.base, memory.EndAddressExclusive();
            var highest := end / 16 * 16 - (requestedSize + 15) / 16 * 16;
            match r
            case StackFailed(code) =>
              code == if occupiedBegin < base || occupiedBegin > occupiedEnd || occupiedEnd > end then
                        InvalidOccupiedRange
                      else if requestedSize == 0 || requestedSize > 0x1_0000_0000 then InvalidStackSize
                      else if highest < base then StackDoesNotFit
                      else StackOverlapsLoadedImage
            case StackReady(pointer, bottom, top, size) =>
              && bottom == highest >= occupiedEnd && bottom % 16 == 0 && size % 16 == 0
              && requestedSize <= size < requestedSize + 16
              && top == bottom + size && top % 16 == 0 && top <= end < top + 16
              && pointer == top % 0x1_0000_0000
              && |state.Registers()| == 32 && |old(state.Registers())| == 32 && state.Registers()[2] == pointer
              && forall i | 0 <= i < 32 && i != 2 :: state.Registers()[i] == old(state.Registers())[i]
  {
    hide StackBlock, StackFits, AlignDown, LowWord;
    var base: u64, end: u64 := memory.base, memory.EndAddressExclusive();
    if occupiedBegin < base || occupiedBegin > occupiedEnd || occupiedEnd > end {
      return StackFailed(InvalidOccupiedRange);
    }
    if requestedSize == 0 {
      return StackFailed(InvalidStackSize);
    }
    if requestedSize > ADDRESS_SPACE {
      NothingFits(requestedSize, occupiedEnd, end);
    }
    if requestedSize > ADDRESS_SPACE || requestedSize > 0xFFFF_FFFF_FFFF_FFFF - 15 {
      return StackFailed(InvalidStackSize);
    }
    var size := AlignDown(requestedSize + 15);
    var top := AlignDown(end);
    RoundedUp(requestedSize, size);
    HighestBlock(requestedSize, base, end, top, size);
    HighestBlock(requestedSize, occupiedEnd, end, top, size);
    if top < base || size > top - base {
      return StackFailed(StackDoesNotFit);
    }
    var bottom := top - size;
    if occupiedEnd > bottom {
      return StackFailed(StackOverlapsLoadedImage);
    }
    BlockBelow(bottom, size, requestedSize, occupiedEnd, end);
    var pointer := LowWord(top);
    var _ := state.WriteRegister(STACK_POINTER, pointer);
    r := StackReady(pointer, bottom, top, size);
  }

  // ------------------------------------------------------------- after a program load

  /** The envelope a load reports lies inside the mapped memory. */
  lemma {:induction false} EnvelopeInsideMemory(hs: seq<ProgramHeader>, bounds: Bounds, success: LoadSuccess,
                                                entry: u32)
    requires Admissible(hs, bounds) && Reports(success, Loads(hs), entry)
    ensures bounds.base <= success.loadedAddressBegin < success.loadedAddressEndExclusive <= bounds.end
  {
    var segments := Loads(hs);
    var s :| s in segments && s.memorySize != 0 && s.virtualAddress == success.loadedAddressBegin;
    var t :| t in segments && t.memorySize != 0 && t.End() == success.loadedAddressEndExclusive;
    LoadsAre(hs, s);
    LoadsAre(hs, t);
    hide Loads;
    var i :| 0 <= i < |hs| && hs[i].kind == 1 && hs[i].segment == s;
    var j :| 0 <= j < |hs| && hs[j].kind == 1 && hs[j].segment == t;
    assert Individually(hs[i], bounds) && Individually(hs[j], bounds);
  }

  datatype Preparation =
    | Prepared(success: LoadSuccess, stack: StackResult)
    | NotPrepared(failure: LoadFailure)

  /** Loading a program and then placing its stack, as the command line does.  The
      occupied range is always valid, and a stack never touches a loaded segment. */
  method PrepareProgram(file: seq<u8>, state: Cpu.CpuState, memory: GuestMemory.Memory, stackSize: u64)
    returns (r: Preparation)
    requires state.Valid() && memory.Valid() && state.registers as object != memory.bytes
    modifies memory.bytes, state`programCounter, state.registers
    ensures state.Valid()
    ensures var bounds := Bounds(|file|, memory.base, memory.EndAddressExclusive());
            match r
            case NotPrepared(failure) =>
              && Rejection(file, bounds) == Some(failure)
              && memory.Contents() == old(memory.Contents())
              && state.programCounter == old(state.programCounter) && state.Registers() == old(state.Registers())
            case Prepared(success, stack) =>
              && Rejection(file, bounds).None?
              && stack != StackFailed(InvalidOccupiedRange)
              && (stackSize > 0 ==>
                    (stack.StackReady? <==> StackFits(stackSize, success.loadedAddressEndExclusive, bounds.end)))
              && Reports(success, Loads(Headers(file)), EntryPoint(file))
              && (stack.StackFailed? ==> state.Registers() == old(state.Registers()))
              && |state.Registers()| == 32 && |old(state.Registers())| == 32
              && (stack.StackReady? ==>
                    && stack.initialStackPointer == state.Registers()[2]
                    && (forall i | 0 <= i < 32 && i != 2 :: state.Registers()[i] == old(state.Registers())[i])
                    && stack.stackBottom % 16 == 0 && stack.stackTopExclusive % 16 == 0
                    && stackSize <= stack.stackSizeBytes
                    && success.loadedAddressEndExclusive <= stack.stackBottom
                    && stack.stackTopExclusive <= bounds.end < stack.stackTopExclusive + 16
                    && StackBlock(stack.stackBottom, stack.stackSizeBytes, stackSize,
                                  success.loadedAddressEndExclusive, bounds.end)
                    && stack.stackTopExclusive == stack.stackBottom + stack.stackSizeBytes
                    && stack.stackSizeBytes < stackSize + 16
                    && stack.initialStackPointer == stack.stackTopExclusive % 0x1_0000_0000
                    && state.Registers()
                       == Cpu.Written(old(state.Registers()), STACK_POINTER, stack.initialStackPointer)
                    && forall s | s in Loads(Headers(file)) && s.memorySize != 0 :: s.End() <= stack.stackBottom)
              && HoldsImage(file, Loads(Headers(file)), old(memory.Contents()), memory.Contents())
              && state.programCounter == EntryPoint(file) && state.programCounter % 4 == 0
  {
    hide HoldsImage, FileDefect, Loads, FirstDefect, Admissible, StackFits, EntryPoint;
    ghost var bounds := Bounds(|file|, memory.base, memory.EndAddressExclusive());
    var loaded := LoadElf32(file, state, memory);
    if loaded.NotLoaded? {
      return NotPrepared(loaded.failure);
    }
    LoadableExactly(file, bounds);
    EnvelopeInsideMemory(Headers(file), bounds, loaded.success, EntryPoint(file));
    var stack := InitializeFreestandingStack(
      state, memory, loaded.success.loadedAddressBegin, loaded.success.loadedAddressEndExclusive, stackSize);
    if stack.StackReady? {
      FitsAbove(stack.stackBottom, stack.stackSizeBytes, stackSize, loaded.success.loadedAddressEndExclusive,
                bounds.end);
    }
    r := Prepared(loaded.success, stack);
  }

  lemma {:induction false} FitsAbove(bottom: int, size: int, requested: int, floor: int, ceiling: int)
    requires StackBlock(bottom, size, requested, floor, ceiling)
    ensures StackFits(requested, floor, ceiling)
  {
  }
}
