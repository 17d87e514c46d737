/** The MemoryStride guest (benchmarks/benchmark_workload.cpp): a loop that walks
    one kibibyte of words and increments each, proved for every run length. */
module Stride {
  import opened Options
  import opened Words
  import Counting
  import opened GuestMemory
  import Cpu
  import opened Engine
  import opened Recency
  import opened CacheModel
  import opened BranchPrediction
  import Instructions
  import Encoding
  import opened Programs
  import Isa

  function StrideRegisters(): seq<u32> {
    ZeroRegisters()[1 := DATA_BASE][2 := DATA_BASE + 1024]
  }

  // ------------------------------------------------------------- where the guest is

  /** k store iterations begun before the current one, and the instruction index. */
  datatype Spot = Spot(k: nat, phase: nat)

  function Advance(s: Spot): Spot {
    if s.phase < 4 then Spot(s.k, s.phase + 1)
    else if s.phase == 4 then (if s.k % 256 < 255 then Spot(s.k + 1, 0) else Spot(s.k, 5))
    else if s.phase == 5 then Spot(s.k, 6)
    else Spot(s.k + 1, 0)
  }

  function SpotAt(n: nat): Spot {
    if n == 0 then Spot(0, 0) else Advance(SpotAt(n - 1))
  }

  /** Stores completed at a spot. */
  function Stores(s: Spot): nat {
    if s.phase >= 3 then s.k + 1 else s.k
  }

  /** How many of the first t iterations fell on word i. */
  function Visits(t: nat, i: nat): nat {
    if t == 0 then 0 else Visits(t - 1, i) + (if (t - 1) % 256 == i then 1 else 0)
  }

  function WordAddress(i: nat): nat {
    DATA_BASE + 4 * i
  }

  /** Every word of the range holds its visit count. */
  ghost predicate Counted(memory: Image, t: nat) {
    forall i | 0 <= i < 256 :: memory.Load(WordAddress(i), 4) == Done(Wrap(Visits(t, i)))
  }

  /** Nothing outside the range has changed. */
  ghost predicate RestKept(memory: Image, original: Image) {
    && memory.base == original.base && |memory.bytes| == |original.bytes|
    && forall a: int | original.Maps(a, 1) && !(DATA_BASE <= a < DATA_BASE + 1024) ::
         memory.ByteAt(a) == original.ByteAt(a)
  }

  /** The registers the loop depends on. */
  predicate Holding(regs: seq<u32>, s: Spot)
    requires Cpu.RegistersValid(regs)
  {
    var here := WordAddress(s.k % 256);
    && regs[2] == DATA_BASE + 1024
    && regs[1] == (if s.phase <= 3 then here else if s.phase <= 5 then here + 4 else DATA_BASE)
    && (s.phase == 1 ==> regs[3] == Wrap(Visits(s.k, s.k % 256)))
    && (s.phase == 2 ==> regs[3] == Wrap(Visits(s.k, s.k % 256) + 1))
  }

  ghost predicate At(m: Machine, original: Image, s: Spot) {
    && m.Valid() && s.phase < 7 && (s.phase >= 5 ==> s.k % 256 == 255)
    && ProgramLoaded(m.memory, MEMORY_STRIDE) && RestKept(m.memory, original) && Counted(m.memory, Stores(s))
    && m.pc == MEMORY_BASE + 4 * s.phase && Holding(m.regs, s)
  }

  // -------------------------------------------------------------------- one step

  lemma {:induction false} ProgramDenotes()
    ensures |MEMORY_STRIDE| == 7
    ensures Isa.Decode(MEMORY_STRIDE[0]) == Isa.LoadFrom(4, true, 3, 1, 0)
    ensures Isa.Decode(MEMORY_STRIDE[1]) == Isa.OpImm(Isa.Add, 3, 3, 1)
    ensures Isa.Decode(MEMORY_STRIDE[2]) == Isa.StoreTo(4, 1, 3, 0)
    ensures Isa.Decode(MEMORY_STRIDE[3]) == Isa.OpImm(Isa.Add, 1, 1, 4)
    ensures Isa.Decode(MEMORY_STRIDE[4]) == Isa.BranchIf(Isa.Ltu, 1, 2, -16)
    ensures var lui := Isa.Decode(MEMORY_STRIDE[5]); lui.LoadUpper? && lui.rd == 1 && Wrap(lui.imm) == DATA_BASE
    ensures Isa.Decode(MEMORY_STRIDE[6]) == Isa.Jump(0, -24)
  {
    hide Isa.Decode, Encoding.EncodeLoadWord, Encoding.EncodeImmediateOperation, Encoding.EncodeStoreWord;
    hide Encoding.EncodeBranch, Encoding.EncodeLui, Encoding.EncodeJump;
    LoadWordDenotes(3, 1, 0);
    ImmediateOperationDenotes(3, 0, 3, 1);
    StoreWordDenotes(1, 3, 0);
    ImmediateOperationDenotes(1, 0, 1, 4);
    BranchDenotes(6, 1, 2, -16, Isa.Ltu);
    LuiDenotes(1, DATA_BASE);
    JumpDenotes(-24);
  }

  /** What the guest does at a spot, in the ISA's terms. */
  lemma {:induction false} Executes(m: Machine, original: Image, s: Spot)
    requires At(m, original, s)
    ensures |MEMORY_STRIDE| == 7
    ensures Isa.Step(m) == Isa.Execute(Isa.Decode(MEMORY_STRIDE[s.phase]), MEMORY_STRIDE[s.phase], m)
  {
    hide Isa.Step, Isa.Decode, Isa.Execute, MEMORY_STRIDE;
    ProgramDenotes();
    ProgramStep(m, MEMORY_STRIDE, s.phase);
  }

  /** The loads and stores of the loop all go to the current word. */
  function Touches(s: Spot): Option<Isa.DataMemoryAccess> {
    if s.phase == 0 then Some(Isa.DataMemoryAccess(Isa.LoadAccess, WordAddress(s.k % 256), 4))
    else if s.phase == 2 then Some(Isa.DataMemoryAccess(Isa.StoreAccess, WordAddress(s.k % 256), 4))
    else None
  }

  /** The control flow a spot's instruction reports. */
  function Flow(s: Spot): Option<Isa.ControlFlow> {
    if s.phase == 4 then Some(Isa.ControlFlow(Isa.ConditionalBranch, s.k % 256 < 255))
    else if s.phase == 6 then Some(Isa.ControlFlow(Isa.DirectJump, true))
    else None
  }

  /** A retired step that leads to the next spot. */
  ghost predicate Proceeds(m: Machine, original: Image, s: Spot) {
    && m.Valid() && Isa.Step(m).Retired?
    && Isa.Step(m).data == Touches(s) && Isa.Step(m).flow == Flow(s)
    && At(Isa.Step(m).next, original, Advance(s))
  }

  lemma {:induction false} LoadPhase(m: Machine, original: Image, s: Spot)
    requires At(m, original, s) && s.phase == 0
    ensures Proceeds(m, original, s)
  {
    hide Isa.Decode, MEMORY_STRIDE, Image.Load, Isa.Step, RestKept, ProgramLoaded, Visits, Instructions.SignedField;
    ProgramDenotes();
    Executes(m, original, s);
    WholeWord(m.memory, WordAddress(s.k % 256));
    assert m.memory.Load(WordAddress(s.k % 256), 4) == Done(Wrap(Visits(s.k, s.k % 256)));
  }

  lemma {:induction false} IncrementPhase(m: Machine, original: Image, s: Spot)
    requires At(m, original, s) && s.phase == 1
    ensures Proceeds(m, original, s)
  {
    hide Isa.Decode, MEMORY_STRIDE, Image.Load, Isa.Step, RestKept, ProgramLoaded, Visits, Counted;
    ProgramDenotes();
    Executes(m, original, s);
  }

  lemma {:induction false} StorePhase(m: Machine, original: Image, s: Spot)
    requires At(m, original, s) && s.phase == 2
    ensures Proceeds(m, original, s)
  {
    hide Isa.Decode, MEMORY_STRIDE, Image.Load, Image.Store, Isa.Step, RestKept, ProgramLoaded, Visits, Counted;
    ProgramDenotes();
    Executes(m, original, s);
    StoreCounts(m.memory, original, s.k);
  }

  lemma {:induction false} WordMapped(m: Image, i: nat)
    requires m.base == MEMORY_BASE && |m.bytes| == MEMORY_SIZE && i < 256
    ensures forall value: u32 :: m.Store(WordAddress(i), 4, value).Done?
  {
  }

  lemma {:induction false} StoreKeepsRest(m: Image, original: Image, i: nat, value: u32)
    requires RestKept(m, original) && i < 256 && m.Store(WordAddress(i), 4, value).Done?
    ensures RestKept(m.Store(WordAddress(i), 4, value).value, original)
  {
    hide Pow2, ToBytes, Image.Load, Image.Store;
    StoreThenLoad(m, WordAddress(i), 4, value);
  }

  lemma {:induction false} StoreKeepsCounts(m: Image, k: nat, value: u32)
    requires Counted(m, k) && value == Wrap(Visits(k, k % 256) + 1) && m.Store(WordAddress(k % 256), 4, value).Done?
    ensures Counted(m.Store(WordAddress(k % 256), 4, value).value, k + 1)
  {
    hide Pow2, ToBytes, Image.Load, Image.Store, Counted;
    var address := WordAddress(k % 256);
    var stored := m.Store(address, 4, value).value;
    forall i | 0 <= i < 256 ensures stored.Load(WordAddress(i), 4) == Done(Wrap(Visits(k + 1, i))) {
      CountedAt(m, k, i);
      if i == k % 256 {
        StoreThenLoad(m, address, 4, value);
        Pow2Values();
        VisitedAgain(k, i);
      } else {
        StoreKeepsDisjointLoads(m, address, 4, value, WordAddress(i), 4);
      }
    }
    CountedIntro(stored, k + 1);
  }

  lemma {:induction false} VisitedAgain(k: nat, i: nat)
    requires i == k % 256
    ensures Wrap(Visits(k, i) + 1) % 0x1_0000_0000 == Wrap(Visits(k + 1, i))
  {
  }

  lemma {:induction false} CountedAt(m: Image, t: nat, i: nat)
    requires Counted(m, t) && i < 256
    ensures m.Load(WordAddress(i), 4) == Done(Wrap(Visits(t, i)))
  {
  }

  lemma {:induction false} CountedIntro(m: Image, t: nat)
    requires forall i | 0 <= i < 256 :: m.Load(WordAddress(i), 4) == Done(Wrap(Visits(t, i)))
    ensures Counted(m, t)
  {
  }

  lemma {:induction false} ProgramLength()
    ensures |MEMORY_STRIDE| == 7
  {
  }

  lemma {:induction false} StoreKeepsProgram(m: Image, i: nat, value: u32)
    requires ProgramLoaded(m, MEMORY_STRIDE) && i < 256 && m.Valid()
    ensures var stored := m.Store(WordAddress(i), 4, value);
            stored.Done? && stored.value.Valid() && ProgramLoaded(stored.value, MEMORY_STRIDE)
  {
    hide MEMORY_STRIDE, Image.Load, Image.Store;
    ProgramLength();
    WordMapped(m, i);
    ProgramKept(m, MEMORY_STRIDE, WordAddress(i), value);
  }

  lemma {:induction false} StoreCounts(m: Image, original: Image, k: nat)
    requires ProgramLoaded(m, MEMORY_STRIDE) && RestKept(m, original) && Counted(m, k) && m.Valid()
    ensures var stored := m.Store(WordAddress(k % 256), 4, Wrap(Visits(k, k % 256) + 1));
            && stored.Done? && stored.value.Valid()
            && ProgramLoaded(stored.value, MEMORY_STRIDE) && RestKept(stored.value, original)
            && Counted(stored.value, k + 1)
  {
    hide MEMORY_STRIDE, Image.Load, Image.Store, Counted, RestKept, Visits, ProgramLoaded;
    var value := Wrap(Visits(k, k % 256) + 1);
    StoreKeepsProgram(m, k % 256, value);
    StoreKeepsRest(m, original, k % 256, value);
    StoreKeepsCounts(m, k, value);
  }

  lemma {:induction false} MovePhase(m: Machine, original: Image, s: Spot)
    requires At(m, original, s) && s.phase == 3
    ensures Proceeds(m, original, s)
  {
    hide Isa.Decode, MEMORY_STRIDE, Image.Load, Isa.Step, RestKept, ProgramLoaded, Visits, Counted;
    ProgramDenotes();
    Executes(m, original, s);
  }

  lemma {:induction false} BranchPhase(m: Machine, original: Image, s: Spot)
    requires At(m, original, s) && s.phase == 4
    ensures Proceeds(m, original, s)
  {
    hide Isa.Decode, MEMORY_STRIDE, Image.Load, Isa.Step, RestKept, ProgramLoaded, Visits, Counted;
    ProgramDenotes();
    Executes(m, original, s);
  }

  lemma {:induction false} RewindPhase(m: Machine, original: Image, s: Spot)
    requires At(m, original, s) && (s.phase == 5 || s.phase == 6)
    ensures Proceeds(m, original, s)
  {
    hide Isa.Decode, MEMORY_STRIDE, Image.Load, Isa.Step, RestKept, ProgramLoaded, Visits, Counted;
    ProgramDenotes();
    Executes(m, original, s);
  }

  /** The guest never traps, and each step takes it to the next spot. */
  lemma {:induction false} StepProceeds(m: Machine, original: Image, s: Spot)
    requires At(m, original, s)
    ensures Proceeds(m, original, s)
  {
    hide Proceeds;
    if s.phase == 0 { LoadPhase(m, original, s); }
    else if s.phase == 1 { IncrementPhase(m, original, s); }
    else if s.phase == 2 { StorePhase(m, original, s); }
    else if s.phase == 3 { MovePhase(m, original, s); }
    else if s.phase == 4 { BranchPhase(m, original, s); }
    else { RewindPhase(m, original, s); }
  }

  // ------------------------------------------------------------------- every run

  lemma {:induction false} ZeroWord(m: Image, address: u32)
    requires address % 4 == 0 && m.Maps(address, 4)
    requires forall a: int | address <= a < address + 4 :: m.ByteAt(a) == 0
    ensures m.Load(address, 4) == Done(0)
  {
    var data := m.bytes[address - m.base..address - m.base + 4];
    assert forall j | 0 <= j < 4 :: data[j] == m.ByteAt(address + j);
    LittleEndianOf(data);
  }

  lemma {:induction false} StartsAtSpot(m: Machine)
    requires Starts(m, MEMORY_STRIDE, StrideRegisters())
    ensures At(m, m.memory, SpotAt(0))
  {
    hide MEMORY_STRIDE, Image.Load;
    ProgramLength();
    forall i | 0 <= i < 256 ensures m.memory.Load(WordAddress(i), 4) == Done(Wrap(Visits(0, i))) {
      ZeroWord(m.memory, WordAddress(i));
    }
  }

  lemma {:induction false} NextOf(m: Machine, original: Image, s: Spot)
    requires At(m, original, s)
    ensures Isa.Step(m).Retired? && Isa.Step(m).data == Touches(s) && Isa.Step(m).flow == Flow(s)
    ensures At(Next(m), original, Advance(s))
  {
    hide Isa.Step, At;
    StepProceeds(m, original, s);
  }

  /** The guest never traps, whatever the instruction limit, and after n
      instructions it stands at the n-th spot. */
  lemma {:induction false} RunsForever(m: Machine, n: nat)
    requires Starts(m, MEMORY_STRIDE, StrideRegisters())
    ensures At(After(m, n), m.memory, SpotAt(n)) && Retires(m, n)
  {
    hide Isa.Step, At, Next, After, MEMORY_STRIDE, StrideRegisters, Advance;
    AfterUnfolds(m, n);
    if n == 0 {
      StartsAtSpot(m);
    } else {
      RunsForever(m, n - 1);
      NextOf(After(m, n - 1), m.memory, SpotAt(n - 1));
    }
  }

  lemma {:induction false} IterationSpots(n: nat, k: nat)
    requires SpotAt(n) == Spot(k, 0)
    ensures SpotAt(n + 1) == Spot(k, 1) && SpotAt(n + 2) == Spot(k, 2) && SpotAt(n + 3) == Spot(k, 3)
    ensures SpotAt(n + 4) == Spot(k, 4)
    ensures SpotAt(n + 5) == if k % 256 < 255 then Spot(k + 1, 0) else Spot(k, 5)
    ensures k % 256 == 255 ==> SpotAt(n + 6) == Spot(k, 6) && SpotAt(n + 7) == Spot(k + 1, 0)
  {
  }

  lemma {:induction false} WithinPass(p: nat, j: nat)
    requires j < 256
    ensures SpotAt(1282 * p + 5 * j) == Spot(256 * p + j, 0)
    decreases p, j
  {
    hide SpotAt;
    if j > 0 {
      WithinPass(p, j - 1);
      IterationSpots(1282 * p + 5 * (j - 1), 256 * p + j - 1);
    } else if p > 0 {
      WithinPass(p - 1, 255);
      IterationSpots(1282 * (p - 1) + 5 * 255, 256 * (p - 1) + 255);
    } else {
      assert SpotAt(0) == Spot(0, 0) by { FirstSpot(); }
    }
  }

  lemma {:induction false} FirstSpot()
    ensures SpotAt(0) == Spot(0, 0)
  {
  }

  /** Word i is visited once a pass, and the current pass has reached t mod 256. */
  lemma {:induction false} VisitsAre(t: nat, i: nat)
    requires i < 256
    ensures Visits(t, i) == t / 256 + (if i < t % 256 then 1 else 0)
  {
    if t > 0 {
      VisitsAre(t - 1, i);
      var q, r := (t - 1) / 256, (t - 1) % 256;
      assert t == 256 * q + r + 1;
      if r == 255 {
        DivModUnique(t, 256, q + 1, 0);
      } else {
        DivModUnique(t, 256, q, r + 1);
      }
    }
  }

  /** The result of any run: the number of completed iterations decides every word
      of the range, and nothing else in memory has changed. */
  lemma {:induction false} StrideResult(m: Machine, n: nat)
    requires Starts(m, MEMORY_STRIDE, StrideRegisters())
    ensures Retires(m, n) && RestKept(After(m, n).memory, m.memory)
    ensures var t := Stores(SpotAt(n));
            forall i | 0 <= i < 256 ::
              After(m, n).memory.Load(WordAddress(i), 4)
              == Done(Wrap(t / 256 + (if i < t % 256 then 1 else 0)))
  {
    hide Retires, RestKept, Image.Load, Visits, MEMORY_STRIDE, StrideRegisters, After, SpotAt, Counted, ProgramLoaded;
    hide Holding;
    RunsForever(m, n);
    var t := Stores(SpotAt(n));
    forall i | 0 <= i < 256
      ensures After(m, n).memory.Load(WordAddress(i), 4) == Done(Wrap(t / 256 + (if i < t % 256 then 1 else 0)))
    {
      VisitsAre(t, i);
      CountedAt(After(m, n).memory, t, i);
    }
  }

  /** After p whole passes of 1282 instructions every word of the range is p. */
  lemma {:induction false} WholePasses(m: Machine, p: nat)
    requires Starts(m, MEMORY_STRIDE, StrideRegisters())
    ensures forall i | 0 <= i < 256 :: After(m, 1282 * p).memory.Load(WordAddress(i), 4) == Done(Wrap(p))
  {
    hide Retires, RestKept, Image.Load, MEMORY_STRIDE, SpotAt, After;
    StrideResult(m, 1282 * p);
    WithinPass(p, 0);
    DivModUnique(256 * p, 256, p, 0);
  }

  // ------------------------------------------------------------------ cache misses

  /** Word loads performed at a spot. */
  function Loads(s: Spot): nat {
    if s.phase >= 1 then s.k + 1 else s.k
  }

  /** The data lines b word loads have touched: one per sixteen words, of sixteen. */
  function Lines(b: nat): nat {
    if (b + 15) / 16 <= 16 then (b + 15) / 16 else 16
  }

  /** Every fetch is from one 64-byte line, and the data accesses are exactly to
      the lines of the loads so far. */
  ghost predicate Touched(trace: seq<ExecutionObservation>, lines: nat) {
    && (forall b :: b in FetchBlocks(trace, 64) ==> b == 0x40)
    && (forall b :: b in DataBlocks(trace, 64) <==> 0x80 <= b < 0x80 + lines)
  }

  lemma {:induction false} CurrentLine(k: nat)
    ensures WordAddress(k % 256) / 64 == 0x80 + k % 256 / 16
    ensures Lines(k + 1) == if k % 256 / 16 < Lines(k) then Lines(k) else Lines(k) + 1
    ensures k % 256 / 16 <= Lines(k) && k % 256 / 16 < Lines(k + 1)
  {
    if k < 256 {
      ModSmall(k, 256);
      var q, r := k / 16, k % 16;
      assert k == 16 * q + r;
      DivModUnique(k + 16, 16, q + 1, r);
      DivModUnique(k + 15, 16, if r == 0 then q else q + 1, if r == 0 then 15 else r - 1);
    }
  }

  lemma {:induction false} TouchedGrows(trace: seq<ExecutionObservation>, o: ExecutionObservation, s: Spot)
    requires s.phase < 7 && Touched(trace, Lines(Loads(s)))
    requires o.programCounter == MEMORY_BASE + 4 * s.phase && o.dataMemoryAccess == Touches(s)
    ensures Touched(trace + [o], Lines(Loads(Advance(s))))
  {
    hide Lines;
    assert (trace + [o])[..|trace|] == trace;
    CurrentLine(s.k);
    var line := 0x80 + s.k % 256 / 16;
    var before, after := DataBlocks(trace, 64), DataBlocks(trace + [o], 64);
    assert after == if Touches(s).None? then before else before + [line];
    assert FetchBlocks(trace + [o], 64) == FetchBlocks(trace, 64) + [0x40] by { FetchLine(s.phase); }
    hide FetchBlocks, DataBlocks;
    assert forall b :: b in before + [line] <==> b in before || b == line;
  }

  lemma {:induction false} FetchLine(phase: nat)
    requires phase < 7
    ensures (MEMORY_BASE + 4 * phase) / 64 == 0x40
  {
  }

  lemma {:induction false} NothingTouched()
    ensures Touched([], Lines(0))
  {
  }

  /** Where the guest fetches from, what it touches and where it goes at a spot. */
  lemma {:induction false} ReportAt(m: Machine, original: Image, s: Spot)
    requires At(m, original, s)
    ensures Report(m).Completed?
    ensures var o := Report(m).observation;
            && o.programCounter == MEMORY_BASE + 4 * s.phase
            && o.dataMemoryAccess == Touches(s) && o.controlFlow == Flow(s)
  {
    hide Isa.Step, MEMORY_STRIDE, Next, Counted, RestKept, ProgramLoaded;
    NextOf(m, original, s);
  }

  lemma {:induction false} StrideBlocks(m: Machine, n: nat)
    requires Starts(m, MEMORY_STRIDE, StrideRegisters())
    ensures |Observations(m, n)| == n && Touched(Observations(m, n), Lines(Loads(SpotAt(n))))
  {
    hide Isa.Step, MEMORY_STRIDE, Touched, After, Next, StrideRegisters, Report, Advance, Lines, ProgramLoaded;
    if n == 0 {
      NothingTouched();
    } else {
      StrideBlocks(m, n - 1);
      RunsForever(m, n - 1);
      ReportAt(After(m, n - 1), m.memory, SpotAt(n - 1));
      TouchedGrows(Observations(m, n - 1), Report(After(m, n - 1)).observation, SpotAt(n - 1));
    }
  }

  /** With the benchmark's 4 KiB two-way caches, a run that fetched anything missed
      the instruction cache exactly once, and the data cache once per line its
      loads have reached. */
  lemma {:induction false} StrideMisses(m: Machine, n: nat)
    requires Starts(m, MEMORY_STRIDE, StrideRegisters())
    ensures Misses(FetchBlocks(Observations(m, n), 64), 32, 2) == if n == 0 then 0 else 1
    ensures Misses(DataBlocks(Observations(m, n), 64), 32, 2) == Lines(Loads(SpotAt(n)))
  {
    hide Observations, FetchBlocks, DataBlocks, MEMORY_STRIDE, StrideRegisters, SpotAt;
    StrideBlocks(m, n);
    OneBlockMisses(FetchBlocks(Observations(m, n), 64), 0x40, 32, 2);
    LineMisses(DataBlocks(Observations(m, n), 64), Lines(Loads(SpotAt(n))));
  }

  lemma {:induction false} LineMisses(h: seq<Block>, lines: nat)
    requires lines <= 16 && forall b :: b in h <==> 0x80 <= b < 0x80 + lines
    ensures Misses(h, 32, 2) == lines
  {
    hide Misses;
    forall s | 0 <= s < 32 ensures |Elements(InSet(h, s, 32))| <= 2 {
      InSetMembers(h, s, 32);
      SmallSet(Elements(InSet(h, s, 32)), 0x80 + s);
    }
    OnlyCompulsoryMisses(h, 32, 2);
    Counting.Interval(Elements(h), 0x80, lines);
  }

  // ---------------------------------------------------------------- mispredictions

  /** The counter of the loop branch (slot 4). */
  function Looping(s: Spot): u8 {
    if s.phase > 4 then 2
    else if s.k < 2 then s.k + 1
    else if s.k % 256 == 0 then 2 else 3
  }

  /** Mispredictions so far at a spot: the first branch, and every pass's last. */
  function Wrong(s: Spot): nat {
    if s.phase > 4 then s.k / 256 + 2 else s.k / 256 + (if s.k > 0 then 1 else 0)
  }

  ghost predicate Tallied(b: seq<BranchOutcome>, s: Spot) {
    Counter(Own(b, 4, 256), 1) == Looping(s) && Incorrect(PREDICTOR, b) == Wrong(s)
  }

  lemma {:induction false} NextIteration(k: nat)
    ensures if k % 256 < 255 then (k + 1) / 256 == k / 256 && (k + 1) % 256 == k % 256 + 1
            else (k + 1) / 256 == k / 256 + 1 && (k + 1) % 256 == 0
  {
    var q, v := k / 256, k % 256;
    assert k == 256 * q + v;
    if v < 255 {
      DivModUnique(k + 1, 256, q, v + 1);
    } else {
      DivModUnique(k + 1, 256, q + 1, 0);
    }
  }

  lemma {:induction false} TallyGrows(trace: seq<ExecutionObservation>, o: ExecutionObservation, s: Spot)
    requires Tallied(Branches(trace), s) && s.phase < 7 && (s.phase >= 5 ==> s.k % 256 == 255)
    requires o.programCounter == MEMORY_BASE + 4 * s.phase && o.controlFlow == Flow(s)
    ensures Tallied(Branches(trace + [o]), Advance(s))
  {
    hide Counter, Own, Incorrect, SlotOf, Branches;
    BranchesGrow(trace, o);
    NextIteration(s.k);
    if s.phase == 4 {
      BranchSlots();
      ResolveBranch(PREDICTOR, Branches(trace), MEMORY_BASE + 16, Flow(s).value.taken);
    }
  }

  lemma {:induction false} NothingTallied()
    ensures Tallied(Branches([]), Spot(0, 0))
  {
  }

  /** The loop branch's counter and the mispredictions after n instructions. */
  lemma {:induction false} TallyAt(m: Machine, n: nat)
    requires Starts(m, MEMORY_STRIDE, StrideRegisters())
    ensures Tallied(Branches(Observations(m, n)), SpotAt(n))
  {
    hide Isa.Step, MEMORY_STRIDE, After, Next, StrideRegisters, Report, Advance, Branches, Tallied, ProgramLoaded;
    if n == 0 {
      NothingTallied();
    } else {
      TallyAt(m, n - 1);
      RunsForever(m, n - 1);
      ReportAt(After(m, n - 1), m.memory, SpotAt(n - 1));
      TallyGrows(Observations(m, n - 1), Report(After(m, n - 1)).observation, SpotAt(n - 1));
    }
  }
}
