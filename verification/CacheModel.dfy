/** The set-associative LRU cache (src/cache_model.cpp).  Lines are shifted in
    place; the class invariant says that what they hold is the recency list of
    everything accessed so far. */
module CacheModel {
  import opened Options
  import opened Words
  import opened Recency
  import opened Engine
  import Isa

  datatype CacheConfiguration = CacheConfiguration(capacityBytes: u64, lineSizeBytes: u64, associativity: u64)

  datatype CacheConfigurationErrorCode =
    | ZeroCapacity | LineSizeTooSmall | LineSizeNotPowerOfTwo
    | ZeroAssociativity | GeometryOverflow | CapacityNotDivisible

  datatype CacheAccessResult = Hit | Miss

  datatype CacheStatistics = CacheStatistics(accesses: u64, hits: u64, misses: u64)

  datatype CacheLine = CacheLine(tag: u64, valid: bool)

  // ---------------------------------------------------------------- configuration

  predicate PowerOfTwoBits(value: u64) {
    value != 0 && BitAnd(value, value - 1) == 0
  }

  function ValidateConfiguration(c: CacheConfiguration): Option<CacheConfigurationErrorCode> {
    if c.capacityBytes == 0 then Some(ZeroCapacity)
    else if c.lineSizeBytes < 4 then Some(LineSizeTooSmall)
    else if !PowerOfTwoBits(c.lineSizeBytes) then Some(LineSizeNotPowerOfTwo)
    else if c.associativity == 0 then Some(ZeroAssociativity)
    else if c.associativity > 0xFFFF_FFFF_FFFF_FFFF / c.lineSizeBytes then Some(GeometryOverflow)
    else
      var setCapacity := c.lineSizeBytes * c.associativity;
      SetCapacityPositive(c);
      if c.capacityBytes % setCapacity != 0 then Some(CapacityNotDivisible)
      else None
  }

  lemma {:induction false} SetCapacityPositive(c: CacheConfiguration)
    requires c.lineSizeBytes > 0 && c.associativity > 0
    ensures c.lineSizeBytes * c.associativity > 0
  {
  }

  /** What the configuration has to mean, with no bit trick and no early exit. */
  ghost predicate ValidGeometry(c: CacheConfiguration) {
    && c.capacityBytes > 0
    && c.lineSizeBytes >= 4 && IsPowerOfTwo(c.lineSizeBytes)
    && c.associativity > 0
    && 0 < c.lineSizeBytes * c.associativity < 0x1_0000_0000_0000_0000
    && c.capacityBytes % (c.lineSizeBytes * c.associativity) == 0
  }

  lemma {:induction false} DivisionGuard(a: nat, b: nat, limit: nat)
    requires b > 0
    ensures a > limit / b <==> a * b > limit
  {
    var q := limit / b;
    assert limit == b * q + limit % b;
    if a > q {
      MultiplyMonotone(b, q + 1, a);
      assert b * (q + 1) == b * q + b;
    } else {
      MultiplyMonotone(b, a, q);
    }
    assert a * b == b * a;
  }

  /** Construction accepts exactly the valid geometries. */
  lemma {:induction false} ConfigurationAccepted(c: CacheConfiguration)
    ensures ValidateConfiguration(c) == None <==> ValidGeometry(c)
  {
    hide BitAnd, Pow2;
    if c.lineSizeBytes >= 4 {
      PowerOfTwoTest(c.lineSizeBytes);
      DivisionGuard(c.associativity, c.lineSizeBytes, 0xFFFF_FFFF_FFFF_FFFF);
      assert c.associativity * c.lineSizeBytes == c.lineSizeBytes * c.associativity;
      if c.associativity > 0 {
        SetCapacityPositive(c);
      }
    }
  }

  function SetCount(c: CacheConfiguration): nat
    requires ValidateConfiguration(c) == None
  {
    SetCapacityPositive(c);
    DivideNonnegative(c.capacityBytes, c.lineSizeBytes * c.associativity);
    c.capacityBytes / (c.lineSizeBytes * c.associativity)
  }

  lemma {:induction false} DivideNonnegative(a: nat, d: int)
    requires d > 0
    ensures 0 <= a / d
  {
    assert a == d * (a / d) + a % d;
    if a / d < 0 {
      MultiplyMonotone(d, a / d, -1);
    }
  }

  /** Sets times line size times ways is the capacity. */
  lemma {:induction false} SetsFillCapacity(c: CacheConfiguration)
    requires ValidateConfiguration(c) == None
    ensures c.lineSizeBytes > 0 && c.associativity > 0
    ensures SetCount(c) > 0 && SetCount(c) * (c.lineSizeBytes * c.associativity) == c.capacityBytes
  {
    Geometry(c);
    SetCapacityPositive(c);
    var size: int := c.lineSizeBytes * c.associativity;
    assert c.capacityBytes == size * SetCount(c);
  }

  lemma {:induction false} Geometry(c: CacheConfiguration)
    requires ValidateConfiguration(c) == None
    ensures SetCount(c) > 0
    ensures c.capacityBytes / c.lineSizeBytes == SetCount(c) * c.associativity
  {
    SetCapacityPositive(c);
    var w: int, l: int, n: int := c.associativity, c.lineSizeBytes, SetCount(c);
    assert c.capacityBytes == (l * w) * n;
    assert (l * w) * n == l * (n * w);
    DivModUnique(c.capacityBytes, l, n * w, 0);
  }

  // ------------------------------------------------------------------- statistics

  function Count64(x: int): u64 {
    x % 0x1_0000_0000_0000_0000
  }

  function RecordAccess(s: CacheStatistics, result: CacheAccessResult): CacheStatistics {
    if result.Hit? then s.(accesses := Count64(s.accesses + 1), hits := Count64(s.hits + 1))
    else s.(accesses := Count64(s.accesses + 1), misses := Count64(s.misses + 1))
  }

  /** The counters a history must have produced. */
  function StatisticsAfter(h: seq<Block>, sets: nat, ways: nat): CacheStatistics
    requires sets > 0
  {
    CacheStatistics(Count64(|h|), Count64(|h| - Misses(h, sets, ways)), Count64(Misses(h, sets, ways)))
  }

  lemma {:induction false} Count64Exact(x: int)
    requires 0 <= x < 0x1_0000_0000_0000_0000
    ensures Count64(x) == x
  {
  }

  lemma {:induction false} Count64Step(x: int)
    ensures Count64(Count64(x) + 1) == Count64(x + 1)
  {
  }

  lemma {:induction false} StatisticsStep(h: seq<Block>, x: Block, sets: nat, ways: nat)
    requires sets > 0
    ensures StatisticsAfter(h + [x], sets, ways)
            == RecordAccess(StatisticsAfter(h, sets, ways), if Hits(h, x, sets, ways) then Hit else Miss)
  {
    assert (h + [x])[..|h|] == h;
    Count64Step(|h|);
    Count64Step(|h| - Misses(h, sets, ways));
    Count64Step(Misses(h, sets, ways));
  }

  // ------------------------------------------------------------------ line layout

  /** Way w of a set holding `blocks`: valid lines first, in recency order. */
  function Slot(blocks: seq<Block>, w: nat, sets: nat): CacheLine
    requires sets > 0
  {
    if w < |blocks| then CacheLine(Count64(blocks[w] / sets), true) else CacheLine(0, false)
  }

  lemma {:induction false} ProductNonnegative(x: nat, y: nat)
    ensures x * y >= 0
  {
  }

  lemma {:induction false} LineInRange(s: nat, w: nat, sets: nat, ways: nat)
    requires s < sets && w < ways
    ensures 0 <= s * ways && s * ways + w < sets * ways
  {
    MultiplyMonotone(ways, s + 1, sets);
    ProductNonnegative(s, ways);
    assert ways * (s + 1) == s * ways + ways && ways * sets == sets * ways;
  }

  /** Lines of different sets never meet. */
  lemma {:induction false} SetsApart(s: nat, t: nat, ways: nat)
    requires s != t
    ensures s * ways + ways <= t * ways || t * ways + ways <= s * ways
  {
    if s < t {
      MultiplyMonotone(ways, s + 1, t);
    } else {
      MultiplyMonotone(ways, t + 1, s);
    }
  }

  lemma {:induction false} BlockFromTag(a: Block, b: Block, sets: nat)
    requires sets > 0 && a % sets == b % sets && a / sets == b / sets
    ensures a == b
  {
    assert a == sets * (a / sets) + a % sets;
  }

  lemma {:induction false} TagFits(block: nat, sets: nat)
    requires sets > 0 && block < 0x1_0000_0000
    ensures 0 <= block / sets <= block && 0 <= block % sets < sets
    ensures Count64(block / sets) == block / sets
  {
    DivideNonnegative(block, sets);
    assert block == sets * (block / sets) + block % sets;
    MultiplyMonotone(block / sets, 1, sets);
  }

  /** Way w of set s in the flat line array. */
  ghost function LineAt(view: seq<CacheLine>, s: nat, w: nat, sets: nat, ways: nat): CacheLine
    requires |view| == sets * ways && s < sets && w < ways
  {
    LineInRange(s, w, sets, ways);
    view[s * ways + w]
  }

  /** The flat line array holds these recency lists. */
  ghost predicate LaidOut(view: seq<CacheLine>, contents: seq<seq<Block>>, sets: nat, ways: nat)
    requires sets > 0 && |contents| == sets && |view| == sets * ways
  {
    forall s, w | 0 <= s < sets && 0 <= w < ways :: LineAt(view, s, w, sets, ways) == Slot(contents[s], w, sets)
  }

  lemma {:induction false} EmptyLayout(view: seq<CacheLine>, sets: nat, ways: nat)
    requires sets > 0 && |view| == sets * ways
    requires forall i | 0 <= i < |view| :: view[i] == CacheLine(0, false)
    ensures LaidOut(view, SetsAfter([], sets, ways), sets, ways)
  {
    forall s, w | 0 <= s < sets && 0 <= w < ways
      ensures LineAt(view, s, w, sets, ways) == Slot(SetsAfter([], sets, ways)[s], w, sets)
    {
      LineInRange(s, w, sets, ways);
    }
  }

  /** Searching by tag is searching by block: the way found is the block's
      position in recency order, and a miss selects the first free way if any. */
  lemma {:induction false} TagLookup(held: seq<Block>, block: nat, sets: nat, ways: nat, hit: bool, selected: nat,
                                     tag: u64, view: seq<CacheLine>)
    requires sets > 0 && |held| <= ways == |view| && Distinct(held)
    requires block < 0x1_0000_0000 && tag == block / sets
    requires forall b | b in held :: 0 <= b < 0x1_0000_0000 && b % sets == block % sets
    requires forall w | 0 <= w < ways :: view[w] == Slot(held, w, sets)
    requires hit ==> selected < ways && view[selected] == CacheLine(tag, true)
    requires !hit ==>
               (forall k | 0 <= k < ways :: view[k] != CacheLine(tag, true))
               && selected <= ways
               && (forall k | 0 <= k < selected :: view[k].valid)
               && (selected < ways ==> !view[selected].valid)
    ensures hit <==> block in held
    ensures hit ==> selected == IndexOf(held, block)
    ensures !hit ==> selected == |held|
  {
    if block in held {
      var i := IndexOf(held, block);
      TagFits(block, sets);
      assert view[i] == CacheLine(tag, true);
    }
    if hit {
      var b := held[selected];
      assert b in held;
      TagFits(b, sets);
      TagFits(block, sets);
      BlockFromTag(b, block, sets);
    } else {
      assert |held| < ways ==> !view[|held|].valid;
    }
  }

  /** The in-place shift is the recency update. */
  lemma {:induction false} TouchLayout(held: seq<Block>, block: nat, sets: nat, ways: nat, selected: nat)
    requires sets > 0 && 0 < ways && |held| <= ways && block < 0x1_0000_0000
    requires selected == if block in held then IndexOf(held, block)
                         else if |held| == ways then ways - 1 else |held|
    ensures var after := Touch(held, block, ways);
            && Slot(after, 0, sets) == CacheLine(Count64(block / sets), true)
            && (forall w | 0 < w <= selected :: Slot(after, w, sets) == Slot(held, w - 1, sets))
            && (forall w | selected < w < ways :: Slot(after, w, sets) == Slot(held, w, sets))
  {
    if block in held {
      WithoutAt(held, block);
    }
  }

  /** Shifting the touched set's lines, and no others, keeps the layout in step. */
  lemma {:induction false} ShiftLayout(before: seq<CacheLine>, after: seq<CacheLine>, contents: seq<seq<Block>>,
                                       block: nat, sets: nat, ways: nat, selected: nat)
    requires sets > 0 && ways > 0 && |contents| == sets && |before| == |after| == sets * ways
    requires LaidOut(before, contents, sets, ways) && block < 0x1_0000_0000
    requires var held := contents[block % sets];
             && |held| <= ways
             && selected == if block in held then IndexOf(held, block)
                            else if |held| == ways then ways - 1 else |held|
    requires var begin := block % sets * ways;
             && 0 <= begin && begin + ways <= |before|
             && after[begin] == CacheLine(Count64(block / sets), true)
             && (forall i | begin < i <= begin + selected :: after[i] == before[i - 1])
             && (forall i | 0 <= i < |after| && !(begin <= i <= begin + selected) :: after[i] == before[i])
    ensures LaidOut(after, contents[block % sets := Touch(contents[block % sets], block, ways)], sets, ways)
  {
    hide Touch;
    var s0 := block % sets;
    var held := contents[s0];
    var moved := contents[s0 := Touch(held, block, ways)];
    TouchLayout(held, block, sets, ways, selected);
    forall s, w | 0 <= s < sets && 0 <= w < ways ensures LineAt(after, s, w, sets, ways) == Slot(moved[s], w, sets) {
      LineInRange(s, w, sets, ways);
      assert LineAt(before, s, w, sets, ways) == Slot(contents[s], w, sets);
      if s != s0 {
        SetsApart(s, s0, ways);
      } else if w > 0 {
        assert LineAt(before, s, w - 1, sets, ways) == Slot(contents[s], w - 1, sets);
      }
    }
  }

  /** What the invariant's recency list says about the lines of one set. */
  lemma {:induction false} HeldFacts(h: seq<Block>, s: nat, sets: nat, ways: nat)
    requires sets > 0 && s < sets && forall b | b in h :: 0 <= b < 0x1_0000_0000
    ensures var held := SetsAfter(h, sets, ways)[s];
            |held| <= ways && Distinct(held) && forall b | b in held :: 0 <= b < 0x1_0000_0000 && b % sets == s
  {
    SetFacts(h, s, sets, ways);
  }

  // --------------------------------------------------------------------- the cache

  method MakeCache(configuration: CacheConfiguration)
    returns (cache: SetAssociativeCache?, error: Option<CacheConfigurationErrorCode>)
    ensures error == ValidateConfiguration(configuration)
    ensures cache == null <==> !ValidGeometry(configuration)
    ensures cache != null ==>
              cache.Valid() && fresh(cache) && fresh(cache.lines) && cache.history == []
              && cache.configuration == configuration
  {
    ConfigurationAccepted(configuration);
    error := ValidateConfiguration(configuration);
    if error.Some? {
      return null, error;
    }
    cache := new SetAssociativeCache(configuration);
  }

  class SetAssociativeCache {
    const configuration: CacheConfiguration
    const setCount: nat
    const lines: array<CacheLine>
    var statistics: CacheStatistics
    /** Every address accessed since construction or reset, and its blocks. */
    ghost var addresses: seq<u32>
    ghost var history: seq<Block>

    ghost function Contents(): (sets: seq<seq<Block>>)
      requires setCount > 0
      reads this
    {
      SetsAfter(history, setCount, configuration.associativity)
    }

    ghost predicate Shaped() {
      && ValidateConfiguration(configuration) == None
      && configuration.lineSizeBytes >= 4 && configuration.associativity > 0
      && setCount == SetCount(configuration) > 0
      && lines.Length == setCount * configuration.associativity
    }

    ghost predicate Valid()
      reads this, lines
    {
      && Shaped()
      && |history| == |addresses|
      && (forall i | 0 <= i < |addresses| :: history[i] == addresses[i] / configuration.lineSizeBytes)
      && (forall b | b in history :: 0 <= b < 0x1_0000_0000)
      && LaidOut(lines[..], Contents(), setCount, configuration.associativity)
      && statistics == StatisticsAfter(history, setCount, configuration.associativity)
    }

    constructor (configuration: CacheConfiguration)
      requires ValidateConfiguration(configuration) == None
      ensures Valid() && fresh(lines) && history == [] && addresses == [] && this.configuration == configuration
    {
      Geometry(configuration);
      this.configuration := configuration;
      setCount := SetCount(configuration);
      lines := new CacheLine[configuration.capacityBytes / configuration.lineSizeBytes](_ => CacheLine(0, false));
      statistics := CacheStatistics(0, 0, 0);
      history, addresses := [], [];
      new;
      EmptyLayout(lines[..], setCount, configuration.associativity);
    }

    /** The block an address falls in. */
    function BlockOf(address: u32): nat
      requires configuration.lineSizeBytes > 0
    {
      DivideNonnegative(address, configuration.lineSizeBytes);
      address / configuration.lineSizeBytes
    }

    /** The way holding the tag, or the first invalid way, or the associativity. */
    method FindWay(setBegin: nat, tag: u64) returns (selected: nat, hit: bool)
      requires setBegin + configuration.associativity <= lines.Length
      ensures hit ==> selected < configuration.associativity
                      && lines[setBegin + selected] == CacheLine(tag, true)
      ensures !hit ==>
                (forall i | setBegin <= i < setBegin + configuration.associativity :: lines[i] != CacheLine(tag, true))
                && selected <= configuration.associativity
                && (forall i | setBegin <= i < setBegin + selected :: lines[i].valid)
                && (selected < configuration.associativity ==> !lines[setBegin + selected].valid)
    {
      var ways := configuration.associativity;
      selected := ways;
      hit := false;
      for way := 0 to ways
        invariant forall i | setBegin <= i < setBegin + way :: lines[i] != CacheLine(tag, true)
        invariant selected == ways || selected < way
        invariant forall i | setBegin <= i < setBegin + way && i < setBegin + selected :: lines[i].valid
        invariant selected < ways ==> !lines[setBegin + selected].valid
      {
        var line := lines[setBegin + way];
        if line.valid && line.tag == tag {
          return way, true;
        }
        if !line.valid && selected == ways {
          selected := way;
        }
      }
    }

    /** Moves ways 0..selected-1 up by one and puts `front` at way 0. */
    method ShiftIn(setBegin: nat, selected: nat, front: CacheLine)
      requires setBegin + selected < lines.Length
      modifies lines
      ensures lines[setBegin] == front
      ensures forall i | setBegin < i <= setBegin + selected :: lines[i] == old(lines[i - 1])
      ensures forall i | 0 <= i < lines.Length && !(setBegin <= i <= setBegin + selected) :: lines[i] == old(lines[i])
    {
      var way := selected;
      while way > 0
        invariant 0 <= way <= selected
        invariant forall i | setBegin + way < i <= setBegin + selected :: lines[i] == old(lines[i - 1])
        invariant forall i | 0 <= i < lines.Length && !(setBegin + way < i <= setBegin + selected) ::
                    lines[i] == old(lines[i])
      {
        lines[setBegin + way] := lines[setBegin + way - 1];
        way := way - 1;
      }
      lines[setBegin] := front;
    }

    method Access(address: u32) returns (result: CacheAccessResult)
      requires Valid()
      modifies this, lines
      ensures Valid() && history == old(history) + [BlockOf(address)] && addresses == old(addresses) + [address]
      ensures result.Hit? <==> Hits(old(history), BlockOf(address), setCount, configuration.associativity)
      ensures configuration.lineSizeBytes > 0 && configuration.associativity > 0
      ensures setCount > 0
      ensures setCount * (configuration.lineSizeBytes * configuration.associativity) == configuration.capacityBytes
      ensures var line, before := configuration.lineSizeBytes, old(addresses);
              result.Hit? <==>
              exists i | 0 <= i < |before| ::
                && before[i] / line == address / line
                && |set j | i < j < |before| && before[j] / line % setCount == address / line % setCount
                            && before[j] / line != address / line :: before[j] / line| < configuration.associativity
    {
      hide ValidateConfiguration, SetCount, SetsAfter, Touch, StatisticsAfter, Slot;
      ghost var before := Contents();
      var blockNumber := BlockOf(address);
      TagFits(address, configuration.lineSizeBytes);
      TagFits(blockNumber, setCount);
      var tag: u64 := blockNumber / setCount;
      var ways := configuration.associativity;
      var setIndex := blockNumber % setCount;
      LineInRange(setIndex, ways - 1, setCount, ways);
      var setBegin := setIndex * ways;
      ghost var held := before[setIndex];
      HeldFacts(history, setIndex, setCount, ways);

      ghost var oldLines := lines[..];
      var selectedWay, hit := FindWay(setBegin, tag);
      forall w | 0 <= w < ways ensures oldLines[setBegin..setBegin + ways][w] == Slot(held, w, setCount) {
        assert LineAt(oldLines, setIndex, w, setCount, ways) == Slot(held, w, setCount);
      }
      TagLookup(held, blockNumber, setCount, ways, hit, selectedWay, tag, oldLines[setBegin..setBegin + ways]);
      if selectedWay == ways {
        selectedWay := ways - 1;
      }
      var selectedLine := if hit then lines[setBegin + selectedWay] else CacheLine(tag, true);
      ShiftIn(setBegin, selectedWay, selectedLine);
      ShiftLayout(oldLines, lines[..], before, blockNumber, setCount, ways, selectedWay);

      result := if hit then Hit else Miss;
      StatisticsStep(history, blockNumber, setCount, ways);
      SetsStep(history, blockNumber, setCount, ways);
      statistics := RecordAccess(statistics, result);
      HitsByAddress(history, addresses, address, configuration.lineSizeBytes, setCount, ways);
      SetsFillCapacity(configuration);
      history, addresses := history + [blockNumber], addresses + [address];
    }

    method Reset()
      requires Valid()
      modifies this, lines
      ensures Valid() && history == [] && addresses == []
    {
      for i := 0 to lines.Length
        invariant forall k | 0 <= k < i :: lines[k] == CacheLine(0, false)
      {
        lines[i] := CacheLine(0, false);
      }
      statistics := CacheStatistics(0, 0, 0);
      history, addresses := [], [];
      EmptyLayout(lines[..], setCount, configuration.associativity);
    }
  }

  lemma {:induction false} SetsStep(h: seq<Block>, x: Block, sets: nat, ways: nat)
    requires sets > 0
    ensures SetsAfter(h + [x], sets, ways)
            == SetsAfter(h, sets, ways)[x % sets := Touch(SetsAfter(h, sets, ways)[x % sets], x, ways)]
  {
    assert (h + [x])[..|h|] == h;
  }

  /** LRU inclusion, on the line arrays: after the same accesses, the cache with
      fewer ways holds the first lines of every set of the other, way by way, and
      (while the counters have not wrapped) has missed at least as often. */
  lemma {:induction false} CachesInclude(a: SetAssociativeCache, b: SetAssociativeCache, s: nat)
    requires a.Valid() && b.Valid() && a.history == b.history && a.setCount == b.setCount && s < a.setCount
    requires a.configuration.associativity <= b.configuration.associativity
    ensures forall w | 0 <= w < a.configuration.associativity ::
              LineAt(a.lines[..], s, w, a.setCount, a.configuration.associativity)
              == LineAt(b.lines[..], s, w, b.setCount, b.configuration.associativity)
    ensures |a.history| < 0x1_0000_0000_0000_0000 ==> a.statistics.misses >= b.statistics.misses
  {
    hide ValidateConfiguration, SetCount, Misses, SetsAfter;
    var n, small, large := a.setCount, a.configuration.associativity, b.configuration.associativity;
    Inclusion(a.history, s, n, small, large);
    MoreWaysNeverMissMore(a.history, n, small, large);
    if |a.history| < 0x1_0000_0000_0000_0000 {
      Count64Exact(Misses(a.history, n, small));
      Count64Exact(Misses(a.history, n, large));
    }
    forall w | 0 <= w < small
      ensures LineAt(a.lines[..], s, w, n, small) == LineAt(b.lines[..], s, w, n, large)
    {
      assert LineAt(a.lines[..], s, w, n, small) == Slot(a.Contents()[s], w, n);
      assert LineAt(b.lines[..], s, w, n, large) == Slot(b.Contents()[s], w, n);
    }
  }

  // -------------------------------------------------------------- the split caches

  lemma {:induction false} LineHoldsWords(line: nat)
    requires line >= 4 && IsPowerOfTwo(line)
    ensures line % 4 == 0
  {
    var n: nat :| line == Pow2(n);
    assert Pow2(1) == 2;
    if n < 2 {
      Pow2Monotone(n, 1);
    } else {
      assert Pow2(n) == 2 * Pow2(n - 1) && Pow2(n - 1) == 2 * Pow2(n - 2);
    }
  }

  lemma {:induction false} OffsetInWord(address: nat, line: nat, q: int, r: int)
    requires line > 0 && line % 4 == 0 && address == line * q + r
    ensures r % 4 == address % 4
  {
    var words := line / 4;
    assert line * q == 4 * (words * q) by {
      assert line == 4 * words;
      assert 4 * words * q == 4 * (words * q);
    }
    ModAdd(r, 4, words * q);
  }

  lemma {:induction false} WidthFits(r: nat, width: nat, line: nat)
    requires width == 1 || width == 2 || width == 4
    requires r % width == 0 && r < line && line % 4 == 0
    ensures r + width - 1 < line
  {
  }

  lemma {:induction false} AlignmentInWord(address: nat, width: nat)
    requires width == 1 || width == 2 || width == 4
    ensures address % 4 % width == address % width
  {
    if width == 2 {
      ModSplit(address, 2, 2);
      DivModUnique(address % 4, 2, address / 2 % 2, address % 2);
    }
  }

  /** One lookup per access is enough: a naturally aligned access of at most four
      bytes never straddles two lines. */
  lemma {:induction false} AccessInOneLine(address: nat, width: nat, line: nat)
    requires width == 1 || width == 2 || width == 4
    requires address % width == 0 && line >= 4 && IsPowerOfTwo(line)
    ensures (address + width - 1) / line == address / line
  {
    hide IsPowerOfTwo;
    LineHoldsWords(line);
    var q, r := address / line, address % line;
    OffsetInWord(address, line, q, r);
    AlignmentInWord(address, width);
    AlignmentInWord(r, width);
    WidthFits(r, width, line);
    DivModUnique(address + width - 1, line, q, r + width - 1);
  }

  function BlockNumber(address: u32, line: nat): Block
    requires line > 0
  {
    address / line
  }

  /** The blocks fetched by a trace of completed instructions. */
  function FetchBlocks(trace: seq<ExecutionObservation>, line: nat): (r: seq<Block>)
    requires line > 0
    ensures |r| == |trace|
  {
    if trace == [] then []
    else FetchBlocks(trace[..|trace| - 1], line) + [BlockNumber(trace[|trace| - 1].programCounter, line)]
  }

  /** The blocks its loads and stores touch. */
  function DataBlocks(trace: seq<ExecutionObservation>, line: nat): seq<Block>
    requires line > 0
  {
    if trace == [] then []
    else
      var before := DataBlocks(trace[..|trace| - 1], line);
      match trace[|trace| - 1].dataMemoryAccess
      case None => before
      case Some(access) => before + [BlockNumber(access.address, line)]
  }

  function KindAccesses(trace: seq<ExecutionObservation>, kind: Isa.DataMemoryAccessKind): nat {
    if trace == [] then 0
    else
      KindAccesses(trace[..|trace| - 1], kind)
      + (match trace[|trace| - 1].dataMemoryAccess
         case None => 0
         case Some(access) => if access.kind == kind then 1 else 0)
  }

  function KindMisses(trace: seq<ExecutionObservation>, kind: Isa.DataMemoryAccessKind,
                      line: nat, sets: nat, ways: nat): (r: nat)
    requires line > 0 && sets > 0
    ensures r <= KindAccesses(trace, kind)
  {
    if trace == [] then 0
    else
      var before := trace[..|trace| - 1];
      KindMisses(before, kind, line, sets, ways)
      + (match trace[|trace| - 1].dataMemoryAccess
         case None => 0
         case Some(access) =>
           if access.kind == kind
              && !Hits(DataBlocks(before, line), BlockNumber(access.address, line), sets, ways) then 1 else 0)
  }

  function KindStatistics(trace: seq<ExecutionObservation>, kind: Isa.DataMemoryAccessKind,
                          line: nat, sets: nat, ways: nat): CacheStatistics
    requires line > 0 && sets > 0
  {
    var accesses, misses := KindAccesses(trace, kind), KindMisses(trace, kind, line, sets, ways);
    CacheStatistics(Count64(accesses), Count64(accesses - misses), Count64(misses))
  }

  /** Loads and stores partition the data traffic: accesses and misses add up. */
  lemma {:induction false} LoadsAndStoresAddUp(trace: seq<ExecutionObservation>, line: nat, sets: nat, ways: nat)
    requires line > 0 && sets > 0
    ensures KindAccesses(trace, Isa.LoadAccess) + KindAccesses(trace, Isa.StoreAccess) == |DataBlocks(trace, line)|
    ensures KindMisses(trace, Isa.LoadAccess, line, sets, ways) + KindMisses(trace, Isa.StoreAccess, line, sets, ways)
            == Misses(DataBlocks(trace, line), sets, ways)
  {
    if trace != [] {
      var before := trace[..|trace| - 1];
      LoadsAndStoresAddUp(before, line, sets, ways);
      match trace[|trace| - 1].dataMemoryAccess {
        case None =>
        case Some(access) =>
          var blocks, x := DataBlocks(before, line), BlockNumber(access.address, line);
          assert (blocks + [x])[..|blocks|] == blocks;
      }
    }
  }

  lemma {:induction false} KindCountsStep(trace: seq<ExecutionObservation>, o: ExecutionObservation,
                                          kind: Isa.DataMemoryAccessKind, line: nat, sets: nat, ways: nat)
    requires line > 0 && sets > 0
    ensures var same := o.dataMemoryAccess.Some? && o.dataMemoryAccess.value.kind == kind;
            && KindAccesses(trace + [o], kind) == KindAccesses(trace, kind) + (if same then 1 else 0)
            && KindMisses(trace + [o], kind, line, sets, ways)
               == KindMisses(trace, kind, line, sets, ways)
                  + (if same && !Hits(DataBlocks(trace, line),
                                      BlockNumber(o.dataMemoryAccess.value.address, line), sets, ways)
                     then 1 else 0)
  {
    hide Hits, DataBlocks, BlockNumber;
    assert (trace + [o])[..|trace|] == trace;
  }

  /** Recording one more access is counting one more. */
  lemma {:induction false} RecordedCounts(accesses: nat, misses: nat, hit: bool)
    ensures CacheStatistics(Count64(accesses + 1), Count64(accesses + 1 - (if hit then misses else misses + 1)),
                            Count64(if hit then misses else misses + 1))
            == RecordAccess(CacheStatistics(Count64(accesses), Count64(accesses - misses), Count64(misses)),
                            if hit then Hit else Miss)
  {
    hide Count64;
    Count64Step(accesses);
    Count64Step(misses);
    Count64Step(accesses - misses);
  }

  lemma {:induction false} KindStatisticsStep(trace: seq<ExecutionObservation>, o: ExecutionObservation,
                                              kind: Isa.DataMemoryAccessKind, line: nat, sets: nat, ways: nat)
    requires line > 0 && sets > 0
    ensures KindStatistics(trace + [o], kind, line, sets, ways)
            == (var before := KindStatistics(trace, kind, line, sets, ways);
                match o.dataMemoryAccess
                case None => before
                case Some(access) =>
                  if access.kind != kind then before
                  else RecordAccess(before,
                                    if Hits(DataBlocks(trace, line), BlockNumber(access.address, line), sets, ways)
                                    then Hit else Miss))
  {
    hide Hits, DataBlocks, BlockNumber, KindAccesses, KindMisses, Count64, RecordAccess;
    KindCountsStep(trace, o, kind, line, sets, ways);
    if o.dataMemoryAccess.Some? {
      RecordedCounts(KindAccesses(trace, kind), KindMisses(trace, kind, line, sets, ways),
                     Hits(DataBlocks(trace, line), BlockNumber(o.dataMemoryAccess.value.address, line), sets, ways));
    }
  }

  datatype SplitCacheConfiguration = SplitCacheConfiguration(instruction: CacheConfiguration, data: CacheConfiguration)

  class SplitCacheModel {
    const instructionCache: SetAssociativeCache
    const dataCache: SetAssociativeCache
    var loadStatistics: CacheStatistics
    var storeStatistics: CacheStatistics
    /** Every observation since construction or reset. */
    ghost var trace: seq<ExecutionObservation>

    ghost function Repr(): set<object> {
      {this, instructionCache, instructionCache.lines, dataCache, dataCache.lines}
    }

    ghost predicate Separate() {
      instructionCache != dataCache && instructionCache.lines != dataCache.lines
    }

    ghost predicate Valid()
      reads Repr()
    {
      && Separate() && instructionCache.Valid() && dataCache.Valid()
      && instructionCache.history == FetchBlocks(trace, instructionCache.configuration.lineSizeBytes)
      && dataCache.history == DataBlocks(trace, dataCache.configuration.lineSizeBytes)
      && loadStatistics == KindStatistics(trace, Isa.LoadAccess, dataCache.configuration.lineSizeBytes,
                                          dataCache.setCount, dataCache.configuration.associativity)
      && storeStatistics == KindStatistics(trace, Isa.StoreAccess, dataCache.configuration.lineSizeBytes,
                                           dataCache.setCount, dataCache.configuration.associativity)
    }

    constructor (instructionCache: SetAssociativeCache, dataCache: SetAssociativeCache)
      requires instructionCache.Valid() && dataCache.Valid()
      requires instructionCache != dataCache && instructionCache.lines != dataCache.lines
      requires instructionCache.history == [] && dataCache.history == []
      ensures Valid() && trace == []
      ensures this.instructionCache == instructionCache && this.dataCache == dataCache
    {
      this.instructionCache := instructionCache;
      this.dataCache := dataCache;
      loadStatistics := CacheStatistics(0, 0, 0);
      storeStatistics := CacheStatistics(0, 0, 0);
      trace := [];
    }

    /** The data side of an observation: one lookup, counted as a load or a store. */
    method AccessData(access: Isa.DataMemoryAccess)
      requires dataCache.Valid()
      modifies dataCache, dataCache.lines, `loadStatistics, `storeStatistics
      ensures dataCache.Valid()
      ensures dataCache.history == old(dataCache.history) + [dataCache.BlockOf(access.address)]
      ensures dataCache.addresses == old(dataCache.addresses) + [access.address]
      ensures var result := if Hits(old(dataCache.history), dataCache.BlockOf(access.address), dataCache.setCount,
                                    dataCache.configuration.associativity) then Hit else Miss;
              && loadStatistics == (if access.kind.LoadAccess? then RecordAccess(old(loadStatistics), result)
                                    else old(loadStatistics))
              && storeStatistics == (if access.kind.LoadAccess? then old(storeStatistics)
                                     else RecordAccess(old(storeStatistics), result))
    {
      hide SetAssociativeCache.Valid, Hits, RecordAccess;
      var result := dataCache.Access(access.address);
      if access.kind.LoadAccess? {
        loadStatistics := RecordAccess(loadStatistics, result);
      } else {
        storeStatistics := RecordAccess(storeStatistics, result);
      }
    }

    method Observe(observation: ExecutionObservation)
      requires Valid()
      modifies Repr()
      ensures Valid() && trace == old(trace) + [observation]
      ensures instructionCache.addresses == old(instructionCache.addresses) + [observation.programCounter]
      ensures dataCache.addresses == old(dataCache.addresses)
                                     + (match observation.dataMemoryAccess
                                        case None => []
                                        case Some(access) => [access.address])
    {
      hide ValidateConfiguration, SetCount, LaidOut, StatisticsAfter;
      ghost var line := dataCache.configuration.lineSizeBytes;
      ghost var sets, ways := dataCache.setCount, dataCache.configuration.associativity;
      assert (trace + [observation])[..|trace|] == trace;
      KindStatisticsStep(trace, observation, Isa.LoadAccess, line, sets, ways);
      KindStatisticsStep(trace, observation, Isa.StoreAccess, line, sets, ways);
      hide KindStatistics, Hits, RecordAccess, SetAssociativeCache.Valid;
      var _ := instructionCache.Access(observation.programCounter);
      match observation.dataMemoryAccess {
        case None =>
        case Some(access) => AccessData(access);
      }
      trace := trace + [observation];
    }

    method Reset()
      requires Valid()
      modifies Repr()
      ensures Valid() && trace == []
    {
      hide ValidateConfiguration, SetCount, LaidOut, StatisticsAfter;
      instructionCache.Reset();
      dataCache.Reset();
      loadStatistics := CacheStatistics(0, 0, 0);
      storeStatistics := CacheStatistics(0, 0, 0);
      trace := [];
    }
  }
}
