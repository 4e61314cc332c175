/** `BFCAllocator`: best-fit with coalescing over device regions. Every `ITEX_CHECK` of the allocate,
    split, merge and bin paths is an `assert`; each public call is one transition of the reference
    allocator in module Arenas. */
module Bfc {
  import opened Wrappers
  import opened Sizing
  import opened SinglePrecision
  import opened Arenas
  import opened Chunks
  import opened ChunkMoves
  import opened Bins
  import opened Growth
  import opened Extension
  import opened Regions

  const SYSTEM_RESERVED_MEMORY: nat := 838860800
  const SYSTEM_RESERVED_MEMORY_FOR_XE_HPC: nat := 1887436800

  lemma EmptyTable(t: Tiling)
    requires t == Tiling([], map[], map[], map[])
    ensures Tiled(t) && Coalesced(t, INVALID) && Shows(t, EMPTY) && Safe(EMPTY) && SumOver(t.spans) == 0
  {
  }

  lemma NothingBinned(bins: seq<seq<Handle>>)
    requires |bins| == NUM_BINS && forall b :: 0 <= b < NUM_BINS ==> bins[b] == []
    ensures BinsOk([], {}, bins, {}) && SlotsOk([], {}, [], INVALID)
  {
  }

  /** The chunk table after the field updates of a split, `mid` being the table with slot `k` taken. */
  function SplitUpdates(mid: seq<Chunk>, h: Handle, k: Handle, n: nat): seq<Chunk>
    requires 0 <= h < |mid| && 0 <= k < |mid| && h != k && n <= mid[h].size
  {
    var c := mid[h];
    var d := Chunk(c.size - n, mid[k].requestedSize, NOT_IN_USE, c.ptr + n, h, c.next, mid[k].binNum);
    var both := mid[k := d][h := c.(size := n, next := k)];
    if 0 <= c.next < |both| then both[c.next := both[c.next].(prev := k)] else both
  }

  /** One entry of that table. */
  function SplitEntry(mid: seq<Chunk>, h: Handle, k: Handle, n: nat, g: Handle): Chunk
    requires 0 <= h < |mid| && 0 <= k < |mid| && n <= mid[h].size && 0 <= g < |mid|
  {
    var c := mid[h];
    if g == h then c.(size := n, next := k)
    else if g == k then Chunk(c.size - n, mid[k].requestedSize, NOT_IN_USE, c.ptr + n, h, c.next, mid[k].binNum)
    else if g == c.next then mid[g].(prev := k)
    else mid[g]
  }

  lemma SplitEntries(mid: seq<Chunk>, h: Handle, k: Handle, n: nat)
    requires 0 <= h < |mid| && 0 <= k < |mid| && h != k && n <= mid[h].size && mid[h].next != h && mid[h].next != k
    ensures var u := SplitUpdates(mid, h, k, n);
            |u| == |mid| && forall g {:trigger u[g]} :: 0 <= g < |mid| ==> u[g] == SplitEntry(mid, h, k, n, g)
  {
  }

  ghost predicate SplitReady(t: Tiling, mid: seq<Chunk>, h: Handle, n: nat, k: Handle, t': Tiling) {
    && Tiled(t) && IsFreeChunk(t, h) && 0 < n < t.chunks[h].size && Aligned(n)
    && |t.chunks| <= |mid| && mid[..|t.chunks|] == t.chunks && k !in t.home && 0 <= k < |mid| && mid[k].binNum == NO_BIN
    && t' == Tiling(SplitUpdates(mid, h, k, n), t.home[k := t.home[h]], t.at[t.chunks[h].ptr + n := k], t.spans)
  }

  lemma SplitTable(t: Tiling, mid: seq<Chunk>, h: Handle, n: nat, k: Handle, t': Tiling)
    requires SplitReady(t, mid, h, n, k, t')
    ensures mid[h] == t.chunks[h] && |t'.chunks| == |mid|
    ensures t.chunks[h].next != INVALID ==> t.chunks[h].next in t.home && 0 <= t.chunks[h].next < |t.chunks|
    ensures forall g {:trigger t'.chunks[g]} :: 0 <= g < |mid| ==> t'.chunks[g] == SplitEntry(mid, h, k, n, g)
    ensures forall g {:trigger mid[g]} :: 0 <= g < |t.chunks| ==> mid[g] == t.chunks[g]
  {
    assert ChunkOk(t, h);
    assert forall g :: 0 <= g < |t.chunks| ==> mid[g] == mid[..|t.chunks|][g];
    SplitEntries(mid, h, k, n);
  }

  lemma SplitIsSplit(t: Tiling, mid: seq<Chunk>, h: Handle, n: nat, k: Handle, t': Tiling)
    requires SplitReady(t, mid, h, n, k, t')
    ensures SplitOf(t, h, n, k, t') && UseKept(t, t')
  {
    SplitTable(t, mid, h, n, k, t');
    assert forall g :: g in t.home ==> ChunkOk(t, g);
  }

  lemma SplitCarries(t: Tiling, mid: seq<Chunk>, h: Handle, n: nat, k: Handle, t': Tiling, out: set<Handle>)
    requires SplitReady(t, mid, h, n, k, t') && h in out
    ensures t'.chunks[k].binNum == NO_BIN
    ensures forall g {:trigger t'.chunks[g]} :: g in t.home && 0 <= g < |t.chunks| ==>
              Carried(t.chunks[g], t'.chunks[g], g in out, g in out + {k})
    ensures forall g {:trigger t'.chunks[g]} :: 0 <= g < |mid| && g != k && g !in t.home ==> t'.chunks[g] == mid[g]
  {
    SplitTable(t, mid, h, n, k, t');
  }

  /** All structures after a split, with the new chunk still to be put in a bin. */
  lemma SplitResult(t: Tiling, mid: seq<Chunk>, h: Handle, n: nat, k: Handle, t': Tiling,
                    bins: seq<seq<Handle>>, slots: seq<Handle>, head: Handle, a: Arena)
    requires Tiled(t) && Coalesced(t, INVALID) && Shows(t, a) && IsFreeChunk(t, h) && 0 < n < t.chunks[h].size
             && Aligned(n)
    requires |t.chunks| <= |mid| && mid[..|t.chunks|] == t.chunks && k !in t.home && 0 <= k < |mid|
    requires mid[k].binNum == NO_BIN
    requires t' == Tiling(SplitUpdates(mid, h, k, n), t.home[k := t.home[h]], t.at[t.chunks[h].ptr + n := k], t.spans)
    requires BinsOk(t.chunks, t.home.Keys, bins, {h}) && SlotsOk(mid, t.home.Keys + {k}, slots, head)
    ensures Tiled(t') && Coalesced(t', h) && Shows(t', a) && IsFreeChunk(t', h) && IsFreeChunk(t', k)
    ensures t'.chunks[h].size == n && t'.chunks[h].ptr == t.chunks[h].ptr
    ensures SlotsOk(t'.chunks, t'.home.Keys, slots, head) && BinsOk(t'.chunks, t'.home.Keys, bins, {h, k})
  {
    SplitIsSplit(t, mid, h, n, k, t');
    SplitCarries(t, mid, h, n, k, t', {h});
    SplitKeepsArena(t, h, n, k, t', a);
    SplitCoalesced(t, h, n, k, t');
    assert t'.home.Keys == t.home.Keys + {k} && {h} + {k} == {h, k};
    SlotsFrame(mid, t'.home.Keys, slots, head, t'.chunks);
    BinsCarry(t.chunks, t.home.Keys, bins, {h}, t'.chunks, t'.home.Keys, {h, k});
  }

  /** The chunk table after the field updates of a merge, before `k` is deleted. */
  function MergeUpdates(chunks: seq<Chunk>, h: Handle, k: Handle): seq<Chunk>
    requires 0 <= h < |chunks| && 0 <= k < |chunks|
  {
    var c, e := chunks[h], chunks[k];
    var one := chunks[h := c.(next := e.next, size := c.size + e.size)];
    if 0 <= e.next < |one| then one[e.next := one[e.next].(prev := h)] else one
  }

  /** All structures after a merge. */
  lemma MergeResult(t: Tiling, linked: seq<Chunk>, h: Handle, k: Handle, head: Handle, t': Tiling,
                    bins: seq<seq<Handle>>, out: set<Handle>, a: Arena)
    requires Tiled(t) && Shows(t, a) && IsFreeChunk(t, h) && IsFreeChunk(t, k) && t.chunks[h].next == k && h in out
             && k in out
    requires linked == MergeUpdates(t.chunks, h, k)
    requires t' == Tiling(linked[k := linked[k].(allocationId := NOT_IN_USE, binNum := NO_BIN, next := head)],
                          t.home - {k}, t.at - {t.chunks[k].ptr}, t.spans)
    requires BinsOk(t.chunks, t.home.Keys, bins, out)
    ensures MergeOf(t, h, k, t') && UseKept(t, t') && Tiled(t') && Shows(t', a)
    ensures BinsOk(t'.chunks, t'.home.Keys, bins, out - {k})
  {
    assert ChunkOk(t, h) && ChunkOk(t, k);
    MergeKeepsArena(t, h, k, t', a);
    BinsCarry(t.chunks, t.home.Keys, bins, out, t'.chunks, t'.home.Keys, out - {k});
  }

  /** The least free chunk, by size and then by address, that holds `m` bytes. */
  ghost predicate IsBestChunk(t: Tiling, h: Handle, m: nat) {
    && IsFreeChunk(t, h) && t.chunks[h].size >= m
    && forall g {:trigger IsFreeChunk(t, g)} ::
         IsFreeChunk(t, g) && t.chunks[g].size >= m ==> g == h || Before(t.chunks[h], t.chunks[g])
  }

  lemma BestChunkIsBestFit(t: Tiling, a: Arena, h: Handle, m: nat)
    requires Tiled(t) && Coalesced(t, INVALID) && Shows(t, a) && IsBestChunk(t, h, m)
    ensures IsBestFit(a, m, t.chunks[h].ptr, t.chunks[h].size, t.home[h])
    ensures FitsSomewhere(a, m)
    ensures 0 < t.chunks[h].size < ADDRESS_LIMIT && t.chunks[h].ptr != NULL
  {
    var c := t.chunks[h];
    FreeIsGap(t, a, h);
    assert ChunkOk(t, h) && SpanOk(t.spans, t.home[h]);
    forall q: Addr, k: nat, b: Addr | IsGap(a, q, k, b) && k >= m ensures c.size < k || (c.size == k && c.ptr <= q) {
      FreeIffGap(t, a, q, k, b);
      assert StartOk(t, q);
    }
  }

  lemma NoChunkNoGap(t: Tiling, a: Arena, m: nat)
    requires Tiled(t) && Coalesced(t, INVALID) && Shows(t, a)
    requires forall g {:trigger IsFreeChunk(t, g)} :: IsFreeChunk(t, g) ==> t.chunks[g].size < m
    ensures !FitsSomewhere(a, m)
  {
    forall p: Addr, n: nat, b: Addr | IsGap(a, p, n, b) ensures n < m {
      FreeIffGap(t, a, p, n, b);
    }
  }

  function GrowUpdates(mid: seq<Chunk>, s: Span, k: Handle): seq<Chunk>
    requires 0 <= k < |mid|
  {
    mid[k := mid[k].(ptr := s.base, size := s.size, allocationId := NOT_IN_USE, prev := INVALID, next := INVALID)]
  }

  lemma GrowEffect(t: Tiling, mid: seq<Chunk>, s: Span, k: Handle, t': Tiling)
    requires Tiled(t) && FreshSpan(t.spans, s.base, s.size) && Aligned(s.size)
    requires |t.chunks| <= |mid| && mid[..|t.chunks|] == t.chunks && k !in t.home && 0 <= k < |mid|
    requires t' == Tiling(GrowUpdates(mid, s, k), t.home[k := s.base], t.at[s.base := k], t.spans[s.base := s.size])
    ensures GrowthOf(t, s, k, t') && UseKept(t, t')
    ensures forall g {:trigger t'.chunks[g]} :: g in t.home && 0 <= g < |t.chunks| ==> t'.chunks[g] == t.chunks[g]
  {
    assert forall g :: 0 <= g < |t.chunks| ==> mid[g] == mid[..|t.chunks|][g];
    assert forall g :: g in t.home ==> ChunkOk(t, g);
  }

  lemma GrowTables(t: Tiling, mid: seq<Chunk>, s: Span, k: Handle, t': Tiling,
                   bins: seq<seq<Handle>>, slots: seq<Handle>, head: Handle)
    requires |t.chunks| <= |mid| && k !in t.home && 0 <= k < |mid| && mid[k].binNum == NO_BIN
    requires t'.chunks == GrowUpdates(mid, s, k) && t'.home == t.home[k := s.base]
    requires forall g {:trigger t'.chunks[g]} :: g in t.home && 0 <= g < |t.chunks| ==> t'.chunks[g] == t.chunks[g]
    requires BinsOk(t.chunks, t.home.Keys, bins, {}) && SlotsOk(mid, t.home.Keys + {k}, slots, head)
    ensures SlotsOk(t'.chunks, t'.home.Keys, slots, head) && BinsOk(t'.chunks, t'.home.Keys, bins, {k})
  {
    assert t'.home.Keys == t.home.Keys + {k};
    SlotsFrame(mid, t'.home.Keys, slots, head, t'.chunks);
    BinsCarry(t.chunks, t.home.Keys, bins, {}, t'.chunks, t'.home.Keys, {k});
  }

  lemma GrowShape(t: Tiling, mid: seq<Chunk>, s: Span, k: Handle, t': Tiling, a: Arena)
    requires Tiled(t) && Coalesced(t, INVALID) && Shows(t, a) && FreshSpan(t.spans, s.base, s.size) && Aligned(s.size)
    requires |t.chunks| <= |mid| && mid[..|t.chunks|] == t.chunks && k !in t.home && 0 <= k < |mid|
    requires t' == Tiling(GrowUpdates(mid, s, k), t.home[k := s.base], t.at[s.base := k], t.spans[s.base := s.size])
    ensures Tiled(t') && Coalesced(t', INVALID) && Shows(t', Grow(a, s)) && IsFreeChunk(t', k)
    ensures forall g {:trigger t'.chunks[g]} :: g in t.home && 0 <= g < |t.chunks| ==> t'.chunks[g] == t.chunks[g]
  {
    GrowEffect(t, mid, s, k, t');
    GrowArena(t, s, k, t', a);
    GrowCoalesced(t, s, k, t');
  }

  lemma GrowEnds(t: Tiling, s: Span)
    requires Tiled(t) && FreshSpan(t.spans, s.base, s.size) && Aligned(s.size)
    ensures SpansOk(t.spans[s.base := s.size]) && s.base !in t.spans
  {
    SpansGrow(t.spans, s);
  }

  /** The total stays below the address space, so adding to it does not wrap. */
  lemma TotalFits(spans: map<Addr, nat>, s: Span)
    requires SpansOk(spans) && SpansOk(spans[s.base := s.size]) && s.base !in spans
    ensures SumOver(spans[s.base := s.size]) == SumOver(spans) + s.size < WORD
  {
    var grown := spans[s.base := s.size];
    assert forall b :: b in grown ==> SpanOk(grown, b);
    SumOverBound(grown, ADDRESS_LIMIT);
    SumOverAdd(spans, s.base, s.size);
  }

  /** What a successful extension does: one fresh region, nothing else. */
  ghost predicate Extended(a: Arena, s: Span, a': Arena) {
    FreshSpan(a.spans, s.base, s.size) && Aligned(s.size) && a' == Grow(a, s)
  }

  class BfcAllocator {
    const memoryLimit: nat
    const allocMode: int
    const limitAlloc: nat
    const regionManager: RegionManager
    var chunks: seq<Chunk>
    var bins: seq<seq<Handle>>
    var freeChunksList: Handle
    var currRegionAllocationBytes: nat
    var totalRegionAllocatedBytes: nat
    ghost var home: map<Handle, Addr>  // live chunks, each with the base of its region
    ghost var slots: seq<Handle>       // the chain from freeChunksList
    ghost var arena: Arena             // the reference state this allocator stands for

    ghost function Table(): Tiling
      reads this, regionManager
    {
      Tiling(chunks, home, regionManager.table, regionManager.spans)
    }

    ghost function Rules(): Settings {
      Settings(memoryLimit, allocMode, limitAlloc)
    }

    ghost predicate Books()
      reads this, regionManager
    {
      && SettingsOk(Rules())
      && currRegionAllocationBytes < WORD && Aligned(currRegionAllocationBytes)
      && totalRegionAllocatedBytes == SumOver(regionManager.spans)
      && (allocMode == 1 ==> totalRegionAllocatedBytes <= memoryLimit)
    }

    /** The structures agree, where the chunks of `out` are live and free but in no bin. */
    ghost predicate Core(out: set<Handle>)
      reads this, regionManager
    {
      && regionManager.Valid()
      && Tiled(Table()) && Shows(Table(), arena)
      && SlotsOk(chunks, home.Keys, slots, freeChunksList)
      && BinsOk(chunks, home.Keys, bins, out)
    }

    ghost predicate Valid()
      reads this, regionManager
    {
      Core({}) && Books() && Coalesced(Table(), INVALID) && Safe(arena)
    }

    /** `limitAlloc` is the value of `LimitAlloc()`, a multiple of 256 (of 2^20, in fact). */
    constructor (globalMemory: nat, isXeHpc: bool, mode: int, limitAlloc: nat)
      requires mode == 1 ==> globalMemory > if isXeHpc then 1887436800 else 838860800
      requires globalMemory <= ADDRESS_LIMIT && Aligned(limitAlloc)
      ensures Valid() && arena == EMPTY && fresh(regionManager)
      ensures allocMode == mode && this.limitAlloc == limitAlloc
      ensures memoryLimit == globalMemory - if mode != 1 then 0 else if isXeHpc then 1887436800 else 838860800
      ensures memoryLimit <= currRegionAllocationBytes == RoundedBytes(memoryLimit)
    {
      var limit := globalMemory;
      if mode == 1 {
        limit := limit - if isXeHpc then SYSTEM_RESERVED_MEMORY_FOR_XE_HPC else SYSTEM_RESERVED_MEMORY;
      }
      memoryLimit, allocMode, this.limitAlloc := limit, mode, limitAlloc;
      regionManager := new RegionManager();
      RoundedBytesExact(limit);
      currRegionAllocationBytes := RoundedBytes(limit);
      totalRegionAllocatedBytes := 0;
      freeChunksList := INVALID;
      chunks, home, slots, arena := [], map[], [], EMPTY;
      bins := [];
      new;
      bins := CreateBins();
      EmptyTable(Table());
      NothingBinned(bins);
      assert home.Keys == {};
    }

    static method CreateBins() returns (bins: seq<seq<Handle>>)
      ensures |bins| == NUM_BINS == 21 && forall b :: 0 <= b < NUM_BINS ==> bins[b] == []
    {
      bins := [];
      for b := 0 to NUM_BINS
        invariant |bins| == b && forall i :: 0 <= i < b ==> bins[i] == []
      {
        var binSize := BinNumToSize(b);
        BinSizesAgree(b);
        assert BinNumForSize(binSize) == b;         // ITEX_CHECK_EQ
        assert BinNumForSize(binSize + 255) == b;   // ITEX_CHECK_EQ
        assert BinNumForSize(binSize * 2 - 1) == b; // ITEX_CHECK_EQ
        assert b + 1 < NUM_BINS ==> BinNumForSize(binSize * 2) != b; // ITEX_CHECK_NE
        bins := bins + [[]];
      }
    }

    // ---- Chunk slots ----

    method AllocateChunk() returns (h: Handle)
      requires SlotsOk(chunks, home.Keys, slots, freeChunksList)
      modifies `chunks, `freeChunksList, `slots
      ensures SlotsOk(chunks, home.Keys + {h}, slots, freeChunksList)
      ensures h !in home && 0 <= h < |chunks| && chunks[h].binNum == NO_BIN && !chunks[h].InUse()
      ensures |old(chunks)| <= |chunks| && chunks[..|old(chunks)|] == old(chunks)
    {
      if freeChunksList != INVALID {
        h := freeChunksList;
        SlotsPop(chunks, home.Keys, slots, freeChunksList);
        freeChunksList := chunks[h].next;
        slots := slots[1..];
      } else {
        h := |chunks|;
        SlotsAppend(chunks, home.Keys, slots, freeChunksList);
        chunks := chunks + [BLANK];
      }
    }

    method DeallocateChunk(h: Handle, ghost owned: set<Handle>)
      requires SlotsOk(chunks, owned, slots, freeChunksList) && h in owned && 0 <= h < |chunks|
      modifies `chunks, `freeChunksList, `slots
      ensures SlotsOk(chunks, owned - {h}, slots, freeChunksList)
      ensures chunks
              == old(chunks)[h :=
                  old(chunks)[h].(allocationId := NOT_IN_USE, binNum := NO_BIN, next := old(freeChunksList))]
    {
      ghost var before := chunks;
      chunks := chunks[h := chunks[h].(allocationId := NOT_IN_USE)];
      chunks := chunks[h := chunks[h].(binNum := NO_BIN)];
      chunks := chunks[h := chunks[h].(next := freeChunksList)];
      SlotsPush(before, owned, slots, freeChunksList, h, chunks);
      freeChunksList := h;
      slots := [h] + slots;
    }

    // ---- Bins ----

    method InsertFreeChunkIntoBin(h: Handle, ghost out: set<Handle>)
      requires Core(out) && h in out && IsFreeChunk(Table(), h)
      modifies `chunks, `bins
      ensures Core(out - {h}) && Rebinned(old(Table()), Table())
    {
      ghost var t := Table();
      assert BinnedOk(chunks, out, h);
      assert !chunks[h].InUse() && chunks[h].binNum == NO_BIN; // ITEX_CHECK
      ghost var before, binsBefore := chunks, bins;
      var binNum := BinNumForSize(chunks[h].size);
      chunks := chunks[h := chunks[h].(binNum := binNum)];
      assert forall b :: 0 <= b < NUM_BINS ==> Ordered(before, bins[b]);
      bins := bins[binNum := Insert(chunks, bins[binNum], h)];
      forall g | g in home && 0 <= g < |before| && g != h ensures before[g].ptr != before[h].ptr {
        assert ChunkOk(t, g) && ChunkOk(t, h);
      }
      BinInsert(before, home.Keys, binsBefore, out, h, chunks, bins);
      RebinnedSame(t, Table(), arena);
      SlotsFrame(before, home.Keys, slots, freeChunksList, chunks);
    }

    method RemoveFreeChunkFromBin(h: Handle, ghost out: set<Handle>)
      requires Core(out) && h !in out && IsFreeChunk(Table(), h)
      modifies `chunks, `bins
      ensures Core(out + {h}) && Rebinned(old(Table()), Table())
    {
      ghost var t := Table();
      assert BinnedOk(chunks, out, h);
      assert !chunks[h].InUse() && chunks[h].binNum != NO_BIN; // ITEX_CHECK
      var binNum := chunks[h].binNum;
      assert InBin(chunks, home.Keys, h, binNum) && h in bins[binNum];
      assert Ordered(chunks, bins[binNum]);
      ghost var before, binsBefore := chunks, bins;
      EraseOrdered(chunks, bins[binNum], h);
      var (rest, erased) := Erase(chunks, bins[binNum], h);
      assert erased > 0; // ITEX_CHECK_GT
      bins := bins[binNum := rest];
      chunks := chunks[h := chunks[h].(binNum := NO_BIN)];
      BinRemove(before, home.Keys, binsBefore, out, h, rest, chunks, bins);
      RebinnedSame(t, Table(), arena);
      SlotsFrame(before, home.Keys, slots, freeChunksList, chunks);
    }

    method RemoveFreeChunkIterFromBin(binNum: nat, citer: nat)
      requires Core({}) && binNum < NUM_BINS && citer < |bins[binNum]|
      modifies `chunks, `bins
      ensures Core({old(bins)[binNum][citer]}) && Rebinned(old(Table()), Table())
    {
      ghost var t := Table();
      var h := bins[binNum][citer];
      assert h in bins[binNum] && InBin(chunks, home.Keys, h, binNum) && BinnedOk(chunks, {}, h);
      assert !chunks[h].InUse() && chunks[h].binNum != NO_BIN; // ITEX_CHECK
      assert Ordered(chunks, bins[binNum]);
      ghost var before, binsBefore := chunks, bins;
      var rest := bins[binNum][..citer] + bins[binNum][citer + 1..];
      OrderedWithout(chunks, bins[binNum], citer);
      bins := bins[binNum := rest];
      chunks := chunks[h := chunks[h].(binNum := NO_BIN)];
      BinRemove(before, home.Keys, binsBefore, {}, h, rest, chunks, bins);
      assert {} + {h} == {h};
      RebinnedSame(t, Table(), arena);
      SlotsFrame(before, home.Keys, slots, freeChunksList, chunks);
    }

    // ---- Split and merge ----

    /** The new chunk's fields, its entry in the handle table, and the links around it. */
    method LinkNewChunk(h: Handle, hNew: Handle, numBytes: nat)
      requires 0 <= h < |chunks| && 0 <= hNew < |chunks| && h != hNew && h in home && numBytes <= chunks[h].size
      requires chunks[h].next != INVALID ==> 0 <= chunks[h].next < |chunks|
      requires chunks[h].next == INVALID || chunks[h].next != hNew
      requires regionManager.Valid() && OnSlot(regionManager.regions, chunks[h].ptr + numBytes)
      modifies `chunks, `home, regionManager`regions, regionManager`table
      ensures chunks == SplitUpdates(old(chunks), h, hNew, numBytes) && home == old(home)[hNew := old(home)[h]]
      ensures regionManager.Valid()
              && regionManager.table == old(regionManager.table)[old(chunks)[h].ptr + numBytes := hNew]
    {
      var c, newChunk := chunks[h], chunks[hNew];
      newChunk := newChunk.(ptr := c.ptr + numBytes);
      regionManager.SetHandle(newChunk.ptr, hNew);
      newChunk := newChunk.(size := c.size - numBytes);
      c := c.(size := numBytes);
      newChunk := newChunk.(allocationId := NOT_IN_USE);
      var hNeighbor := c.next;
      newChunk := newChunk.(prev := h, next := hNeighbor);
      c := c.(next := hNew);
      chunks := chunks[hNew := newChunk][h := c];
      if hNeighbor != INVALID {
        chunks := chunks[hNeighbor := chunks[hNeighbor].(prev := hNew)];
      }
      home := home[hNew := home[h]];
    }

    method SplitChunk(h: Handle, numBytes: nat)
      requires Core({h}) && Coalesced(Table(), INVALID) && IsFreeChunk(Table(), h)
      requires 0 < numBytes < chunks[h].size && Aligned(numBytes)
      modifies `chunks, `bins, `freeChunksList, `slots, `home, regionManager`regions, regionManager`spans,
          regionManager`table
      ensures Core({h}) && Coalesced(Table(), h) && IsFreeChunk(Table(), h)
      ensures chunks[h].size == numBytes && chunks[h].ptr == old(chunks[h].ptr) && home[h] == old(home[h])
    {
      ghost var t := Table();
      assert BinnedOk(chunks, {h}, h) && ChunkOk(t, h);
      var hNew := AllocateChunk();
      ghost var mid := chunks;
      assert chunks[h] == t.chunks[h];
      assert !chunks[h].InUse() && chunks[h].binNum == NO_BIN; // ITEX_CHECK
      WithinOnSlot(regionManager.regions, regionManager.spans, home[h], chunks[h].ptr + numBytes) by {
        AlignedSum(chunks[h].ptr - home[h], numBytes);
      }
      LinkNewChunk(h, hNew, numBytes);
      SplitResult(t, mid, h, numBytes, hNew, Table(), bins, slots, freeChunksList, arena);
      ghost var u := Table();
      InsertFreeChunkIntoBin(hNew, {h, hNew});
      RebinnedCoalesced(u, Table(), h);
      assert {h, hNew} - {hNew} == {h};
    }

    method DeleteChunk(h: Handle)
      requires 0 <= h < |chunks| && h in home && SlotsOk(chunks, home.Keys, slots, freeChunksList)
      requires regionManager.Valid() && OnSlot(regionManager.regions, chunks[h].ptr)
      modifies `chunks, `freeChunksList, `slots, regionManager`regions, regionManager`spans, regionManager`table
      ensures SlotsOk(chunks, home.Keys - {h}, slots, freeChunksList)
      ensures regionManager.Valid() && regionManager.spans == old(regionManager.spans)
      ensures regionManager.table == old(regionManager.table) - {old(chunks[h].ptr)}
      ensures chunks
              == old(chunks)[h :=
                  old(chunks)[h].(allocationId := NOT_IN_USE, binNum := NO_BIN, next := old(freeChunksList))]
    {
      regionManager.Erase(chunks[h].ptr);
      DeallocateChunk(h, home.Keys);
    }

    /** The chunk `h2` is absorbed by its left neighbour `h1`; both are free and in no bin. */
    method Merge(h1: Handle, h2: Handle, ghost out: set<Handle>)
      requires Core(out) && h1 in out && h2 in out && IsFreeChunk(Table(), h1) && IsFreeChunk(Table(), h2)
      requires chunks[h1].next == h2
      modifies `chunks, `freeChunksList, `slots, `home, regionManager`regions, regionManager`spans, regionManager`table
      ensures Core(out - {h2}) && MergeOf(old(Table()), h1, h2, Table()) && UseKept(old(Table()), Table())
    {
      ghost var t, head := Table(), freeChunksList;
      assert ChunkOk(t, h1) && ChunkOk(t, h2);
      assert !chunks[h1].InUse() && !chunks[h2].InUse(); // ITEX_CHECK
      var c1, c2 := chunks[h1], chunks[h2];
      var h3 := c2.next;
      c1 := c1.(next := h3);
      assert c2.prev == h1; // ITEX_CHECK
      c1 := c1.(size := c1.size + c2.size);
      chunks := chunks[h1 := c1];
      if h3 != INVALID {
        chunks := chunks[h3 := chunks[h3].(prev := h1)];
      }
      ghost var linked := chunks;
      assert linked == MergeUpdates(t.chunks, h1, h2);
      SlotsFrame(t.chunks, home.Keys, slots, freeChunksList, chunks);
      WithinOnSlot(regionManager.regions, regionManager.spans, home[h2], chunks[h2].ptr);
      DeleteChunk(h2);
      home := home - {h2};
      MergeResult(t, linked, h1, h2, head, Table(), bins, out, arena);
      assert home.Keys == t.home.Keys - {h2};
    }

    /** The two halves of `TryToCoalesce`: absorb the next chunk, then be absorbed by the previous one. */
    method CoalesceNext(h: Handle)
      requires Core({h}) && Coalesced(Table(), h) && IsFreeChunk(Table(), h)
      modifies `chunks, `bins, `freeChunksList, `slots, `home, regionManager`regions, regionManager`spans,
          regionManager`table
      ensures Core({h}) && Coalesced(Table(), h) && Isolated(Table(), h) && IsFreeChunk(Table(), h)
    {
      ghost var t := Table();
      assert ChunkOk(t, h);
      if chunks[h].next != INVALID && !chunks[chunks[h].next].InUse() {
        var n := chunks[h].next;
        RemoveFreeChunkFromBin(n, {h});
        ghost var u := Table();
        RebinnedCoalesced(t, u, h);
        assert {h} + {n} == {h, n};
        Merge(h, n, {h, n});
        assert {h, n} - {n} == {h};
        MergeRight(u, h, n, Table());
      }
    }

    method CoalescePrev(h: Handle) returns (coalesced: Handle)
      requires Core({h}) && Coalesced(Table(), h) && Isolated(Table(), h) && IsFreeChunk(Table(), h)
      modifies `chunks, `bins, `freeChunksList, `slots, `home, regionManager`regions, regionManager`spans,
          regionManager`table
      ensures Core({coalesced}) && Coalesced(Table(), INVALID) && IsFreeChunk(Table(), coalesced)
    {
      ghost var t := Table();
      assert ChunkOk(t, h);
      coalesced := h;
      if chunks[h].prev != INVALID && !chunks[chunks[h].prev].InUse() {
        coalesced := chunks[h].prev;
        RemoveFreeChunkFromBin(coalesced, {h});
        ghost var u := Table();
        RebinnedCoalesced(t, u, h);
        assert SameLinks(t.chunks[h], u.chunks[h]) && SameLinks(t.chunks[coalesced], u.chunks[coalesced]);
        assert {h} + {coalesced} == {coalesced, h};
        Merge(coalesced, h, {coalesced, h});
        assert {coalesced, h} - {h} == {coalesced};
        MergeLeft(u, coalesced, h, Table());
      } else {
        NothingToTheLeft(t, h);
      }
    }

    method TryToCoalesce(h: Handle) returns (coalesced: Handle)
      requires Core({h}) && Coalesced(Table(), h) && IsFreeChunk(Table(), h)
      modifies `chunks, `bins, `freeChunksList, `slots, `home, regionManager`regions, regionManager`spans,
          regionManager`table
      ensures Core({coalesced}) && Coalesced(Table(), INVALID) && IsFreeChunk(Table(), coalesced)
    {
      CoalesceNext(h);
      coalesced := CoalescePrev(h);
    }

    // ---- Allocation from the bins ----

    /** The search of `FindChunkPtr`: bins upwards from the request's own, each in comparator order. */
    method FirstFit(binNum: nat, roundedBytes: nat) returns (found: bool, b: nat, citer: nat)
      requires Core({}) && binNum == BinNumForSize(roundedBytes)
      ensures found ==> b < NUM_BINS && citer < |bins[b]| && IsBestChunk(Table(), bins[b][citer], roundedBytes)
      ensures !found ==> forall g :: IsFreeChunk(Table(), g) ==> chunks[g].size < roundedBytes
    {
      b, citer, found := binNum, 0, false;
      while b < NUM_BINS
        invariant binNum <= b <= NUM_BINS && NoneFits(chunks, bins, binNum, b, roundedBytes)
      {
        citer := 0;
        while citer < |bins[b]|
          invariant citer <= |bins[b]|
          invariant forall k :: 0 <= k < citer ==> 0 <= bins[b][k] < |chunks| && chunks[bins[b][k]].size < roundedBytes
        {
          var h := bins[b][citer];
          assert h in bins[b] && InBin(chunks, home.Keys, h, b) && BinnedOk(chunks, {}, h);
          assert !chunks[h].InUse(); // ITEX_DCHECK
          if chunks[h].size >= roundedBytes {
            forall g | IsFreeChunk(Table(), g) && chunks[g].size >= roundedBytes
                ensures g == h || Before(chunks[h], chunks[g]) {
              FirstFitIsBest(chunks, home.Keys, bins, roundedBytes, b, citer, g);
            }
            return true, b, citer;
          }
          citer := citer + 1;
        }
        b := b + 1;
      }
      forall g | IsFreeChunk(Table(), g) ensures chunks[g].size < roundedBytes {
        NoFirstFit(chunks, home.Keys, bins, roundedBytes, g);
      }
    }

    method MarkInUse(h: Handle, numBytes: nat)
      requires Core({h}) && Coalesced(Table(), h) && IsFreeChunk(Table(), h)
      modifies `chunks, `arena
      ensures Core({}) && Coalesced(Table(), INVALID) && 0 <= h < |chunks| && chunks[h].allocationId == 0
      ensures arena
              == old(arena).(used :=
                  old(arena).used[old(chunks[h].ptr) := Block(old(chunks[h].size), numBytes, home[h])])
    {
      ghost var t := Table();
      chunks := chunks[h := chunks[h].(requestedSize := numBytes)];
      chunks := chunks[h := chunks[h].(allocationId := 0)];
      TakeChunk(t, h, numBytes, Table(), arena);
      arena := arena.(used := arena.used[chunks[h].ptr := Block(chunks[h].size, numBytes, home[h])]);
      SlotsFrame(t.chunks, home.Keys, slots, freeChunksList, chunks);
      BinsCarry(t.chunks, home.Keys, bins, {h}, chunks, home.Keys, {});
    }

    method FindChunkPtr(binNum: nat, roundedBytes: nat, numBytes: nat) returns (ptr: Addr)
      requires Core({}) && Coalesced(Table(), INVALID)
      requires binNum == BinNumForSize(roundedBytes) && roundedBytes > 0 && Aligned(roundedBytes)
      modifies `chunks, `bins, `freeChunksList, `slots, `home, `arena, regionManager`regions, regionManager`spans,
          regionManager`table
      ensures Core({}) && Coalesced(Table(), INVALID)
      ensures PlacesOrFails(old(arena), roundedBytes, numBytes, ptr, arena)
      ensures FitsSomewhere(old(arena), roundedBytes) <==> ptr != NULL
    {
      ghost var t := Table();
      var found, b, citer := FirstFit(binNum, roundedBytes);
      if !found {
        NoChunkNoGap(t, arena, roundedBytes);
        return NULL;
      }
      var h := bins[b][citer];
      BestChunkIsBestFit(t, arena, h, roundedBytes);
      ghost var n := chunks[h].size;
      RemoveFreeChunkIterFromBin(b, citer);
      RebinnedCoalesced(t, Table(), INVALID);
      assert SameLinks(t.chunks[h], chunks[h]);
      if chunks[h].size >= Wrap(roundedBytes * 2) || Wrap(chunks[h].size - roundedBytes) >= MAX_FRAGMENTATION {
        SplitChunk(h, roundedBytes);
      }
      ptr := chunks[h].ptr;
      assert chunks[h].size == Carve(n, roundedBytes);
      MarkInUse(h, numBytes);
    }

    // ---- Extension ----

    method PlaceRegion(memAddr: Addr, bytes: nat)
      requires Core({}) && Coalesced(Table(), INVALID) && FreshSpan(regionManager.spans, memAddr, bytes)
               && Aligned(bytes)
      modifies `chunks, `bins, `freeChunksList, `slots, `home, `arena, regionManager`regions, regionManager`spans,
          regionManager`table
      ensures Core({}) && Coalesced(Table(), INVALID)
      ensures arena == Grow(old(arena), Span(memAddr, bytes))
    {
      ghost var t, s := Table(), Span(memAddr, bytes);
      GrowEnds(t, s);
      regionManager.AddAllocationRegion(memAddr, bytes);
      var h := AllocateChunk();
      ghost var mid := chunks;
      chunks :=
          chunks[h :=
              chunks[h].(ptr := memAddr, size := bytes, allocationId := NOT_IN_USE, prev := INVALID, next := INVALID)];
      WithinOnSlot(regionManager.regions, regionManager.spans, memAddr, memAddr);
      regionManager.SetHandle(memAddr, h);
      home := home[h := memAddr];
      GrowShape(t, mid, s, h, Table(), arena);
      arena := Grow(arena, s);
      GrowTables(t, mid, s, h, Table(), bins, slots, freeChunksList);
      ghost var u := Table();
      InsertFreeChunkIntoBin(h, {h});
      RebinnedCoalesced(u, Table(), INVALID);
      assert {h} - {h} == {};
    }

    /** The common tail of the two extension modes: a new region as one large free chunk. */
    method AddRegion(memAddr: Addr, bytes: nat)
      requires Valid() && FreshSpan(regionManager.spans, memAddr, bytes) && Aligned(bytes)
      requires allocMode == 1 ==> totalRegionAllocatedBytes + bytes <= memoryLimit
      modifies `chunks, `bins, `freeChunksList, `slots, `home, `arena, `totalRegionAllocatedBytes,
          regionManager`regions, regionManager`spans, regionManager`table
      ensures Valid() && arena == Grow(old(arena), Span(memAddr, bytes))
      ensures totalRegionAllocatedBytes == old(totalRegionAllocatedBytes) + bytes
    {
      ghost var s := Span(memAddr, bytes);
      SpansGrow(regionManager.spans, s);
      GrowKeepsSafe(arena, s);
      TotalFits(regionManager.spans, s);
      totalRegionAllocatedBytes := Wrap(totalRegionAllocatedBytes + bytes);
      PlaceRegion(memAddr, bytes);
    }

    /** The doubling loop, for requests above the counter. */
    method RaiseRegionSize(roundedBytes: nat) returns (increased: bool)
      requires 0 < currRegionAllocationBytes < WORD && roundedBytes <= ADDRESS_LIMIT
      modifies `currRegionAllocationBytes
      ensures currRegionAllocationBytes == Raised(old(currRegionAllocationBytes), roundedBytes)
      ensures increased <==> roundedBytes > old(currRegionAllocationBytes)
    {
      increased := false;
      while roundedBytes > currRegionAllocationBytes
        invariant 0 < currRegionAllocationBytes < WORD
        invariant Raised(currRegionAllocationBytes, roundedBytes)
                  == Raised(old(currRegionAllocationBytes), roundedBytes)
        invariant !increased ==> currRegionAllocationBytes == old(currRegionAllocationBytes)
        invariant increased ==> roundedBytes > old(currRegionAllocationBytes)
        decreases roundedBytes - currRegionAllocationBytes
      {
        WrapDouble(currRegionAllocationBytes);
        currRegionAllocationBytes := Wrap(currRegionAllocationBytes * 2);
        increased := true;
      }
    }

    method DoubleRegionSize()
      requires Valid()
      modifies `currRegionAllocationBytes
      ensures Valid() && currRegionAllocationBytes == Wrap(2 * old(currRegionAllocationBytes))
    {
      DoubleAligned(currRegionAllocationBytes);
      currRegionAllocationBytes := Wrap(currRegionAllocationBytes * 2);
    }

    /** One step of the shrinking loop, the n-th of its sequence. */
    static method ShrinkSize(bytes: nat, ghost sizes: Sizes, ghost first: nat, ghost n: nat) returns (next: nat)
      requires IsShrinking(sizes, first) && bytes == sizes(n)
      ensures next == sizes(n + 1)
    {
      assert NextSize(sizes, n);
      next := RoundedBytes(Shrunk(bytes));
    }

    /** Ask the device for `first` bytes, and after each refusal for about a tenth less, down to the request. */
    static method RequestSizes(roundedBytes: nat, first: nat, device: Device, ghost sizes: Sizes)
      returns (memAddr: Addr, bytes: nat)
      requires IsShrinking(sizes, first) && Falling(sizes) && (GivesUp(roundedBytes, sizes) || Grants(device, sizes))
      ensures LargeReply(device, roundedBytes, sizes) == if memAddr == NULL then None else Some(Span(memAddr, bytes))
      ensures memAddr == NULL <==> RefusedAll(device, roundedBytes, sizes)
    {
      ghost var last: nat :| (last > 0 && sizes(last) < roundedBytes) || device(last, sizes(last)) != NULL;
      var tries: nat := 0;
      bytes := first;
      memAddr := device(tries, bytes);
      while memAddr == NULL
        invariant tries <= last && bytes == sizes(tries) && memAddr == device(tries, bytes)
        invariant RefusedBefore(device, sizes, tries) && (tries == 0 || roundedBytes <= bytes)
        decreases last - tries
      {
        RefusedOnce(device, sizes, tries);
        bytes := ShrinkSize(bytes, sizes, first, tries);
        tries := tries + 1;
        if bytes < roundedBytes {
          RefusedTo(device, roundedBytes, sizes, tries);
          return;
        }
        memAddr := device(tries, bytes);
      }
      NotBoth(device, roundedBytes, sizes, tries);
    }

    static method RequestRegion(roundedBytes: nat, first: nat, device: Device) returns (memAddr: Addr, bytes: nat)
      requires Aligned(first) && first < WORD && Settles(device, roundedBytes, first)
      ensures LargeReply(device, roundedBytes, SizesFrom(first))
              == if memAddr == NULL then None else Some(Span(memAddr, bytes))
      ensures memAddr == NULL <==> RefusedAll(device, roundedBytes, SizesFrom(first))
    {
      ghost var sizes := SizesFrom(first);
      SizesFall(first);
      BackpedalGivesUpIff(roundedBytes, sizes, first);
      memAddr, bytes := RequestSizes(roundedBytes, first, device, sizes);
    }

    /** The middle of `ExtendLarge`: bring the counter up to the request, ask the device, and after a success
        double the counter unless the loop has moved it. */
    method ObtainRegion(roundedBytes: nat, availableBytes: nat, device: Device) returns (memAddr: Addr, bytes: nat)
      requires Valid() && allocMode == 1 && 0 < roundedBytes <= availableBytes && Aligned(roundedBytes)
      requires availableBytes == Available(memoryLimit, totalRegionAllocatedBytes)
      requires DeviceOk(regionManager.spans, device)
      requires currRegionAllocationBytes > 0 && Settles(device, roundedBytes, FirstSizeFor(roundedBytes))
      modifies `currRegionAllocationBytes
      ensures Valid()
      ensures memAddr == NULL <==> RefusedAll(device, roundedBytes, SizesFrom(old(FirstSizeFor(roundedBytes))))
      ensures var grown := if memAddr == NULL then None else Some(Span(memAddr, bytes));
              && grown == old(ReplyTo(roundedBytes, device))
              && currRegionAllocationBytes == old(CounterAfter(roundedBytes, grown))
    {
      FirstSizeFits(Rules(), totalRegionAllocatedBytes, currRegionAllocationBytes, roundedBytes);
      var increasedAllocation := RaiseRegionSize(roundedBytes);
      var first := FirstAttempt(currRegionAllocationBytes, availableBytes, limitAlloc);
      memAddr, bytes := RequestRegion(roundedBytes, first, device);
      if memAddr != NULL && !increasedAllocation {
        DoubleRegionSize();
      }
    }

    method ExtendLarge(roundedBytes: nat, device: Device)
      returns (ok: bool, ghost grown: Option<Span>)
      requires Valid() && allocMode == 1 && 0 < roundedBytes < WORD && Aligned(roundedBytes)
      requires DeviceOk(regionManager.spans, device)
      requires roundedBytes <= Available(memoryLimit, totalRegionAllocatedBytes) ==>
                 && currRegionAllocationBytes > 0
                 && Settles(device, roundedBytes, FirstSizeFor(roundedBytes))
      modifies this, regionManager
      ensures Valid() && ok == grown.Some?
      ensures grown == old(ReplyTo(roundedBytes, device))
      ensures ok <==>
                && roundedBytes <= Available(memoryLimit, old(totalRegionAllocatedBytes))
                && !RefusedAll(device, roundedBytes, SizesFrom(old(FirstSizeFor(roundedBytes))))
      ensures ok ==>
              Extended(old(arena), grown.value, arena)
                  && (roundedBytes <= grown.value.size <==> roundedBytes <= limitAlloc)
      ensures !ok ==> arena == old(arena) && OnlyCounterChanged()
      ensures currRegionAllocationBytes == old(CounterAfter(roundedBytes, grown))
      ensures roundedBytes > Available(memoryLimit, old(totalRegionAllocatedBytes)) ==>
                currRegionAllocationBytes == old(currRegionAllocationBytes)
      ensures roundedBytes <= Available(memoryLimit, old(totalRegionAllocatedBytes)) ==>
                CounterRight(old(currRegionAllocationBytes), roundedBytes, ok, currRegionAllocationBytes)
    {
      var availableBytes := Available(memoryLimit, totalRegionAllocatedBytes);
      if roundedBytes > availableBytes {
        return false, None;
      }
      CounterIsRight(Rules(), totalRegionAllocatedBytes, currRegionAllocationBytes, roundedBytes);
      ReplyFits(Rules(), arena, currRegionAllocationBytes, roundedBytes, device);
      var memAddr, bytes := ObtainRegion(roundedBytes, availableBytes, device);
      if memAddr == NULL {
        return false, None;
      }
      AddRegion(memAddr, bytes);
      return true, Some(Span(memAddr, bytes));
    }

    method ExtendSmall(roundedBytes: nat, device: Device) returns (ok: bool, ghost grown: Option<Span>)
      requires Valid() && allocMode == 2 && 0 < roundedBytes < WORD && Aligned(roundedBytes)
      requires DeviceOk(regionManager.spans, device)
      modifies this, regionManager
      ensures Valid() && ok == grown.Some?
      ensures grown == old(ReplyTo(roundedBytes, device))
      ensures ok <==>
                && roundedBytes <= Available(memoryLimit, old(totalRegionAllocatedBytes))
                && device(0, SmallRegion(roundedBytes)) != NULL
      ensures ok ==>
              Extended(old(arena), grown.value, arena) && roundedBytes <= grown.value.size == SmallRegion(roundedBytes)
      ensures ok && roundedBytes <= 1048576 ==> grown.value.size == 2097152
      ensures ok && 1048576 < roundedBytes < 10485760 ==> grown.value.size == 20971520
      ensures ok && 10485760 <= roundedBytes ==>
                roundedBytes <= grown.value.size < roundedBytes + 2097152 && grown.value.size % 2097152 == 0
      ensures ok ==> totalRegionAllocatedBytes == old(totalRegionAllocatedBytes) + grown.value.size
      ensures ok ==> (totalRegionAllocatedBytes <= memoryLimit <==>
                        && old(totalRegionAllocatedBytes) <= memoryLimit
                        && SmallRegion(roundedBytes) <= Available(memoryLimit, old(totalRegionAllocatedBytes)))
      ensures !ok ==> unchanged(this) && unchanged(regionManager)
      ensures currRegionAllocationBytes == old(currRegionAllocationBytes)
    {
      var availableBytes := Available(memoryLimit, totalRegionAllocatedBytes);
      if roundedBytes > availableBytes {
        return false, None;
      }
      var bytes := SmallRegion(roundedBytes);
      SmallRegionFits(roundedBytes);
      SmallRegionExact(roundedBytes);
      SmallWithinLimitIff(memoryLimit, totalRegionAllocatedBytes, roundedBytes);
      var memAddr := device(0, bytes);
      if memAddr == NULL {
        return false, None;
      }
      AddRegion(memAddr, bytes);
      return true, Some(Span(memAddr, bytes));
    }

    method Extend(roundedBytes: nat, device: Device) returns (ok: bool, ghost grown: Option<Span>)
      requires Valid() && 0 < roundedBytes < WORD && Aligned(roundedBytes)
      requires DeviceOk(regionManager.spans, device)
      requires allocMode == 1 && roundedBytes <= Available(memoryLimit, totalRegionAllocatedBytes) ==>
                 && currRegionAllocationBytes > 0
                 && Settles(device, roundedBytes, FirstSizeFor(roundedBytes))
      modifies this, regionManager
      ensures Valid() && ok == grown.Some?
      ensures grown == old(ReplyTo(roundedBytes, device)) && (allocMode != 1 && allocMode != 2 ==> !ok)
      ensures ok ==> Extended(old(arena), grown.value, arena)
      ensures ok ==> (roundedBytes <= grown.value.size <==> allocMode == 2 || roundedBytes <= limitAlloc)
      ensures !ok ==> arena == old(arena) && OnlyCounterChanged()
      ensures currRegionAllocationBytes == old(CounterAfter(roundedBytes, grown))
    {
      if allocMode == 1 {
        ok, grown := ExtendLarge(roundedBytes, device);
      } else if allocMode == 2 {
        ok, grown := ExtendSmall(roundedBytes, device);
      } else {
        ok, grown := false, None;
      }
    }

    ghost function FirstSizeFor(m: nat): nat
      reads this
    {
      FirstSize(Rules(), totalRegionAllocatedBytes, currRegionAllocationBytes, m)
    }

    ghost function ReplyTo(m: nat, device: Device): Option<Span>
      reads this
    {
      Reply(Rules(), totalRegionAllocatedBytes, currRegionAllocationBytes, m, device)
    }

    ghost function CounterAfter(m: nat, grown: Option<Span>): nat
      reads this
    {
      NextCounter(Rules(), totalRegionAllocatedBytes, currRegionAllocationBytes, m, grown)
    }

    twostate predicate OnlyCounterChanged()
      reads this, regionManager
    {
      && unchanged(regionManager)
      && unchanged(`chunks, `bins, `freeChunksList, `totalRegionAllocatedBytes, `home, `slots, `arena)
    }

    // ---- The public calls ----

    method AllocateRaw(numBytes: nat, device: Device)
      returns (ptr: Addr, ghost grown: Option<Span>)
      requires Valid() && numBytes <= WORD - 256
      requires DeviceOk(regionManager.spans, device)
      requires !Hangs(Rules(), arena, currRegionAllocationBytes, numBytes)
      requires !Lingers(Rules(), arena, currRegionAllocationBytes, numBytes, device)
      modifies this, regionManager
      ensures Valid() && AllocStep(old(arena), numBytes, grown, ptr, arena)
      ensures Answers(Rules(), device, old(arena), old(currRegionAllocationBytes), numBytes, grown,
              currRegionAllocationBytes)
      ensures grown.Some? ==> (ptr != NULL <==> allocMode == 2 || RoundedBytes(numBytes) <= limitAlloc)
      ensures ptr != NULL ==>
                && ptr in arena.used
                && RoundedBytes(numBytes) <= arena.used[ptr].size < 2 * RoundedBytes(numBytes)
                && arena.used[ptr].size < RoundedBytes(numBytes) + 134217728
                && TakesRight(if grown.Some? then Grow(old(arena), grown.value) else old(arena),
                              RoundedBytes(numBytes), ptr, arena.used[ptr].size)
    {
      grown := None;
      if numBytes == 0 {
        return NULL, None;
      }
      RoundedBytesExact(numBytes);
      var roundedBytes := RoundedBytes(numBytes);
      var binNum := BinNumForSize(roundedBytes);
      ghost var a := arena;
      ptr := FindChunkPtr(binNum, roundedBytes, numBytes);
      PlacesKeepsSafe(a, roundedBytes, numBytes, ptr, arena);
      if ptr != NULL {
        AllocTakesRight(a, numBytes, None, ptr, arena);
        return;
      }
      var ok;
      ok, grown := Extend(roundedBytes, device);
      if ok {
        ghost var b := arena;
        FitsAfterGrowth(a, grown.value, roundedBytes);
        ptr := FindChunkPtr(binNum, roundedBytes, numBytes);
        PlacesKeepsSafe(b, roundedBytes, numBytes, ptr, arena);
        if ptr != NULL {
          AllocTakesRight(a, numBytes, grown, ptr, arena);
        }
      }
    }

    /** Whether `AllocateRaw` would never return; not in the source, where nobody can ask. */
    method WouldHang(numBytes: nat) returns (hangs: bool)
      requires Valid() && numBytes <= WORD - 256
      ensures hangs <==> Hangs(Rules(), arena, currRegionAllocationBytes, numBytes)
    {
      if numBytes == 0 || allocMode != 1 || currRegionAllocationBytes != 0 {
        return false;
      }
      RoundedBytesExact(numBytes);
      var m := RoundedBytes(numBytes);
      var found, b, citer := FirstFit(BinNumForSize(m), m);
      if found {
        BestChunkIsBestFit(Table(), arena, bins[b][citer], m);
      } else {
        NoChunkNoGap(Table(), arena, m);
      }
      return !found && m <= Available(memoryLimit, totalRegionAllocatedBytes);
    }

    /** The lookup and the mark of `DeallocateRaw`; the chunk is then free but still in no bin. */
    method Release(ptr: Addr) returns (h: Handle)
      requires Core({}) && Coalesced(Table(), INVALID) && ptr in arena.used
      modifies `chunks, `arena
      ensures Core({h}) && Coalesced(Table(), h) && IsFreeChunk(Table(), h)
      ensures FreeStep(old(arena), ptr, arena)
    {
      ghost var t := Table();
      BlockChunk(t, arena, ptr);
      WithinOnSlot(regionManager.regions, regionManager.spans, home[t.at[ptr]], ptr);
      h := regionManager.GetHandle(ptr);
      assert h != INVALID; // ITEX_CHECK
      assert BinnedOk(chunks, {}, h);
      chunks := chunks[h := chunks[h].(allocationId := NOT_IN_USE)];
      ReleaseChunk(t, h, Table(), arena);
      arena := arena.(used := arena.used - {ptr});
      SlotsFrame(t.chunks, home.Keys, slots, freeChunksList, chunks);
      BinsCarry(t.chunks, home.Keys, bins, {}, chunks, home.Keys, {h});
    }

    method DeallocateRaw(ptr: Addr)
      requires Valid() && (ptr == NULL || ptr in arena.used)
      modifies this, regionManager
      ensures Valid() && FreeStep(old(arena), ptr, arena)
      ensures currRegionAllocationBytes == old(currRegionAllocationBytes)
    {
      ghost var a := arena;
      NullIsNoBlock(a);
      if ptr == NULL {
        assert a.used - {NULL} == a.used;
        return;
      }
      var h := Release(ptr);
      FreeKeepsSafe(a, ptr, arena);
      var coalesced := TryToCoalesce(h);
      ghost var u := Table();
      InsertFreeChunkIntoBin(coalesced, {coalesced});
      RebinnedCoalesced(u, Table(), INVALID);
      assert {coalesced} - {coalesced} == {};
    }
  }
}
