/** What a client sees over several calls: an allocation given back leaves no trace, and the bins are a
    function of the free space. */
module RoundTrips {
  import opened Wrappers
  import opened Sizing
  import opened Arenas
  import opened Chunks
  import opened Bins
  import opened Accounting
  import opened Extension
  import opened Bfc

  datatype Key = Key(size: nat, ptr: Addr)

  predicate KeyBefore(x: Key, y: Key) {
    if x.size != y.size then x.size < y.size else x.ptr < y.ptr
  }

  ghost predicate KeysSorted(ks: seq<Key>) {
    forall i, j {:trigger KeyBefore(ks[i], ks[j])} :: 0 <= i < j < |ks| ==> KeyBefore(ks[i], ks[j])
  }

  lemma TailHolds(ks: seq<Key>, x: Key)
    requires ks != [] && KeysSorted(ks)
    ensures x in ks[1..] <==> x in ks && x != ks[0]
  {
    if x in ks && x != ks[0] {
      var i :| 0 <= i < |ks| && ks[i] == x;
      assert ks[1..][i - 1] == x;
    }
    if x in ks[1..] {
      var i :| 0 <= i < |ks[1..]| && ks[1..][i] == x;
      assert KeyBefore(ks[0], ks[i + 1]);
    }
  }

  lemma TailSorted(ks: seq<Key>)
    requires ks != [] && KeysSorted(ks)
    ensures KeysSorted(ks[1..])
  {
    forall i, j | 0 <= i < j < |ks[1..]| ensures KeyBefore(ks[1..][i], ks[1..][j]) {
      assert KeyBefore(ks[i + 1], ks[j + 1]);
    }
  }

  lemma LeastFirst(ks: seq<Key>, x: Key)
    requires KeysSorted(ks) && x in ks
    ensures x == ks[0] || KeyBefore(ks[0], x)
  {
    var i :| 0 <= i < |ks| && ks[i] == x;
    assert i > 0 ==> KeyBefore(ks[0], ks[i]);
  }

  /** A strictly sorted sequence is determined by its members. */
  lemma {:induction false} SortedUnique(ks: seq<Key>, ls: seq<Key>)
    requires KeysSorted(ks) && KeysSorted(ls) && forall x :: x in ks <==> x in ls
    ensures ks == ls
  {
    assert ks != [] ==> ks[0] in ks;
    assert ls != [] ==> ls[0] in ls;
    if ks != [] {
      LeastFirst(ks, ls[0]);
      LeastFirst(ls, ks[0]);
      TailSorted(ks);
      TailSorted(ls);
      forall x ensures x in ks[1..] <==> x in ls[1..] {
        TailHolds(ks, x);
        TailHolds(ls, x);
      }
      SortedUnique(ks[1..], ls[1..]);
      assert ks == [ks[0]] + ks[1..] && ls == [ls[0]] + ls[1..];
    }
  }

  /** The contents of a bin in order, without the handle numbers. */
  ghost function Keys(chunks: seq<Chunk>, s: seq<Handle>): seq<Key>
    requires InTable(chunks, s)
  {
    seq(|s|, i requires 0 <= i < |s| => Key(chunks[s[i]].size, chunks[s[i]].ptr))
  }

  ghost predicate Whole(t: Tiling, a: Arena, bins: seq<seq<Handle>>) {
    Tiled(t) && Coalesced(t, INVALID) && Shows(t, a) && BinsOk(t.chunks, t.home.Keys, bins, {})
  }

  lemma BinInTable(t: Tiling, bins: seq<seq<Handle>>, b: nat)
    requires BinsOk(t.chunks, t.home.Keys, bins, {}) && b < NUM_BINS
    ensures InTable(t.chunks, bins[b]) && KeysSorted(Keys(t.chunks, bins[b]))
  {
    assert Ordered(t.chunks, bins[b]);
    var ks := Keys(t.chunks, bins[b]);
    forall i, j | 0 <= i < j < |ks| ensures KeyBefore(ks[i], ks[j]) {
      assert Before(t.chunks[bins[b][i]], t.chunks[bins[b][j]]);
    }
  }

  /** Bin `b` holds exactly the free intervals of its sizes. */
  lemma BinHolds(t: Tiling, a: Arena, bins: seq<seq<Handle>>, b: nat, k: Key)
    requires Whole(t, a, bins) && b < NUM_BINS && InTable(t.chunks, bins[b])
    ensures k in Keys(t.chunks, bins[b]) <==>
            k.ptr in FreeSizes(t) && FreeSizes(t)[k.ptr] == k.size && BinNumForSize(k.size) == b
  {
    var ks := Keys(t.chunks, bins[b]);
    if k in ks {
      var i :| 0 <= i < |ks| && ks[i] == k;
      var h := bins[b][i];
      assert h in bins[b] && InBin(t.chunks, t.home.Keys, h, b) && BinnedOk(t.chunks, {}, h) && ChunkOk(t, h);
    }
    if k.ptr in FreeSizes(t) && FreeSizes(t)[k.ptr] == k.size && BinNumForSize(k.size) == b {
      var h := t.at[k.ptr];
      assert StartOk(t, k.ptr) && BinnedOk(t.chunks, {}, h) && InBin(t.chunks, t.home.Keys, h, b) && h in bins[b];
      var i :| 0 <= i < |bins[b]| && bins[b][i] == h;
      assert ks[i] == k;
    }
  }

  /** The reference state determines the free chunks and every bin, up to handle numbers. */
  lemma BinsDetermined(t: Tiling, tBins: seq<seq<Handle>>, u: Tiling, uBins: seq<seq<Handle>>, a: Arena, b: nat)
    requires Whole(t, a, tBins) && Whole(u, a, uBins) && b < NUM_BINS
    ensures InTable(t.chunks, tBins[b]) && InTable(u.chunks, uBins[b])
    ensures Keys(t.chunks, tBins[b]) == Keys(u.chunks, uBins[b])
  {
    FreeSpaceDetermined(t, u, a);
    BinInTable(t, tBins, b);
    BinInTable(u, uBins, b);
    forall k ensures k in Keys(t.chunks, tBins[b]) <==> k in Keys(u.chunks, uBins[b]) {
      BinHolds(t, a, tBins, b, k);
      BinHolds(u, a, uBins, b, k);
    }
    SortedUnique(Keys(t.chunks, tBins[b]), Keys(u.chunks, uBins[b]));
  }

  /** In the reference, freeing the result of an allocation that did not grow the arena undoes it. */
  lemma FreeUndoesAlloc(a: Arena, bytes: nat, r: Addr, b: Arena, c: Arena)
    requires Safe(a) && AllocStep(a, bytes, None, r, b) && FreeStep(b, r, c)
    ensures c == a
  {
    var m := RoundedBytes(bytes);
    NullIsNoBlock(a);
    if bytes > 0 && FitsSomewhere(a, m) {
      var n: nat, base: Addr :|
          IsBestFit(a, m, r, n, base) && b == a.(used := a.used[r := Block(Carve(n, m), bytes, base)]);
      GapHoldsNoBlock(a, r, n, base);
    }
    assert c.used == a.used;
  }

  /** Allocating and at once giving back, served from the pool, restores the free intervals and the bins
      exactly, whether or not a chunk was split on the way. */
  method AllocateAndReturn(pool: BfcAllocator, numBytes: nat, device: Device)
    returns (ghost grown: Option<Span>)
    requires pool.Valid() && numBytes <= WORD - 256 && DeviceOk(pool.regionManager.spans, device)
    requires !Hangs(pool.Rules(), pool.arena, pool.currRegionAllocationBytes, numBytes)
    requires !Lingers(pool.Rules(), pool.arena, pool.currRegionAllocationBytes, numBytes, device)
    modifies pool, pool.regionManager
    ensures pool.Valid()
    ensures FitsSomewhere(old(pool.arena), RoundedBytes(numBytes)) ==> grown.None?
    ensures grown.None? ==>
              && pool.arena == old(pool.arena)
              && FreeSizes(pool.Table()) == old(FreeSizes(pool.Table()))
              && forall b: nat :: b < NUM_BINS ==>
                   && InTable(pool.chunks, pool.bins[b]) && old(InTable(pool.chunks, pool.bins[b]))
                   && Keys(pool.chunks, pool.bins[b]) == old(Keys(pool.chunks, pool.bins[b]))
  {
    ghost var t, tBins, a := pool.Table(), pool.bins, pool.arena;
    var ptr;
    ptr, grown := pool.AllocateRaw(numBytes, device);
    ghost var b := pool.arena;
    HeldAfterAlloc(a, numBytes, grown, ptr, b);
    pool.DeallocateRaw(ptr);
    if grown.None? {
      FreeUndoesAlloc(a, numBytes, ptr, b, pool.arena);
      FreeSpaceDetermined(t, pool.Table(), a);
      forall i: nat | i < NUM_BINS
        ensures InTable(pool.chunks, pool.bins[i]) && InTable(t.chunks, tBins[i])
        ensures Keys(pool.chunks, pool.bins[i]) == Keys(t.chunks, tBins[i])
      {
        BinsDetermined(t, tBins, pool.Table(), pool.bins, a, i);
      }
    }
  }

  /** A successful allocation is held, so it may be freed. */
  lemma HeldAfterAlloc(a: Arena, bytes: nat, grown: Option<Span>, r: Addr, b: Arena)
    requires AllocStep(a, bytes, grown, r, b)
    ensures r == NULL || r in b.used
  {
  }

  /** In every state the allocator can reach, chunk sizes add up to the bytes taken from the device; and
      if nothing is in use, each region is again a single free chunk. */
  lemma ReachableAccounts(pool: BfcAllocator)
    requires pool.Valid()
    ensures SumOver(ChunkSizes(pool.Table())) == pool.totalRegionAllocatedBytes
    ensures pool.allocMode == 1 ==> pool.totalRegionAllocatedBytes <= pool.memoryLimit
    ensures pool.arena.used == map[] ==> FreeSizes(pool.Table()) == pool.regionManager.spans
  {
    BytesConserved(pool.Table());
    if pool.arena.used == map[] {
      AllFreeMeansWhole(pool.Table(), pool.arena);
    }
  }
}
