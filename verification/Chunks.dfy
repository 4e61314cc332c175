/** The chunk table of the allocator, and what its prev/next links say about device memory.
    The invariant `Tiled` is local: it relates each live chunk to its own neighbours only. That chunks
    never overlap, that they cover each region without gaps and that the free ones are exactly the
    maximal gaps between blocks in use are consequences, proved here. */
module Chunks {
  import opened Sizing
  import opened Arenas

  type Handle = int
  /** Stands for `kInvalidChunkHandle`, which no vector index reaches. */
  const INVALID: Handle := -1
  const NO_BIN: int := -1
  const NOT_IN_USE: int := -1

  datatype Chunk = Chunk(
    size: nat, requestedSize: nat, allocationId: int, ptr: Addr,
    prev: Handle, next: Handle, binNum: int)
  {
    predicate InUse() { allocationId != NOT_IN_USE }
    function End(): Addr { ptr + size }
  }

  const BLANK := Chunk(0, 0, NOT_IN_USE, NULL, INVALID, INVALID, NO_BIN)

  /** The chunk table with the live handles (each mapped to the base of its region), the start address
      of each live chunk, and the regions. */
  datatype Tiling = Tiling(chunks: seq<Chunk>, home: map<Handle, Addr>, at: map<Addr, Handle>, spans: map<Addr, nat>)

  ghost predicate NextOk(t: Tiling, h: Handle)
    requires h in t.home && 0 <= h < |t.chunks| && t.home[h] in t.spans
  {
    var c := t.chunks[h];
    if c.next == INVALID then c.End() == t.home[h] + t.spans[t.home[h]]
    else
      && c.next in t.home && 0 <= c.next < |t.chunks| && t.home[c.next] == t.home[h]
      && t.chunks[c.next].ptr == c.End() && t.chunks[c.next].prev == h
  }

  ghost predicate PrevOk(t: Tiling, h: Handle)
    requires h in t.home && 0 <= h < |t.chunks|
  {
    var c := t.chunks[h];
    if c.prev == INVALID then c.ptr == t.home[h]
    else c.prev in t.home && 0 <= c.prev < |t.chunks| && t.home[c.prev] == t.home[h] && t.chunks[c.prev].next == h
  }

  ghost predicate Seated(t: Tiling, h: Handle)
    requires h in t.home
  {
    && 0 <= h < |t.chunks|
    && var c := t.chunks[h];
    && c.size > 0 && Aligned(c.size) && Within(t.spans, t.home[h], c.ptr, c.size) && Aligned(c.ptr - t.home[h])
    && c.ptr in t.at && t.at[c.ptr] == h
  }

  ghost predicate ChunkOk(t: Tiling, h: Handle)
    requires h in t.home
  {
    Seated(t, h) && NextOk(t, h) && PrevOk(t, h)
  }

  ghost predicate StartOk(t: Tiling, p: Addr)
    requires p in t.at
  {
    t.at[p] in t.home && 0 <= t.at[p] < |t.chunks| && t.chunks[t.at[p]].ptr == p
  }

  ghost predicate FirstOk(t: Tiling, b: Addr) {
    b in t.at && t.at[b] in t.home && t.home[t.at[b]] == b
  }

  ghost predicate Tiled(t: Tiling) {
    && SpansOk(t.spans)
    && (forall h {:trigger ChunkOk(t, h)} :: h in t.home ==> ChunkOk(t, h))
    && (forall p {:trigger StartOk(t, p)} :: p in t.at ==> StartOk(t, p))
    && (forall b {:trigger FirstOk(t, b)} :: b in t.spans ==> FirstOk(t, b))
  }

  // ---- No overlap ----

  /** Walking back from the later chunk must meet the earlier one. */
  lemma {:induction false} OrderedInRegion(t: Tiling, g: Handle, h: Handle)
    requires Tiled(t) && g in t.home && h in t.home && t.home[g] == t.home[h]
    requires Seated(t, g) && Seated(t, h) && t.chunks[g].ptr < t.chunks[h].ptr
    ensures t.chunks[g].End() <= t.chunks[h].ptr
    decreases t.chunks[g].ptr + t.chunks[h].ptr
  {
    assert ChunkOk(t, h) && ChunkOk(t, g);
    var p := t.chunks[h].prev;
    assert ChunkOk(t, p);
    if t.chunks[g].ptr < t.chunks[p].ptr {
      OrderedInRegion(t, g, p);
    } else if t.chunks[p].ptr < t.chunks[g].ptr {
      OrderedInRegion(t, p, g);
    }
  }

  lemma ChunksApart(t: Tiling, g: Handle, h: Handle)
    requires Tiled(t) && g in t.home && h in t.home && g != h
    ensures Seated(t, g) && Seated(t, h)
    ensures Apart(t.chunks[g].ptr, t.chunks[g].size, t.chunks[h].ptr, t.chunks[h].size)
  {
    assert ChunkOk(t, g) && ChunkOk(t, h);
    if t.home[g] == t.home[h] {
      if t.chunks[g].ptr < t.chunks[h].ptr {
        OrderedInRegion(t, g, h);
      } else {
        OrderedInRegion(t, h, g);
      }
    } else {
      assert Apart(t.home[g], t.spans[t.home[g]], t.home[h], t.spans[t.home[h]]);
    }
  }

  // ---- No gap ----

  lemma {:induction false} WalkTo(t: Tiling, g: Handle, x: Addr) returns (h: Handle)
    requires Tiled(t) && g in t.home && Seated(t, g)
    requires t.chunks[g].ptr <= x < t.home[g] + t.spans[t.home[g]]
    ensures h in t.home && Seated(t, h) && t.home[h] == t.home[g] && t.chunks[h].ptr <= x < t.chunks[h].End()
    decreases t.home[g] + t.spans[t.home[g]] - t.chunks[g].ptr
  {
    assert ChunkOk(t, g);
    if x < t.chunks[g].End() {
      h := g;
    } else {
      assert ChunkOk(t, t.chunks[g].next);
      h := WalkTo(t, t.chunks[g].next, x);
    }
  }

  /** Every byte of a region lies in one of its chunks. */
  lemma ChunkCovering(t: Tiling, b: Addr, x: Addr) returns (h: Handle)
    requires Tiled(t) && b in t.spans && b <= x < b + t.spans[b]
    ensures h in t.home && Seated(t, h) && t.home[h] == b && t.chunks[h].ptr <= x < t.chunks[h].End()
  {
    assert FirstOk(t, b);
    assert ChunkOk(t, t.at[b]) && StartOk(t, b);
    h := WalkTo(t, t.at[b], x);
  }

  // ---- The reference arena a table stands for ----

  ghost predicate HoldsBlock(t: Tiling, p: Addr) {
    p in t.at && StartOk(t, p) && t.chunks[t.at[p]].InUse()
  }

  ghost predicate ShowsAt(t: Tiling, a: Arena, p: Addr) {
    if HoldsBlock(t, p) then
      var c := t.chunks[t.at[p]];
      p in a.used && a.used[p] == Block(c.size, c.requestedSize, t.home[t.at[p]])
    else p !in a.used
  }

  /** `a` has the regions of the table and, as blocks, exactly its chunks in use. */
  ghost predicate Shows(t: Tiling, a: Arena) {
    a.spans == t.spans && forall p {:trigger ShowsAt(t, a, p)} :: ShowsAt(t, a, p)
  }

  lemma ShowsUnique(t: Tiling, a: Arena, b: Arena)
    requires Shows(t, a) && Shows(t, b)
    ensures a == b
  {
    forall p ensures p in a.used <==> p in b.used {
      assert ShowsAt(t, a, p) && ShowsAt(t, b, p);
    }
    forall p | p in a.used ensures a.used[p] == b.used[p] {
      assert ShowsAt(t, a, p) && ShowsAt(t, b, p);
    }
    assert a.used == b.used;
  }

  lemma BlockChunk(t: Tiling, a: Arena, p: Addr)
    requires Tiled(t) && Shows(t, a) && p in a.used
    ensures p in t.at && StartOk(t, p) && ChunkOk(t, t.at[p]) && t.chunks[t.at[p]].InUse()
    ensures a.used[p].size == t.chunks[t.at[p]].size && a.used[p].base == t.home[t.at[p]]
  {
    assert ShowsAt(t, a, p) && StartOk(t, p) && ChunkOk(t, t.at[p]);
  }

  lemma ChunkBlock(t: Tiling, a: Arena, h: Handle)
    requires Tiled(t) && Shows(t, a) && h in t.home && 0 <= h < |t.chunks|
    ensures ChunkOk(t, h)
    ensures t.chunks[h].InUse() <==> t.chunks[h].ptr in a.used
    ensures t.chunks[h].InUse() ==>
            a.used[t.chunks[h].ptr].size == t.chunks[h].size && a.used[t.chunks[h].ptr].base == t.home[h]
  {
    assert ChunkOk(t, h) && StartOk(t, t.chunks[h].ptr) && ShowsAt(t, a, t.chunks[h].ptr);
  }

  lemma ShowsPlaced(t: Tiling, a: Arena)
    requires Tiled(t) && Shows(t, a)
    ensures Placed(a)
  {
    forall p | p in a.used ensures BlockOk(a, p) {
      BlockChunk(t, a, p);
    }
    forall p, q | p in a.used && q in a.used && p != q ensures Apart(p, a.used[p].size, q, a.used[q].size) {
      BlockChunk(t, a, p);
      BlockChunk(t, a, q);
      ChunksApart(t, t.at[p], t.at[q]);
    }
  }

  /** A free chunk is not followed by a free chunk. */
  ghost predicate Isolated(t: Tiling, h: Handle) {
    0 <= h < |t.chunks| ==>
      var c := t.chunks[h];
      !c.InUse() && 0 <= c.next < |t.chunks| ==> t.chunks[c.next].InUse()
  }

  /** No two neighbours are both free, except that nothing is said around `skip`. */
  ghost predicate Coalesced(t: Tiling, skip: Handle) {
    forall h {:trigger Isolated(t, h)} ::
      h in t.home && 0 <= h < |t.chunks| && h != skip && t.chunks[h].next != skip ==> Isolated(t, h)
  }

  ghost predicate IsFreeChunk(t: Tiling, h: Handle) {
    h in t.home && 0 <= h < |t.chunks| && !t.chunks[h].InUse()
  }

  lemma FreeIsGap(t: Tiling, a: Arena, h: Handle)
    requires Tiled(t) && Coalesced(t, INVALID) && Shows(t, a) && IsFreeChunk(t, h)
    ensures IsGap(a, t.chunks[h].ptr, t.chunks[h].size, t.home[h])
  {
    var c := t.chunks[h];
    assert ChunkOk(t, h);
    forall q | q in a.used ensures Apart(c.ptr, c.size, q, a.used[q].size) {
      BlockChunk(t, a, q);
      ChunksApart(t, h, t.at[q]);
    }
    if c.prev != INVALID {
      assert ChunkOk(t, c.prev) && Isolated(t, c.prev);
      ChunkBlock(t, a, c.prev);
      var d := t.chunks[c.prev];
      assert d.ptr in a.used && a.used[d.ptr].base == t.home[h] && d.ptr + a.used[d.ptr].size == c.ptr;
    }
    if c.next != INVALID {
      assert Isolated(t, h);
      ChunkBlock(t, a, c.next);
    }
  }

  /** The left edge of a gap is the start of a free chunk. */
  lemma GapStartsFree(t: Tiling, a: Arena, p: Addr, n: nat, b: Addr) returns (h: Handle)
    requires Tiled(t) && Shows(t, a) && IsGap(a, p, n, b)
    ensures IsFreeChunk(t, h) && t.home[h] == b && t.chunks[h].ptr == p
  {
    h := ChunkCovering(t, b, p);
    var c := t.chunks[h];
    ChunkBlock(t, a, h);
    assert c.ptr in a.used ==> Apart(p, n, c.ptr, a.used[c.ptr].size);
    if p != b {
      var q :| q in a.used && a.used[q].base == b && q + a.used[q].size == p;
      BlockChunk(t, a, q);
      ChunksApart(t, h, t.at[q]);
    }
  }

  /** The free chunks of a coalesced table are exactly the maximal gaps between the blocks in use. */
  lemma FreeIffGap(t: Tiling, a: Arena, p: Addr, n: nat, b: Addr)
    requires Tiled(t) && Coalesced(t, INVALID) && Shows(t, a)
    ensures IsGap(a, p, n, b) <==>
            p in t.at && IsFreeChunk(t, t.at[p]) && t.chunks[t.at[p]].size == n && t.home[t.at[p]] == b
  {
    if IsGap(a, p, n, b) {
      var h := GapStartsFree(t, a, p, n, b);
      assert ChunkOk(t, h);
      FreeIsGap(t, a, h);
      ShowsPlaced(t, a);
      GapUnique(a, p, n, b, t.chunks[h].size, b);
    }
    if p in t.at && IsFreeChunk(t, t.at[p]) {
      assert StartOk(t, p);
      FreeIsGap(t, a, t.at[p]);
    }
  }

  /** Free intervals of the table, by start address. */
  ghost function FreeSizes(t: Tiling): map<Addr, nat> {
    map p | p in t.at && IsFreeChunk(t, t.at[p]) :: t.chunks[t.at[p]].size
  }

  ghost predicate SubMap(f: map<Addr, nat>, g: map<Addr, nat>) {
    forall p :: p in f ==> p in g && g[p] == f[p]
  }

  lemma SubMapBothWays(f: map<Addr, nat>, g: map<Addr, nat>)
    requires SubMap(f, g) && SubMap(g, f)
    ensures f == g
  {
  }

  /** The regions and the blocks in use leave no freedom: two tables that agree on them hold the same
      free chunks, whatever the order in which memory was split and merged. */
  lemma FreeSpaceDetermined(t: Tiling, u: Tiling, a: Arena)
    requires Tiled(t) && Coalesced(t, INVALID) && Shows(t, a)
    requires Tiled(u) && Coalesced(u, INVALID) && Shows(u, a)
    ensures FreeSizes(t) == FreeSizes(u)
  {
    SubMapBothWays(FreeSizes(t), FreeSizes(u)) by {
      FreeSpaceIncluded(t, u, a);
      FreeSpaceIncluded(u, t, a);
    }
  }

  lemma FreeSpaceIncluded(t: Tiling, u: Tiling, a: Arena)
    requires Tiled(t) && Coalesced(t, INVALID) && Shows(t, a)
    requires Tiled(u) && Coalesced(u, INVALID) && Shows(u, a)
    ensures SubMap(FreeSizes(t), FreeSizes(u))
  {
    forall p | p in FreeSizes(t) ensures p in FreeSizes(u) && FreeSizes(u)[p] == FreeSizes(t)[p] {
      assert StartOk(t, p);
      FreeIsGap(t, a, t.at[p]);
      FreeIffGap(u, a, p, t.chunks[t.at[p]].size, t.home[t.at[p]]);
    }
  }

  /** With nothing in use, each region is one free chunk of its full size. */
  lemma AllFreeMeansWhole(t: Tiling, a: Arena)
    requires Tiled(t) && Coalesced(t, INVALID) && Shows(t, a) && a.used == map[]
    ensures FreeSizes(t) == t.spans && t.at.Keys == t.spans.Keys
  {
    forall p | p in t.at ensures p in t.spans && IsFreeChunk(t, t.at[p]) && t.chunks[t.at[p]].size == t.spans[p] {
      assert StartOk(t, p) && ChunkOk(t, t.at[p]) && ShowsAt(t, a, p);
      FreeIsGap(t, a, t.at[p]);
    }
    forall b | b in t.spans ensures b in t.at {
      assert FirstOk(t, b);
    }
  }
}
