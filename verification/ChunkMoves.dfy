/** What the allocator does to the chunk table: split, merge, add a region, mark and unmark. Each keeps the
    tiling, and its effect on the reference arena is stated. */
module ChunkMoves {
  import opened Sizing
  import opened Arenas
  import opened Chunks

  ghost predicate SameLinks(c: Chunk, d: Chunk) {
    c.size == d.size && c.ptr == d.ptr && c.prev == d.prev && c.next == d.next
  }

  /** Changing anything but sizes, addresses and links keeps the tiling. */
  lemma RelabelTiled(t: Tiling, t': Tiling)
    requires Tiled(t) && t'.home == t.home && t'.at == t.at && t'.spans == t.spans && |t.chunks| <= |t'.chunks|
    requires forall h {:trigger t'.chunks[h]} :: h in t.home && 0 <= h < |t.chunks| ==>
             SameLinks(t.chunks[h], t'.chunks[h])
    ensures Tiled(t')
  {
    forall h | h in t'.home ensures ChunkOk(t', h) {
      assert ChunkOk(t, h);
      var c := t.chunks[h];
      assert c.next != INVALID ==> SameLinks(t.chunks[c.next], t'.chunks[c.next]);
      assert c.prev != INVALID ==> SameLinks(t.chunks[c.prev], t'.chunks[c.prev]);
    }
    forall p | p in t'.at ensures StartOk(t', p) {
      assert StartOk(t, p) && ChunkOk(t, t.at[p]);
    }
    forall b | b in t'.spans ensures FirstOk(t', b) {
      assert FirstOk(t, b);
    }
  }

  /** `t'` is `t` with the tail of chunk `h` after `n` bytes turned into chunk `k`. */
  ghost predicate SplitOf(t: Tiling, h: Handle, n: nat, k: Handle, t': Tiling)
    requires h in t.home && 0 <= h < |t.chunks|
  {
    var c := t.chunks[h];
    && k !in t.home && 0 <= k < |t'.chunks| && |t.chunks| <= |t'.chunks| && 0 < n < c.size && Aligned(n)
    && t'.home == t.home[k := t.home[h]] && t'.at == t.at[c.ptr + n := k] && t'.spans == t.spans
    && (forall g {:trigger t'.chunks[g]} :: g in t.home && 0 <= g < |t.chunks| ==>
          var o, d := t.chunks[g], t'.chunks[g];
          && d.ptr == o.ptr
          && d.size == (if g == h then n else o.size)
          && d.next == (if g == h then k else o.next)
          && d.prev == (if g == c.next then k else o.prev))
    && var d := t'.chunks[k];
    && d.ptr == c.ptr + n && d.size == c.size - n && d.prev == h && d.next == c.next
  }

  lemma SplitTiled(t: Tiling, h: Handle, n: nat, k: Handle, t': Tiling)
    requires Tiled(t) && h in t.home && 0 <= h < |t.chunks| && SplitOf(t, h, n, k, t')
    ensures Tiled(t') && t.chunks[h].ptr + n !in t.at
  {
    SplitStartsOk(t, h, n, k, t');
    forall b | b in t'.spans ensures FirstOk(t', b) {
      assert FirstOk(t, b);
    }
    forall g | g in t'.home ensures ChunkOk(t', g) {
      if g == k {
        SplitTailOk(t, h, n, k, t');
      } else {
        SplitChunkOk(t, h, n, k, t', g);
      }
    }
  }

  lemma SplitStartsOk(t: Tiling, h: Handle, n: nat, k: Handle, t': Tiling)
    requires Tiled(t) && h in t.home && 0 <= h < |t.chunks| && SplitOf(t, h, n, k, t')
    ensures t.chunks[h].ptr + n !in t.at
    ensures forall p :: p in t'.at ==> StartOk(t', p)
  {
    assert ChunkOk(t, h);
    forall p | p in t.at ensures p != t.chunks[h].ptr + n && StartOk(t', p) {
      assert StartOk(t, p) && ChunkOk(t, t.at[p]);
      if t.at[p] != h { ChunksApart(t, h, t.at[p]); }
    }
  }

  lemma SplitTailOk(t: Tiling, h: Handle, n: nat, k: Handle, t': Tiling)
    requires Tiled(t) && h in t.home && 0 <= h < |t.chunks| && SplitOf(t, h, n, k, t')
    ensures ChunkOk(t', k)
  {
    assert ChunkOk(t, h);
    var c := t.chunks[h];
    if c.next != INVALID {
      assert ChunkOk(t, c.next) && t'.chunks[c.next].ptr == t.chunks[c.next].ptr;
    }
    AlignedSum(c.ptr - t.home[h], n);
    AlignedSum(c.size, n);
    assert Seated(t', k);
    assert NextOk(t', k);
    assert PrevOk(t', k);
  }

  lemma SplitChunkOk(t: Tiling, h: Handle, n: nat, k: Handle, t': Tiling, g: Handle)
    requires Tiled(t) && h in t.home && 0 <= h < |t.chunks| && SplitOf(t, h, n, k, t')
    requires g in t.home && t.chunks[h].ptr + n !in t.at
    ensures ChunkOk(t', g)
  {
    assert ChunkOk(t, g) && ChunkOk(t, h);
    var o := t.chunks[g];
    if o.next != INVALID {
      assert ChunkOk(t, o.next) && t'.chunks[o.next].ptr == t.chunks[o.next].ptr;
    }
    if o.prev != INVALID {
      assert ChunkOk(t, o.prev) && t'.chunks[o.prev].ptr == t.chunks[o.prev].ptr;
    }
    assert Seated(t', g);
    assert NextOk(t', g);
    assert PrevOk(t', g);
  }

  /** `t'` is `t` with chunk `k` absorbed by its left neighbour `h`. */
  ghost predicate MergeOf(t: Tiling, h: Handle, k: Handle, t': Tiling)
    requires h in t.home && 0 <= h < |t.chunks| && k in t.home && 0 <= k < |t.chunks|
  {
    var c, e := t.chunks[h], t.chunks[k];
    && c.next == k && |t'.chunks| == |t.chunks|
    && t'.home == t.home - {k} && t'.at == t.at - {e.ptr} && t'.spans == t.spans
    && (forall g {:trigger t'.chunks[g]} :: g in t.home && g != k && 0 <= g < |t.chunks| ==>
          var o, d := t.chunks[g], t'.chunks[g];
          && d.ptr == o.ptr
          && d.size == (if g == h then c.size + e.size else o.size)
          && d.next == (if g == h then e.next else o.next)
          && d.prev == (if g == e.next then h else o.prev))
  }

  lemma MergeTiled(t: Tiling, h: Handle, k: Handle, t': Tiling)
    requires Tiled(t) && h in t.home && 0 <= h < |t.chunks| && k in t.home && 0 <= k < |t.chunks|
             && MergeOf(t, h, k, t')
    ensures Tiled(t')
  {
    assert ChunkOk(t, h) && ChunkOk(t, k);
    forall p | p in t'.at ensures StartOk(t', p) {
      assert StartOk(t, p) && ChunkOk(t, t.at[p]);
    }
    forall b | b in t'.spans ensures FirstOk(t', b) {
      assert FirstOk(t, b) && StartOk(t, b);
    }
    forall g | g in t'.home ensures ChunkOk(t', g) {
      MergeChunkOk(t, h, k, t', g);
    }
  }

  lemma MergeChunkOk(t: Tiling, h: Handle, k: Handle, t': Tiling, g: Handle)
    requires Tiled(t) && h in t.home && 0 <= h < |t.chunks| && k in t.home && 0 <= k < |t.chunks|
             && MergeOf(t, h, k, t')
    requires g in t'.home
    ensures ChunkOk(t', g)
  {
    assert ChunkOk(t, g) && ChunkOk(t, h) && ChunkOk(t, k);
    AlignedSum(t.chunks[h].size, t.chunks[k].size);
    assert Seated(t', g);
    MergeNextOk(t, h, k, t', g);
    var o := t.chunks[g];
    if o.prev != INVALID {
      assert ChunkOk(t, o.prev);
      assert o.prev != k ==> t'.chunks[o.prev].ptr == t.chunks[o.prev].ptr;
    }
  }

  lemma MergeNextOk(t: Tiling, h: Handle, k: Handle, t': Tiling, g: Handle)
    requires Tiled(t) && h in t.home && 0 <= h < |t.chunks| && k in t.home && 0 <= k < |t.chunks|
             && MergeOf(t, h, k, t')
    requires g in t'.home && ChunkOk(t, g) && ChunkOk(t, h) && ChunkOk(t, k) && Seated(t', g)
    ensures NextOk(t', g)
  {
    var n := if g == h then t.chunks[k].next else t.chunks[g].next;
    if n != INVALID {
      assert ChunkOk(t, n) && t'.chunks[n].ptr == t.chunks[n].ptr;
    }
  }

  /** `t'` is `t` with a new region `s` made of the single chunk `k`. */
  ghost predicate GrowthOf(t: Tiling, s: Span, k: Handle, t': Tiling) {
    && k !in t.home && 0 <= k < |t'.chunks| && |t.chunks| <= |t'.chunks|
    && FreshSpan(t.spans, s.base, s.size) && Aligned(s.size)
    && t'.home == t.home[k := s.base] && t'.at == t.at[s.base := k] && t'.spans == t.spans[s.base := s.size]
    && (forall g {:trigger t'.chunks[g]} :: g in t.home && 0 <= g < |t.chunks| ==> SameLinks(t.chunks[g], t'.chunks[g]))
    && var d := t'.chunks[k];
    && d.ptr == s.base && d.size == s.size && d.prev == INVALID && d.next == INVALID
  }

  lemma GrowTiled(t: Tiling, s: Span, k: Handle, t': Tiling)
    requires Tiled(t) && GrowthOf(t, s, k, t')
    ensures Tiled(t') && s.base !in t.at && s.base !in t.spans
  {
    SpansGrow(t.spans, s);
    forall p | p in t.at ensures p != s.base && StartOk(t', p) {
      assert StartOk(t, p) && ChunkOk(t, t.at[p]);
      var b := t.home[t.at[p]];
      assert Apart(s.base, s.size, b, t.spans[b]);
    }
    assert StartOk(t', s.base);
    forall b | b in t'.spans ensures FirstOk(t', b) {
      if b != s.base { assert FirstOk(t, b); }
    }
    forall g | g in t'.home ensures ChunkOk(t', g) {
      if g == k {
        assert Seated(t', k) && NextOk(t', k) && PrevOk(t', k);
      } else {
        assert ChunkOk(t, g) && SameLinks(t.chunks[g], t'.chunks[g]);
        var c := t.chunks[g];
        assert c.next != INVALID ==> SameLinks(t.chunks[c.next], t'.chunks[c.next]);
        assert c.prev != INVALID ==> SameLinks(t.chunks[c.prev], t'.chunks[c.prev]);
        assert Seated(t', g) && NextOk(t', g) && PrevOk(t', g);
      }
    }
  }

  // ---- What the steps do to the arena ----

  ghost predicate SameUse(c: Chunk, d: Chunk) {
    c.InUse() == d.InUse() && c.requestedSize == d.requestedSize
  }

  /** Only bin numbers may differ. */
  ghost predicate Rebinned(t: Tiling, t': Tiling) {
    && t'.home == t.home && t'.at == t.at && t'.spans == t.spans && |t'.chunks| == |t.chunks|
    && forall h {:trigger t'.chunks[h]} :: 0 <= h < |t.chunks| ==>
         SameLinks(t.chunks[h], t'.chunks[h]) && SameUse(t.chunks[h], t'.chunks[h])
  }

  lemma RebinnedSame(t: Tiling, t': Tiling, a: Arena)
    requires Tiled(t) && Rebinned(t, t') && Shows(t, a)
    ensures Tiled(t') && Shows(t', a)
  {
    RelabelTiled(t, t');
    forall p ensures ShowsAt(t', a, p) {
      assert ShowsAt(t, a, p);
      assert p in t.at ==> StartOk(t, p) && StartOk(t', p);
    }
  }

  lemma RebinnedCoalesced(t: Tiling, t': Tiling, skip: Handle)
    requires Rebinned(t, t') && Coalesced(t, skip)
    ensures Coalesced(t', skip)
  {
    forall h | h in t'.home && 0 <= h < |t'.chunks| && h != skip && t'.chunks[h].next != skip ensures Isolated(t', h) {
      assert SameLinks(t.chunks[h], t'.chunks[h]) && Isolated(t, h);
    }
  }

  /** Use marks agree wherever both tables have a live chunk, and what is new is free. */
  ghost predicate UseKept(t: Tiling, t': Tiling) {
    forall h {:trigger t'.chunks[h]} :: h in t'.home && 0 <= h < |t'.chunks| ==>
      if h in t.home && h < |t.chunks| then SameUse(t.chunks[h], t'.chunks[h]) else !t'.chunks[h].InUse()
  }

  lemma SplitKeepsArena(t: Tiling, h: Handle, n: nat, k: Handle, t': Tiling, a: Arena)
    requires Tiled(t) && IsFreeChunk(t, h) && SplitOf(t, h, n, k, t') && UseKept(t, t') && Shows(t, a)
    ensures Tiled(t') && Shows(t', a)
  {
    SplitTiled(t, h, n, k, t');
    forall p ensures ShowsAt(t', a, p) {
      assert ShowsAt(t, a, p);
      assert p in t'.at ==> StartOk(t', p);
      assert p in t.at ==> StartOk(t, p) && ChunkOk(t, t.at[p]);
    }
  }

  /** Splitting a free chunk leaves the new free neighbours as the only exception. */
  lemma SplitCoalesced(t: Tiling, h: Handle, n: nat, k: Handle, t': Tiling)
    requires Tiled(t) && Coalesced(t, INVALID) && IsFreeChunk(t, h) && SplitOf(t, h, n, k, t') && UseKept(t, t')
    ensures Coalesced(t', h)
  {
    assert ChunkOk(t, h) && Isolated(t, h);
    forall g | g in t'.home && 0 <= g < |t'.chunks| && g != h && t'.chunks[g].next != h ensures Isolated(t', g) {
      if g == k {
        assert t.chunks[h].next != INVALID ==> ChunkOk(t, t.chunks[h].next);
      } else {
        assert ChunkOk(t, g) && Isolated(t, g);
        assert t.chunks[g].next != INVALID ==> ChunkOk(t, t.chunks[g].next);
      }
    }
  }

  /** `t'` is `t` with the use mark of chunk `h` changed. */
  ghost predicate MarkedOf(t: Tiling, h: Handle, t': Tiling) {
    && 0 <= h < |t.chunks| && |t'.chunks| == |t.chunks|
    && t'.home == t.home && t'.at == t.at && t'.spans == t.spans
    && (forall g {:trigger t'.chunks[g]} :: 0 <= g < |t.chunks| ==>
          SameLinks(t.chunks[g], t'.chunks[g]) && (g != h ==> SameUse(t.chunks[g], t'.chunks[g])))
  }

  /** Handing out the free chunk `h` makes it a block and removes the exception around it. */
  lemma TakeChunk(t: Tiling, h: Handle, bytes: nat, t': Tiling, a: Arena)
    requires Tiled(t) && Coalesced(t, h) && IsFreeChunk(t, h) && Shows(t, a)
    requires MarkedOf(t, h, t') && t'.chunks[h].InUse() && t'.chunks[h].requestedSize == bytes
    ensures Tiled(t') && Coalesced(t', INVALID)
    ensures Shows(t', a.(used := a.used[t.chunks[h].ptr := Block(t.chunks[h].size, bytes, t.home[h])]))
  {
    RelabelTiled(t, t');
    assert ChunkOk(t, h);
    var a' := a.(used := a.used[t.chunks[h].ptr := Block(t.chunks[h].size, bytes, t.home[h])]);
    forall p ensures ShowsAt(t', a', p) {
      assert ShowsAt(t, a, p);
      assert p in t.at ==> StartOk(t, p) && StartOk(t', p);
    }
    forall g | g in t'.home && 0 <= g < |t'.chunks| ensures Isolated(t', g) {
      if g != h && t.chunks[g].next != h { assert Isolated(t, g); }
    }
  }

  lemma ReleaseChunk(t: Tiling, h: Handle, t': Tiling, a: Arena)
    requires Tiled(t) && Coalesced(t, INVALID) && h in t.home && 0 <= h < |t.chunks| && Shows(t, a)
    requires MarkedOf(t, h, t') && !t'.chunks[h].InUse()
    ensures Tiled(t') && Coalesced(t', h) && Shows(t', a.(used := a.used - {t.chunks[h].ptr}))
  {
    RelabelTiled(t, t');
    assert ChunkOk(t, h);
    var a' := a.(used := a.used - {t.chunks[h].ptr});
    forall p ensures ShowsAt(t', a', p) {
      assert ShowsAt(t, a, p);
      assert p in t.at ==> StartOk(t, p) && StartOk(t', p);
    }
    forall g | g in t'.home && 0 <= g < |t'.chunks| && g != h && t'.chunks[g].next != h ensures Isolated(t', g) {
      assert Isolated(t, g);
    }
  }

  lemma MergeKeepsArena(t: Tiling, h: Handle, k: Handle, t': Tiling, a: Arena)
    requires Tiled(t) && IsFreeChunk(t, h) && IsFreeChunk(t, k) && MergeOf(t, h, k, t') && UseKept(t, t') && Shows(t, a)
    ensures Tiled(t') && Shows(t', a)
  {
    MergeTiled(t, h, k, t');
    assert ChunkOk(t, k);
    forall p ensures ShowsAt(t', a, p) {
      assert ShowsAt(t, a, p);
      assert p in t.at ==> StartOk(t, p) && ChunkOk(t, t.at[p]);
      assert p in t'.at ==> StartOk(t', p);
    }
  }

  /** Absorbing the free right neighbour: the chunk is now followed by a chunk in use, or by none. */
  lemma MergeRight(t: Tiling, h: Handle, k: Handle, t': Tiling)
    requires Tiled(t) && Coalesced(t, h) && IsFreeChunk(t, h) && IsFreeChunk(t, k) && MergeOf(t, h, k, t')
             && UseKept(t, t')
    ensures Coalesced(t', h) && Isolated(t', h)
  {
    assert ChunkOk(t, h) && ChunkOk(t, k);
    var e := t.chunks[k];
    if e.next != INVALID {
      assert ChunkOk(t, e.next) && Isolated(t, k);
    }
    forall g | g in t'.home && 0 <= g < |t'.chunks| && g != h && t'.chunks[g].next != h ensures Isolated(t', g) {
      assert ChunkOk(t, g) && Isolated(t, g);
      assert t.chunks[g].next != INVALID ==> ChunkOk(t, t.chunks[g].next);
    }
  }

  /** Being absorbed by the free left neighbour `p` removes the last exception. */
  lemma MergeLeft(t: Tiling, p: Handle, h: Handle, t': Tiling)
    requires Tiled(t) && Coalesced(t, h) && Isolated(t, h)
    requires IsFreeChunk(t, h) && IsFreeChunk(t, p) && MergeOf(t, p, h, t') && UseKept(t, t')
    ensures Coalesced(t', INVALID)
  {
    assert ChunkOk(t, h) && ChunkOk(t, p);
    assert t.chunks[h].next != INVALID ==> ChunkOk(t, t.chunks[h].next);
    forall g | g in t'.home && 0 <= g < |t'.chunks| ensures Isolated(t', g) {
      assert ChunkOk(t, g);
      assert t.chunks[g].next != INVALID ==> ChunkOk(t, t.chunks[g].next);
      if g != p { assert Isolated(t, g); }
    }
  }

  lemma NothingToTheLeft(t: Tiling, h: Handle)
    requires Tiled(t) && Coalesced(t, h) && Isolated(t, h) && h in t.home && 0 <= h < |t.chunks|
    requires t.chunks[h].prev != INVALID ==> !IsFreeChunk(t, t.chunks[h].prev)
    ensures Coalesced(t, INVALID)
  {
    forall g | g in t.home && 0 <= g < |t.chunks| ensures Isolated(t, g) {
      assert ChunkOk(t, g) && ChunkOk(t, h);
      if g != h && t.chunks[g].next != h { assert Isolated(t, g); }
    }
  }

  lemma GrowArena(t: Tiling, s: Span, k: Handle, t': Tiling, a: Arena)
    requires Tiled(t) && GrowthOf(t, s, k, t') && UseKept(t, t') && Shows(t, a)
    ensures Tiled(t') && Shows(t', Grow(a, s))
  {
    GrowTiled(t, s, k, t');
    forall p ensures ShowsAt(t', Grow(a, s), p) {
      assert ShowsAt(t, a, p);
      assert p in t'.at ==> StartOk(t', p);
      assert p in t.at ==> StartOk(t, p) && ChunkOk(t, t.at[p]);
    }
  }

  lemma GrowCoalesced(t: Tiling, s: Span, k: Handle, t': Tiling)
    requires Tiled(t) && Coalesced(t, INVALID) && GrowthOf(t, s, k, t') && UseKept(t, t')
    ensures Coalesced(t', INVALID)
  {
    forall g | g in t'.home && 0 <= g < |t'.chunks| ensures Isolated(t', g) {
      if g != k {
        assert ChunkOk(t, g) && Isolated(t, g) && SameLinks(t.chunks[g], t'.chunks[g]);
        assert t.chunks[g].next != INVALID ==> ChunkOk(t, t.chunks[g].next);
      }
    }
  }
}
