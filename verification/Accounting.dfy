/** Conservation: the chunks of a tiled table account for every byte of every region, once. */
module Accounting {
  import opened Arenas
  import opened Chunks

  ghost function ChunkSizes(t: Tiling): map<Addr, nat> {
    map p | p in t.at && StartOk(t, p) :: t.chunks[t.at[p]].size
  }

  /** The chunks of the region at `b` from address `x` on. */
  ghost function From(t: Tiling, b: Addr, x: Addr): map<Addr, nat> {
    map p | p in t.at && StartOk(t, p) && t.home[t.at[p]] == b && x <= p :: t.chunks[t.at[p]].size
  }

  lemma {:induction false} SumOverUnion(m: map<Addr, nat>, n: map<Addr, nat>)
    requires m.Keys !! n.Keys
    ensures SumOver(m + n) == SumOver(m) + SumOver(n)
    decreases n.Keys
  {
    if n == map[] {
      assert m + n == m;
    } else {
      var k :| k in n;
      SumOverUnion(m, n - {k});
      assert m + n - {k} == m + (n - {k});
      SumOverRemove(m + n, k);
      SumOverRemove(n, k);
    }
  }

  lemma StepFrom(t: Tiling, h: Handle)
    requires Tiled(t) && h in t.home && Seated(t, h)
    ensures From(t, t.home[h], t.chunks[h].ptr)
            == From(t, t.home[h], t.chunks[h].End())[t.chunks[h].ptr := t.chunks[h].size]
  {
    var b, c := t.home[h], t.chunks[h];
    assert ChunkOk(t, h) && StartOk(t, c.ptr);
    forall p | p in t.at && StartOk(t, p) && t.home[t.at[p]] == b && c.ptr <= p ensures p == c.ptr || c.End() <= p {
      assert ChunkOk(t, t.at[p]);
      if t.at[p] != h { ChunksApart(t, h, t.at[p]); }
    }
  }

  /** From any chunk to the end of its region, sizes add up to the distance. */
  lemma {:induction false} FromSum(t: Tiling, h: Handle)
    requires Tiled(t) && h in t.home && Seated(t, h)
    ensures SumOver(From(t, t.home[h], t.chunks[h].ptr)) == t.home[h] + t.spans[t.home[h]] - t.chunks[h].ptr
    decreases t.home[h] + t.spans[t.home[h]] - t.chunks[h].ptr
  {
    var b, c := t.home[h], t.chunks[h];
    assert ChunkOk(t, h);
    StepFrom(t, h);
    SumOverAdd(From(t, b, c.End()), c.ptr, c.size);
    if c.next == INVALID {
      forall p | p in t.at && StartOk(t, p) && t.home[t.at[p]] == b ensures p < c.End() {
        assert ChunkOk(t, t.at[p]);
      }
      assert From(t, b, c.End()) == map[];
    } else {
      assert ChunkOk(t, c.next);
      FromSum(t, c.next);
    }
  }

  /** The chunks of the regions in `s`. */
  ghost function Of(t: Tiling, s: set<Addr>): map<Addr, nat> {
    map p | p in t.at && StartOk(t, p) && t.home[t.at[p]] in s :: t.chunks[t.at[p]].size
  }

  ghost function Restrict(spans: map<Addr, nat>, s: set<Addr>): map<Addr, nat> {
    map b | b in spans && b in s :: spans[b]
  }

  lemma OfSplit(t: Tiling, s: set<Addr>, b: Addr)
    requires Tiled(t) && b in s
    ensures Of(t, s) == Of(t, s - {b}) + From(t, b, b)
  {
    forall p | p in t.at && StartOk(t, p) ensures t.home[t.at[p]] == b ==> b <= p {
      assert ChunkOk(t, t.at[p]);
    }
  }

  lemma {:induction false} OfSum(t: Tiling, s: set<Addr>)
    requires Tiled(t) && s <= t.spans.Keys
    ensures SumOver(Of(t, s)) == SumOver(Restrict(t.spans, s))
  {
    if s == {} {
      assert Of(t, s) == map[] && Restrict(t.spans, s) == map[];
    } else {
      var b :| b in s;
      var rest := s - {b};
      OfSum(t, rest);
      OneRegion(t, b);
      OfSplit(t, s, b);
      SumOverUnion(Of(t, rest), From(t, b, b));
      assert Restrict(t.spans, s) == Restrict(t.spans, rest)[b := t.spans[b]];
      SumOverAdd(Restrict(t.spans, rest), b, t.spans[b]);
    }
  }

  lemma OneRegion(t: Tiling, b: Addr)
    requires Tiled(t) && b in t.spans
    ensures SumOver(From(t, b, b)) == t.spans[b]
  {
    assert FirstOk(t, b) && StartOk(t, b) && ChunkOk(t, t.at[b]);
    FromSum(t, t.at[b]);
  }

  /** Chunk sizes add up to region sizes, over the whole allocator. */
  lemma BytesConserved(t: Tiling)
    requires Tiled(t)
    ensures SumOver(ChunkSizes(t)) == SumOver(t.spans)
  {
    OfSum(t, t.spans.Keys);
    assert Of(t, t.spans.Keys) == ChunkSizes(t) by {
      forall p | p in t.at && StartOk(t, p) ensures t.home[t.at[p]] in t.spans {
        assert ChunkOk(t, t.at[p]);
      }
    }
    assert Restrict(t.spans, t.spans.Keys) == t.spans;
  }
}
