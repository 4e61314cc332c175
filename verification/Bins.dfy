/** The size bins and the recycled chunk slots.
    A bin is a `std::set` of handles whose comparator reads the chunk table, so its meaning can change
    under it; `BinsOk` says that it never does. */
module Bins {
  import opened Sizing
  import opened Arenas
  import opened Chunks

  // ---- Ordered sets under the chunk comparator ----

  predicate InTable(chunks: seq<Chunk>, s: seq<Handle>) {
    forall i :: 0 <= i < |s| ==> 0 <= s[i] < |chunks|
  }

  predicate Before(c: Chunk, d: Chunk) {
    if c.size != d.size then c.size < d.size else c.ptr < d.ptr
  }

  ghost predicate Ordered(chunks: seq<Chunk>, s: seq<Handle>) {
    InTable(chunks, s) && forall i, j {:trigger Before(chunks[s[i]], chunks[s[j]])} :: 0 <= i < j < |s| ==>
        Before(chunks[s[i]], chunks[s[j]])
  }

  /** `std::set::insert`: a handle equivalent to a member is not added. */
  function Insert(chunks: seq<Chunk>, s: seq<Handle>, h: Handle): seq<Handle>
    requires InTable(chunks, s) && 0 <= h < |chunks|
  {
    if s == [] then [h]
    else if Before(chunks[h], chunks[s[0]]) then [h] + s
    else if Before(chunks[s[0]], chunks[h]) then [s[0]] + Insert(chunks, s[1..], h)
    else s
  }

  /** `std::set::erase` by key, with the number of handles removed. */
  function Erase(chunks: seq<Chunk>, s: seq<Handle>, h: Handle): (seq<Handle>, nat)
    requires InTable(chunks, s) && 0 <= h < |chunks|
  {
    if s == [] then (s, 0)
    else if Before(chunks[s[0]], chunks[h]) then
      var (rest, count) := Erase(chunks, s[1..], h);
      ([s[0]] + rest, count)
    else if Before(chunks[h], chunks[s[0]]) then (s, 0)
    else (s[1..], 1)
  }

  ghost predicate AllAfter(chunks: seq<Chunk>, x: Handle, s: seq<Handle>)
    requires 0 <= x < |chunks|
  {
    forall g {:trigger g in s} :: g in s ==> 0 <= g < |chunks| && Before(chunks[x], chunks[g])
  }

  lemma OrderedCons(chunks: seq<Chunk>, x: Handle, s: seq<Handle>)
    requires 0 <= x < |chunks| && Ordered(chunks, s) && AllAfter(chunks, x, s)
    ensures Ordered(chunks, [x] + s)
    ensures forall g :: g in [x] + s <==> g == x || g in s
  {
    forall j | 0 <= j < |s| ensures Before(chunks[x], chunks[s[j]]) {
      assert s[j] in s;
    }
  }

  lemma OrderedUncons(chunks: seq<Chunk>, s: seq<Handle>)
    requires s != [] && Ordered(chunks, s)
    ensures Ordered(chunks, s[1..]) && AllAfter(chunks, s[0], s[1..])
    ensures forall g :: g in s <==> g == s[0] || g in s[1..]
  {
    assert s == [s[0]] + s[1..];
    forall g | g in s[1..] ensures 0 <= g < |chunks| && Before(chunks[s[0]], chunks[g]) {
      var k :| 0 <= k < |s[1..]| && s[1..][k] == g;
      assert s[k + 1] == g;
    }
  }

  lemma {:induction false} InsertOrdered(chunks: seq<Chunk>, s: seq<Handle>, h: Handle)
    requires Ordered(chunks, s) && 0 <= h < |chunks|
    requires forall g {:trigger g in s} :: g in s && 0 <= g < |chunks| ==> chunks[g].ptr != chunks[h].ptr
    ensures Ordered(chunks, Insert(chunks, s, h))
    ensures forall g :: g in Insert(chunks, s, h) <==> g == h || g in s
  {
    if s != [] {
      OrderedUncons(chunks, s);
      assert s[0] in s;
      if Before(chunks[h], chunks[s[0]]) {
        OrderedCons(chunks, h, s);
      } else {
        InsertOrdered(chunks, s[1..], h);
        OrderedCons(chunks, s[0], Insert(chunks, s[1..], h));
      }
    }
  }

  lemma {:induction false} EraseOrdered(chunks: seq<Chunk>, s: seq<Handle>, h: Handle)
    requires Ordered(chunks, s) && h in s
    ensures var (rest, count) := Erase(chunks, s, h);
            && count == 1 && Ordered(chunks, rest)
            && forall g :: g in rest <==> g != h && g in s
  {
    OrderedUncons(chunks, s);
    if s[0] != h {
      EraseOrdered(chunks, s[1..], h);
      OrderedCons(chunks, s[0], Erase(chunks, s[1..], h).0);
    }
  }

  lemma OrderedWithout(chunks: seq<Chunk>, s: seq<Handle>, i: nat)
    requires Ordered(chunks, s) && i < |s|
    ensures Ordered(chunks, s[..i] + s[i + 1..])
    ensures forall g :: g in s[..i] + s[i + 1..] <==> g != s[i] && g in s
  {
    var rest := s[..i] + s[i + 1..];
    forall g ensures g in rest <==> g != s[i] && g in s {
      if g in rest {
        var k :| 0 <= k < |rest| && rest[k] == g;
        var m := if k < i then k else k + 1;
        assert s[m] == g;
        assert m < i ==> Before(chunks[s[m]], chunks[s[i]]);
        assert i < m ==> Before(chunks[s[i]], chunks[s[m]]);
      }
      if g != s[i] && g in s {
        var k :| 0 <= k < |s| && s[k] == g;
        assert rest[if k < i then k else k - 1] == g;
      }
    }
    forall j, k | 0 <= j < k < |rest| ensures Before(chunks[rest[j]], chunks[rest[k]]) {
      assert Before(chunks[s[if j < i then j else j + 1]], chunks[s[if k < i then k else k + 1]]);
    }
  }

  lemma OrderedFrame(chunks: seq<Chunk>, chunks': seq<Chunk>, s: seq<Handle>)
    requires Ordered(chunks, s) && |chunks| <= |chunks'|
    requires forall i :: 0 <= i < |s| ==>
             chunks'[s[i]].size == chunks[s[i]].size && chunks'[s[i]].ptr == chunks[s[i]].ptr
    ensures Ordered(chunks', s)
  {
    forall i, j | 0 <= i < j < |s| ensures Before(chunks'[s[i]], chunks'[s[j]]) {
      assert Before(chunks[s[i]], chunks[s[j]]);
    }
  }

  // ---- The bins of the allocator ----

  /** A chunk outside `out` carries the bin of its size if it is free, and no bin otherwise. */
  ghost predicate BinnedOk(chunks: seq<Chunk>, out: set<Handle>, h: Handle) {
    && 0 <= h < |chunks|
    && var c := chunks[h];
    c.binNum == if c.InUse() || h in out then NO_BIN else BinNumForSize(c.size)
  }

  ghost predicate InBin(chunks: seq<Chunk>, live: set<Handle>, h: Handle, b: int) {
    h in live && 0 <= h < |chunks| && chunks[h].binNum == b
  }

  ghost predicate BinsOk(chunks: seq<Chunk>, live: set<Handle>, bins: seq<seq<Handle>>, out: set<Handle>) {
    && |bins| == NUM_BINS
    && (forall h {:trigger BinnedOk(chunks, out, h)} :: h in live ==> BinnedOk(chunks, out, h))
    && (forall b, h {:trigger h in bins[b]} {:trigger InBin(chunks, live, h, b)} ::
          0 <= b < NUM_BINS ==> (h in bins[b] <==> InBin(chunks, live, h, b)))
    && (forall b {:trigger Ordered(chunks, bins[b])} :: 0 <= b < NUM_BINS ==> Ordered(chunks, bins[b]))
  }

  /** The bins stay right when the binned chunks keep their bin, size and address. */
  lemma BinsFrame(chunks: seq<Chunk>, live: set<Handle>, bins: seq<seq<Handle>>, out: set<Handle>,
                  chunks': seq<Chunk>, live': set<Handle>, out': set<Handle>)
    requires BinsOk(chunks, live, bins, out) && |chunks| <= |chunks'|
    requires forall h {:trigger BinnedOk(chunks', out', h)} :: h in live' ==> BinnedOk(chunks', out', h)
    requires forall b: nat, h {:trigger InBin(chunks', live', h, b)} :: InBin(chunks', live', h, b) <==>
             InBin(chunks, live, h, b)
    requires forall b: nat, h {:trigger InBin(chunks, live, h, b)} ::
               InBin(chunks, live, h, b) ==> chunks'[h].size == chunks[h].size && chunks'[h].ptr == chunks[h].ptr
    ensures BinsOk(chunks', live', bins, out')
  {
    forall b | 0 <= b < NUM_BINS ensures Ordered(chunks', bins[b]) {
      assert Ordered(chunks, bins[b]);
      forall i | 0 <= i < |bins[b]|
        ensures chunks'[bins[b][i]].size == chunks[bins[b][i]].size && chunks'[bins[b][i]].ptr == chunks[bins[b][i]].ptr
      {
        assert bins[b][i] in bins[b];
      }
      OrderedFrame(chunks, chunks', bins[b]);
    }
  }

  /** The chunk's bin does not have to change: it is in none before and after, or keeps its key. */
  ghost predicate Carried(c: Chunk, c': Chunk, out: bool, out': bool) {
    && c'.binNum == c.binNum
    && (c.InUse() || out <==> c'.InUse() || out')
    && (c.InUse() || out || (c'.size == c.size && c'.ptr == c.ptr))
  }

  /** Chunks may come and go, and chunks outside the bins may change, without touching the bins. */
  lemma BinsCarry(chunks: seq<Chunk>, live: set<Handle>, bins: seq<seq<Handle>>, out: set<Handle>,
                  chunks': seq<Chunk>, live': set<Handle>, out': set<Handle>)
    requires BinsOk(chunks, live, bins, out) && |chunks| <= |chunks'|
    requires forall g {:trigger chunks'[g]} :: g in live && g in live' && 0 <= g < |chunks| ==>
               Carried(chunks[g], chunks'[g], g in out, g in out')
    requires forall g {:trigger g in out'} :: g in live' && g !in live ==>
               0 <= g < |chunks'| && g in out' && chunks'[g].binNum == NO_BIN
    requires forall g {:trigger g in out} :: g in live && g !in live' ==> g in out
    ensures BinsOk(chunks', live', bins, out')
  {
    forall g | g in live' ensures BinnedOk(chunks', out', g) {
      assert g in live ==> BinnedOk(chunks, out, g);
      assert g in live ==> Carried(chunks[g], chunks'[g], g in out, g in out');
      assert g !in live ==> g in out';
    }
    forall b: nat, g ensures InBin(chunks', live', g, b) <==> InBin(chunks, live, g, b) {
      assert g in live ==> BinnedOk(chunks, out, g);
      assert g in live && g in live' ==> Carried(chunks[g], chunks'[g], g in out, g in out');
      assert g in live' && g !in live ==> g in out' && chunks'[g].binNum == NO_BIN;
      assert g in live && g !in live' ==> g in out;
    }
    forall b: nat, g | InBin(chunks, live, g, b)
        ensures chunks'[g].size == chunks[g].size && chunks'[g].ptr == chunks[g].ptr {
      assert BinnedOk(chunks, out, g);
    }
    BinsFrame(chunks, live, bins, out, chunks', live', out');
  }

  lemma BinInsert(chunks: seq<Chunk>, live: set<Handle>, bins: seq<seq<Handle>>, out: set<Handle>, h: Handle,
                  chunks': seq<Chunk>, bins': seq<seq<Handle>>)
    requires BinsOk(chunks, live, bins, out) && h in live && h in out && 0 <= h < |chunks| && !chunks[h].InUse()
    requires forall g {:trigger chunks[g]} :: g in live && 0 <= g < |chunks| && g != h ==>
             chunks[g].ptr != chunks[h].ptr
    requires chunks' == chunks[h := chunks[h].(binNum := BinNumForSize(chunks[h].size))]
    requires forall b :: 0 <= b < NUM_BINS ==> InTable(chunks', bins[b])
    requires bins' == bins[BinNumForSize(chunks[h].size) := Insert(chunks', bins[BinNumForSize(chunks[h].size)], h)]
    ensures BinsOk(chunks', live, bins', out - {h})
  {
    var b0 := BinNumForSize(chunks[h].size);
    assert BinnedOk(chunks, out, h);
    forall b | 0 <= b < NUM_BINS ensures Ordered(chunks', bins[b]) && h !in bins[b] {
      assert h in bins[b] <==> InBin(chunks, live, h, b);
      OrderedFrame(chunks, chunks', bins[b]);
    }
    forall g | g in bins[b0] && 0 <= g < |chunks| ensures chunks'[g].ptr != chunks'[h].ptr {
      assert InBin(chunks, live, g, b0);
    }
    InsertOrdered(chunks', bins[b0], h);
    forall g | g in live ensures BinnedOk(chunks', out - {h}, g) {
      assert BinnedOk(chunks, out, g);
    }
    forall b, g | 0 <= b < NUM_BINS ensures g in bins'[b] <==> InBin(chunks', live, g, b) {
      assert g in bins[b] <==> InBin(chunks, live, g, b);
    }
  }

  lemma BinRemove(chunks: seq<Chunk>, live: set<Handle>, bins: seq<seq<Handle>>, out: set<Handle>, h: Handle,
                  rest: seq<Handle>, chunks': seq<Chunk>, bins': seq<seq<Handle>>)
    requires BinsOk(chunks, live, bins, out) && h in live && 0 <= h < |chunks| && 0 <= chunks[h].binNum < NUM_BINS
    requires chunks' == chunks[h := chunks[h].(binNum := NO_BIN)]
    requires Ordered(chunks, rest) && forall g :: g in rest <==> g != h && g in bins[chunks[h].binNum]
    requires bins' == bins[chunks[h].binNum := rest]
    ensures BinsOk(chunks', live, bins', out + {h})
  {
    var b0 := chunks[h].binNum;
    forall b | 0 <= b < NUM_BINS ensures Ordered(chunks', bins'[b]) {
      OrderedFrame(chunks, chunks', bins'[b]);
    }
    forall g | g in live ensures BinnedOk(chunks', out + {h}, g) {
      assert BinnedOk(chunks, out, g);
    }
    forall b, g | 0 <= b < NUM_BINS ensures g in bins'[b] <==> InBin(chunks', live, g, b) {
      assert g in bins[b] <==> InBin(chunks, live, g, b);
    }
  }

  /** The first fitting chunk met from bin `BinNumForSize(m)` upwards is the best fit of all. */
  lemma FirstFitIsBest(chunks: seq<Chunk>, live: set<Handle>, bins: seq<seq<Handle>>, m: nat, b: nat, i: nat, g: Handle)
    requires BinsOk(chunks, live, bins, {}) && BinNumForSize(m) <= b < NUM_BINS && i < |bins[b]|
    requires NoneFits(chunks, bins, BinNumForSize(m), b, m)
    requires forall k :: 0 <= k < i ==> 0 <= bins[b][k] < |chunks| && chunks[bins[b][k]].size < m
    requires g in live && 0 <= g < |chunks| && !chunks[g].InUse() && chunks[g].size >= m
    ensures 0 <= bins[b][i] < |chunks|
    ensures g == bins[b][i] || Before(chunks[bins[b][i]], chunks[g])
  {
    var h := bins[b][i];
    assert h in bins[b] && InBin(chunks, live, h, b);
    assert BinnedOk(chunks, {}, g) && BinnedOk(chunks, {}, h);
    var d := chunks[g].binNum;
    BinMonotone(m, chunks[g].size);
    assert InBin(chunks, live, g, d) && g in bins[d];
    var j :| 0 <= j < |bins[d]| && bins[d][j] == g;
    assert d >= b;
    assert d == b && i < j ==> Ordered(chunks, bins[b]) && Before(chunks[bins[b][i]], chunks[bins[b][j]]);
    if d > b && chunks[g].size <= chunks[h].size {
      BinMonotone(chunks[g].size, chunks[h].size);
    }
  }

  ghost predicate NoneFits(chunks: seq<Chunk>, bins: seq<seq<Handle>>, lo: nat, hi: nat, m: nat)
    requires hi <= |bins|
  {
    forall b, k :: lo <= b < hi && 0 <= k < |bins[b]| ==> 0 <= bins[b][k] < |chunks| && chunks[bins[b][k]].size < m
  }

  /** No fit in the bins from `BinNumForSize(m)` upwards means no fit at all. */
  lemma NoFirstFit(chunks: seq<Chunk>, live: set<Handle>, bins: seq<seq<Handle>>, m: nat, g: Handle)
    requires BinsOk(chunks, live, bins, {}) && NoneFits(chunks, bins, BinNumForSize(m), NUM_BINS, m)
    requires g in live && 0 <= g < |chunks| && !chunks[g].InUse()
    ensures chunks[g].size < m
  {
    assert BinnedOk(chunks, {}, g);
    var d := chunks[g].binNum;
    assert InBin(chunks, live, g, d) && g in bins[d];
    var j :| 0 <= j < |bins[d]| && bins[d][j] == g;
    if chunks[g].size >= m {
      BinMonotone(m, chunks[g].size);
    }
  }

  // ---- Recycled slots ----

  ghost predicate SlotOk(chunks: seq<Chunk>, slots: seq<Handle>, i: nat)
    requires i < |slots|
  {
    && 0 <= slots[i] < |chunks|
    && var c := chunks[slots[i]];
    && c.next == (if i + 1 < |slots| then slots[i + 1] else INVALID)
    && c.binNum == NO_BIN && !c.InUse()
  }

  predicate OwnedOrFree(chunks: seq<Chunk>, owned: set<Handle>, slots: seq<Handle>, h: Handle) {
    if 0 <= h < |chunks| then h in owned <==> h !in slots else h !in owned
  }

  /** `slots` is the chain from `free_chunks_list_`: acyclic, and each index of the table is either owned
      or on the chain exactly once. */
  ghost predicate SlotsOk(chunks: seq<Chunk>, owned: set<Handle>, slots: seq<Handle>, head: Handle) {
    && head == (if slots == [] then INVALID else slots[0])
    && (forall i {:trigger SlotOk(chunks, slots, i)} :: 0 <= i < |slots| ==> SlotOk(chunks, slots, i))
    && (forall i, j :: 0 <= i < j < |slots| ==> slots[i] != slots[j])
    && (forall h {:trigger OwnedOrFree(chunks, owned, slots, h)} :: OwnedOrFree(chunks, owned, slots, h))
  }

  lemma SlotsFrame(chunks: seq<Chunk>, owned: set<Handle>, slots: seq<Handle>, head: Handle, chunks': seq<Chunk>)
    requires SlotsOk(chunks, owned, slots, head) && |chunks'| == |chunks|
    requires forall h {:trigger chunks'[h]} :: 0 <= h < |chunks| && h !in owned ==> chunks'[h] == chunks[h]
    ensures SlotsOk(chunks', owned, slots, head)
  {
    forall i | 0 <= i < |slots| ensures SlotOk(chunks', slots, i) {
      assert SlotOk(chunks, slots, i) && slots[i] in slots && OwnedOrFree(chunks, owned, slots, slots[i]);
    }
    forall h ensures OwnedOrFree(chunks', owned, slots, h) {
      assert OwnedOrFree(chunks, owned, slots, h);
    }
  }

  lemma SlotsPop(chunks: seq<Chunk>, owned: set<Handle>, slots: seq<Handle>, head: Handle)
    requires SlotsOk(chunks, owned, slots, head) && slots != []
    ensures 0 <= head < |chunks| && head !in owned && chunks[head].binNum == NO_BIN && !chunks[head].InUse()
    ensures SlotsOk(chunks, owned + {head}, slots[1..], chunks[head].next)
  {
    assert SlotOk(chunks, slots, 0) && head in slots && OwnedOrFree(chunks, owned, slots, head);
    var rest := slots[1..];
    assert slots == [head] + rest;
    forall i | 0 <= i < |rest| ensures SlotOk(chunks, rest, i) {
      assert SlotOk(chunks, slots, i + 1);
    }
    assert head !in rest;
    forall h ensures OwnedOrFree(chunks, owned + {head}, rest, h) {
      assert OwnedOrFree(chunks, owned, slots, h);
    }
  }

  lemma SlotsAppend(chunks: seq<Chunk>, owned: set<Handle>, slots: seq<Handle>, head: Handle)
    requires SlotsOk(chunks, owned, slots, head)
    ensures |chunks| !in owned && SlotsOk(chunks + [BLANK], owned + {|chunks|}, slots, head)
  {
    var chunks' := chunks + [BLANK];
    forall i | 0 <= i < |slots| ensures SlotOk(chunks', slots, i) && slots[i] != |chunks| {
      assert SlotOk(chunks, slots, i);
    }
    assert OwnedOrFree(chunks, owned, slots, |chunks|);
    forall h ensures OwnedOrFree(chunks', owned + {|chunks|}, slots, h) {
      assert OwnedOrFree(chunks, owned, slots, h);
    }
  }

  lemma SlotsPush(chunks: seq<Chunk>, owned: set<Handle>, slots: seq<Handle>, head: Handle, h: Handle,
                  chunks': seq<Chunk>)
    requires SlotsOk(chunks, owned, slots, head) && h in owned && |chunks'| == |chunks|
    requires forall g {:trigger chunks'[g]} :: 0 <= g < |chunks| && g !in owned ==> chunks'[g] == chunks[g]
    requires 0 <= h < |chunks| ==> chunks'[h].next == head && chunks'[h].binNum == NO_BIN && !chunks'[h].InUse()
    ensures SlotsOk(chunks', owned - {h}, [h] + slots, h)
  {
    var all := [h] + slots;
    assert OwnedOrFree(chunks, owned, slots, h);
    forall i | 0 <= i < |all| ensures SlotOk(chunks', all, i) {
      if i > 0 {
        assert SlotOk(chunks, slots, i - 1) && slots[i - 1] in slots;
        assert OwnedOrFree(chunks, owned, slots, slots[i - 1]);
      }
    }
    forall g ensures OwnedOrFree(chunks', owned - {h}, all, g) {
      assert OwnedOrFree(chunks, owned, slots, g);
    }
  }
}
