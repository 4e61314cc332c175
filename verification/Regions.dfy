/** `AllocationRegion` and `RegionManager`: the map from device pointers to chunk handles. */
module Regions {
  import opened Sizing
  import opened Arenas
  import opened Chunks

  /** One device region with its table of handles, one per 256-byte slot. */
  datatype Region = Region(ptr: Addr, memorySize: nat, handles: seq<Handle>) {
    function EndPtr(): Addr { ptr + memorySize }

    function IndexFor(p: Addr): nat
      requires ptr <= p
    {
      (p - ptr) / 256
    }

    predicate Contains(p: Addr) { ptr <= p < EndPtr() }

    function SlotAddr(k: nat): Addr { ptr + 256 * k }

    function SetHandle(p: Addr, h: Handle): Region
      requires ptr <= p && IndexFor(p) < |handles|
    {
      this.(handles := handles[IndexFor(p) := h])
    }
  }

  function NewRegion(ptr: Addr, memorySize: nat): Region {
    Region(ptr, memorySize, seq((memorySize + 255) / 256, _ => INVALID))
  }

  predicate RegionOk(r: Region) {
    r.memorySize > 0 && Aligned(r.memorySize) && |r.handles| == r.memorySize / 256
  }

  predicate Precedes(r: Region, s: Region) {
    r.EndPtr() <= s.ptr
  }

  /** Ascending by address, hence by end pointer. */
  ghost predicate Sorted(regions: seq<Region>) {
    && (forall i :: 0 <= i < |regions| ==> RegionOk(regions[i]))
    && (forall i, j {:trigger Precedes(regions[i], regions[j])} ::
          0 <= i < j < |regions| ==> Precedes(regions[i], regions[j]))
  }

  ghost predicate HasRegion(regions: seq<Region>, b: Addr, n: nat) {
    exists i :: 0 <= i < |regions| && regions[i].ptr == b && regions[i].memorySize == n
  }

  /** `spans` is the set of regions, by base address. */
  ghost predicate SpansMatch(regions: seq<Region>, spans: map<Addr, nat>) {
    && (forall i :: 0 <= i < |regions| ==> regions[i].ptr in spans && spans[regions[i].ptr] == regions[i].memorySize)
    && (forall b {:trigger HasRegion(regions, b, spans[b])} :: b in spans ==> HasRegion(regions, b, spans[b]))
  }

  predicate EntryOk(r: Region, k: nat, table: map<Addr, Handle>)
    requires k < |r.handles|
  {
    if r.handles[k] == INVALID then r.SlotAddr(k) !in table
    else r.SlotAddr(k) in table && table[r.SlotAddr(k)] == r.handles[k]
  }

  ghost predicate OnSlot(regions: seq<Region>, p: Addr) {
    exists i :: 0 <= i < |regions| && regions[i].Contains(p) && Aligned(p - regions[i].ptr)
  }

  /** `table` is what the handle arrays say, by address. */
  ghost predicate TableMatch(regions: seq<Region>, table: map<Addr, Handle>) {
    && (forall i, k {:trigger EntryOk(regions[i], k, table)} ::
          0 <= i < |regions| && 0 <= k < |regions[i].handles| ==> EntryOk(regions[i], k, table))
    && (forall p {:trigger OnSlot(regions, p)} :: p in table ==> OnSlot(regions, p))
  }

  lemma SlotInside(r: Region, k: nat)
    requires RegionOk(r) && k < |r.handles|
    ensures r.Contains(r.SlotAddr(k)) && Aligned(r.SlotAddr(k) - r.ptr) && r.IndexFor(r.SlotAddr(k)) == k
  {
  }

  lemma SlotOf(r: Region, p: Addr)
    requires RegionOk(r) && r.Contains(p) && Aligned(p - r.ptr)
    ensures r.IndexFor(p) < |r.handles| && r.SlotAddr(r.IndexFor(p)) == p
  {
  }

  /** Regions do not overlap, so at most one contains a pointer. */
  lemma ContainsUnique(regions: seq<Region>, i: nat, j: nat, p: Addr)
    requires Sorted(regions) && i < |regions| && j < |regions| && regions[i].Contains(p) && regions[j].Contains(p)
    ensures i == j
  {
    assert i < j ==> Precedes(regions[i], regions[j]);
    assert j < i ==> Precedes(regions[j], regions[i]);
  }

  function Store(table: map<Addr, Handle>, p: Addr, h: Handle): map<Addr, Handle> {
    if h == INVALID then table - {p} else table[p := h]
  }

  lemma StoreMatches(regions: seq<Region>, table: map<Addr, Handle>, i: nat, p: Addr, h: Handle)
    requires Sorted(regions) && TableMatch(regions, table)
    requires i < |regions| && regions[i].Contains(p) && Aligned(p - regions[i].ptr)
             && regions[i].IndexFor(p) < |regions[i].handles|
    ensures TableMatch(regions[i := regions[i].SetHandle(p, h)], Store(table, p, h))
  {
    var regions' := regions[i := regions[i].SetHandle(p, h)];
    var table' := Store(table, p, h);
    SlotOf(regions[i], p);
    forall j, k | 0 <= j < |regions'| && 0 <= k < |regions'[j].handles| ensures EntryOk(regions'[j], k, table') {
      var q := regions[j].SlotAddr(k);
      SlotInside(regions[j], k);
      assert EntryOk(regions[j], k, table);
      if q == p {
        ContainsUnique(regions, i, j, p);
      }
    }
    forall q | q in table' ensures OnSlot(regions', q) {
      var j := i;
      if q != p {
        assert OnSlot(regions, q);
        j :| 0 <= j < |regions| && regions[j].Contains(q) && Aligned(q - regions[j].ptr);
      }
      assert regions'[j].Contains(q) && Aligned(q - regions'[j].ptr);
    }
  }

  function Inserted(regions: seq<Region>, e: nat, r: Region): seq<Region>
    requires e <= |regions|
  {
    regions[..e] + [r] + regions[e..]
  }

  function Shift(e: nat, i: nat): nat {
    if i < e then i else i + 1
  }

  function Unshift(e: nat, j: nat): nat
    requires j != e
  {
    if j < e then j else j - 1
  }

  lemma FreshApart(regions: seq<Region>, spans: map<Addr, nat>, r: Region, i: nat)
    requires SpansMatch(regions, spans) && FreshSpan(spans, r.ptr, r.memorySize) && i < |regions|
    ensures Apart(r.ptr, r.memorySize, regions[i].ptr, regions[i].memorySize)
  {
    assert Apart(r.ptr, r.memorySize, regions[i].ptr, spans[regions[i].ptr]);
  }

  /** Where the upper bound of a fresh range's pointer falls, the range fits between its neighbours. */
  lemma InsertSorted(regions: seq<Region>, spans: map<Addr, nat>, e: nat, r: Region)
    requires Sorted(regions) && SpansMatch(regions, spans) && RegionOk(r) && e <= |regions|
    requires FreshSpan(spans, r.ptr, r.memorySize)
    requires forall j :: 0 <= j < e ==> regions[j].EndPtr() <= r.ptr
    requires forall j :: e <= j < |regions| ==> r.ptr < regions[j].EndPtr()
    ensures Sorted(Inserted(regions, e, r))
  {
    var regions' := Inserted(regions, e, r);
    forall i, j | 0 <= i < j < |regions'| ensures Precedes(regions'[i], regions'[j]) {
      if i == e {
        FreshApart(regions, spans, r, j - 1);
      } else if j != e {
        assert Precedes(regions[Unshift(e, i)], regions[Unshift(e, j)]);
      }
    }
  }

  lemma InsertSpans(regions: seq<Region>, spans: map<Addr, nat>, e: nat, r: Region)
    requires SpansMatch(regions, spans) && e <= |regions| && FreshSpan(spans, r.ptr, r.memorySize)
    requires forall i :: 0 <= i < |regions| ==> RegionOk(regions[i])
    ensures SpansMatch(Inserted(regions, e, r), spans[r.ptr := r.memorySize])
  {
    var regions', spans' := Inserted(regions, e, r), spans[r.ptr := r.memorySize];
    forall j | 0 <= j < |regions'|
      ensures regions'[j].ptr in spans' && spans'[regions'[j].ptr] == regions'[j].memorySize
    {
      if j != e {
        FreshApart(regions, spans, r, Unshift(e, j));
        assert RegionOk(regions[Unshift(e, j)]);
      }
    }
    forall b | b in spans' ensures HasRegion(regions', b, spans'[b]) {
      if b == r.ptr {
        assert regions'[e] == r;
      } else {
        assert HasRegion(regions, b, spans[b]);
        var i :| 0 <= i < |regions| && regions[i].ptr == b && regions[i].memorySize == spans[b];
        assert regions'[Shift(e, i)] == regions[i];
      }
    }
  }

  lemma InsertTable(regions: seq<Region>, spans: map<Addr, nat>, table: map<Addr, Handle>, e: nat, r: Region)
    requires SpansMatch(regions, spans) && TableMatch(regions, table) && e <= |regions|
    requires RegionOk(r) && FreshSpan(spans, r.ptr, r.memorySize) && forall k :: 0 <= k < |r.handles| ==>
             r.handles[k] == INVALID
    ensures TableMatch(Inserted(regions, e, r), table)
  {
    var regions' := Inserted(regions, e, r);
    forall p | p in table ensures OnSlot(regions', p) && !r.Contains(p) {
      InsertOnSlot(regions, spans, e, r, p);
    }
    forall j, k | 0 <= j < |regions'| && 0 <= k < |regions'[j].handles| ensures EntryOk(regions'[j], k, table) {
      if j == e {
        SlotInside(r, k);
      } else {
        assert EntryOk(regions[Unshift(e, j)], k, table);
      }
    }
  }

  lemma InsertOnSlot(regions: seq<Region>, spans: map<Addr, nat>, e: nat, r: Region, p: Addr)
    requires SpansMatch(regions, spans) && e <= |regions| && FreshSpan(spans, r.ptr, r.memorySize) && OnSlot(regions, p)
    ensures OnSlot(Inserted(regions, e, r), p) && !r.Contains(p)
  {
    var i :| 0 <= i < |regions| && regions[i].Contains(p) && Aligned(p - regions[i].ptr);
    assert Inserted(regions, e, r)[Shift(e, i)] == regions[i];
    FreshApart(regions, spans, r, i);
  }

  class RegionManager {
    var regions: seq<Region>
    ghost var spans: map<Addr, nat>
    ghost var table: map<Addr, Handle>

    ghost predicate Valid()
      reads this
    {
      Sorted(regions) && SpansMatch(regions, spans) && TableMatch(regions, table)
    }

    constructor ()
      ensures Valid() && spans == map[] && table == map[] && regions == []
    {
      regions, spans, table := [], map[], map[];
    }

    /** `std::upper_bound` on end pointers: the first region that ends after `p`. */
    method UpperBound(p: Addr) returns (entry: nat)
      requires Valid()
      ensures entry <= |regions|
      ensures forall j :: 0 <= j < entry ==> regions[j].EndPtr() <= p
      ensures forall j :: entry <= j < |regions| ==> p < regions[j].EndPtr()
    {
      entry := 0;
      var hi := |regions|;
      while entry < hi
        invariant entry <= hi <= |regions|
        invariant forall j :: 0 <= j < entry ==> regions[j].EndPtr() <= p
        invariant forall j :: hi <= j < |regions| ==> p < regions[j].EndPtr()
      {
        var mid := (entry + hi) / 2;
        assert forall j :: 0 <= j < mid ==> Precedes(regions[j], regions[mid]);
        assert forall j :: mid < j < |regions| ==> Precedes(regions[mid], regions[j]);
        if p < regions[mid].EndPtr() {
          hi := mid;
        } else {
          entry := mid + 1;
        }
      }
    }

    /** The region that contains `p`, if one does; the length of the list is the fatal "no region" case,
        which the code only notices for pointers past every region. */
    method RegionFor(p: Addr) returns (entry: nat)
      requires Valid()
      ensures entry <= |regions|
      ensures forall j :: 0 <= j < |regions| && regions[j].Contains(p) ==> entry == j
      ensures entry == |regions| <==> forall j :: 0 <= j < |regions| ==> regions[j].EndPtr() <= p
    {
      entry := UpperBound(p);
      forall j | 0 <= j < |regions| && regions[j].Contains(p) ensures entry == j {
        assert entry < j ==> Precedes(regions[entry], regions[j]);
      }
      assert entry < |regions| ==> p < regions[entry].EndPtr();
    }

    method AddAllocationRegion(ptr: Addr, memorySize: nat)
      requires Valid() && FreshSpan(spans, ptr, memorySize) && Aligned(memorySize)
      modifies `regions, `spans, `table
      ensures Valid() && spans == old(spans)[ptr := memorySize] && table == old(table)
    {
      var entry := UpperBound(ptr);
      var r := NewRegion(ptr, memorySize);
      InsertSorted(regions, spans, entry, r);
      InsertSpans(regions, spans, entry, r);
      InsertTable(regions, spans, table, entry, r);
      regions := regions[..entry] + [r] + regions[entry..];
      spans := spans[ptr := memorySize];
    }

    method GetHandle(p: Addr) returns (h: Handle)
      requires Valid() && OnSlot(regions, p)
      ensures h == if p in table then table[p] else INVALID
    {
      ghost var i :| 0 <= i < |regions| && regions[i].Contains(p) && Aligned(p - regions[i].ptr);
      var entry := RegionFor(p);
      SlotOf(regions[entry], p);
      h := regions[entry].handles[regions[entry].IndexFor(p)];
      assert EntryOk(regions[i], regions[i].IndexFor(p), table);
    }

    method SetHandle(p: Addr, h: Handle)
      requires Valid() && OnSlot(regions, p)
      modifies `regions, `table
      ensures Valid() && spans == old(spans) && table == Store(old(table), p, h)
    {
      ghost var i :| 0 <= i < |regions| && regions[i].Contains(p) && Aligned(p - regions[i].ptr);
      var entry := RegionFor(p);
      SlotOf(regions[entry], p);
      StoreMatches(regions, table, entry, p, h);
      StoreSorted(regions, entry, p, h);
      StoreSpans(regions, spans, entry, p, h);
      regions := regions[entry := regions[entry].SetHandle(p, h)];
      table := Store(table, p, h);
    }

    method Erase(p: Addr)
      requires Valid() && OnSlot(regions, p)
      modifies `regions, `table
      ensures Valid() && spans == old(spans) && table == old(table) - {p}
    {
      SetHandle(p, INVALID);
    }
  }

  lemma StoreSorted(regions: seq<Region>, i: nat, p: Addr, h: Handle)
    requires Sorted(regions) && i < |regions| && regions[i].Contains(p) && regions[i].IndexFor(p) < |regions[i].handles|
    ensures Sorted(regions[i := regions[i].SetHandle(p, h)])
  {
    var regions' := regions[i := regions[i].SetHandle(p, h)];
    forall j, k | 0 <= j < k < |regions'| ensures Precedes(regions'[j], regions'[k]) {
      assert Precedes(regions[j], regions[k]);
    }
  }

  lemma StoreSpans(regions: seq<Region>, spans: map<Addr, nat>, i: nat, p: Addr, h: Handle)
    requires SpansMatch(regions, spans) && i < |regions| && regions[i].Contains(p)
             && regions[i].IndexFor(p) < |regions[i].handles|
    ensures SpansMatch(regions[i := regions[i].SetHandle(p, h)], spans)
  {
    var regions' := regions[i := regions[i].SetHandle(p, h)];
    forall b | b in spans ensures HasRegion(regions', b, spans[b]) {
      assert HasRegion(regions, b, spans[b]);
      var j :| 0 <= j < |regions| && regions[j].ptr == b && regions[j].memorySize == spans[b];
      assert regions'[j].ptr == b && regions'[j].memorySize == spans[b];
    }
  }

  /** A 256-aligned pointer inside a region lies on a slot of its handle table. */
  lemma WithinOnSlot(regions: seq<Region>, spans: map<Addr, nat>, b: Addr, p: Addr)
    requires SpansMatch(regions, spans) && b in spans && b <= p < b + spans[b] && Aligned(p - b)
    ensures OnSlot(regions, p)
  {
    assert HasRegion(regions, b, spans[b]);
    var i :| 0 <= i < |regions| && regions[i].ptr == b && regions[i].memorySize == spans[b];
    assert regions[i].Contains(p) && Aligned(p - regions[i].ptr);
  }
}
