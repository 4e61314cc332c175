/** The reference allocator: what `BFCAllocator` is meant to do, with no chunks, links, bins or tables.
    Its state is only the device regions and the blocks handed out. Free space is not stored at all: it
    is the maximal gaps between the blocks of a region. */
module Arenas {
  import opened Wrappers
  import opened Sizing

  type Addr = nat
  const NULL: Addr := 0
  /** Device addresses stay below 2^63. */
  const ADDRESS_LIMIT: nat := 0x8000_0000_0000_0000

  datatype Block = Block(size: nat, requested: nat, base: Addr)
  datatype Span = Span(base: Addr, size: nat)
  datatype Arena = Arena(spans: map<Addr, nat>, used: map<Addr, Block>)

  // ---- Well-formed states ----

  predicate SpanOk(spans: map<Addr, nat>, b: Addr)
    requires b in spans
  {
    b != NULL && spans[b] > 0 && Aligned(spans[b]) && b + spans[b] <= ADDRESS_LIMIT
  }

  predicate Apart(p: Addr, m: nat, q: Addr, n: nat) {
    p + m <= q || q + n <= p
  }

  ghost predicate SpansOk(spans: map<Addr, nat>) {
    && (forall b {:trigger SpanOk(spans, b)} :: b in spans ==> SpanOk(spans, b))
    && (forall b, c {:trigger Apart(b, spans[b], c, spans[c])} :: b in spans && c in spans && b != c ==>
        Apart(b, spans[b], c, spans[c]))
  }

  /** A range the device may return for an `n`-byte request. */
  ghost predicate FreshSpan(spans: map<Addr, nat>, b: Addr, n: nat) {
    && b != NULL && n > 0 && b + n <= ADDRESS_LIMIT
    && forall c {:trigger Apart(b, n, c, spans[c])} :: c in spans ==> Apart(b, n, c, spans[c])
  }

  predicate Within(spans: map<Addr, nat>, base: Addr, p: Addr, n: nat) {
    base in spans && base <= p && p + n <= base + spans[base]
  }

  predicate BlockOk(a: Arena, p: Addr)
    requires p in a.used
  {
    var b := a.used[p];
    && b.size > 0 && Within(a.spans, b.base, p, b.size)
    && Aligned(p - b.base) && Aligned(b.size)
  }

  ghost predicate BlocksOk(a: Arena) {
    forall p {:trigger BlockOk(a, p)} :: p in a.used ==> BlockOk(a, p)
  }

  ghost predicate BlocksApart(a: Arena) {
    forall p, q {:trigger Apart(p, a.used[p].size, q, a.used[q].size)} :: p in a.used && q in a.used && p != q ==>
        Apart(p, a.used[p].size, q, a.used[q].size)
  }

  ghost predicate Placed(a: Arena) {
    SpansOk(a.spans) && BlocksOk(a) && BlocksApart(a)
  }

  /** The client asked for something and got at least that, with the padding bounded: less than twice the
      rounded request, and less than 128 MiB more than it. */
  predicate Serves(b: Block) {
    && 0 < b.requested <= b.size
    && b.size < 2 * RoundedBytes(b.requested) && b.size < RoundedBytes(b.requested) + 134217728
  }

  ghost predicate Safe(a: Arena) {
    Placed(a) && forall p {:trigger Serves(a.used[p])} :: p in a.used ==> Serves(a.used[p])
  }

  // ---- Free space ----

  ghost predicate BlockEndsAt(a: Arena, base: Addr, p: Addr) {
    exists q :: q in a.used && a.used[q].base == base && q + a.used[q].size == p
  }

  /** `[p, p + n)` is a maximal free interval of the region at `base`. */
  ghost predicate IsGap(a: Arena, p: Addr, n: nat, base: Addr) {
    && n > 0 && Within(a.spans, base, p, n)
    && (forall q {:trigger Apart(p, n, q, a.used[q].size)} :: q in a.used ==> Apart(p, n, q, a.used[q].size))
    && (p == base || BlockEndsAt(a, base, p))
    && (p + n == base + a.spans[base] || (p + n in a.used && a.used[p + n].base == base))
  }

  ghost predicate FitsSomewhere(a: Arena, m: nat) {
    exists p: Addr, n: nat, base: Addr :: IsGap(a, p, n, base) && n >= m
  }

  /** The least gap, by size and then by address, that holds `m` bytes. */
  ghost predicate IsBestFit(a: Arena, m: nat, p: Addr, n: nat, base: Addr) {
    && IsGap(a, p, n, base) && n >= m
    && forall q: Addr, k: nat, c: Addr :: IsGap(a, q, k, c) && k >= m ==> n < k || (n == k && p <= q)
  }

  /** How much of an `n`-byte gap a rounded request of `m` bytes takes. */
  function Carve(n: nat, m: nat): nat {
    if n >= 2 * m || n - m >= MAX_FRAGMENTATION then m else n
  }

  /** What a request of `m` bytes may take of an `n`-byte gap: the request or the whole gap, with bounded
      padding, and with nothing small left over. */
  predicate CutRight(n: nat, m: nat, size: nat) {
    && (size == m || size == n)
    && size < 2 * m && size < m + 134217728
    && (size < n ==> n - size >= m || n - size >= 134217728)
  }

  /** That is all there is to say about it. */
  lemma CarveIsRight(n: nat, m: nat, size: nat)
    requires 0 < m <= n
    ensures CutRight(n, m, size) <==> size == Carve(n, m)
  {
  }

  // ---- Transitions ----

  datatype Event =
    | Alloc(bytes: nat, grown: Option<Span>, result: Addr)
    | Free(ptr: Addr)

  /** The best gap for `m` bytes becomes a block for a request of `bytes` bytes. */
  ghost predicate Places(a: Arena, m: nat, bytes: nat, r: Addr, a': Arena) {
    exists n: nat, base: Addr ::
      && IsBestFit(a, m, r, n, base)
      && a' == a.(used := a.used[r := Block(Carve(n, m), bytes, base)])
  }

  function Grow(a: Arena, s: Span): Arena {
    a.(spans := a.spans[s.base := s.size])
  }

  ghost predicate PlacesOrFails(a: Arena, m: nat, bytes: nat, r: Addr, a': Arena) {
    if FitsSomewhere(a, m) then Places(a, m, bytes, r, a') else r == NULL && a' == a
  }

  /** Best fit among the gaps; with none, at most one new region and then best fit again. */
  ghost predicate AllocStep(a: Arena, bytes: nat, grown: Option<Span>, r: Addr, a': Arena) {
    && bytes <= WORD - 256
    && if bytes == 0 then grown.None? && r == NULL && a' == a
       else if grown.None? then PlacesOrFails(a, RoundedBytes(bytes), bytes, r, a')
       else
         && !FitsSomewhere(a, RoundedBytes(bytes))
         && FreshSpan(a.spans, grown.value.base, grown.value.size)
         && Aligned(grown.value.size)
         && PlacesOrFails(Grow(a, grown.value), RoundedBytes(bytes), bytes, r, a')
  }

  /** Only null or a block still held may be freed; freeing forgets exactly that block. */
  ghost predicate FreeStep(a: Arena, p: Addr, a': Arena) {
    && (p == NULL || p in a.used)
    && a' == a.(used := a.used - {p})
  }

  ghost predicate Step(a: Arena, e: Event, a': Arena) {
    match e
    case Alloc(bytes, grown, r) => AllocStep(a, bytes, grown, r, a')
    case Free(p) => FreeStep(a, p, a')
  }

  const EMPTY := Arena(map[], map[])

  ghost predicate IsRun(states: seq<Arena>, events: seq<Event>) {
    && |states| == |events| + 1
    && states[0] == EMPTY
    && forall i :: 0 <= i < |events| ==> Step(states[i], events[i], states[i + 1])
  }

  /** What the client holds, computed from its own history of calls and results. */
  function Held(events: seq<Event>): map<Addr, nat> {
    if events == [] then map[]
    else
      var before := Held(events[..|events| - 1]);
      match events[|events| - 1]
      case Alloc(bytes, _, r) => if r == NULL then before else before[r := bytes]
      case Free(p) => before - {p}
  }

  // ---- Every step keeps the state safe ----

  lemma NullIsNoBlock(a: Arena)
    requires Placed(a)
    ensures NULL !in a.used
  {
    forall p | p in a.used ensures p != NULL {
      assert BlockOk(a, p) && SpanOk(a.spans, a.used[p].base);
    }
  }

  lemma GapAligned(a: Arena, p: Addr, n: nat, base: Addr)
    requires Placed(a) && IsGap(a, p, n, base)
    ensures Aligned(p - base) && Aligned(n)
  {
    assert SpanOk(a.spans, base);
    if p != base {
      var q :| q in a.used && a.used[q].base == base && q + a.used[q].size == p;
      assert BlockOk(a, q);
      AlignedSum(q - base, a.used[q].size);
    }
    var end := if p + n == base + a.spans[base] then a.spans[base] else p + n - base;
    assert Aligned(end) by {
      if p + n != base + a.spans[base] { assert BlockOk(a, p + n); }
    }
    AlignedSum(end, p - base);
  }

  lemma AlignedSum(x: int, y: int)
    requires Aligned(x)
    ensures Aligned(y) ==> Aligned(x + y) && Aligned(x - y)
  {
  }

  lemma GapHoldsNoBlock(a: Arena, p: Addr, n: nat, base: Addr)
    requires BlocksOk(a) && IsGap(a, p, n, base)
    ensures p !in a.used
  {
    forall q | q in a.used ensures q != p {
      assert BlockOk(a, q) && Apart(p, n, q, a.used[q].size);
    }
  }

  /** Any aligned block put at the start of a gap keeps the blocks apart. */
  lemma PlaceInGap(a: Arena, p: Addr, n: nat, base: Addr, b: Block, a': Arena)
    requires Placed(a) && IsGap(a, p, n, base) && a' == a.(used := a.used[p := b])
    requires 0 < b.size <= n && Aligned(b.size) && b.base == base
    ensures Placed(a')
  {
    GapHoldsNoBlock(a, p, n, base);
    assert BlocksOk(a') by {
      GapAligned(a, p, n, base);
      forall q | q in a'.used ensures BlockOk(a', q) {
        if q != p { assert BlockOk(a, q); }
      }
    }
    BlocksApartAdd(a, p, n, b, a');
  }

  lemma BlocksApartAdd(a: Arena, p: Addr, n: nat, b: Block, a': Arena)
    requires BlocksApart(a) && p !in a.used && a' == a.(used := a.used[p := b]) && b.size <= n
    requires forall q :: q in a.used ==> Apart(p, n, q, a.used[q].size)
    ensures BlocksApart(a')
  {
  }

  lemma PlacesKeepsSafe(a: Arena, m: nat, bytes: nat, r: Addr, a': Arena)
    requires Safe(a) && 0 < bytes <= WORD - 256 && m == RoundedBytes(bytes) && PlacesOrFails(a, m, bytes, r, a')
    ensures Safe(a') && (r != NULL <==> FitsSomewhere(a, m))
  {
    RoundedBytesExact(bytes);
    if FitsSomewhere(a, m) {
      var n: nat, base: Addr :|
          IsBestFit(a, m, r, n, base) && a' == a.(used := a.used[r := Block(Carve(n, m), bytes, base)]);
      CarveIsRight(n, m, Carve(n, m));
      PlacedBlockIsSafe(a, r, n, base, Block(Carve(n, m), bytes, base), a') by {
        GapAligned(a, r, n, base);
      }
    }
  }

  /** The gap is there before, and what is taken of it is right. */
  ghost predicate TakesRight(a: Arena, m: nat, r: Addr, size: nat) {
    exists n: nat, base: Addr :: IsGap(a, r, n, base) && m <= n && CutRight(n, m, size)
  }

  /** A successful allocation takes the rounded request or a whole gap, as `CutRight` says. */
  lemma AllocTakesRight(a: Arena, bytes: nat, grown: Option<Span>, r: Addr, a': Arena)
    requires Safe(a) && AllocStep(a, bytes, grown, r, a') && r != NULL
    ensures r in a'.used
    ensures RoundedBytes(bytes) <= a'.used[r].size < 2 * RoundedBytes(bytes)
    ensures a'.used[r].size < RoundedBytes(bytes) + 134217728
    ensures TakesRight(if grown.Some? then Grow(a, grown.value) else a, RoundedBytes(bytes), r, a'.used[r].size)
  {
    var b, m := if grown.Some? then Grow(a, grown.value) else a, RoundedBytes(bytes);
    RoundedBytesExact(bytes);
    var n: nat, base: Addr :|
        IsBestFit(b, m, r, n, base) && a' == b.(used := b.used[r := Block(Carve(n, m), bytes, base)]);
    CarveIsRight(n, m, Carve(n, m));
  }

  lemma PlacedBlockIsSafe(a: Arena, r: Addr, n: nat, base: Addr, b: Block, a': Arena)
    requires Safe(a) && IsGap(a, r, n, base) && a' == a.(used := a.used[r := b])
    requires 0 < b.size <= n && Aligned(b.size) && b.base == base && Serves(b)
    ensures r != NULL && Safe(a')
  {
    PlaceInGap(a, r, n, base, b, a');
    NullIsNoBlock(a');
  }

  lemma SpansGrow(spans: map<Addr, nat>, s: Span)
    requires SpansOk(spans) && FreshSpan(spans, s.base, s.size) && Aligned(s.size)
    ensures s.base !in spans && SpansOk(spans[s.base := s.size])
  {
    var grown := spans[s.base := s.size];
    assert s.base !in spans by {
      assert forall c :: c in spans ==> SpanOk(spans, c) && Apart(s.base, s.size, c, spans[c]);
    }
    forall b | b in grown ensures SpanOk(grown, b) {
      if b != s.base { assert SpanOk(spans, b); }
    }
    forall b, c | b in grown && c in grown && b != c ensures Apart(b, grown[b], c, grown[c]) {
      if b == s.base {
        assert Apart(b, s.size, c, spans[c]);
      } else if c == s.base {
        assert Apart(c, s.size, b, spans[b]);
      } else {
        assert Apart(b, spans[b], c, spans[c]);
      }
    }
  }

  lemma GrowKeepsSafe(a: Arena, s: Span)
    requires Safe(a) && FreshSpan(a.spans, s.base, s.size) && Aligned(s.size)
    ensures Safe(Grow(a, s))
  {
    SpansGrow(a.spans, s);
    forall p | p in a.used ensures BlockOk(Grow(a, s), p) {
      assert BlockOk(a, p);
    }
  }

  lemma FreeKeepsSafe(a: Arena, p: Addr, a': Arena)
    requires Safe(a) && FreeStep(a, p, a')
    ensures Safe(a')
  {
    forall q | q in a'.used ensures BlockOk(a', q) && Serves(a'.used[q]) {
      assert BlockOk(a, q) && Serves(a.used[q]);
    }
    assert forall q, s :: q in a'.used && s in a'.used && q != s ==> Apart(q, a.used[q].size, s, a.used[s].size);
  }

  lemma StepKeepsSafe(a: Arena, e: Event, a': Arena)
    requires Safe(a) && Step(a, e, a')
    ensures Safe(a')
  {
    match e
    case Alloc(bytes, grown, r) =>
      if bytes > 0 {
        RoundedBytesExact(bytes);
        if grown.Some? {
          GrowKeepsSafe(a, grown.value);
          PlacesKeepsSafe(Grow(a, grown.value), RoundedBytes(bytes), bytes, r, a');
        } else {
          PlacesKeepsSafe(a, RoundedBytes(bytes), bytes, r, a');
        }
      }
    case Free(p) =>
      FreeKeepsSafe(a, p, a');
  }

  // ---- Runs ----

  lemma {:induction false} RunIsSafe(states: seq<Arena>, events: seq<Event>)
    requires IsRun(states, events)
    ensures forall i :: 0 <= i < |states| ==> Safe(states[i])
  {
    var n := |events|;
    if n > 0 {
      RunIsSafe(states[..n], events[..n - 1]);
      assert states[..n][n - 1] == states[n - 1];
      StepKeepsSafe(states[n - 1], events[n - 1], states[n]);
      forall i | 0 <= i < |states| ensures Safe(states[i]) {
        if i < n { assert states[..n][i] == states[i]; }
      }
    }
  }

  function Requests(a: Arena): map<Addr, nat> {
    map p | p in a.used :: a.used[p].requested
  }

  lemma PlacesTracksRequests(a: Arena, m: nat, bytes: nat, r: Addr, a': Arena)
    requires Safe(a) && 0 < bytes <= WORD - 256 && m == RoundedBytes(bytes) && PlacesOrFails(a, m, bytes, r, a')
    ensures Requests(a') == if r == NULL then Requests(a) else Requests(a)[r := bytes]
  {
    PlacesKeepsSafe(a, m, bytes, r, a');
  }

  lemma StepTracksRequests(a: Arena, e: Event, a': Arena)
    requires Safe(a) && Step(a, e, a')
    ensures match e
            case Alloc(bytes, _, r) =>
              Requests(a') == if r == NULL then Requests(a) else Requests(a)[r := bytes]
            case Free(p) => Requests(a') == Requests(a) - {p}
  {
    if e.Alloc? && e.bytes > 0 {
      RoundedBytesExact(e.bytes);
      if e.grown.Some? {
        GrowKeepsSafe(a, e.grown.value);
        PlacesTracksRequests(Grow(a, e.grown.value), RoundedBytes(e.bytes), e.bytes, e.result, a');
        assert Requests(Grow(a, e.grown.value)) == Requests(a);
      } else {
        PlacesTracksRequests(a, RoundedBytes(e.bytes), e.bytes, e.result, a');
      }
    }
  }

  /** The blocks in use are, at the end of every run, exactly the results the client has not freed. */
  lemma {:induction false} RunTracksHeld(states: seq<Arena>, events: seq<Event>)
    requires IsRun(states, events)
    ensures Requests(states[|events|]) == Held(events)
  {
    var n := |events|;
    RunIsSafe(states, events);
    if n > 0 {
      RunTracksHeld(states[..n], events[..n - 1]);
      StepTracksRequests(states[n - 1], events[n - 1], states[n]);
    }
  }

  /** Memory safety from the client's side alone: whatever was called before, the byte ranges it asked
      for and still holds are pairwise disjoint, non-null and each inside one device region. */
  lemma HeldMemoryIsDisjoint(states: seq<Arena>, events: seq<Event>)
    requires IsRun(states, events)
    ensures NULL !in Held(events)
    ensures forall p, q :: p in Held(events) && q in Held(events) && p != q ==>
            Apart(p, Held(events)[p], q, Held(events)[q])
    ensures forall p :: p in Held(events) ==> exists b :: Within(states[|events|].spans, b, p, Held(events)[p])
  {
    RunIsSafe(states, events);
    RunTracksHeld(states, events);
    var a := states[|events|];
    NullIsNoBlock(a);
    forall p | p in Held(events)
      ensures p in a.used && Held(events)[p] == a.used[p].requested <= a.used[p].size
      ensures Within(a.spans, a.used[p].base, p, Held(events)[p])
    {
      assert p in Requests(a);
      assert BlockOk(a, p) && Serves(a.used[p]);
    }
    forall p, q | p in Held(events) && q in Held(events) && p != q
      ensures Apart(p, Held(events)[p], q, Held(events)[q])
    {
      assert Apart(p, a.used[p].size, q, a.used[q].size);
    }
  }

  /** At any time no block is padded to twice its rounded request, nor by 128 MiB. */
  lemma PaddingIsBounded(states: seq<Arena>, events: seq<Event>, i: nat, p: Addr)
    requires IsRun(states, events) && i < |states| && p in states[i].used
    ensures var b := states[i].used[p];
            && 0 < b.requested <= b.size
            && b.size < 2 * RoundedBytes(b.requested) && b.size < RoundedBytes(b.requested) + 134217728
  {
    RunIsSafe(states, events);
    assert Serves(states[i].used[p]);
  }

  /** A client that has freed everything it got finds each region whole again. */
  lemma NothingHeldMeansAllFree(states: seq<Arena>, events: seq<Event>)
    requires IsRun(states, events) && Held(events) == map[]
    ensures var a := states[|events|];
            forall p: Addr, n: nat, b: Addr :: IsGap(a, p, n, b) <==> b in a.spans && p == b && n == a.spans[b]
  {
    var a := states[|events|];
    RunIsSafe(states, events);
    RunTracksHeld(states, events);
    assert forall p :: p in a.used ==> p in Requests(a);
    assert a.used == map[];
    forall p: Addr, n: nat, b: Addr ensures IsGap(a, p, n, b) <==> b in a.spans && p == b && n == a.spans[b] {
      if b in a.spans { assert SpanOk(a.spans, b); }
    }
  }

  // ---- The reference leaves no choice ----

  lemma GapUnique(a: Arena, p: Addr, n: nat, base: Addr, k: nat, c: Addr)
    requires Placed(a) && IsGap(a, p, n, base) && IsGap(a, p, k, c)
    ensures n == k && base == c
  {
    assert base != c ==> Apart(base, a.spans[base], c, a.spans[c]);
    GapNotShorter(a, p, n, base, k);
    GapNotShorter(a, p, k, base, n);
  }

  lemma GapNotShorter(a: Arena, p: Addr, n: nat, base: Addr, k: nat)
    requires Placed(a) && IsGap(a, p, n, base) && IsGap(a, p, k, base)
    ensures n >= k
  {
    if p + n in a.used {
      assert BlockOk(a, p + n) && Apart(p, k, p + n, a.used[p + n].size);
    }
  }

  lemma BestFitUnique(a: Arena, m: nat, p: Addr, n: nat, b: Addr, q: Addr, k: nat, c: Addr)
    requires Placed(a) && IsBestFit(a, m, p, n, b) && IsBestFit(a, m, q, k, c)
    ensures p == q && n == k && b == c
  {
    assert p == q;
    GapUnique(a, p, n, b, k, c);
  }

  lemma PlacesDeterministic(a: Arena, m: nat, bytes: nat, r: Addr, b: Arena, s: Addr, c: Arena)
    requires Placed(a) && PlacesOrFails(a, m, bytes, r, b) && PlacesOrFails(a, m, bytes, s, c)
    ensures r == s && b == c
  {
    if FitsSomewhere(a, m) {
      var n: nat, base: Addr :|
          IsBestFit(a, m, r, n, base) && b == a.(used := a.used[r := Block(Carve(n, m), bytes, base)]);
      var k: nat, home: Addr :|
          IsBestFit(a, m, s, k, home) && c == a.(used := a.used[s := Block(Carve(k, m), bytes, home)]);
      BestFitUnique(a, m, r, n, base, s, k, home);
    }
  }

  /** The pointer and the next state are determined by the request and by what the device gave. */
  lemma AllocDeterministic(a: Arena, bytes: nat, grown: Option<Span>, r: Addr, b: Arena, s: Addr, c: Arena)
    requires Safe(a) && AllocStep(a, bytes, grown, r, b) && AllocStep(a, bytes, grown, s, c)
    ensures r == s && b == c
  {
    if bytes > 0 {
      if grown.Some? {
        GrowKeepsSafe(a, grown.value);
        PlacesDeterministic(Grow(a, grown.value), RoundedBytes(bytes), bytes, r, b, s, c);
      } else {
        PlacesDeterministic(a, RoundedBytes(bytes), bytes, r, b, s, c);
      }
    }
  }

  // ---- Bytes ----

  ghost function SumOver(m: map<Addr, nat>): nat {
    if m == map[] then 0 else var k :| k in m; m[k] + SumOver(m - {k})
  }

  lemma {:induction false} SumOverRemove(m: map<Addr, nat>, k: Addr)
    requires k in m
    ensures SumOver(m) == m[k] + SumOver(m - {k})
  {
    var j :| j in m && SumOver(m) == m[j] + SumOver(m - {j});
    if j != k {
      SumOverRemove(m - {j}, k);
      SumOverRemove(m - {k}, j);
      assert m - {j} - {k} == m - {k} - {j};
    }
  }

  lemma SumOverAdd(m: map<Addr, nat>, k: Addr, n: nat)
    requires k !in m
    ensures SumOver(m[k := n]) == SumOver(m) + n
  {
    SumOverRemove(m[k := n], k);
    assert m[k := n] - {k} == m;
  }

  /** Disjoint ranges below a limit add up to no more than the limit. */
  lemma {:induction false} SumOverBound(m: map<Addr, nat>, limit: nat)
    requires forall b {:trigger m[b]} :: b in m ==> m[b] > 0 && b + m[b] <= limit
    requires forall b, c {:trigger Apart(b, m[b], c, m[c])} :: b in m && c in m && b != c ==> Apart(b, m[b], c, m[c])
    ensures SumOver(m) <= limit
    decreases m.Keys
  {
    if m != map[] {
      var last := Highest(m.Keys);
      var rest := m - {last};
      forall b | b in rest ensures b + rest[b] <= last {
        assert Apart(b, m[b], last, m[last]);
      }
      assert forall b, c :: b in rest && c in rest && b != c ==> Apart(b, m[b], c, m[c]);
      SumOverBound(rest, last);
      SumOverRemove(m, last);
    }
  }

  lemma {:induction false} Highest(s: set<Addr>) returns (top: Addr)
    requires s != {}
    ensures top in s && forall x :: x in s ==> x <= top
  {
    var x :| x in s;
    var rest := s - {x};
    assert forall y :: y in s ==> y == x || y in rest;
    top := x;
    if rest != {} {
      var t := Highest(rest);
      top := if x < t then t else x;
    }
  }
}
