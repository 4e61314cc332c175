/** Concrete inputs: a service that satisfies every assumption, and two runs of the allocator against it in
    which the code does not do what is said of it. */
module Witnesses {
  import opened Wrappers
  import opened Sizing
  import opened Arenas
  import opened Growth
  import opened Extension
  import opened Regions
  import opened Bfc
  import opened Runs

  // ---- A service that hands out memory from the bottom up ----

  /** Where the highest region ends, and 256 without regions. */
  function Top(regions: seq<Region>): (top: nat)
    ensures top >= 256
  {
    if regions == [] then 256
    else
      var below, last := Top(regions[..|regions| - 1]), regions[|regions| - 1];
      if last.EndPtr() > below then last.EndPtr() else below
  }

  function Bump(): Service {
    (i, regions) => BumpFrom(Top(regions))
  }

  function BumpFrom(top: nat): Device {
    (k, n) => if 0 < n && top + n <= ADDRESS_LIMIT then top else NULL
  }

  ghost predicate EndsBelow(spans: map<Addr, nat>, top: nat) {
    forall b {:trigger spans[b]} :: b in spans ==> b + spans[b] <= top
  }

  /** Regions packed into the bottom of the address space. */
  ghost predicate Packed(spans: map<Addr, nat>) {
    EndsBelow(spans, 256 + SumOver(spans))
  }

  ghost const PACKED: iset<Moment> := iset s: Moment | Packed(s.arena.spans)

  lemma {:induction false} TopIsEnd(regions: seq<Region>, limit: nat)
    requires limit >= 256 && forall i :: 0 <= i < |regions| ==> regions[i].EndPtr() <= limit
    ensures Top(regions) <= limit
    ensures forall i :: 0 <= i < |regions| ==> regions[i].EndPtr() <= Top(regions)
  {
    if regions != [] {
      TopIsEnd(regions[..|regions| - 1], limit);
      assert forall i :: 0 <= i < |regions| - 1 ==> regions[i] == regions[..|regions| - 1][i];
    }
  }

  lemma TopOfPacked(regions: seq<Region>, spans: map<Addr, nat>)
    requires Packed(spans) && SpansMatch(regions, spans)
    ensures Top(regions) <= 256 + SumOver(spans) && EndsBelow(spans, Top(regions))
  {
    forall i | 0 <= i < |regions| ensures regions[i].EndPtr() <= 256 + SumOver(spans) {
      assert spans[regions[i].ptr] == regions[i].memorySize;
    }
    TopIsEnd(regions, 256 + SumOver(spans));
    forall b | b in spans ensures b + spans[b] <= Top(regions) {
      assert HasRegion(regions, b, spans[b]);
    }
  }

  lemma BumpFresh(spans: map<Addr, nat>, top: nat)
    requires SpansOk(spans) && EndsBelow(spans, top) && top >= 256
    ensures DeviceOk(spans, BumpFrom(top)) && top !in spans
  {
    assert forall b :: b in spans ==> SpanOk(spans, b);
  }

  lemma PackedNext(spans: map<Addr, nat>, top: nat, n: nat)
    requires Packed(spans) && top <= 256 + SumOver(spans) && top !in spans
    ensures Packed(spans[top := n])
  {
    SumOverAdd(spans, top, n);
    assert EndsBelow(spans[top := n], 256 + SumOver(spans) + n);
  }

  lemma ReplyFromTop(rules: Settings, total: nat, counter: nat, m: nat, top: nat)
    ensures var r := Reply(rules, total, counter, m, BumpFrom(top)); r.Some? ==> r.value.base == top
  {
    var r := Reply(rules, total, counter, m, BumpFrom(top));
    if r.Some? && rules.allocMode == 1 {
      var j := LargeReplyIsGrant(BumpFrom(top), m, SizesFrom(FirstSize(rules, total, counter, m)));
    }
  }

  lemma BumpStaysPacked(rules: Settings, r: Request, s: Moment, top: nat, e: Event, s': Moment)
    requires Packed(s.arena.spans) && Safe(s.arena) && top <= 256 + SumOver(s.arena.spans) && top !in s.arena.spans
    requires Leads(rules, BumpFrom(top), r, s, e, s')
    ensures Packed(s'.arena.spans)
  {
    if e.Alloc? && e.grown.Some? {
      ReplyFromTop(rules, SumOver(s.arena.spans), s.counter, RoundedBytes(e.bytes), top);
      PackedNext(s.arena.spans, top, e.grown.value.size);
    }
  }

  /** It grants the first size whenever that is one to stand still at. */
  lemma BumpSettles(rules: Settings, s: Moment, bytes: nat, top: nat)
    requires SettingsOk(rules) && InOrder(rules, s) && bytes <= WORD - 256
    requires rules.allocMode == 1 ==> rules.memoryLimit <= ADDRESS_LIMIT - 256
    requires 0 < top <= 256 + SumOver(s.arena.spans)
    ensures !Lingers(rules, s.arena, s.counter, bytes, BumpFrom(top))
  {
    var m, total := RoundedBytes(bytes), SumOver(s.arena.spans);
    RoundedBytesExact(bytes);
    if rules.allocMode == 1 && s.counter > 0 && bytes > 0 && m <= Available(rules.memoryLimit, total) {
      FirstSizeFits(rules, total, s.counter, m);
      var sizes := SizesFrom(FirstSize(rules, total, s.counter, m));
      assert m <= sizes(0) ==> BumpFrom(top)(0, sizes(0)) == top;
    }
  }

  lemma BumpAttends(rules: Settings, r: Request, regions: seq<Region>, s: Moment)
    requires SettingsOk(rules) && InOrder(rules, s) && (r.Allocate? ==> r.bytes <= WORD - 256)
    requires rules.allocMode == 1 ==> rules.memoryLimit <= ADDRESS_LIMIT - 256
    requires Packed(s.arena.spans) && SpansMatch(regions, s.arena.spans)
    ensures Attends(BumpFrom(Top(regions)), PACKED, rules, r, s)
  {
    var top := Top(regions);
    TopOfPacked(regions, s.arena.spans);
    BumpFresh(s.arena.spans, top);
    if r.Allocate? {
      BumpSettles(rules, s, r.bytes, top);
    }
    forall e, s' | Leads(rules, BumpFrom(top), r, s, e, s') ensures s' in PACKED {
      BumpStaysPacked(rules, r, s, top, e, s');
    }
  }

  /** It satisfies the assumptions of `Drive` for every script and every allocator: in mode 1 the
      constructor reserves far more than the 256 bytes asked for here. */
  lemma BumpOk(script: seq<Request>, rules: Settings, start: nat)
    requires ScriptOk(script) && SettingsOk(rules)
    requires rules.allocMode == 1 ==> rules.memoryLimit <= ADDRESS_LIMIT - 256
    ensures ServiceOk(Bump(), PACKED, script, rules, start)
  {
    assert Packed(EMPTY.spans);
    forall i: nat, regions, s | i < |script| && s in PACKED && InOrder(rules, s) && SpansMatch(regions, s.arena.spans)
      ensures Attends(Bump()(i, regions), PACKED, rules, script[i], s)
    {
      assert Bump()(i, regions) == BumpFrom(Top(regions));
      BumpAttends(rules, script[i], regions, s);
    }
  }

  // ---- A 16 GiB device in mode 1 with allocations capped at 256 MiB ----

  const DEVICE: nat := 17179869184
  const CAP: nat := 268435456
  const LIMIT: nat := 16341008384 // 487 * 2^25, what the reserve leaves
  const RULES := Settings(LIMIT, 1, CAP)

  lemma {:induction false} ZerosOfDoublings(x: nat, k: nat)
    requires x > 0
    ensures DoubledUnbounded(x, k) > 0 && TrailingZeros(DoubledUnbounded(x, k)) == TrailingZeros(x) + k
  {
    if k > 0 {
      ZerosOfDoublings(x, k - 1);
      ZerosOfDouble(DoubledUnbounded(x, k - 1));
    }
  }

  lemma Powers()
    ensures Pow2(25) == 33554432 && Pow2(28) == CAP
  {
    Pow2TwentyThree();
    Pow2Sum(23, 2);
    Pow2Sum(25, 3);
    assert Pow2(2) == 4 && Pow2(3) == 8;
  }

  lemma LifetimeHere()
    ensures Lifetime(LIMIT) == 39
  {
    assert DoubledUnbounded(487, 9) == 249344;
    assert DoubledUnbounded(487, 17) == 63832064;
    assert DoubledUnbounded(487, 25) == LIMIT;
    ZerosOfDoublings(487, 25);
  }

  /** The counter stays at the cap or above for 39 regions and is 0 after them. */
  lemma CounterHere(i: nat)
    requires i <= 39
    ensures if i < 39 then CAP <= Doubled(LIMIT, i) < WORD else Doubled(LIMIT, i) == 0
  {
    LifetimeHere();
    DoubledDiesOut(LIMIT, i);
    if i < 3 {
      DoubledExact(LIMIT, i);
      assert LIMIT <= DoubledUnbounded(LIMIT, i) <= 4 * LIMIT;
    } else if i < 39 {
      Powers();
      TrailingZerosBound(Doubled(LIMIT, i));
      Pow2Monotone(28, TrailingZeros(Doubled(LIMIT, i)));
    }
  }

  lemma GrantedAtOnce(first: nat, m: nat, top: nat)
    requires Aligned(first) && first < WORD && first > 0 && 0 < top <= ADDRESS_LIMIT - first
    ensures LargeReply(BumpFrom(top), m, SizesFrom(first)) == Some(Span(top, first))
    ensures Settles(BumpFrom(top), m, first)
  {
    var sizes := SizesFrom(first);
    SizesFall(first);
    assert sizes(0) == first;
    assert AgreesAt(BumpFrom(top), m, sizes, 0);
    NotBoth(BumpFrom(top), m, sizes, 0);
  }

  /** The first size asked for is the cap, and the device grants it. */
  lemma ReplyCapped(total: nat, counter: nat, m: nat, top: nat)
    requires m <= LIMIT && total + m <= LIMIT && total + CAP <= LIMIT && Aligned(total) && Aligned(m)
    requires m <= counter && CAP <= counter < WORD && 0 < top <= ADDRESS_LIMIT - CAP
    ensures Reply(RULES, total, counter, m, BumpFrom(top)) == Some(Span(top, CAP))
    ensures NextCounter(RULES, total, counter, m, Some(Span(top, CAP))) == Wrap(2 * counter)
    ensures m <= Available(LIMIT, total)
  {
    AvailableExact(LIMIT, total, m);
    AvailableExact(LIMIT, total, CAP);
    GrantedAtOnce(CAP, m, top);
  }

  // ---- Filling region after region ----

  ghost predicate FullAt(a: Arena, b: Addr) {
    b in a.used && b in a.spans && a.used[b].base == b && a.used[b].size == a.spans[b]
  }

  /** Every region is one block. */
  ghost predicate Full(a: Arena) {
    forall b {:trigger FullAt(a, b)} :: b in a.spans ==> FullAt(a, b)
  }

  lemma FullHasNoGap(a: Arena, m: nat)
    requires Full(a)
    ensures !FitsSomewhere(a, m)
  {
    forall p: Addr, n: nat, b: Addr ensures !IsGap(a, p, n, b) {
      if b in a.spans {
        assert FullAt(a, b);
        assert n > 0 && Within(a.spans, b, p, n) ==> !Apart(p, n, b, a.used[b].size);
      }
    }
  }

  lemma FullElsewhere(a: Arena, s: Span, p: Addr, n: nat, b: Addr)
    requires Full(a) && s.base !in a.spans && b in a.spans
    ensures !IsGap(Grow(a, s), p, n, b)
  {
    assert FullAt(a, b);
    assert n > 0 && Within(Grow(a, s).spans, b, p, n) ==> !Apart(p, n, b, a.used[b].size);
  }

  /** In a full arena the one gap is the new region; a request of its size fills it. */
  lemma FillsNewRegion(a: Arena, s: Span, r: Addr, a': Arena)
    requires Safe(a) && Full(a) && FreshSpan(a.spans, s.base, s.size) && Aligned(s.size)
    requires PlacesOrFails(Grow(a, s), s.size, s.size, r, a')
    ensures r == s.base && Full(a') && a'.spans == a.spans[s.base := s.size]
  {
    var b := Grow(a, s);
    FullHasNoGap(a, s.size);
    GrowKeepsSafe(a, s);
    SpansGrow(a.spans, s);
    FitsAfterGrowth(a, s, s.size);
    var n: nat, base: Addr :| IsBestFit(b, s.size, r, n, base)
                              && a' == b.(used := b.used[r := Block(Carve(n, s.size), s.size, base)]);
    if base in a.spans {
      FullElsewhere(a, s, r, n, base);
    }
    assert base == s.base && n == s.size == Carve(n, s.size) && r == s.base;
    forall c | c in a'.spans ensures FullAt(a', c) {
      if c != s.base {
        assert FullAt(a, c);
      }
    }
  }

  ghost predicate Filled(pool: BfcAllocator, i: nat)
    reads pool, pool.regionManager
  {
    && pool.Valid() && pool.Rules() == RULES && Full(pool.arena) && Packed(pool.arena.spans)
    && SumOver(pool.arena.spans) == i * CAP && pool.currRegionAllocationBytes == Doubled(LIMIT, i)
  }

  lemma FilledNext(a: Arena, i: nat, top: nat, grown: Option<Span>, ptr: Addr, a': Arena, counter': nat)
    requires i < 39 && Safe(a) && Full(a) && Packed(a.spans) && SumOver(a.spans) == i * CAP
    requires 256 <= top <= 256 + SumOver(a.spans) && EndsBelow(a.spans, top)
    requires AllocStep(a, CAP, grown, ptr, a')
    requires Answers(RULES, BumpFrom(top), a, Doubled(LIMIT, i), CAP, grown, counter')
    ensures ptr == top && Full(a') && Packed(a'.spans) && SumOver(a'.spans) == (i + 1) * CAP
    ensures counter' == Doubled(LIMIT, i + 1)
  {
    GrowsByCap(a, i, top, grown, counter');
    BumpFresh(a.spans, top);
    RoundedCap();
    FullHasNoGap(a, CAP);
    FillsNewRegion(a, Span(top, CAP), ptr, a');
    SumOverAdd(a.spans, top, CAP);
    assert EndsBelow(a'.spans, 256 + SumOver(a'.spans));
  }

  lemma RoundedCap()
    ensures RoundedBytes(CAP) == CAP && RoundedBytes(2 * CAP) == 2 * CAP
  {
  }

  lemma CapsFit(i: nat)
    requires i < 39
    ensures Aligned(i * CAP) && i * CAP + CAP <= LIMIT
  {
    assert i * CAP == 256 * (i * 1048576);
  }

  lemma GrowsByCap(a: Arena, i: nat, top: nat, grown: Option<Span>, counter': nat)
    requires i < 39 && Full(a) && SumOver(a.spans) == i * CAP && 256 <= top <= 256 + i * CAP
    requires Answers(RULES, BumpFrom(top), a, Doubled(LIMIT, i), CAP, grown, counter')
    ensures grown == Some(Span(top, CAP)) && counter' == Doubled(LIMIT, i + 1)
  {
    CounterHere(i);
    RoundedCap();
    CapsFit(i);
    var counter := Doubled(LIMIT, i);
    GrowsCapped(a, counter, CAP, top, grown, counter');
    DoubledNext(LIMIT, i);
  }

  /** A request that finds every region full and passes the limit check gets a region of the cap's size. */
  lemma GrowsCapped(a: Arena, counter: nat, bytes: nat, top: nat, grown: Option<Span>, counter': nat)
    requires Full(a) && 0 < bytes == RoundedBytes(bytes)
    requires Answers(RULES, BumpFrom(top), a, counter, bytes, grown, counter')
    requires SumOver(a.spans) + bytes <= LIMIT && SumOver(a.spans) + CAP <= LIMIT
    requires Aligned(SumOver(a.spans)) && Aligned(bytes)
    requires bytes <= counter && CAP <= counter < WORD && 0 < top <= ADDRESS_LIMIT - CAP
    ensures grown == Some(Span(top, CAP)) && counter' == Wrap(2 * counter)
  {
    FullHasNoGap(a, bytes);
    ReplyCapped(SumOver(a.spans), counter, bytes, top);
  }

  method FillOne(pool: BfcAllocator, ghost i: nat) returns (ptr: Addr)
    requires Filled(pool, i) && i < 39
    modifies pool, pool.regionManager
    ensures Filled(pool, i + 1) && ptr != NULL
  {
    ghost var a := pool.arena;
    CounterHere(i);
    FullHasNoGap(a, CAP);
    TopOfPacked(pool.regionManager.regions, a.spans);
    BumpFresh(a.spans, Top(pool.regionManager.regions));
    var device := BumpFrom(Top(pool.regionManager.regions));
    ghost var grown;
    ptr, grown := pool.AllocateRaw(CAP, device);
    FilledNext(a, i, Top(old(pool.regionManager.regions)), grown, ptr, pool.arena, pool.currRegionAllocationBytes);
  }

  method NewPool() returns (pool: BfcAllocator)
    ensures Filled(pool, 0) && pool.arena == EMPTY && fresh(pool) && fresh(pool.regionManager)
  {
    pool := new BfcAllocator(DEVICE, false, 1, CAP);
    assert SumOver(map[]) == 0 && Packed(map[]);
  }

  /** Thirty-nine requests of 256 MiB succeed. The fortieth, for which there is memory below the limit, finds
      the counter at 0 and never returns. */
  method FortiethCallHangs() returns (pool: BfcAllocator)
    ensures pool.Valid() && SumOver(pool.arena.spans) == 39 * CAP && 39 * CAP + CAP <= pool.memoryLimit
    ensures Hangs(pool.Rules(), pool.arena, pool.currRegionAllocationBytes, CAP)
  {
    pool := NewPool();
    for i := 0 to 39
      invariant Filled(pool, i) && fresh(pool) && fresh(pool.regionManager)
    {
      var ptr := FillOne(pool, i);
    }
    CounterHere(39);
    FullHasNoGap(pool.arena, CAP);
    AvailableExact(LIMIT, 39 * CAP, CAP);
  }

  /** A request of twice the cap passes the limit check and gets a region, of the cap's size, and yet null. */
  method OversizedGrowsInVain() returns (pool: BfcAllocator, ptr: Addr)
    ensures pool.Valid() && pool.limitAlloc == CAP && 2 * CAP <= Available(pool.memoryLimit, 0)
    ensures ptr == NULL && SumOver(pool.arena.spans) == CAP && pool.arena.used == map[]
  {
    pool := NewPool();
    ghost var a := pool.arena;
    FullHasNoGap(a, 2 * CAP);
    BumpFresh(a.spans, 256);
    RoundedCap();
    AvailableExact(LIMIT, 0, 2 * CAP);
    ghost var grown;
    ptr, grown := pool.AllocateRaw(2 * CAP, BumpFrom(256));
    GrowsCapped(a, LIMIT, 2 * CAP, 256, grown, pool.currRegionAllocationBytes);
    SumOverAdd(map[], 256, CAP);
    assert pool.arena == Grow(a, Span(256, CAP));
  }
}
