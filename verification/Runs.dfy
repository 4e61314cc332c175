/** Whole runs of the allocator itself: any script of client calls, against any device. */
module Runs {
  import opened Wrappers
  import opened Sizing
  import opened Arenas
  import opened Chunks
  import opened Growth
  import opened Extension
  import opened Bfc
  import opened Regions

  /** A client call; `Release` names the earlier call whose result it gives back. */
  datatype Request = Allocate(bytes: nat) | Release(call: nat)

  /** The device's answers during one call, given the number of the call and the regions so far. */
  type Service = (nat, seq<Region>) -> Device

  /** What decides how a call goes on: the reference state and the counter. */
  datatype Moment = Moment(arena: Arena, counter: nat)

  predicate Asks(r: Request, e: Event) {
    match r
    case Allocate(n) => e.Alloc? && e.bytes == n
    case Release(_) => e.Free?
  }

  /** One call leads from `s` to `s'`. */
  ghost predicate Leads(rules: Settings, device: Device, r: Request, s: Moment, e: Event, s': Moment) {
    && Asks(r, e) && Step(s.arena, e, s'.arena)
    && Explained(rules, device, s.arena, s.counter, e, s'.counter)
  }

  /** For one call, the device grants no memory twice, lets the shrinking loop end, and keeps the run within
      `reach`. */
  ghost predicate Attends(device: Device, reach: iset<Moment>, rules: Settings, r: Request, s: Moment) {
    && DeviceOk(s.arena.spans, device)
    && (r.Allocate? ==> !Lingers(rules, s.arena, s.counter, r.bytes, device))
    && forall e, s' {:trigger Leads(rules, device, r, s, e, s')} :: Leads(rules, device, r, s, e, s') ==> s' in reach
  }

  ghost predicate InOrder(rules: Settings, s: Moment) {
    && Safe(s.arena) && s.counter < WORD && Aligned(s.counter)
    && WithinLimit(rules, s.arena.spans)
  }

  /** So does the service for every call. Nothing is asked of it outside `reach`, which may be as small as
      the run itself. */
  ghost predicate ServiceOk(service: Service, reach: iset<Moment>, script: seq<Request>, rules: Settings, start: nat) {
    && Moment(EMPTY, start) in reach
    && forall i: nat, regions, s {:trigger s in reach, service(i, regions)} ::
         i < |script| && s in reach && InOrder(rules, s) && SpansMatch(regions, s.arena.spans) ==>
           Attends(service(i, regions), reach, rules, script[i], s)
  }

  /** Call `k` asked for memory and none of the calls before `i` has given it back. */
  predicate Pending(script: seq<Request>, i: nat, k: nat) {
    k < i <= |script| && script[k].Allocate? && forall j :: k < j < i ==> script[j] != Release(k)
  }

  /** Sizes do not wrap when rounded, and nothing is given back twice. */
  ghost predicate ScriptOk(script: seq<Request>) {
    forall i {:trigger script[i]} :: 0 <= i < |script| ==>
      match script[i]
      case Allocate(n) => n <= WORD - 256
      case Release(k) => Pending(script, i, k)
  }

  ghost predicate HeldAt(script: seq<Request>, results: seq<Addr>, used: map<Addr, Block>, k: nat)
    requires k < |results| <= |script| && script[k].Allocate?
  {
    results[k] == NULL || (results[k] in used && used[results[k]].requested == script[k].bytes)
  }

  ghost predicate Owned(script: seq<Request>, results: seq<Addr>, p: Addr) {
    exists k: nat :: Pending(script, |results|, k) && results[k] == p
  }

  /** The blocks in use are the results not yet given back, each of a different call. */
  ghost predicate Tracks(script: seq<Request>, results: seq<Addr>, used: map<Addr, Block>) {
    && |results| <= |script| && NULL !in used
    && (forall k: nat {:trigger Pending(script, |results|, k)} :: Pending(script, |results|, k) ==>
        HeldAt(script, results, used, k))
    && (forall j: nat, k: nat {:trigger Pending(script, |results|, j), Pending(script, |results|, k)} ::
          Pending(script, |results|, j) && Pending(script, |results|, k) && j != k ==>
              results[j] != results[k] || results[j] == NULL)
    && (forall p {:trigger Owned(script, results, p)} :: p in used ==> Owned(script, results, p))
  }

  lemma PendingStep(script: seq<Request>, i: nat, k: nat)
    requires i < |script|
    ensures Pending(script, i + 1, k) <==>
            (k == i && script[i].Allocate?) || (Pending(script, i, k) && script[i] != Release(k))
  {
  }

  /** What an allocation does to the blocks: nothing, or one new block at a new address. */
  lemma PlacesAdds(a: Arena, m: nat, bytes: nat, r: Addr, a': Arena)
    requires Safe(a) && 0 < bytes <= WORD - 256 && m == RoundedBytes(bytes) && PlacesOrFails(a, m, bytes, r, a')
    ensures if r == NULL then a'.used == a.used
            else r !in a.used && exists b: Block :: b.requested == bytes && a'.used == a.used[r := b]
  {
    PlacesKeepsSafe(a, m, bytes, r, a');
    if FitsSomewhere(a, m) {
      var n: nat, base: Addr :|
          IsBestFit(a, m, r, n, base) && a' == a.(used := a.used[r := Block(Carve(n, m), bytes, base)]);
      GapHoldsNoBlock(a, r, n, base);
      assert Block(Carve(n, m), bytes, base).requested == bytes;
    }
  }

  lemma AllocAdds(a: Arena, bytes: nat, grown: Option<Span>, r: Addr, a': Arena)
    requires Safe(a) && AllocStep(a, bytes, grown, r, a')
    ensures if r == NULL then a'.used == a.used
            else r !in a.used && exists b: Block :: b.requested == bytes && a'.used == a.used[r := b]
  {
    if bytes > 0 {
      RoundedBytesExact(bytes);
      if grown.Some? {
        GrowKeepsSafe(a, grown.value);
        PlacesAdds(Grow(a, grown.value), RoundedBytes(bytes), bytes, r, a');
      } else {
        PlacesAdds(a, RoundedBytes(bytes), bytes, r, a');
      }
    }
  }

  lemma AllocTracks(script: seq<Request>, results: seq<Addr>, used: map<Addr, Block>, r: Addr, used': map<Addr, Block>)
    requires Tracks(script, results, used) && |results| < |script| && script[|results|].Allocate?
    requires if r == NULL then used' == used
             else r !in used && exists b: Block :: b.requested == script[|results|].bytes && used' == used[r := b]
    ensures Tracks(script, results + [r], used')
  {
    var i, results' := |results|, results + [r];
    forall k: nat | Pending(script, i + 1, k)
        ensures HeldAt(script, results', used', k) && (k == i || Pending(script, i, k)) {
      PendingStep(script, i, k);
      assert k != i ==> HeldAt(script, results, used, k);
    }
    forall j: nat, k: nat | Pending(script, i + 1, j) && Pending(script, i + 1, k) && j != k
      ensures results'[j] != results'[k] || results'[j] == NULL
    {
      PendingStep(script, i, j);
      PendingStep(script, i, k);
      assert j != i ==> HeldAt(script, results, used, j);
      assert k != i ==> HeldAt(script, results, used, k);
    }
    forall p | p in used' ensures Owned(script, results', p) {
      if p in used {
        assert Owned(script, results, p);
        var k: nat :| Pending(script, i, k) && results[k] == p;
        PendingStep(script, i, k);
        assert results'[k] == p;
      } else {
        PendingStep(script, i, i);
        assert results'[i] == p;
      }
    }
  }

  lemma FreeTracks(script: seq<Request>, results: seq<Addr>, used: map<Addr, Block>, k: nat)
    requires Tracks(script, results, used) && |results| < |script| && script[|results|] == Release(k)
    requires Pending(script, |results|, k)
    ensures Tracks(script, results + [NULL], used - {results[k]})
  {
    var i, results', used' := |results|, results + [NULL], used - {results[k]};
    forall j: nat | Pending(script, i + 1, j) ensures HeldAt(script, results', used', j) && Pending(script, i, j) {
      PendingStep(script, i, j);
      assert HeldAt(script, results, used, j);
    }
    forall p | p in used' ensures Owned(script, results', p) {
      assert Owned(script, results, p);
      var j: nat :| Pending(script, i, j) && results[j] == p;
      PendingStep(script, i, j);
      assert results'[j] == p;
    }
  }

  /** The event the reference sees for call `i`. */
  ghost predicate Records(script: seq<Request>, results: seq<Addr>, i: nat, e: Event)
    requires i < |results| <= |script|
  {
    match script[i]
    case Allocate(n) => e.Alloc? && e.bytes == n && e.result == results[i]
    case Release(k) => k < i && e == Free(results[k])
  }

  /** Ranges asked for and not given back. */
  ghost predicate ApartAt(script: seq<Request>, results: seq<Addr>, j: nat, k: nat)
    requires j < |results| <= |script| && k < |results| && script[j].Allocate? && script[k].Allocate?
  {
    results[j] == NULL || results[k] == NULL || Apart(results[j], script[j].bytes, results[k], script[k].bytes)
  }

  lemma PendingApart(script: seq<Request>, results: seq<Addr>, a: Arena, j: nat, k: nat)
    requires Tracks(script, results, a.used) && Safe(a) && j != k
    requires Pending(script, |results|, j) && Pending(script, |results|, k)
    ensures ApartAt(script, results, j, k)
  {
    assert HeldAt(script, results, a.used, j) && HeldAt(script, results, a.used, k);
    if results[j] != NULL && results[k] != NULL {
      var p, q := results[j], results[k];
      assert Serves(a.used[p]) && Serves(a.used[q]) && Apart(p, a.used[p].size, q, a.used[q].size);
    }
  }

  lemma PendingAllApart(script: seq<Request>, results: seq<Addr>, a: Arena)
    requires Tracks(script, results, a.used) && Safe(a)
    ensures forall j: nat, k: nat {:trigger Pending(script, |results|, j), Pending(script, |results|, k)} ::
              Pending(script, |results|, j) && Pending(script, |results|, k) && j != k ==>
                  ApartAt(script, results, j, k)
  {
    forall j: nat, k: nat | Pending(script, |results|, j) && Pending(script, |results|, k) && j != k
      ensures ApartAt(script, results, j, k)
    {
      PendingApart(script, results, a, j, k);
    }
  }

  lemma NonePending(script: seq<Request>, results: seq<Addr>, a: Arena)
    requires Tracks(script, results, a.used) && forall k: nat :: !Pending(script, |results|, k)
    ensures a.used == map[]
  {
    assert forall p :: p in a.used ==> Owned(script, results, p);
  }

  lemma RunExtend(states: seq<Arena>, events: seq<Event>, e: Event, a': Arena)
    requires IsRun(states, events) && Step(states[|events|], e, a')
    ensures IsRun(states + [a'], events + [e])
  {
    var states', events' := states + [a'], events + [e];
    forall i | 0 <= i < |events'| ensures Step(states'[i], events'[i], states'[i + 1]) {
      assert i < |events| ==> Step(states[i], events[i], states[i + 1]);
    }
  }

  // ---- The allocator's own run ----

  ghost predicate WithinLimit(rules: Settings, spans: map<Addr, nat>) {
    rules.allocMode == 1 ==> SumOver(spans) <= rules.memoryLimit
  }

  /** A run with what the reference leaves open: the counter before and after each call, and the regions
      the service saw. */
  datatype History = History(states: seq<Arena>, counters: seq<nat>, layouts: seq<seq<Region>>, events: seq<Event>)

  /** The counter moves, and regions come, exactly as the extension rules say. */
  ghost predicate Explained(rules: Settings, device: Device, a: Arena, counter: nat, e: Event, counter': nat) {
    match e
    case Alloc(bytes, grown, _) => Answers(rules, device, a, counter, bytes, grown, counter')
    case Free(_) => counter' == counter
  }

  ghost predicate Follows(rules: Settings, service: Service, h: History, i: nat)
    requires i < |h.events| == |h.layouts| && |h.states| == |h.counters| == |h.events| + 1
  {
    && SpansMatch(h.layouts[i], h.states[i].spans)
    && WithinLimit(rules, h.states[i].spans)
    && Explained(rules, service(i, h.layouts[i]), h.states[i], h.counters[i], h.events[i], h.counters[i + 1])
  }

  ghost predicate IsHistory(rules: Settings, service: Service, h: History) {
    && |h.events| == |h.layouts| && |h.states| == |h.counters| == |h.events| + 1
    && IsRun(h.states, h.events)
    && forall i {:trigger Follows(rules, service, h, i)} :: 0 <= i < |h.events| ==> Follows(rules, service, h, i)
  }

  function Init(h: History): History
    requires h.events != [] && |h.events| == |h.layouts| && |h.states| == |h.counters| == |h.events| + 1
  {
    var n := |h.events| - 1;
    History(h.states[..n + 1], h.counters[..n + 1], h.layouts[..n], h.events[..n])
  }

  lemma InitIsHistory(rules: Settings, service: Service, h: History)
    requires IsHistory(rules, service, h) && h.events != []
    ensures IsHistory(rules, service, Init(h))
  {
    forall i | 0 <= i < |h.events| - 1 ensures Follows(rules, service, Init(h), i) {
      assert Follows(rules, service, h, i);
    }
  }

  function Prolonged(h: History, regions: seq<Region>, e: Event, a: Arena, counter: nat): History {
    History(h.states + [a], h.counters + [counter], h.layouts + [regions], h.events + [e])
  }

  lemma HistoryExtend(rules: Settings, service: Service, h: History, regions: seq<Region>, e: Event, a: Arena,
                      counter: nat)
    requires IsHistory(rules, service, h)
    requires var n := |h.events|;
             && Step(h.states[n], e, a) && SpansMatch(regions, h.states[n].spans)
             && WithinLimit(rules, h.states[n].spans)
             && Explained(rules, service(n, regions), h.states[n], h.counters[n], e, counter)
    ensures IsHistory(rules, service, Prolonged(h, regions, e, a, counter))
  {
    RunExtend(h.states, h.events, e, a);
    var h' := Prolonged(h, regions, e, a, counter);
    forall i | 0 <= i < |h'.events| ensures Follows(rules, service, h', i) {
      assert i < |h.events| ==> Follows(rules, service, h, i);
    }
  }

  lemma LastCall(rules: Settings, service: Service, h: History)
    requires IsHistory(rules, service, h) && h.events != []
    ensures IsHistory(rules, service, Init(h)) && Init(h).counters[0] == h.counters[0]
    ensures var n := |h.events| - 1;
            && |Init(h).events| == n && Init(h).counters[n] == h.counters[n] && Init(h).states[n] == h.states[n]
            && WithinLimit(rules, h.states[n].spans) && Step(h.states[n], h.events[n], h.states[n + 1])
            && Explained(rules, service(n, h.layouts[n]), h.states[n], h.counters[n], h.events[n], h.counters[n + 1])
  {
    InitIsHistory(rules, service, h);
    assert Follows(rules, service, h, |h.events| - 1);
  }

  // ---- The life of the counter ----

  /** How many calls got a new region. */
  function Growths(events: seq<Event>): nat {
    if events == [] then 0
    else
      var last := events[|events| - 1];
      Growths(events[..|events| - 1]) + if last.Alloc? && last.grown.Some? then 1 else 0
  }

  /** One call: the counter is doubled at least once for a new region, and never from 0. */
  lemma CounterStep(rules: Settings, device: Device, a: Arena, start: nat, d: nat, e: Event, a': Arena, counter': nat)
    returns (d': nat)
    requires rules.allocMode == 1 && SettingsOk(rules) && SumOver(a.spans) <= rules.memoryLimit && 0 < start < WORD
    requires Step(a, e, a') && Explained(rules, device, a, Doubled(start, d), e, counter') && d <= Lifetime(start)
    ensures counter' == Doubled(start, d') && d <= d' <= Lifetime(start)
    ensures e.Alloc? && e.grown.Some? ==> d < d'
  {
    var counter := Doubled(start, d);
    DoubledDiesOut(start, d);
    var n := CounterMoves(rules, device, a, counter, e, a', counter');
    DoubledAgain(start, d, n);
    d' := d + n;
    DoubledDiesOut(start, d');
  }

  /** The number of doublings in one call; all but the last leave the counter above 0. */
  lemma CounterMoves(rules: Settings, device: Device, a: Arena, counter: nat, e: Event, a': Arena, counter': nat)
    returns (n: nat)
    requires rules.allocMode == 1 && SettingsOk(rules) && SumOver(a.spans) <= rules.memoryLimit && counter < WORD
    requires Step(a, e, a') && Explained(rules, device, a, counter, e, counter')
    ensures counter' == Doubled(counter, n) && (n <= 1 || counter' > 0) && (n > 0 ==> counter > 0)
    ensures e.Alloc? && e.grown.Some? ==> n > 0
  {
    n := 0;
    if e.Alloc? && e.bytes > 0 && !FitsSomewhere(a, RoundedBytes(e.bytes)) && counter > 0 {
      var m := RoundedBytes(e.bytes);
      RoundedBytesExact(e.bytes);
      AvailableWithin(rules.memoryLimit, SumOver(a.spans));
      if m <= Available(rules.memoryLimit, SumOver(a.spans)) {
        if e.grown.Some? && m <= counter {
          n := 1;
          assert Doubled(counter, 1) == Wrap(2 * Doubled(counter, 0));
        } else {
          n := RaisedIsFirst(counter, m);
        }
      }
    }
  }

  /** In mode 1 the counter is its start doubled `d` times, at least once for each new region and at most
      until it is 0. So an allocator gets no more regions in its life than 64 less the trailing zeros of
      the counter it started with. */
  lemma {:induction false} CounterLife(rules: Settings, service: Service, h: History) returns (d: nat)
    requires IsHistory(rules, service, h) && rules.allocMode == 1 && SettingsOk(rules) && 0 < h.counters[0] < WORD
    ensures h.counters[|h.events|] == Doubled(h.counters[0], d)
    ensures Growths(h.events) <= d <= Lifetime(h.counters[0])
    ensures h.counters[|h.events|] == 0 <==> d == Lifetime(h.counters[0])
    decreases |h.events|
  {
    var n := |h.events|;
    if n == 0 {
      d := 0;
    } else {
      LastCall(rules, service, h);
      var before := CounterLife(rules, service, Init(h));
      d := CounterStep(rules, service(n - 1, h.layouts[n - 1]), h.states[n - 1], h.counters[0], before,
                       h.events[n - 1], h.states[n], h.counters[n]);
    }
    ZeroAtLifetime(h.counters[0], d);
  }

  lemma ZeroAtLifetime(start: nat, d: nat)
    requires 0 < start < WORD && d <= Lifetime(start)
    ensures Doubled(start, d) == 0 <==> d == Lifetime(start)
  {
    DoubledDiesOut(start, d);
  }

  /** As long as the doublings have not overflowed, the counter is exactly the start doubled once for each
      new region, so no call hangs. */
  lemma {:induction false} NoHangBeforeOverflow(rules: Settings, service: Service, h: History)
    requires IsHistory(rules, service, h) && rules.allocMode == 1 && SettingsOk(rules)
    requires 0 < h.counters[0] < WORD && rules.memoryLimit <= h.counters[0]
    requires DoubledUnbounded(h.counters[0], Growths(h.events)) < WORD
    ensures h.counters[|h.events|] == DoubledUnbounded(h.counters[0], Growths(h.events)) >= h.counters[0]
    decreases |h.events|
  {
    var n := |h.events|;
    if n > 0 {
      var e, counter := h.events[n - 1], h.counters[n - 1];
      LastCall(rules, service, h);
      NoHangBeforeOverflow(rules, service, Init(h));
      if e.Alloc? {
        AvailableWithin(rules.memoryLimit, SumOver(h.states[n - 1].spans));
        RoundedBytesExact(e.bytes);
      }
    }
  }

  // ---- Driving the allocator ----

  ghost function Now(pool: BfcAllocator): Moment
    reads pool
  {
    Moment(pool.arena, pool.currRegionAllocationBytes)
  }

  /** One call of the script on the real allocator: a step of the reference, with its explanation. */
  method Perform(pool: BfcAllocator, script: seq<Request>, results: seq<Addr>, device: Device)
    returns (result: Addr, ghost e: Event)
    requires pool.Valid() && ScriptOk(script) && |results| < |script| && Tracks(script, results, pool.arena.used)
    requires DeviceOk(pool.arena.spans, device)
    requires var r := script[|results|];
             r.Allocate? ==>
               && !Hangs(pool.Rules(), pool.arena, pool.currRegionAllocationBytes, r.bytes)
               && !Lingers(pool.Rules(), pool.arena, pool.currRegionAllocationBytes, r.bytes, device)
    modifies pool, pool.regionManager
    ensures pool.Valid() && Leads(pool.Rules(), device, script[|results|], old(Now(pool)), e, Now(pool))
    ensures Tracks(script, results + [result], pool.arena.used) && Records(script, results + [result], |results|, e)
  {
    ghost var a := pool.arena;
    match script[|results|] {
      case Allocate(n) =>
        ghost var grown;
        result, grown := pool.AllocateRaw(n, device);
        e := Alloc(n, grown, result);
        AllocAdds(a, n, grown, result, pool.arena);
        AllocTracks(script, results, a.used, result, pool.arena.used);
      case Release(k) =>
        assert Pending(script, |results|, k) && HeldAt(script, results, a.used, k);
        FreeTracks(script, results, a.used, k);
        pool.DeallocateRaw(results[k]);
        result, e := NULL, Free(results[k]);
    }
  }

  /** Each event is the one its call asks for. */
  ghost predicate Recorded(script: seq<Request>, results: seq<Addr>, events: seq<Event>) {
    && |events| == |results| <= |script|
    && forall i {:trigger events[i]} :: 0 <= i < |results| ==> Records(script, results, i, events[i])
  }

  lemma KeepsRecords(script: seq<Request>, results: seq<Addr>, result: Addr, events: seq<Event>, e: Event)
    requires Recorded(script, results, events) && |results| < |script|
    requires Records(script, results + [result], |results|, e)
    ensures Recorded(script, results + [result], events + [e])
  {
    forall i | 0 <= i <= |results| ensures Records(script, results + [result], i, (events + [e])[i]) {
      assert i < |results| ==> Records(script, results, i, events[i]);
    }
  }

  /** The state between two calls. */
  ghost predicate Driven(pool: BfcAllocator, script: seq<Request>, results: seq<Addr>, service: Service, h: History,
                         reach: iset<Moment>)
    reads pool, pool.regionManager
  {
    && pool.Valid() && Tracks(script, results, pool.arena.used) && Now(pool) in reach
    && IsHistory(pool.Rules(), service, h) && Recorded(script, results, h.events)
    && h.states[|results|] == pool.arena && h.counters[|results|] == pool.currRegionAllocationBytes
  }

  method NextCall(pool: BfcAllocator, script: seq<Request>, results: seq<Addr>, service: Service, ghost h: History,
                  ghost reach: iset<Moment>)
    returns (results': seq<Addr>, ghost h': History)
    requires Driven(pool, script, results, service, h, reach) && |results| < |script|
    requires ScriptOk(script) && ServiceOk(service, reach, script, pool.Rules(), h.counters[0])
    requires var r := script[|results|];
             r.Allocate? ==> !Hangs(pool.Rules(), pool.arena, pool.currRegionAllocationBytes, r.bytes)
    modifies pool, pool.regionManager
    ensures Driven(pool, script, results', service, h', reach) && |results'| == |results| + 1
    ensures h'.counters[0] == h.counters[0]
  {
    ghost var regions, s := pool.regionManager.regions, Now(pool);
    var device := service(|results|, pool.regionManager.regions);
    assert Attends(device, reach, pool.Rules(), script[|results|], s);
    ghost var e;
    var result;
    result, e := Perform(pool, script, results, device);
    assert Leads(pool.Rules(), device, script[|results|], s, e, Now(pool));
    HistoryExtend(pool.Rules(), service, h, regions, e, pool.arena, pool.currRegionAllocationBytes);
    KeepsRecords(script, results, result, h.events, e);
    results', h' := results + [result], Prolonged(h, regions, e, pool.arena, pool.currRegionAllocationBytes);
  }

  /** Every script, run on a new allocator against every service, is a run of the reference in which every
      new region and every refusal is explained by the extension rules. It is performed to its end, or up to a
      call that would hang. What the client still holds never overlaps, and when it has given
      everything back each region is one free chunk. */
  method Drive(pool: BfcAllocator, script: seq<Request>, service: Service,
               ghost reach: iset<Moment>)
    returns (results: seq<Addr>, hangs: bool, ghost h: History)
    requires pool.Valid() && pool.arena == EMPTY
    requires ScriptOk(script) && ServiceOk(service, reach, script, pool.Rules(), pool.currRegionAllocationBytes)
    modifies pool, pool.regionManager
    ensures pool.Valid() && IsHistory(pool.Rules(), service, h) && |h.events| == |results| <= |script|
    ensures h.states[|results|] == pool.arena && h.counters[|results|] == pool.currRegionAllocationBytes
    ensures h.counters[0] == old(pool.currRegionAllocationBytes)
    ensures if hangs then
              && |results| < |script| && script[|results|].Allocate?
              && Hangs(pool.Rules(), pool.arena, pool.currRegionAllocationBytes, script[|results|].bytes)
            else |results| == |script|
    ensures Recorded(script, results, h.events)
    ensures forall j: nat, k: nat {:trigger Pending(script, |results|, j), Pending(script, |results|, k)} ::
              Pending(script, |results|, j) && Pending(script, |results|, k) && j != k ==>
                  ApartAt(script, results, j, k)
    ensures (forall k: nat :: !Pending(script, |results|, k)) ==> FreeSizes(pool.Table()) == pool.regionManager.spans
  {
    results, hangs := [], false;
    h := History([EMPTY], [pool.currRegionAllocationBytes], [], []);
    while |results| < |script|
      invariant Driven(pool, script, results, service, h, reach) && h.counters[0] == old(pool.currRegionAllocationBytes)
    {
      if script[|results|].Allocate? {
        assert Pending(script, |results| + 1, |results|);
        hangs := pool.WouldHang(script[|results|].bytes);
        if hangs {
          break;
        }
      }
      results, h := NextCall(pool, script, results, service, h, reach);
    }
    PendingAllApart(script, results, pool.arena);
    if forall k: nat :: !Pending(script, |results|, k) {
      NonePending(script, results, pool.arena);
      AllFreeMeansWhole(pool.Table(), pool.arena);
    }
  }
}
