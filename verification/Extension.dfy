/** When the allocator gets more memory, how much, and when the attempt never ends: what an extension does
    as a function of the reference state, the 64-bit region-size counter and the device's answers. */
module Extension {
  import opened Wrappers
  import opened Sizing
  import opened Arenas
  import opened Growth

  /** The device memory service: the answer to the k-th request made during one call, for n bytes. */
  type Device = (nat, nat) -> Addr

  /** What the service grants is fresh; it grants nothing for an empty request. */
  ghost predicate DeviceOk(spans: map<Addr, nat>, device: Device) {
    forall k: nat, n: nat {:trigger device(k, n)} :: device(k, n) != NULL ==> FreshSpan(spans, device(k, n), n)
  }

  /** What never changes during the life of an allocator; `limitAlloc` is the value of `LimitAlloc()`. */
  datatype Settings = Settings(memoryLimit: nat, allocMode: int, limitAlloc: nat)

  // ---- The device's reply ----

  ghost predicate Falling(sizes: Sizes) {
    forall j: nat, n: nat {:trigger sizes(j), sizes(n)} :: j <= n ==> sizes(n) <= sizes(j)
  }

  ghost predicate RefusedBefore(device: Device, sizes: Sizes, n: nat) {
    forall k: nat {:trigger sizes(k)} :: k < n ==> device(k, sizes(k)) == NULL
  }

  /** The device agrees to the j-th size after refusing the ones before; later sizes hold `m` bytes. */
  ghost predicate AgreesAt(device: Device, m: nat, sizes: Sizes, j: nat) {
    RefusedBefore(device, sizes, j) && device(j, sizes(j)) != NULL && (j == 0 || m <= sizes(j))
  }

  /** It refuses every size down to the first that is below the request; the very first size is
      tried in any case. */
  ghost predicate RefusedAll(device: Device, m: nat, sizes: Sizes) {
    exists n: nat {:trigger sizes(n)} :: n > 0 && sizes(n) < m && RefusedBefore(device, sizes, n)
  }

  /** Some size is granted if it is asked for in its turn. */
  ghost predicate Grants(device: Device, sizes: Sizes) {
    exists k: nat {:trigger sizes(k)} :: device(k, sizes(k)) != NULL
  }

  ghost function LargeReply(device: Device, m: nat, sizes: Sizes): Option<Span> {
    if j: nat :| AgreesAt(device, m, sizes, j) then Some(Span(device(j, sizes(j)), sizes(j))) else None
  }

  lemma AgreesOnce(device: Device, m: nat, sizes: Sizes, i: nat, j: nat)
    requires AgreesAt(device, m, sizes, i) && AgreesAt(device, m, sizes, j)
    ensures i == j
  {
  }

  /** The search ends in one of two ways, never in both: with the size agreed to, or with all refused. */
  lemma NotBoth(device: Device, m: nat, sizes: Sizes, j: nat)
    requires Falling(sizes) && AgreesAt(device, m, sizes, j)
    ensures !RefusedAll(device, m, sizes)
    ensures LargeReply(device, m, sizes) == Some(Span(device(j, sizes(j)), sizes(j)))
  {
    forall i: nat | AgreesAt(device, m, sizes, i) ensures i == j {
      AgreesOnce(device, m, sizes, i, j);
    }
  }

  lemma AllRefused(device: Device, m: nat, sizes: Sizes)
    requires Falling(sizes) && RefusedAll(device, m, sizes)
    ensures LargeReply(device, m, sizes).None?
  {
    forall j: nat ensures !AgreesAt(device, m, sizes, j) {
      if AgreesAt(device, m, sizes, j) {
        NotBoth(device, m, sizes, j);
      }
    }
  }

  lemma RefusedOnce(device: Device, sizes: Sizes, n: nat)
    requires RefusedBefore(device, sizes, n) && device(n, sizes(n)) == NULL
    ensures RefusedBefore(device, sizes, n + 1)
  {
  }

  lemma RefusedTo(device: Device, m: nat, sizes: Sizes, n: nat)
    requires Falling(sizes) && n > 0 && sizes(n) < m && RefusedBefore(device, sizes, n)
    ensures RefusedAll(device, m, sizes) && LargeReply(device, m, sizes).None?
  {
    AllRefused(device, m, sizes);
  }

  lemma LargeReplyIsGrant(device: Device, m: nat, sizes: Sizes) returns (j: nat)
    requires LargeReply(device, m, sizes).Some?
    ensures AgreesAt(device, m, sizes, j) && LargeReply(device, m, sizes).value == Span(device(j, sizes(j)), sizes(j))
  {
    j :| AgreesAt(device, m, sizes, j) && LargeReply(device, m, sizes) == Some(Span(device(j, sizes(j)), sizes(j)));
  }

  /** The first grant comes after refusals only. */
  lemma {:induction false} FirstGrant(device: Device, sizes: Sizes, k: nat) returns (j: nat)
    requires device(k, sizes(k)) != NULL
    ensures j <= k && device(j, sizes(j)) != NULL && RefusedBefore(device, sizes, j)
  {
    j := k;
    if i: nat :| i < k && device(i, sizes(i)) != NULL {
      j := FirstGrant(device, sizes, i);
    }
  }

  /** It does end, in one way or the other, exactly if some size is small enough to stop at or is granted. */
  lemma SearchEndsIff(device: Device, m: nat, sizes: Sizes)
    ensures (exists j: nat :: AgreesAt(device, m, sizes, j)) || RefusedAll(device, m, sizes)
            <==> GivesUp(m, sizes) || Grants(device, sizes)
  {
    if Grants(device, sizes) {
      var k: nat :| device(k, sizes(k)) != NULL;
      var j := FirstGrant(device, sizes, k);
      assert AgreesAt(device, m, sizes, j) || (j > 0 && sizes(j) < m);
    } else {
      assert forall n: nat :: RefusedBefore(device, sizes, n);
    }
  }

  /** The shrinking loop comes to an end: the request is above the sizes at which it can stand still, or the
      first size is too small already, or some size is granted when it is asked for. */
  ghost predicate Settles(device: Device, m: nat, first: nat) {
    m > 2304 || first < m || Grants(device, SizesFrom(first))
  }

  ghost predicate StepsDown(sizes: Sizes, n: nat) {
    sizes(n + 1) <= sizes(n)
  }

  lemma {:induction false} StepByStep(sizes: Sizes, j: nat, n: nat)
    requires j <= n && forall k: nat {:trigger StepsDown(sizes, k)} :: StepsDown(sizes, k)
    ensures sizes(n) <= sizes(j)
  {
    if j < n {
      StepByStep(sizes, j, n - 1);
      assert StepsDown(sizes, n - 1);
    }
  }

  lemma SizesFall(first: nat)
    requires Aligned(first) && first < WORD
    ensures Falling(SizesFrom(first))
  {
    var sizes := SizesFrom(first);
    forall k: nat ensures StepsDown(sizes, k) {
      BackpedalledFalls(sizes, first, k + 1);
    }
    forall j: nat, n: nat | j <= n ensures sizes(n) <= sizes(j) {
      StepByStep(sizes, j, n);
    }
  }

  /** The loop ends, with a size agreed to or with all sizes refused, exactly for a device that settles. */
  lemma SettlesIff(device: Device, m: nat, first: nat)
    requires Aligned(first) && first < WORD
    ensures var sizes := SizesFrom(first);
            (exists j: nat :: AgreesAt(device, m, sizes, j)) || RefusedAll(device, m, sizes)
            <==> Settles(device, m, first)
  {
    BackpedalGivesUpIff(m, SizesFrom(first), first);
    SearchEndsIff(device, m, SizesFrom(first));
  }

  /** No reply means, for every device, that every size tried was refused or that the loop does not end. */
  lemma NoReplyIff(device: Device, m: nat, first: nat)
    requires Aligned(first) && first < WORD
    ensures var sizes := SizesFrom(first);
            LargeReply(device, m, sizes).None? <==> RefusedAll(device, m, sizes) || !Settles(device, m, first)
  {
    SettlesIff(device, m, first);
    SizesFall(first);
    if RefusedAll(device, m, SizesFrom(first)) {
      AllRefused(device, m, SizesFrom(first));
    }
  }

  // ---- The extension as a whole ----

  /** The counter with which an extension for `m` bytes comes out of its doubling loop. */
  function Reached(counter: nat, m: nat): nat {
    if 0 < counter && m <= ADDRESS_LIMIT then Raised(counter, m) else counter
  }

  function FirstSize(s: Settings, total: nat, counter: nat, m: nat): nat {
    FirstAttempt(Reached(counter, m), Available(s.memoryLimit, total), s.limitAlloc)
  }

  /** The region an extension for `m` bytes adds, if it succeeds. */
  ghost function Reply(s: Settings, total: nat, counter: nat, m: nat, device: Device): Option<Span> {
    if m > Available(s.memoryLimit, total) then None
    else if s.allocMode == 1 then
      if counter == 0 then None else LargeReply(device, m, SizesFrom(FirstSize(s, total, counter, m)))
    else if s.allocMode == 2 && device(0, SmallRegion(m)) != NULL then
      Some(Span(device(0, SmallRegion(m)), SmallRegion(m)))
    else None
  }

  /** The counter afterwards: raised to the request by the loop, or else doubled once by a success. */
  ghost function NextCounter(s: Settings, total: nat, counter: nat, m: nat, grown: Option<Span>): nat {
    if s.allocMode != 1 || m > Available(s.memoryLimit, total) then counter
    else if grown.Some? && m <= counter then Wrap(2 * counter)
    else Reached(counter, m)
  }

  /** What `AllocateRaw` does beyond placing blocks: when it extends, with what, and the counter after. */
  ghost predicate Answers(s: Settings, device: Device, a: Arena, counter: nat, bytes: nat, grown: Option<Span>,
                          counter': nat) {
    var m, total := RoundedBytes(bytes), SumOver(a.spans);
    if bytes == 0 || FitsSomewhere(a, m) then grown.None? && counter' == counter
    else grown == Reply(s, total, counter, m, device) && counter' == NextCounter(s, total, counter, m, grown)
  }

  /** The request gets to the doubling loop and finds the counter at 0. */
  ghost predicate Hangs(s: Settings, a: Arena, counter: nat, bytes: nat) {
    var m := RoundedBytes(bytes);
    && s.allocMode == 1 && counter == 0 && bytes > 0
    && m <= Available(s.memoryLimit, SumOver(a.spans)) && !FitsSomewhere(a, m)
  }

  /** The request gets to the shrinking loop, and that does not end. */
  ghost predicate Lingers(s: Settings, a: Arena, counter: nat, bytes: nat, device: Device) {
    var m, total := RoundedBytes(bytes), SumOver(a.spans);
    && s.allocMode == 1 && counter > 0 && bytes > 0
    && m <= Available(s.memoryLimit, total) && !FitsSomewhere(a, m)
    && !Settles(device, m, FirstSize(s, total, counter, m))
  }

  ghost predicate SettingsOk(s: Settings) {
    s.memoryLimit <= ADDRESS_LIMIT && Aligned(s.limitAlloc)
  }

  lemma AvailableWithin(limit: nat, total: nat)
    requires total <= limit < WORD
    ensures Available(limit, total) <= limit - total
  {
  }

  /** In mode 1, a request that nothing in the pool holds and that passes the limit check comes to the loops. */
  ghost predicate ComesToLoops(s: Settings, a: Arena, bytes: nat) {
    && s.allocMode == 1 && bytes > 0
    && !FitsSomewhere(a, RoundedBytes(bytes)) && SumOver(a.spans) + RoundedBytes(bytes) <= s.memoryLimit
  }

  /** A call hangs exactly if it comes to the doubling loop and no number of doublings reaches the request. */
  lemma HangsIff(s: Settings, a: Arena, counter: nat, bytes: nat)
    requires SettingsOk(s) && counter < WORD && bytes <= WORD - 256
    requires s.allocMode == 1 ==> SumOver(a.spans) <= s.memoryLimit
    ensures Hangs(s, a, counter, bytes) <==>
              ComesToLoops(s, a, bytes) && forall n: nat :: Doubled(counter, n) < RoundedBytes(bytes)
  {
    RoundedBytesExact(bytes);
    if s.allocMode == 1 && bytes > 0 {
      AvailableExact(s.memoryLimit, SumOver(a.spans), RoundedBytes(bytes));
      if ComesToLoops(s, a, bytes) {
        RaiseEndsIff(counter, RoundedBytes(bytes));
      }
    }
  }

  /** A call lingers exactly if it comes to the shrinking loop and that neither finds a size agreed to nor
      has all of them refused. */
  lemma LingersIff(s: Settings, a: Arena, counter: nat, bytes: nat, device: Device)
    requires SettingsOk(s) && counter < WORD && Aligned(counter) && bytes <= WORD - 256
    requires s.allocMode == 1 ==> SumOver(a.spans) <= s.memoryLimit
    ensures var m := RoundedBytes(bytes);
            var sizes := SizesFrom(FirstSize(s, SumOver(a.spans), counter, m));
            Lingers(s, a, counter, bytes, device) <==>
              && ComesToLoops(s, a, bytes) && counter > 0
              && !RefusedAll(device, m, sizes) && forall j: nat :: !AgreesAt(device, m, sizes, j)
  {
    var m, total := RoundedBytes(bytes), SumOver(a.spans);
    RoundedBytesExact(bytes);
    if s.allocMode == 1 && bytes > 0 {
      AvailableExact(s.memoryLimit, total, m);
      if ComesToLoops(s, a, bytes) && counter > 0 {
        FirstSizeFits(s, total, counter, m);
        SettlesIff(device, m, FirstSize(s, total, counter, m));
      }
    }
  }

  lemma FirstSizeFits(s: Settings, total: nat, counter: nat, m: nat)
    requires SettingsOk(s) && total <= s.memoryLimit && 0 < counter < WORD && Aligned(counter)
    requires Aligned(m) && m <= Available(s.memoryLimit, total)
    ensures m <= ADDRESS_LIMIT && Raised(counter, m) < WORD && Aligned(Raised(counter, m))
    ensures var first := FirstSize(s, total, counter, m);
            && Aligned(first) && first < WORD && total + first <= s.memoryLimit
            && (m <= first <==> m <= s.limitAlloc)
  {
    AvailableWithin(s.memoryLimit, total);
    var n := RaisedIsFirst(counter, m);
    FirstAttemptFits(s.memoryLimit, total, Raised(counter, m), s.limitAlloc, m);
  }

  /** The counter after an extension that passed the limit check: below the request, it is doubled until it
      reaches it, whatever the device says; else it is doubled once, modulo 2^64, by a success only. */
  ghost predicate CounterRight(before: nat, m: nat, ok: bool, after: nat) {
    if before < m then m <= after < 2 * m && exists n: nat :: after == DoubledUnbounded(before, n)
    else if ok then after == (2 * before) % 0x1_0000_0000_0000_0000
    else after == before
  }

  lemma CounterIsRight(s: Settings, total: nat, counter: nat, m: nat)
    requires SettingsOk(s) && s.allocMode == 1 && total <= s.memoryLimit && 0 < counter < WORD
    requires m <= Available(s.memoryLimit, total)
    ensures forall grown: Option<Span> {:trigger NextCounter(s, total, counter, m, grown)} ::
              CounterRight(counter, m, grown.Some?, NextCounter(s, total, counter, m, grown))
  {
    AvailableWithin(s.memoryLimit, total);
    if counter < m {
      RaisedBetween(counter, m);
      var n := RaisedIsFirst(counter, m);
    }
  }

  /** The first size is the least of the raised counter, what the limit leaves, and `LimitAlloc()`. */
  lemma FirstSizeIsLeast(s: Settings, total: nat, counter: nat, m: nat)
    requires SettingsOk(s) && total <= s.memoryLimit && 0 < counter < WORD && m <= Available(s.memoryLimit, total)
    ensures var first := FirstSize(s, total, counter, m);
            var raised := NextCounter(s.(allocMode := 1), total, counter, m, None);
            && first <= raised && first <= Available(s.memoryLimit, total) && first <= s.limitAlloc
            && (first == raised || first == Available(s.memoryLimit, total) || first == s.limitAlloc)
  {
    FirstAttemptIsLeast(Reached(counter, m), Available(s.memoryLimit, total), s.limitAlloc);
  }

  /** The region a reply brings is fresh, aligned and, in mode 1, within the limit; in mode 1 it holds the
      request exactly when `LimitAlloc()` does, and in mode 2 always. */
  lemma ReplyFits(s: Settings, a: Arena, counter: nat, m: nat, device: Device)
    requires SettingsOk(s) && DeviceOk(a.spans, device) && 0 < m < WORD && Aligned(m)
    requires counter < WORD && Aligned(counter) && SumOver(a.spans) < WORD
    requires s.allocMode == 1 ==> SumOver(a.spans) <= s.memoryLimit
    ensures var r := Reply(s, SumOver(a.spans), counter, m, device);
            r.Some? ==>
              && FreshSpan(a.spans, r.value.base, r.value.size) && Aligned(r.value.size)
              && (s.allocMode == 1 ==> SumOver(a.spans) + r.value.size <= s.memoryLimit)
              && (m <= r.value.size <==> s.allocMode == 2 || m <= s.limitAlloc)
  {
    var total := SumOver(a.spans);
    var r := Reply(s, total, counter, m, device);
    SmallRegionFits(m);
    if r.Some? && s.allocMode == 1 {
      FirstSizeFits(s, total, counter, m);
      var first := FirstSize(s, total, counter, m);
      var j := LargeReplyIsGrant(device, m, SizesFrom(first));
      BackpedalledFalls(SizesFrom(first), first, j);
    }
  }

  /** An allocation returns null exactly when no gap holds it and the extension fails or brings too little. */
  lemma NullIff(s: Settings, device: Device, a: Arena, counter: nat, bytes: nat, grown: Option<Span>, counter': nat,
                r: Addr, a': Arena)
    requires Safe(a) && 0 < bytes && AllocStep(a, bytes, grown, r, a')
    requires Answers(s, device, a, counter, bytes, grown, counter')
    ensures var m := RoundedBytes(bytes);
            var reply := Reply(s, SumOver(a.spans), counter, m, device);
            r == NULL <==> !FitsSomewhere(a, m) && (reply.None? || reply.value.size < m)
  {
    var m := RoundedBytes(bytes);
    RoundedBytesExact(bytes);
    if grown.Some? {
      GrowKeepsSafe(a, grown.value);
      FitsAfterGrowth(a, grown.value, m);
      PlacesKeepsSafe(Grow(a, grown.value), m, bytes, r, a');
    } else {
      PlacesKeepsSafe(a, m, bytes, r, a');
    }
  }

  /** Nothing is left open: state, request and device determine the whole outcome. */
  lemma OutcomeDetermined(s: Settings, device: Device, a: Arena, counter: nat, bytes: nat,
                          grown: Option<Span>, r: Addr, b: Arena, c: nat,
                          grown': Option<Span>, r': Addr, b': Arena, c': nat)
    requires Safe(a)
    requires AllocStep(a, bytes, grown, r, b) && Answers(s, device, a, counter, bytes, grown, c)
    requires AllocStep(a, bytes, grown', r', b') && Answers(s, device, a, counter, bytes, grown', c')
    ensures grown == grown' && r == r' && b == b' && c == c'
  {
    AllocDeterministic(a, bytes, grown, r, b, r', b');
  }

  /** Where nothing fitted before, the new region decides whether something fits now. */
  lemma FitsAfterGrowth(a: Arena, s: Span, m: nat)
    requires Safe(a) && !FitsSomewhere(a, m) && FreshSpan(a.spans, s.base, s.size) && Aligned(s.size)
    ensures FitsSomewhere(Grow(a, s), m) <==> s.size >= m
  {
    var b := Grow(a, s);
    GrowKeepsSafe(a, s);
    SpansGrow(a.spans, s);
    forall q | q in a.used ensures Apart(s.base, s.size, q, a.used[q].size) && a.used[q].base != s.base {
      assert BlockOk(a, q);
      assert Apart(s.base, s.size, a.used[q].base, a.spans[a.used[q].base]);
    }
    assert IsGap(b, s.base, s.size, s.base);
    forall p: Addr, n: nat, base: Addr | IsGap(b, p, n, base) && n >= m ensures s.size >= m {
      if base == s.base {
        assert n <= s.size;
      } else {
        assert forall q :: q in a.used ==> Apart(p, n, q, b.used[q].size) == Apart(p, n, q, a.used[q].size);
        assert BlockEndsAt(b, base, p) ==> BlockEndsAt(a, base, p);
        assert IsGap(a, p, n, base);
      }
    }
  }
}
