/** The launcher's assignment from end to end: from the machine's cores to the text given to each instance. */
module Assignment {
  import opened Wrappers
  import opened Arithmetic
  import opened CoreRanges
  import opened Launcher

  /** The library's `sorted`, on a set. */
  method SortedList(s: set<nat>) returns (sorted: seq<nat>)
    ensures Ascending(sorted) && Elements(sorted) == s
  {
    sorted := [];
    var rest := s;
    while rest != {}
      invariant Ascending(sorted) && Elements(sorted) + rest == s
      invariant forall x, y :: x in sorted && y in rest ==> x < y
      decreases rest
    {
      var least := Least(rest);
      ghost var before := sorted;
      AscendingSnoc(sorted, least);
      sorted, rest := sorted + [least], rest - {least};
      assert Elements(sorted) == Elements(before) + {least};
    }
  }

  lemma AscendingSnoc(s: seq<nat>, x: nat)
    requires Ascending(s) && forall y :: y in s ==> y < x
    ensures Ascending(s + [x])
  {
    assert forall i :: 0 <= i < |s| ==> s[i] in s;
  }

  method Least(s: set<nat>) returns (least: nat)
    requires s != {}
    ensures least in s && forall x :: x in s ==> least <= x
  {
    least :| least in s;
    var rest := s - {least};
    while rest != {}
      invariant least in s && rest <= s
      invariant forall x :: x in s && x !in rest ==> least <= x
      decreases rest
    {
      var x :| x in rest;
      if x < least {
        least := x;
      }
      rest := rest - {x};
    }
  }

  /** What the tool that is given the text makes of it. */
  function ReadCores(text: string): seq<nat> {
    ExpandAll(ReadRanges(text))
  }

  /** Ranges that none could be longer, in plain decimal. */
  ghost predicate WellWritten(text: string) {
    Maximal(ReadRanges(text)) && IsText(text, ReadRanges(text))
  }

  ghost predicate HoldsSlice(sorted: seq<nat>, n: nat, t: nat, text: string) {
    t * n <= (t + 1) * n <= |sorted| && ReadCores(text) == Slice(sorted, n, t) && WellWritten(text)
  }

  /** Exactly n cores, all of one node. */
  ghost predicate InOneNode(cores: seq<nat>, p: nat, nodes: nat, n: nat, text: string) {
    && WellWritten(text) && |ReadCores(text)| == n
    && exists node: nat :: node < nodes && AllOfNode(cores, p, node, ReadCores(text))
  }

  ghost predicate ShareNone(t: string, u: string) {
    forall x :: x in ReadCores(t) ==> x !in ReadCores(u)
  }

  ghost predicate SomeReads(texts: seq<string>, x: nat) {
    exists t :: 0 <= t < |texts| && x in ReadCores(texts[t])
  }

  lemma AscendingPart(s: seq<nat>, lo: nat, hi: nat)
    requires Ascending(s) && lo <= hi <= |s|
    ensures Ascending(s[lo..hi])
  {
  }

  lemma SliceFits(n: nat, t: nat, count: nat, total: nat)
    requires t < count && count * n == total
    ensures t * n <= (t + 1) * n <= total
  {
    MulMonotone(t, t + 1, n);
    MulMonotone(t + 1, count, n);
  }

  lemma SliceHolding(n: nat, count: nat, i: nat) returns (t: nat)
    requires n > 0 && i < count * n
    ensures t < count && t * n <= i < t * n + n
  {
    t := FloorDiv(i, n);
    DivBound(i, count, n);
  }

  lemma InSlice(sorted: seq<nat>, n: nat, t: nat, i: nat)
    requires t * n <= i < t * n + n && i < |sorted| && (t + 1) * n <= |sorted|
    ensures t * n <= (t + 1) * n && sorted[i] in Slice(sorted, n, t)
  {
    assert (t + 1) * n == t * n + n;
    assert sorted[t * n..(t + 1) * n][i - t * n] == sorted[i];
  }

  /** The slices leave no core out. */
  lemma SlicesCover(sorted: seq<nat>, n: nat, texts: seq<string>, x: nat)
    requires n > 0 && |texts| * n == |sorted|
    requires forall t :: 0 <= t < |texts| ==> HoldsSlice(sorted, n, t, texts[t])
    ensures x in sorted <==> SomeReads(texts, x)
  {
    if x in sorted {
      var i :| 0 <= i < |sorted| && sorted[i] == x;
      var t := SliceHolding(n, |texts|, i);
      assert HoldsSlice(sorted, n, t, texts[t]);
      InSlice(sorted, n, t, i);
      assert x in ReadCores(texts[t]);
    }
    if SomeReads(texts, x) {
      var t :| 0 <= t < |texts| && x in ReadCores(texts[t]);
      assert HoldsSlice(sorted, n, t, texts[t]);
    }
  }

  /** One instance: slice, compress, write. */
  method InstanceText(sorted: seq<nat>, n: nat, i: nat) returns (text: string)
    requires Ascending(sorted) && i * n <= (i + 1) * n <= |sorted|
    ensures HoldsSlice(sorted, n, i, text)
  {
    AscendingPart(sorted, i * n, (i + 1) * n);
    text := InstanceCores(sorted[i * n..(i + 1) * n]);
  }

  /** The loop over the instances. */
  method InstanceTexts(sorted: seq<nat>, n: nat, ninstances: nat) returns (texts: seq<string>)
    requires Ascending(sorted) && ninstances * n == |sorted|
    ensures |texts| == ninstances && forall t :: 0 <= t < ninstances ==> HoldsSlice(sorted, n, t, texts[t])
  {
    texts := [];
    for i := 0 to ninstances
      invariant |texts| == i && forall t :: 0 <= t < i ==> HoldsSlice(sorted, n, t, texts[t])
    {
      SliceFits(n, i, ninstances, |sorted|);
      var text := InstanceText(sorted, n, i);
      texts := texts + [text];
    }
  }

  // ---- Which cores, in numbers ----

  /** A core is kept exactly if it is among the first p / n * n of its node. */
  lemma KeptIff(cores: seq<nat>, p: nat, n: nat, nodes: nat, i: nat)
    requires 1 <= n <= p && |cores| == nodes * p && Ascending(cores) && i < |cores|
    ensures cores[i] in KeptCores(cores, p, Width(p, n), nodes) <==> i % p < p / n * n
  {
    var w := Width(p, n);
    QuotientNat(p, n);
    KeptElements(cores, p, w, nodes);
    var kept := KeptCores(cores, p, w, nodes);
    assert cores[i] in kept <==> cores[i] in Elements(kept);
    assert cores[i] in Dropped(cores, p, w, |cores|) <==> DroppedPlace(p, w, i) by {
      forall k | 0 <= k < |cores| && cores[k] == cores[i] ensures k == i {
      }
    }
  }

  /** The j-th core of instance t, in the list of all cores. */
  function PlaceOf(p: nat, n: nat, t: nat, j: nat): nat
    requires 1 <= n <= p && p / n >= 1
  {
    t / (p / n) * p + t % (p / n) * n + j
  }

  lemma PlaceInSlice(p: nat, n: nat, t: nat, j: nat)
    requires 1 <= n <= p && p / n >= 1 && j < n && Width(p, n) == p / n * n
    ensures Place(p, Width(p, n), t * n + j) == PlaceOf(p, n, t, j)
  {
    var q := FloorDiv(p, n);
    var a, b := FloorDiv(t, q), t % q;
    QuotientNat(t, q);
    MulAddBound(b, q, n, j);
    assert t * n == a * (q * n) + b * n;
    DivModUnique(a, q * n, b * n + j);
  }

  lemma PlacesFit(p: nat, n: nat, nodes: nat, count: nat, t: nat, j: nat)
    requires 1 <= n <= p && count * n == nodes * Width(p, n) && t < count && j < n && p / n >= 1
    ensures t * n + j < nodes * Width(p, n)
  {
    MulAddBound(t, count, n, j);
  }

  ghost predicate HasCoreAt(cores: seq<nat>, text: string, j: nat, place: nat) {
    j < |ReadCores(text)| && place < |cores| && ReadCores(text)[j] == cores[place]
  }

  ghost predicate PlacesRight(cores: seq<nat>, p: nat, n: nat, texts: seq<string>)
    requires 1 <= n <= p
  {
    p / n >= 1 && forall t, j {:trigger PlaceOf(p, n, t, j)} :: 0 <= t < |texts| && 0 <= j < n ==>
      HasCoreAt(cores, texts[t], j, PlaceOf(p, n, t, j))
  }

  /** Some instance has the core at place i exactly if it is among the first p / n * n of its node. */
  ghost predicate KeptRight(cores: seq<nat>, p: nat, n: nat, texts: seq<string>, i: nat)
    requires 1 <= n <= p && i < |cores|
  {
    SomeReads(texts, cores[i]) <==> i % p < p / n * n
  }

  lemma CoreOfInstance(cores: seq<nat>, p: nat, n: nat, nodes: nat, count: nat, t: nat, j: nat, text: string)
    requires 1 <= n <= p && |cores| == nodes * p && count * n == nodes * Width(p, n) && t < count && j < n
    requires HoldsSlice(KeptCores(cores, p, Width(p, n), nodes), n, t, text)
    ensures p / n >= 1 && HasCoreAt(cores, text, j, PlaceOf(p, n, t, j))
  {
    WidthIs(p, n, nodes, count);
    PlacesFit(p, n, nodes, count, t, j);
    PlaceBound(p, Width(p, n), nodes, t * n + j);
    PlaceInSlice(p, n, t, j);
    var kept := KeptCores(cores, p, Width(p, n), nodes);
    assert (t + 1) * n == t * n + n;
    assert Slice(kept, n, t)[j] == kept[t * n + j];
  }

  /** There are nodes * (p / n) instances, or the call fails, exactly if n is more than p. Instance t's text
      reads as n cores of one node: those from place t % (p / n) * n of node t / (p / n) on. No core is in two
      texts, and together they are the first p / n * n of every node. */
  method AssignCores(cores: seq<nat>, p: nat, n: nat, ghost nodes: nat) returns (r: Option<seq<string>>)
    requires n >= 1 && |cores| == nodes * p && Ascending(cores)
    ensures r.None? <==> n > p
    ensures r.Some? ==> |r.value| == nodes * (p / n)
    ensures r.Some? ==> forall t :: 0 <= t < |r.value| ==> InOneNode(cores, p, nodes, n, r.value[t])
    ensures r.Some? ==> PlacesRight(cores, p, n, r.value)
    ensures r.Some? ==> forall t, u :: 0 <= t < u < |r.value| ==> ShareNone(r.value[t], r.value[u])
    ensures r.Some? ==> forall i :: 0 <= i < |cores| ==> KeptRight(cores, p, n, r.value, i)
  {
    var left := SkipCores(cores, p, n, nodes);
    if left.None? {
      return None;
    }
    var (kept, ninstances) := left.value;
    var sorted := SortedList(kept);
    AscendingSize(sorted);
    KeptAscending(cores, p, Width(p, n), nodes);
    AscendingUnique(sorted, KeptCores(cores, p, Width(p, n), nodes));
    WidthIs(p, n, nodes, ninstances);
    var texts := InstanceTexts(sorted, n, ninstances);
    InstancesRight(cores, p, n, nodes, texts);
    return Some(texts);
  }

  lemma InstancesRight(cores: seq<nat>, p: nat, n: nat, nodes: nat, texts: seq<string>)
    requires 1 <= n <= p && |cores| == nodes * p && Ascending(cores) && |texts| * n == nodes * Width(p, n)
    requires forall t :: 0 <= t < |texts| ==> HoldsSlice(KeptCores(cores, p, Width(p, n), nodes), n, t, texts[t])
    ensures forall t :: 0 <= t < |texts| ==> InOneNode(cores, p, nodes, n, texts[t])
    ensures PlacesRight(cores, p, n, texts)
    ensures forall t, u :: 0 <= t < u < |texts| ==> ShareNone(texts[t], texts[u])
    ensures forall i :: 0 <= i < |cores| ==> KeptRight(cores, p, n, texts, i)
  {
    var sorted := KeptCores(cores, p, Width(p, n), nodes);
    KeptAscending(cores, p, Width(p, n), nodes);
    WidthIs(p, n, nodes, |texts|);
    forall t | 0 <= t < |texts| ensures InOneNode(cores, p, nodes, n, texts[t]) {
      assert HoldsSlice(sorted, n, t, texts[t]);
      DivModUnique(|texts|, n, 0);
      SliceInOneNode(cores, p, n, nodes, sorted, t);
    }
    forall t, j | 0 <= t < |texts| && 0 <= j < n ensures HasCoreAt(cores, texts[t], j, PlaceOf(p, n, t, j)) {
      CoreOfInstance(cores, p, n, nodes, |texts|, t, j, texts[t]);
    }
    forall t, u | 0 <= t < u < |texts| ensures ShareNone(texts[t], texts[u]) {
      assert HoldsSlice(sorted, n, t, texts[t]) && HoldsSlice(sorted, n, u, texts[u]);
      SlicesDisjoint(sorted, n, t, u);
    }
    forall i | 0 <= i < |cores| ensures KeptRight(cores, p, n, texts, i) {
      SlicesCover(sorted, n, texts, cores[i]);
      KeptIff(cores, p, n, nodes, i);
    }
  }
}
