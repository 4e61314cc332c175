/** Core assignment of the CPU launcher: dropping the cores that would make an instance straddle two NUMA
    nodes, slicing the rest, and writing each slice as ranges. */
module Launcher {
  import opened Wrappers
  import opened Arithmetic

  ghost function Elements(s: seq<nat>): set<nat> {
    set x | x in s
  }

  lemma {:induction false} AscendingSize(s: seq<nat>)
    requires Ascending(s)
    ensures |Elements(s)| == |s|
  {
    if s != [] {
      var n := |s| - 1;
      AscendingSize(s[..n]);
      assert s == s[..n] + [s[n]];
      assert Elements(s) == Elements(s[..n]) + {s[n]};
      assert s[n] !in Elements(s[..n]);
    }
  }

  /** There is one ascending list of a set, so `sorted` has one possible result. */
  lemma {:induction false} AscendingUnique(s: seq<nat>, t: seq<nat>)
    requires Ascending(s) && Ascending(t) && Elements(s) == Elements(t)
    ensures s == t
  {
    AscendingSize(s);
    AscendingSize(t);
    if s != [] {
      var n := |s| - 1;
      assert s[n] in Elements(t) && t[n] in Elements(s);
      assert s[n] == t[n];
      assert Elements(s[..n]) == Elements(s) - {s[n]} by { DropLast(s); }
      assert Elements(t[..n]) == Elements(t) - {t[n]} by { DropLast(t); }
      AscendingUnique(s[..n], t[..n]);
      assert s == s[..n] + [s[n]] && t == t[..n] + [t[n]];
    }
  }

  lemma DropLast(s: seq<nat>)
    requires s != [] && Ascending(s)
    ensures Elements(s[..|s| - 1]) == Elements(s) - {s[|s| - 1]}
  {
    var n := |s| - 1;
    assert s == s[..n] + [s[n]];
  }

  // ---- Skipping cross-node cores ----

  /** With p cores a node and n an instance, the cores of each node that are kept. */
  function Width(p: nat, n: nat): (w: nat)
    requires 1 <= n <= p
    ensures 0 < w <= p
  {
    p - p % n
  }

  /** As many cores as make whole instances; with that many on every node, p / n instances for each. */
  lemma WidthIs(p: nat, n: nat, nodes: nat, count: nat)
    requires 1 <= n <= p && count * n == nodes * Width(p, n)
    ensures p / n >= 1 && Width(p, n) == p / n * n && count == nodes * (p / n)
  {
    var q := FloorDiv(p, n);
    QuotientNat(p, n);
    assert nodes * (q * n) == (nodes * q) * n;
    DivModUnique(count, n, 0);
    DivModUnique(nodes * q, n, 0);
  }

  /** The place in the full list of the k-th core kept. */
  function Place(p: nat, w: nat, k: nat): nat
    requires w > 0
  {
    k / w * p + k % w
  }

  lemma PlaceBound(p: nat, w: nat, nodes: nat, k: nat)
    requires 0 < w <= p && k < nodes * w
    ensures k / w < nodes && Place(p, w, k) < nodes * p && Place(p, w, k) % p == k % w && Place(p, w, k) / p == k / w
  {
    DivBound(k, nodes, w);
    MulAddBound(k / w, nodes, p, k % w);
    DivModUnique(k / w, p, k % w);
  }

  lemma PlaceOrder(p: nat, w: nat, a: nat, x: nat, b: nat, y: nat)
    requires x < w <= p && y < w && a * w + x < b * w + y
    ensures a * p + x < b * p + y
  {
    if a < b {
      MulMonotone(a + 1, b, p);
    } else if b < a {
      MulMonotone(b + 1, a, w);
    }
  }

  lemma PlaceMonotone(p: nat, w: nat, j: nat, k: nat)
    requires 0 < w <= p && j < k
    ensures Place(p, w, j) < Place(p, w, k)
  {
    PlaceOrder(p, w, j / w, j % w, k / w, k % w);
  }

  /** A place among the first `w` of its node is the place of some core kept. */
  lemma PlaceOnto(p: nat, w: nat, nodes: nat, i: nat) returns (k: nat)
    requires 0 < w <= p && i < nodes * p && i % p < w
    ensures k < nodes * w && Place(p, w, k) == i
  {
    var node, offset := FloorDiv(i, p), i % p;
    k := node * w + offset;
    DivBound(i, nodes, p);
    MulAddBound(node, nodes, w, offset);
    DivModUnique(node, w, offset);
    QuotientNat(i, p);
  }

  /** The cores kept, in order: the first `w` of every node. */
  ghost function KeptCores(cores: seq<nat>, p: nat, w: nat, nodes: nat): seq<nat>
    requires 0 < w <= p && |cores| == nodes * p
  {
    seq(nodes * w, k requires 0 <= k < nodes * w => PlaceBound(p, w, nodes, k); cores[Place(p, w, k)])
  }

  lemma KeptAscending(cores: seq<nat>, p: nat, w: nat, nodes: nat)
    requires 0 < w <= p && |cores| == nodes * p && Ascending(cores)
    ensures Ascending(KeptCores(cores, p, w, nodes))
  {
    var kept := KeptCores(cores, p, w, nodes);
    forall j, k | 0 <= j < k < |kept| ensures kept[j] < kept[k] {
      PlaceBound(p, w, nodes, j);
      PlaceBound(p, w, nodes, k);
      PlaceMonotone(p, w, j, k);
    }
  }

  /** A place is kept when it is among the first `w` of its node. */
  ghost predicate DroppedPlace(p: nat, w: nat, i: nat)
    requires p > 0
  {
    i % p >= w
  }

  ghost function Dropped(cores: seq<nat>, p: nat, w: nat, upTo: nat): set<nat>
    requires p > 0 && upTo <= |cores|
  {
    set i | 0 <= i < upTo && DroppedPlace(p, w, i) :: cores[i]
  }

  lemma KeptElements(cores: seq<nat>, p: nat, w: nat, nodes: nat)
    requires 0 < w <= p && |cores| == nodes * p && Ascending(cores)
    ensures Elements(KeptCores(cores, p, w, nodes)) == Elements(cores) - Dropped(cores, p, w, |cores|)
  {
    var kept := KeptCores(cores, p, w, nodes);
    forall x | x in Elements(kept) ensures x in Elements(cores) - Dropped(cores, p, w, |cores|) {
      var k :| 0 <= k < |kept| && kept[k] == x;
      PlaceBound(p, w, nodes, k);
      assert x == cores[Place(p, w, k)] && !DroppedPlace(p, w, Place(p, w, k));
    }
    forall x | x in Elements(cores) - Dropped(cores, p, w, |cores|) ensures x in Elements(kept) {
      var i :| 0 <= i < |cores| && cores[i] == x;
      assert !DroppedPlace(p, w, i);
      var k := PlaceOnto(p, w, nodes, i);
      assert kept[k] == x;
    }
  }

  lemma KeptWhole(p: nat, n: nat, nodes: nat)
    requires 1 <= n <= p
    ensures Width(p, n) % n == 0 && (nodes * Width(p, n)) % n == 0
  {
    var q := p / n;
    assert p == q * n + p % n;
    assert nodes * (q * n) == (nodes * q) * n;
    DivModUnique(q, n, 0);
    DivModUnique(nodes * q, n, 0);
  }

  /** The loop that collects the last cores of every node. */
  method LeftoverCores(cores: seq<nat>, p: nat, leftover: nat, ghost nodes: nat) returns (leftoverCores: set<nat>)
    requires 0 <= leftover < p && |cores| == nodes * p
    ensures leftoverCores == Dropped(cores, p, p - leftover, |cores|)
  {
    leftoverCores := {};
    var i := 1;
    while p * i <= |cores|
      invariant i >= 1 && p * (i - 1) <= |cores|
      invariant leftoverCores == Dropped(cores, p, p - leftover, p * (i - 1))
      decreases |cores| - p * (i - 1)
    {
      DroppedStep(cores, p, p - leftover, i);
      var last := cores[p * i - leftover..p * i];
      leftoverCores := leftoverCores + set x | x in last;
      i := i + 1;
    }
    LoopCoversAll(p, nodes, i);
  }

  /** The set difference, or all cores when nothing is left over. */
  method WithoutLeftovers(cores: seq<nat>, p: nat, n: nat, ghost nodes: nat) returns (kept: set<nat>)
    requires 1 <= n <= p && |cores| == nodes * p
    ensures kept == Elements(cores) - Dropped(cores, p, p - p % n, |cores|)
  {
    var numLeftoverCores := p % n;
    if numLeftoverCores == 0 {
      kept := set x | x in cores;
      NothingDropped(cores, p);
    } else {
      var leftoverCores := LeftoverCores(cores, p, numLeftoverCores, nodes);
      kept := (set x | x in cores) - leftoverCores;
    }
  }

  /** `skip_cores`: the cores left, as the unordered collection that the set difference gives, and the
      number of instances. An instance wider than a node ends the program: `None`. */
  method SkipCores(cores: seq<nat>, p: nat, n: nat, ghost nodes: nat) returns (r: Option<(set<nat>, nat)>)
    requires n >= 1 && |cores| == nodes * p && Ascending(cores)
    ensures r.None? <==> n > p
    ensures r.Some? ==> var (kept, ninstances) := r.value;
                        && kept == Elements(KeptCores(cores, p, Width(p, n), nodes))
                        && |kept| == nodes * Width(p, n) && Width(p, n) == p / n * n && ninstances == nodes * (p / n)
                        && ninstances * n == |kept|
  {
    if n > p {
      return None;
    }
    var kept := WithoutLeftovers(cores, p, n, nodes);
    KeptCount(cores, p, n, nodes);
    assert |kept| % n == 0; // assert in the source
    var ninstances := FloorDiv(|kept|, n);
    WidthIs(p, n, nodes, ninstances);
    return Some((kept, ninstances));
  }

  lemma NothingDropped(cores: seq<nat>, p: nat)
    requires p > 0
    ensures Dropped(cores, p, p, |cores|) == {}
  {
    assert forall i :: 0 <= i < |cores| ==> !DroppedPlace(p, p, i);
  }

  lemma KeptCount(cores: seq<nat>, p: nat, n: nat, nodes: nat)
    requires 1 <= n <= p && |cores| == nodes * p && Ascending(cores)
    ensures Elements(KeptCores(cores, p, Width(p, n), nodes))
            == Elements(cores) - Dropped(cores, p, Width(p, n), |cores|)
    ensures |Elements(KeptCores(cores, p, Width(p, n), nodes))| == nodes * Width(p, n)
    ensures |Elements(KeptCores(cores, p, Width(p, n), nodes))| % n == 0
  {
    KeptWhole(p, n, nodes);
    KeptAscending(cores, p, Width(p, n), nodes);
    KeptElements(cores, p, Width(p, n), nodes);
    AscendingSize(KeptCores(cores, p, Width(p, n), nodes));
  }

  lemma NodeOffset(p: nat, i: nat, j: nat)
    requires i >= 1 && p * (i - 1) <= j < p * i
    ensures p > 0 && j % p == j - p * (i - 1) && p * i == p * (i - 1) + p
  {
    DivModUnique(i - 1, p, j - p * (i - 1));
  }

  /** Node i adds exactly its last cores. */
  lemma DroppedStep(cores: seq<nat>, p: nat, w: nat, i: nat)
    requires 0 < w <= p && i >= 1 && p * i <= |cores|
    ensures 0 <= p * (i - 1) <= |cores| && 0 <= p * i - (p - w) && p * i == p * (i - 1) + p
    ensures Dropped(cores, p, w, p * i) == Dropped(cores, p, w, p * (i - 1)) + Elements(cores[p * i - (p - w)..p * i])
  {
    var lo, hi := p * (i - 1), p * i;
    assert 0 <= lo && hi == lo + p;
    var last := cores[hi - (p - w)..hi];
    forall x ensures x in Dropped(cores, p, w, hi) <==> x in Dropped(cores, p, w, lo) || x in Elements(last) {
      if x in Dropped(cores, p, w, hi) {
        var j :| 0 <= j < hi && DroppedPlace(p, w, j) && cores[j] == x;
        if j >= lo {
          NodeOffset(p, i, j);
          assert last[j - (hi - (p - w))] == x;
        }
      }
      if x in Elements(last) {
        var k :| 0 <= k < |last| && last[k] == x;
        NodeOffset(p, i, hi - (p - w) + k);
        assert DroppedPlace(p, w, hi - (p - w) + k) && cores[hi - (p - w) + k] == x;
      }
      if x in Dropped(cores, p, w, lo) {
        var j :| 0 <= j < lo && DroppedPlace(p, w, j) && cores[j] == x;
      }
    }
  }

  lemma LoopCoversAll(p: nat, nodes: nat, i: nat)
    requires p > 0 && i >= 1 && p * (i - 1) <= nodes * p < p * i
    ensures p * (i - 1) == nodes * p
  {
    if i - 1 < nodes {
      MulMonotone(i, nodes, p);
    } else if i - 1 > nodes {
      MulMonotone(nodes + 1, i - 1, p);
    }
  }

  // ---- Slices ----

  /** Instance t's cores, from the sorted list. */
  function Slice(sorted: seq<nat>, n: nat, t: nat): seq<nat>
    requires (t + 1) * n <= |sorted| && t * n <= (t + 1) * n
  {
    sorted[t * n..(t + 1) * n]
  }

  lemma SliceBounds(n: nat, t: nat, total: nat, w: nat, nodes: nat)
    requires n > 0 && w > 0 && w % n == 0 && total == nodes * w && t < total / n
    ensures t * n <= (t + 1) * n <= total && (t + 1) * n - t * n == n && t * n / w < nodes
    ensures t * n % w + n <= w
  {
    assert total == total / n * n + total % n;
    MulMonotone(t + 1, total / n, n);
    DivBound(t * n, nodes, w);
    // both w and the offset inside the node are multiples of n
    var c, a := w / n, t * n / w;
    assert w == c * n && t * n == a * w + t * n % w;
    assert a * w == (a * c) * n;
    assert t * n % w == (t - a * c) * n;
    RoomForOne(t - a * c, c, n);
  }

  lemma RoomForOne(x: int, c: nat, n: nat)
    requires n > 0 && x * n < c * n
    ensures x * n + n <= c * n
  {
    assert x < c by {
      assert x >= c ==> x * n >= c * n;
    }
    MulMonotone(x + 1, c, n);
  }

  ghost predicate OfNode(cores: seq<nat>, p: nat, node: nat, x: nat) {
    exists i: nat :: node * p <= i < node * p + p && i < |cores| && cores[i] == x
  }

  ghost predicate AllOfNode(cores: seq<nat>, p: nat, node: nat, s: seq<nat>) {
    forall x :: x in s ==> OfNode(cores, p, node, x)
  }

  lemma KeptAt(cores: seq<nat>, p: nat, w: nat, nodes: nat, node: nat, offset: nat)
    requires 0 < w <= p && |cores| == nodes * p && node < nodes && offset < w
    ensures node * w + offset < nodes * w && OfNode(cores, p, node, KeptCores(cores, p, w, nodes)[node * w + offset])
  {
    MulAddBound(node, nodes, w, offset);
    MulAddBound(node, nodes, p, offset);
    DivModUnique(node, w, offset);
    assert KeptCores(cores, p, w, nodes)[node * w + offset] == cores[node * p + offset];
  }

  /** Every instance gets exactly n cores, all of one node. */
  lemma SliceInOneNode(cores: seq<nat>, p: nat, n: nat, nodes: nat, sorted: seq<nat>, t: nat)
    requires 1 <= n <= p && |cores| == nodes * p && Ascending(cores)
    requires Ascending(sorted) && Elements(sorted) == Elements(KeptCores(cores, p, Width(p, n), nodes))
    requires t < |sorted| / n
    ensures t * n <= (t + 1) * n <= |sorted| && |Slice(sorted, n, t)| == n
    ensures exists node: nat :: node < nodes && AllOfNode(cores, p, node, Slice(sorted, n, t))
  {
    var w := Width(p, n);
    KeptAscending(cores, p, w, nodes);
    AscendingUnique(sorted, KeptCores(cores, p, w, nodes));
    KeptWhole(p, n, nodes);
    SliceBounds(n, t, |sorted|, w, nodes);
    QuotientNat(t * n, w);
    SliceOfNode(cores, p, w, nodes, n, t, t * n / w, t * n % w);
  }

  lemma SliceOfNode(cores: seq<nat>, p: nat, w: nat, nodes: nat, n: nat, t: nat, node: nat, offset: nat)
    requires 0 < w <= p && |cores| == nodes * p && node < nodes && t * n == node * w + offset && offset + n <= w
    requires t * n <= (t + 1) * n <= nodes * w && (t + 1) * n == t * n + n
    ensures AllOfNode(cores, p, node, Slice(KeptCores(cores, p, w, nodes), n, t))
  {
    var kept := KeptCores(cores, p, w, nodes);
    var s := Slice(kept, n, t);
    forall x | x in s ensures OfNode(cores, p, node, x) {
      var j :| 0 <= j < |s| && s[j] == x;
      assert kept[t * n + j] == x;
      KeptAt(cores, p, w, nodes, node, offset + j);
    }
  }

  /** No core is given to two instances. */
  lemma SlicesDisjoint(sorted: seq<nat>, n: nat, t: nat, u: nat)
    requires Ascending(sorted) && t < u && (u + 1) * n <= |sorted|
    ensures t * n <= (t + 1) * n <= u * n <= (u + 1) * n
    ensures forall x :: x in Slice(sorted, n, t) ==> x !in Slice(sorted, n, u)
  {
    MulMonotone(t, t + 1, n);
    MulMonotone(t + 1, u, n);
    MulMonotone(u, u + 1, n);
    ApartInOrder(sorted, t * n, (t + 1) * n, u * n, (u + 1) * n);
  }

  lemma ApartInOrder(s: seq<nat>, a: nat, b: nat, c: nat, d: nat)
    requires Ascending(s) && a <= b <= c <= d <= |s|
    ensures forall x :: x in s[a..b] ==> x !in s[c..d]
  {
  }
}
