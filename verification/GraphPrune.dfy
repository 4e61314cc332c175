/** `GraphFuncOp::canonicalize`: erasing unused operations from a function body until none is left.
    The body is a graph region, so operands may refer to later operations and cycles are allowed. */
module GraphPrune {

  type Value = nat

  /** An operation, known by the value it defines, with the values it uses. */
  datatype Op = Op(id: Value, isReturn: bool, operands: seq<Value>)

  predicate Uses(u: Op, o: Op) {
    o.id in u.operands
  }

  ghost function Ops(body: seq<Op>): set<Op> {
    set o | o in body
  }

  /** Values are defined once. */
  ghost predicate Defined(body: seq<Op>) {
    forall i, j :: 0 <= i < j < |body| ==> body[i].id != body[j].id
  }

  ghost predicate HasUser(s: set<Op>, o: Op) {
    exists u :: u in s && Uses(u, o)
  }

  ghost predicate Needed(s: set<Op>, o: Op) {
    o.isReturn || HasUser(s, o)
  }

  /** Every operation but the returns has a user in the set. */
  ghost predicate Supported(s: set<Op>) {
    forall o {:trigger Needed(s, o)} :: o in s ==> Needed(s, o)
  }

  /** The union of all supported sets of operations, if it is itself one. */
  ghost predicate LargestSupported(all: set<Op>, s: set<Op>) {
    s <= all && Supported(s) && forall t: set<Op> {:trigger Supported(t)} :: t <= all && Supported(t) ==> t <= s
  }

  ghost predicate IsSelection(kept: seq<Op>, body: seq<Op>, index: seq<nat>) {
    && |index| == |kept|
    && (forall k :: 0 <= k < |index| ==> index[k] < |body| && kept[k] == body[index[k]])
    && (forall j, k :: 0 <= j < k < |index| ==> index[j] < index[k])
  }

  lemma SelectionDrop(kept: seq<Op>, body: seq<Op>, index: seq<nat>, i: nat)
    requires IsSelection(kept, body, index) && i < |kept|
    ensures IsSelection(kept[..i] + kept[i + 1..], body, index[..i] + index[i + 1..])
  {
  }

  lemma SelectionDistinct(kept: seq<Op>, body: seq<Op>, index: seq<nat>, j: nat, k: nat)
    requires IsSelection(kept, body, index) && Defined(body) && j < k < |kept|
    ensures kept[j] != kept[k]
  {
    assert index[j] < index[k];
  }

  lemma DropOps(kept: seq<Op>, body: seq<Op>, index: seq<nat>, i: nat)
    requires IsSelection(kept, body, index) && Defined(body) && i < |kept|
    ensures Ops(kept[..i] + kept[i + 1..]) == Ops(kept) - {kept[i]}
  {
    var a, b := kept[..i], kept[i + 1..];
    assert kept == a + [kept[i]] + b;
    assert kept[i] !in a by {
      forall j | 0 <= j < |a| ensures a[j] != kept[i] { SelectionDistinct(kept, body, index, j, i); }
    }
    assert kept[i] !in b by {
      forall j | 0 <= j < |b| ensures b[j] != kept[i] { SelectionDistinct(kept, body, index, i, i + 1 + j); }
    }
  }

  /** Erasing an unneeded operation loses no supported set. */
  lemma EraseKeepsSupported(s: set<Op>, o: Op, t: set<Op>)
    requires o in s && !Needed(s, o) && t <= s && Supported(t)
    ensures t <= s - {o}
  {
    assert o in t ==> Needed(t, o);
  }

  method HasNoUses(body: seq<Op>, o: Op) returns (empty: bool)
    ensures empty <==> !HasUser(Ops(body), o)
  {
    empty := true;
    for i := 0 to |body|
      invariant empty <==> forall j :: 0 <= j < i ==> !Uses(body[j], o)
    {
      if o.id in body[i].operands {
        empty := false;
      }
    }
    if !empty {
      var j :| 0 <= j < |body| && Uses(body[j], o);
      assert body[j] in Ops(body);
    }
  }

  /** Backwards over the body, erasing what has no uses, again and again until a pass changes nothing. */
  method Canonicalize(body: seq<Op>) returns (kept: seq<Op>)
    requires Defined(body)
    ensures LargestSupported(Ops(body), Ops(kept))
    ensures exists index :: IsSelection(kept, body, index)
  {
    kept := body;
    ghost var index: seq<nat> := seq(|body|, i => i);
    var changed := true;
    while changed
      invariant IsSelection(kept, body, index) && Ops(kept) <= Ops(body)
      invariant forall t: set<Op> :: t <= Ops(body) && Supported(t) ==> t <= Ops(kept)
      invariant !changed ==> Supported(Ops(kept))
      decreases |kept|, changed
    {
      changed := false;
      ghost var before := |kept|;
      var i := |kept|;
      while i > 0
        invariant 0 <= i <= |kept| <= before && (changed ==> |kept| < before)
        invariant IsSelection(kept, body, index) && Ops(kept) <= Ops(body)
        invariant forall t: set<Op> :: t <= Ops(body) && Supported(t) ==> t <= Ops(kept)
        invariant !changed ==> forall k :: i <= k < |kept| ==> Needed(Ops(kept), kept[k])
      {
        i := i - 1;
        if kept[i].isReturn { continue; }
        var unused := HasNoUses(kept, kept[i]);
        if unused {
          forall t: set<Op> | t <= Ops(body) && Supported(t) ensures t <= Ops(kept) - {kept[i]} {
            EraseKeepsSupported(Ops(kept), kept[i], t);
          }
          DropOps(kept, body, index, i);
          SelectionDrop(kept, body, index, i);
          kept, index := kept[..i] + kept[i + 1..], index[..i] + index[i + 1..];
          changed := true;
        }
      }
    }
  }

  // ---- What survives ----

  lemma LargestUnique(all: set<Op>, s: set<Op>, t: set<Op>)
    requires LargestSupported(all, s) && LargestSupported(all, t)
    ensures s == t
  {
  }

  /** One erasure in no particular order, and a run of them. */
  ghost predicate Erases(s: set<Op>, s': set<Op>) {
    exists o :: o in s && !Needed(s, o) && s' == s - {o}
  }

  ghost predicate ErasureRun(states: seq<set<Op>>) {
    states != [] && forall k :: 0 <= k < |states| - 1 ==> Erases(states[k], states[k + 1])
  }

  lemma {:induction false} RunKeepsSupported(states: seq<set<Op>>, t: set<Op>)
    requires ErasureRun(states) && t <= states[0] && Supported(t)
    ensures t <= states[|states| - 1] <= states[0]
  {
    var n := |states| - 1;
    if n > 0 {
      RunKeepsSupported(states[..n], t);
      assert Erases(states[n - 1], states[n]);
      var o :| o in states[n - 1] && !Needed(states[n - 1], o) && states[n] == states[n - 1] - {o};
      EraseKeepsSupported(states[n - 1], o, t);
    }
  }

  /** Whatever the visiting order, erasing until nothing is unneeded ends in the same set. */
  lemma OrderDoesNotMatter(states: seq<set<Op>>)
    requires ErasureRun(states) && Supported(states[|states| - 1])
    ensures LargestSupported(states[0], states[|states| - 1])
  {
    RunKeepsSupported(states, {});
    forall t: set<Op> | t <= states[0] && Supported(t) ensures t <= states[|states| - 1] {
      RunKeepsSupported(states, t);
    }
  }

  lemma ExtendSupported(all: set<Op>, s: set<Op>, o: Op)
    requires LargestSupported(all, s) && o in all && Needed(s, o)
    ensures o in s
  {
    var t := s + {o};
    forall p | p in t ensures Needed(t, p) {
      assert p in s ==> Needed(s, p);
      if HasUser(s, p) {
        var u :| u in s && Uses(u, p);
        assert u in t;
      }
    }
    assert Supported(t);
  }

  /** Operands of survivors survive, and so do the returns. */
  lemma OperandsSurvive(all: set<Op>, s: set<Op>)
    requires LargestSupported(all, s)
    ensures forall o :: o in all && o.isReturn ==> o in s
    ensures forall u, o :: u in s && o in all && Uses(u, o) ==> o in s
  {
    forall o | o in all && o.isReturn ensures o in s {
      ExtendSupported(all, s, o);
    }
    forall u, o | u in s && o in all && Uses(u, o) ensures o in s {
      assert HasUser(s, o);
      ExtendSupported(all, s, o);
    }
  }

  /** A chain of uses from a return operation down to `o`. */
  ghost predicate IsChain(all: set<Op>, path: seq<Op>, o: Op) {
    && path != [] && path[0].isReturn && path[|path| - 1] == o
    && (forall k :: 0 <= k < |path| ==> path[k] in all)
    && (forall k :: 0 <= k < |path| - 1 ==> Uses(path[k], path[k + 1]))
  }

  ghost predicate Reachable(all: set<Op>, o: Op) {
    exists path :: IsChain(all, path, o)
  }

  lemma {:induction false} ChainSurvives(all: set<Op>, s: set<Op>, path: seq<Op>, o: Op)
    requires LargestSupported(all, s) && IsChain(all, path, o)
    ensures o in s
  {
    OperandsSurvive(all, s);
    var n := |path| - 1;
    if n > 0 {
      assert IsChain(all, path[..n], path[n - 1]);
      ChainSurvives(all, s, path[..n], path[n - 1]);
      assert Uses(path[n - 1], path[n]);
    }
  }

  lemma ChainExtend(all: set<Op>, path: seq<Op>, u: Op, o: Op)
    requires IsChain(all, path, u) && o in all && Uses(u, o)
    ensures IsChain(all, path + [o], o)
  {
  }

  lemma ReachableDown(all: set<Op>, u: Op, o: Op)
    requires Reachable(all, u) && o in all && Uses(u, o)
    ensures Reachable(all, o)
  {
    var path :| IsChain(all, path, u);
    ChainExtend(all, path, u, o);
  }

  /** Each operation of a cycle is used by the next one, and the last by the first. */
  ghost predicate IsCycle(all: set<Op>, c: seq<Op>) {
    && c != [] && (forall k :: 0 <= k < |c| ==> c[k] in all)
    && IsWalk(c) && Uses(c[0], c[|c| - 1])
  }

  ghost predicate IsWalk(w: seq<Op>) {
    forall k :: 0 <= k < |w| - 1 ==> Uses(w[k + 1], w[k])
  }

  /** A cycle that no return depends on. */
  ghost predicate HasDeadCycle(all: set<Op>) {
    exists c :: IsCycle(all, c) && !Reachable(all, c[0])
  }

  ghost predicate Distinct(w: seq<Op>) {
    forall j, k :: 0 <= j < k < |w| ==> w[j] != w[k]
  }

  lemma {:induction false} DistinctBound(w: seq<Op>, s: set<Op>)
    requires Distinct(w) && forall k :: 0 <= k < |w| ==> w[k] in s
    ensures |w| <= |s|
  {
    if w != [] {
      var n := |w| - 1;
      DistinctBound(w[..n], s - {w[n]});
    }
  }

  /** Going from user to user inside a finite set must come back to a place already visited. */
  lemma {:induction false} WalkCloses(s: set<Op>, w: seq<Op>) returns (c: seq<Op>)
    requires w != [] && Distinct(w) && IsWalk(w) && forall k :: 0 <= k < |w| ==> w[k] in s
    requires forall o {:trigger HasUser(s, o)} :: o in s ==> HasUser(s, o)
    ensures IsCycle(s, c)
    decreases |s| - |w|
  {
    DistinctBound(w, s);
    var last := w[|w| - 1];
    assert HasUser(s, last);
    var u :| u in s && Uses(u, last);
    if u in w {
      var j :| 0 <= j < |w| && w[j] == u;
      c := w[j..];
    } else {
      DistinctBound(w + [u], s);
      c := WalkCloses(s, w + [u]);
    }
  }

  lemma CycleSurvives(all: set<Op>, s: set<Op>, c: seq<Op>)
    requires LargestSupported(all, s) && IsCycle(all, c)
    ensures c[0] in s
  {
    var t := Ops(c);
    forall o | o in t ensures Needed(t, o) {
      var k :| 0 <= k < |c| && c[k] == o;
      var u := if k < |c| - 1 then c[k + 1] else c[0];
      assert u in t && Uses(u, o);
    }
    assert Supported(t) && c[0] in t;
  }

  /** The stated purpose, that what the returns do not depend on is pruned, is met exactly when the body
      has no dead cycle. */
  lemma KeepsOnlyReachableIff(all: set<Op>, s: set<Op>)
    requires LargestSupported(all, s)
    ensures (forall o :: o in s <==> o in all && Reachable(all, o)) <==> !HasDeadCycle(all)
  {
    forall o | o in all && Reachable(all, o) ensures o in s {
      var path :| IsChain(all, path, o);
      ChainSurvives(all, s, path, o);
    }
    if c :| IsCycle(all, c) && !Reachable(all, c[0]) {
      CycleSurvives(all, s, c);
    }
    if o :| o in s && !Reachable(all, o) {
      DeadSurvivorHasCycle(all, s, o);
    }
  }

  lemma DeadSurvivorHasCycle(all: set<Op>, s: set<Op>, o: Op)
    requires LargestSupported(all, s) && o in s && !Reachable(all, o)
    ensures HasDeadCycle(all)
  {
    var dead := set p | p in s && !Reachable(all, p);
    forall p | p in dead ensures HasUser(dead, p) {
      assert Needed(s, p);
      assert p.isReturn ==> IsChain(all, [p], p);
      var u :| u in s && Uses(u, p);
      if Reachable(all, u) { ReachableDown(all, u, p); }
      assert u in dead;
    }
    var c := WalkCloses(dead, [o]);
    assert IsCycle(all, c) && c[0] in dead;
  }

  /** With a cycle the purpose is missed: two operations that only use each other are kept although no
      return depends on them. */
  lemma DeadCycleSurvives()
    ensures var a, b, r := Op(1, false, [2]), Op(2, false, [1]), Op(3, true, []);
            forall s :: LargestSupported({a, b, r}, s) ==> a in s && !Reachable({a, b, r}, a)
  {
    var a, b, r := Op(1, false, [2]), Op(2, false, [1]), Op(3, true, []);
    var all := {a, b, r};
    forall s | LargestSupported(all, s) ensures a in s {
      assert Uses(a, b) && Uses(b, a);
      assert Needed({a, b}, a) && Needed({a, b}, b);
      assert Supported({a, b});
    }
    forall path ensures !IsChain(all, path, a) {
      if IsChain(all, path, a) {
        FromReturn(path, a, b, r);
      }
    }
  }

  lemma {:induction false} FromReturn(path: seq<Op>, a: Op, b: Op, r: Op)
    requires a == Op(1, false, [2]) && b == Op(2, false, [1]) && r == Op(3, true, [])
    requires path != [] && IsChain({a, b, r}, path, path[|path| - 1])
    ensures path[|path| - 1] == r
  {
    var n := |path| - 1;
    if n > 0 {
      assert Uses(path[n - 1], path[n]);
      assert IsChain({a, b, r}, path[..n], path[..n][n - 1]);
      FromReturn(path[..n], a, b, r);
    }
  }

  // ---- Returned values ----

  /** The value of `id` when its definition is unfolded `n` deep: an operation applies its own meaning to
      the values of its operands; what no operation defines is an argument. Cycles unfold like anything. */
  ghost function Meaning<V>(s: set<Op>, apply: (Op, seq<V>) -> V, argument: Value -> V, id: Value, n: nat): V
    decreases n
  {
    if n > 0 && exists o :: o in s && o.id == id then
      var o :| o in s && o.id == id;
      apply(o, seq(|o.operands|, i requires 0 <= i < |o.operands| => Meaning(s, apply, argument, o.operands[i], n - 1)))
    else argument(id)
  }

  ghost predicate UniqueIds(s: set<Op>) {
    forall o, p :: o in s && p in s && o.id == p.id ==> o == p
  }

  lemma MeaningUnfold<V>(s: set<Op>, apply: (Op, seq<V>) -> V, argument: Value -> V, o: Op, n: nat)
    requires UniqueIds(s) && o in s && n > 0
    ensures Meaning(s, apply, argument, o.id, n) ==
            apply(o,
                seq(|o.operands|,
                    i requires 0 <= i < |o.operands| => Meaning(s, apply, argument, o.operands[i], n - 1)))
  {
  }

  /** Pruning does not change the value of anything a kept operation defines or uses. */
  lemma {:induction false} MeaningPreserved<V>(all: set<Op>, s: set<Op>, apply: (Op, seq<V>) -> V,
                                               argument: Value -> V, id: Value, n: nat)
    requires LargestSupported(all, s) && UniqueIds(all)
    requires forall o :: o in all && o.id == id ==> o in s
    ensures Meaning(all, apply, argument, id, n) == Meaning(s, apply, argument, id, n)
    decreases n
  {
    if n > 0 && exists o :: o in all && o.id == id {
      var o :| o in all && o.id == id;
      OperandsSurvive(all, s);
      var before :=
          seq(|o.operands|, i requires 0 <= i < |o.operands| => Meaning(all, apply, argument, o.operands[i], n - 1));
      var after :=
          seq(|o.operands|, i requires 0 <= i < |o.operands| => Meaning(s, apply, argument, o.operands[i], n - 1));
      forall i | 0 <= i < |o.operands| ensures before[i] == after[i] {
        assert forall p :: p in all && p.id == o.operands[i] ==> Uses(o, p);
        MeaningPreserved(all, s, apply, argument, o.operands[i], n - 1);
      }
      assert before == after;
      MeaningUnfold(all, apply, argument, o, n);
      MeaningUnfold(s, apply, argument, o, n);
    }
  }

  /** In particular every returned value is what it was. */
  lemma ReturnsPreserved<V>(body: seq<Op>, kept: seq<Op>, r: Op, apply: (Op, seq<V>) -> V, argument: Value -> V,
                            k: nat, n: nat)
    requires Defined(body) && LargestSupported(Ops(body), Ops(kept)) && r in body && r.isReturn && k < |r.operands|
    ensures r in kept
    ensures Meaning(Ops(body), apply, argument, r.operands[k], n)
            == Meaning(Ops(kept), apply, argument, r.operands[k], n)
  {
    OperandsSurvive(Ops(body), Ops(kept));
    assert r in Ops(body);
    forall o, p | o in Ops(body) && p in Ops(body) && o.id == p.id ensures o == p {
      var i :| 0 <= i < |body| && body[i] == o;
      var j :| 0 <= j < |body| && body[j] == p;
    }
    assert forall o :: o in Ops(body) && o.id == r.operands[k] ==> Uses(r, o);
    MeaningPreserved(Ops(body), Ops(kept), apply, argument, r.operands[k], n);
  }
}
