/** Tensors as shapes with a value at each index, and the three library operations the normalisation
    layers are built from: transpose, reshape in row-major order, and a function applied to each row. */
module Tensors {
  import opened Arithmetic

  datatype Tensor = Tensor(shape: seq<nat>, at: seq<nat> -> real)

  function Product(s: seq<nat>): nat {
    if s == [] then 1 else s[0] * Product(s[1..])
  }

  ghost predicate InShape(shape: seq<nat>, idx: seq<nat>) {
    |idx| == |shape| && forall i :: 0 <= i < |idx| ==> idx[i] < shape[i]
  }

  /** Row-major position of an index. */
  function Flat(shape: seq<nat>, idx: seq<nat>): nat {
    if shape == [] || idx == [] then 0 else idx[0] * Product(shape[1..]) + Flat(shape[1..], idx[1..])
  }

  /** The index at a row-major position. */
  function Unflat(shape: seq<nat>, n: nat): seq<nat> {
    if shape == [] then []
    else
      var p := Product(shape[1..]);
      if p == 0 then seq(|shape|, _ => 0) else [n / p] + Unflat(shape[1..], n % p)
  }

  lemma {:induction false} FlatBound(shape: seq<nat>, idx: seq<nat>)
    requires InShape(shape, idx)
    ensures Flat(shape, idx) < Product(shape)
  {
    if shape != [] {
      FlatBound(shape[1..], idx[1..]);
      MulAddBound(idx[0], shape[0], Product(shape[1..]), Flat(shape[1..], idx[1..]));
    }
  }

  lemma {:induction false} UnflatFlat(shape: seq<nat>, idx: seq<nat>)
    requires InShape(shape, idx)
    ensures Unflat(shape, Flat(shape, idx)) == idx
  {
    if shape != [] {
      FlatBound(shape[1..], idx[1..]);
      DivModUnique(idx[0], Product(shape[1..]), Flat(shape[1..], idx[1..]));
      UnflatFlat(shape[1..], idx[1..]);
    }
  }

  lemma InShapeCons(shape: seq<nat>, q: nat, rest: seq<nat>)
    requires shape != [] && q < shape[0] && InShape(shape[1..], rest)
    ensures InShape(shape, [q] + rest) && ([q] + rest)[1..] == rest
  {
  }

  lemma {:induction false} FlatUnflat(shape: seq<nat>, n: nat)
    requires n < Product(shape)
    ensures InShape(shape, Unflat(shape, n)) && Flat(shape, Unflat(shape, n)) == n
  {
    if shape != [] {
      var p := Product(shape[1..]);
      assert p > 0;
      DivBound(n, shape[0], p);
      QuotientNat(n, p);
      FlatUnflat(shape[1..], n % p);
      InShapeCons(shape, n / p, Unflat(shape[1..], n % p));
    }
  }

  lemma {:induction false} ProductAppend(s: seq<nat>, t: seq<nat>)
    ensures Product(s + t) == Product(s) * Product(t)
  {
    if s == [] {
      assert s + t == t;
    } else {
      ProductAppend(s[1..], t);
      assert (s + t)[1..] == s[1..] + t;
      assert s[0] * (Product(s[1..]) * Product(t)) == (s[0] * Product(s[1..])) * Product(t);
    }
  }

  lemma Singleton(m: nat, d: nat)
    ensures Product([m]) == m && Flat([m], [d]) == d
  {
    assert [m][1..] == [] && [d][1..] == [];
  }

  lemma ProductSnoc(s: seq<nat>, lo: nat, hi: nat)
    requires lo <= hi < |s|
    ensures Product(s[lo..hi + 1]) == Product(s[lo..hi]) * s[hi]
  {
    assert s[lo..hi + 1] == s[lo..hi] + [s[hi]];
    ProductAppend(s[lo..hi], [s[hi]]);
    Singleton(s[hi], 0);
  }

  lemma InShapeAppend(s: seq<nat>, t: seq<nat>, i: seq<nat>, j: seq<nat>)
    requires InShape(s, i) && InShape(t, j)
    ensures InShape(s + t, i + j)
  {
  }

  lemma Regroup(a: nat, p: nat, q: nat, x: nat, y: nat)
    ensures a * (p * q) + (x * q + y) == (a * p + x) * q + y
  {
    assert a * (p * q) == (a * p) * q;
  }

  /** The position of a joined index, from the positions of its parts. */
  lemma {:induction false} FlatAppend(s: seq<nat>, t: seq<nat>, i: seq<nat>, j: seq<nat>)
    requires |i| == |s| && |j| == |t|
    ensures Flat(s + t, i + j) == Flat(s, i) * Product(t) + Flat(t, j)
  {
    if s == [] {
      assert s + t == t && i + j == j;
    } else {
      FlatAppend(s[1..], t, i[1..], j);
      ProductAppend(s[1..], t);
      assert (s + t)[1..] == s[1..] + t && (i + j)[1..] == i[1..] + j;
      Regroup(i[0], Product(s[1..]), Product(t), Flat(s[1..], i[1..]), Flat(t, j));
    }
  }

  // ---- The library operations ----

  /** `tf.reshape`: the same values in the same row-major order. */
  function Reshape(x: Tensor, shape: seq<nat>): Tensor {
    Tensor(shape, idx => x.at(Unflat(x.shape, Flat(shape, idx))))
  }

  /** Indices at the same row-major position hold the same value. */
  lemma ReshapeAt(x: Tensor, shape: seq<nat>, idx: seq<nat>, from: seq<nat>)
    requires InShape(x.shape, from) && Flat(x.shape, from) == Flat(shape, idx)
    ensures Reshape(x, shape).at(idx) == x.at(from)
  {
    UnflatFlat(x.shape, from);
  }

  /** `inv` undoes `perm` in both directions. */
  ghost predicate Inverse(perm: seq<nat>, inv: seq<nat>) {
    && |inv| == |perm|
    && (forall k {:trigger perm[k]} :: 0 <= k < |perm| ==> perm[k] < |perm| && inv[perm[k]] == k)
    && (forall k {:trigger inv[k]} :: 0 <= k < |perm| ==> inv[k] < |perm| && perm[inv[k]] == k)
  }

  /** Entry k of the result is entry perm[k] of the sequence. */
  function Gather(s: seq<nat>, perm: seq<nat>): seq<nat> {
    seq(|perm|, k requires 0 <= k < |perm| => if perm[k] < |s| then s[perm[k]] else 0)
  }

  lemma GatherInverse(s: seq<nat>, perm: seq<nat>, inv: seq<nat>)
    requires |s| == |perm| && Inverse(perm, inv)
    ensures Gather(Gather(s, perm), inv) == s
  {
    forall k | 0 <= k < |s| ensures Gather(Gather(s, perm), inv)[k] == s[k] {
      assert inv[k] < |perm| && perm[inv[k]] == k;
    }
  }

  /** `tf.transpose`: dimension k of the result is dimension perm[k] of the input. `inv` is the inverse
      permutation, which finds the input index of an output index. */
  function Transpose(x: Tensor, perm: seq<nat>, inv: seq<nat>): Tensor {
    Tensor(Gather(x.shape, perm), idx => x.at(Gather(idx, inv)))
  }

  lemma TransposeAt(x: Tensor, perm: seq<nat>, inv: seq<nat>, idx: seq<nat>)
    requires Inverse(perm, inv) && |idx| == |perm|
    ensures Transpose(x, perm, inv).at(Gather(idx, perm)) == x.at(idx)
  {
    GatherInverse(idx, perm, inv);
  }

  ghost predicate KeepsLength(f: seq<real> -> seq<real>) {
    forall s :: |f(s)| == |s|
  }

  /** The elements along the last axis with leading index `lead`. */
  function Row(x: Tensor, lead: seq<nat>): seq<real>
    requires x.shape != []
  {
    seq(x.shape[|x.shape| - 1], d requires 0 <= d < x.shape[|x.shape| - 1] => x.at(lead + [d]))
  }

  /** A row function applied along the last axis. */
  function MapRows(f: seq<real> -> seq<real>, x: Tensor): Tensor
    requires x.shape != []
  {
    Tensor(x.shape, idx => if idx == [] then 0.0 else RowEntry(f(Row(x, idx[..|idx| - 1])), idx[|idx| - 1]))
  }

  function RowEntry(row: seq<real>, d: nat): real {
    if d < |row| then row[d] else 0.0
  }

  lemma MapRowsAt(f: seq<real> -> seq<real>, x: Tensor, lead: seq<nat>, d: nat)
    requires x.shape != [] && d < |f(Row(x, lead))|
    ensures MapRows(f, x).at(lead + [d]) == f(Row(x, lead))[d]
  {
    assert (lead + [d])[..|lead|] == lead;
  }
}
