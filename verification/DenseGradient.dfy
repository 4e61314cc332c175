/** The gradient of the overridden dense layer on rank-3 inputs: batch and row dimensions are flattened
    into one so that a single matrix product replaces a product per batch and a sum. Arithmetic is exact. */
module DenseGradient {
  import opened Wrappers
  import opened Arithmetic
  import opened Tensors

  function Sum(n: nat, g: nat -> real): real {
    if n == 0 then 0.0 else Sum(n - 1, g) + g(n - 1)
  }

  lemma {:induction false} SumEqual(n: nat, g: nat -> real, h: nat -> real)
    requires forall i: nat :: i < n ==> g(i) == h(i)
    ensures Sum(n, g) == Sum(n, h)
  {
    if n > 0 {
      SumEqual(n - 1, g, h);
    }
  }

  function Shift(g: nat -> real, k: nat): nat -> real {
    (j: nat) => g(k + j)
  }

  /** The sum of the i-th stretch of m terms. */
  function Stretch(g: nat -> real, m: nat): nat -> real {
    (i: nat) => Sum(m, Shift(g, i * m))
  }

  lemma {:induction false} SumAppend(n: nat, m: nat, g: nat -> real)
    ensures Sum(n + m, g) == Sum(n, g) + Sum(m, Shift(g, n))
  {
    if m > 0 {
      SumAppend(n, m - 1, g);
    }
  }

  /** A sum over a flattened dimension is the sum of the sums over its parts. */
  lemma {:induction false} SumFlattened(b: nat, m: nat, g: nat -> real)
    ensures Sum(b * m, g) == Sum(b, Stretch(g, m))
  {
    if b > 0 {
      SumFlattened(b - 1, m, g);
      assert b * m == (b - 1) * m + m;
      SumAppend((b - 1) * m, m, g);
    }
  }

  // ---- The library products ----

  function Terms2(x: Tensor, u: Tensor, p: nat, q: nat): nat -> real {
    (r: nat) => x.at([r, p]) * u.at([r, q])
  }

  function Terms3(x: Tensor, u: Tensor, i: nat, p: nat, q: nat): nat -> real {
    (r: nat) => x.at([i, r, p]) * u.at([i, r, q])
  }

  /** transpose(x) * u for matrices with the same number of rows. */
  function MatMulTransposed(x: Tensor, u: Tensor): Tensor
    requires |x.shape| == 2 && |u.shape| == 2
  {
    Tensor([x.shape[1], u.shape[1]], idx => if |idx| == 2 then Sum(x.shape[0], Terms2(x, u, idx[0], idx[1])) else 0.0)
  }

  /** The same per batch: one transposed product for each leading index. */
  function BatchMatMulTransposed(x: Tensor, u: Tensor): Tensor
    requires |x.shape| == 3 && |u.shape| == 3
  {
    Tensor([x.shape[0], x.shape[2], u.shape[2]], idx =>
      if |idx| == 3 then Sum(x.shape[1], Terms3(x, u, idx[0], idx[1], idx[2])) else 0.0)
  }

  function AlongFirst(x: Tensor, idx: seq<nat>): nat -> real {
    (b: nat) => x.at([b] + idx)
  }

  /** reduce_sum over the first axis. */
  function ReduceSumFirst(x: Tensor): Tensor
    requires x.shape != []
  {
    Tensor(x.shape[1..], idx => Sum(x.shape[0], AlongFirst(x, idx)))
  }

  /** BiasAddGrad of a matrix: the sum over its rows. */
  function BiasAddGrad2(u: Tensor): Tensor
    requires |u.shape| == 2
  {
    ReduceSumFirst(u)
  }

  /** BiasAddGrad of a rank-3 tensor: the sum over everything but the last axis. */
  function BiasAddGrad3(u: Tensor): Tensor
    requires |u.shape| == 3
  {
    ReduceSumFirst(ReduceSumSecond(u))
  }

  function AlongSecond(x: Tensor, i: nat, q: nat): nat -> real {
    (r: nat) => x.at([i, r, q])
  }

  function ReduceSumSecond(x: Tensor): Tensor
    requires |x.shape| == 3
  {
    Tensor([x.shape[0], x.shape[2]], idx => if |idx| == 2 then Sum(x.shape[1], AlongSecond(x, idx[0], idx[1])) else 0.0)
  }

  /** Reshape to [rows, -1]: the missing dimension is inferred, which needs a non-zero row count. */
  function Reshape2d(x: Tensor, rows: nat): Option<Tensor> {
    if rows == 0 then None else Some(Reshape(x, [rows, Product(x.shape) / rows]))
  }

  // ---- The two gradients ----

  /** The slower form, given as a comment beside the code. */
  function ReferenceGrad(x: Tensor, upstream: Tensor): (Tensor, Tensor)
    requires |x.shape| == 3 && |upstream.shape| == 3
  {
    (ReduceSumFirst(BatchMatMulTransposed(x, upstream)), BiasAddGrad3(upstream))
  }

  function FlattenedGrad(x: Tensor, upstream: Tensor): Option<(Tensor, Tensor)>
    requires |x.shape| == 3 && |upstream.shape| == 3
  {
    var batchSize := Product(upstream.shape[..2]);
    var u2, x2 := Reshape2d(upstream, batchSize), Reshape2d(x, batchSize);
    if u2.None? || x2.None? then None
    else Some((MatMulTransposed(x2.value, u2.value), BiasAddGrad2(u2.value)))
  }

  ghost predicate SameTensor(x: Tensor, y: Tensor) {
    x.shape == y.shape && forall idx {:trigger x.at(idx)} :: InShape(x.shape, idx) ==> x.at(idx) == y.at(idx)
  }

  lemma ProductTwoThree(b: nat, m: nat, k: nat)
    ensures Product([b, m]) == b * m && Product([b, m, k]) == b * m * k
  {
    Singleton(m, 0);
    Singleton(k, 0);
    assert [b, m][1..] == [m] && [b, m, k][1..] == [m, k] && [m, k][1..] == [k];
    assert b * (m * k) == b * m * k;
  }

  lemma ExactDivision(p: nat, k: nat)
    requires p > 0
    ensures (p * k) / p == k
  {
    DivModUnique(k, p, 0);
    assert k * p + 0 == p * k;
  }

  lemma FlatTwo(p: nat, q: nat, r: nat, c: nat)
    ensures Flat([p, q], [r, c]) == r * q + c
  {
    Singleton(q, c);
    assert [p, q][1..] == [q] && [r, c][1..] == [c];
  }

  lemma FlatThree(b: nat, m: nat, k: nat, i: nat, j: nat, c: nat)
    ensures Flat([b, m, k], [i, j, c]) == (i * m + j) * k + c
  {
    FlatTwo(m, k, j, c);
    ProductTwoThree(m, k, 0);
    assert [b, m, k][1..] == [m, k] && [i, j, c][1..] == [j, c];
    assert i * (m * k) + (j * k + c) == (i * m + j) * k + c by {
      Regroup(i, m, k, j, c);
    }
  }

  /** Row i * m + j of the flattened tensor is row j of batch i. */
  lemma Flattened(x: Tensor, b: nat, m: nat, k: nat, i: nat, j: nat, c: nat)
    requires x.shape == [b, m, k] && i < b && j < m && c < k
    ensures Reshape2d(x, b * m).Some? && Reshape2d(x, b * m).value.shape == [b * m, k]
    ensures Reshape2d(x, b * m).value.at([i * m + j, c]) == x.at([i, j, c])
  {
    MulAddBound(i, b, m, j);
    ProductTwoThree(b, m, k);
    ExactDivision(b * m, k);
    FlatTwo(b * m, k, i * m + j, c);
    FlatThree(b, m, k, i, j, c);
    ReshapeAt(x, [b * m, k], [i * m + j, c], [i, j, c]);
  }

  lemma WeightStretch(x: Tensor, u: Tensor, x2: Tensor, u2: Tensor, b: nat, m: nat, k: nat, n: nat, p: nat, q: nat,
                      i: nat)
    requires x.shape == [b, m, k] && u.shape == [b, m, n] && p < k && q < n && i < b
    requires Reshape2d(x, b * m) == Some(x2) && Reshape2d(u, b * m) == Some(u2)
    ensures Sum(m, Shift(Terms2(x2, u2, p, q), i * m)) == Sum(m, Terms3(x, u, i, p, q))
  {
    var g := Terms2(x2, u2, p, q);
    forall j: nat | j < m ensures Shift(g, i * m)(j) == Terms3(x, u, i, p, q)(j) {
      Flattened(x, b, m, k, i, j, p);
      Flattened(u, b, m, n, i, j, q);
    }
    SumEqual(m, Shift(g, i * m), Terms3(x, u, i, p, q));
  }

  /** One weight: a single sum over all rows against a sum of sums. */
  lemma WeightEntry(x: Tensor, u: Tensor, x2: Tensor, u2: Tensor, b: nat, m: nat, k: nat, n: nat, p: nat, q: nat)
    requires x.shape == [b, m, k] && u.shape == [b, m, n] && b * m > 0 && p < k && q < n
    requires Reshape2d(x, b * m) == Some(x2) && Reshape2d(u, b * m) == Some(u2)
    ensures Sum(b * m, Terms2(x2, u2, p, q)) == Sum(b, AlongFirst(BatchMatMulTransposed(x, u), [p, q]))
  {
    var g := Terms2(x2, u2, p, q);
    SumFlattened(b, m, g);
    forall i: nat | i < b ensures Stretch(g, m)(i) == AlongFirst(BatchMatMulTransposed(x, u), [p, q])(i) {
      WeightStretch(x, u, x2, u2, b, m, k, n, p, q, i);
      assert [i] + [p, q] == [i, p, q];
    }
    SumEqual(b, Stretch(g, m), AlongFirst(BatchMatMulTransposed(x, u), [p, q]));
  }

  lemma BiasEntry(u: Tensor, u2: Tensor, b: nat, m: nat, n: nat, q: nat)
    requires u.shape == [b, m, n] && b * m > 0 && q < n && Reshape2d(u, b * m) == Some(u2)
    ensures Sum(b * m, AlongFirst(u2, [q])) == Sum(b, AlongFirst(ReduceSumSecond(u), [q]))
  {
    var g := AlongFirst(u2, [q]);
    SumFlattened(b, m, g);
    forall i: nat | i < b ensures Stretch(g, m)(i) == AlongFirst(ReduceSumSecond(u), [q])(i) {
      forall j: nat | j < m ensures Shift(g, i * m)(j) == AlongSecond(u, i, q)(j) {
        Flattened(u, b, m, n, i, j, q);
        assert [i * m + j] + [q] == [i * m + j, q];
      }
      SumEqual(m, Shift(g, i * m), AlongSecond(u, i, q));
      assert [i] + [q] == [i, q];
    }
    SumEqual(b, Stretch(g, m), AlongFirst(ReduceSumSecond(u), [q]));
  }

  /** On every pair of rank-3 tensors that agree in batch and rows the flattened gradients of weights and
      bias are the reference ones; with no rows at all, where the reference is zero, they do not exist. */
  lemma GradientsAgree(x: Tensor, upstream: Tensor, b: nat, m: nat, k: nat, n: nat)
    requires x.shape == [b, m, k] && upstream.shape == [b, m, n]
    ensures FlattenedGrad(x, upstream).Some? <==> b * m > 0
    ensures b * m > 0 ==>
              && SameTensor(FlattenedGrad(x, upstream).value.0, ReferenceGrad(x, upstream).0)
              && SameTensor(FlattenedGrad(x, upstream).value.1, ReferenceGrad(x, upstream).1)
  {
    assert upstream.shape[..2] == [b, m];
    ProductTwoThree(b, m, k);
    ProductTwoThree(b, m, n);
    if b * m > 0 {
      ExactDivision(b * m, k);
      ExactDivision(b * m, n);
      WeightsAgree(x, upstream, b, m, k, n);
      BiasesAgree(upstream, b, m, n);
    }
  }

  lemma WeightsAgree(x: Tensor, u: Tensor, b: nat, m: nat, k: nat, n: nat)
    requires x.shape == [b, m, k] && u.shape == [b, m, n] && b * m > 0
    requires Product(x.shape) / (b * m) == k && Product(u.shape) / (b * m) == n
    ensures SameTensor(MatMulTransposed(Reshape2d(x, b * m).value, Reshape2d(u, b * m).value),
                       ReduceSumFirst(BatchMatMulTransposed(x, u)))
  {
    var x2, u2 := Reshape2d(x, b * m).value, Reshape2d(u, b * m).value;
    var fast, slow := MatMulTransposed(x2, u2), ReduceSumFirst(BatchMatMulTransposed(x, u));
    assert [b, k, n][1..] == [k, n];
    forall idx | InShape(fast.shape, idx) ensures fast.at(idx) == slow.at(idx) {
      WeightEntry(x, u, x2, u2, b, m, k, n, idx[0], idx[1]);
      assert [idx[0], idx[1]] == idx;
    }
  }

  lemma BiasesAgree(u: Tensor, b: nat, m: nat, n: nat)
    requires u.shape == [b, m, n] && b * m > 0 && Product(u.shape) / (b * m) == n
    ensures SameTensor(BiasAddGrad2(Reshape2d(u, b * m).value), BiasAddGrad3(u))
  {
    var u2 := Reshape2d(u, b * m).value;
    var fast, slow := BiasAddGrad2(u2), BiasAddGrad3(u);
    assert [b * m, n][1..] == [n] && [b, n][1..] == [n];
    forall idx | InShape(fast.shape, idx) ensures fast.at(idx) == slow.at(idx) {
      BiasEntry(u, u2, b, m, n, idx[0]);
      assert [idx[0]] == idx;
    }
  }
}
