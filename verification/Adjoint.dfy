/** The flattened gradients of the dense layer are gradients: against any weights, the weight gradient has the
    inner product that the upstream values have with the forward product, and likewise for the bias. */
module Adjoint {
  import opened Wrappers
  import opened Arithmetic
  import opened Tensors
  import opened DenseGradient

  // ---- Sums ----

  function Ones(): nat -> real {
    (i: nat) => 1.0
  }

  lemma {:induction false} SumOnes(n: nat)
    ensures Sum(n, Ones()) == n as real
  {
    if n > 0 {
      SumOnes(n - 1);
    }
  }

  /** Where all other terms are zero the sum is the one that is left. */
  lemma {:induction false} SumOfOne(n: nat, g: nat -> real, i: nat)
    requires forall j: nat :: j < n && j != i ==> g(j) == 0.0
    ensures Sum(n, g) == if i < n then g(i) else 0.0
  {
    if n > 0 {
      SumOfOne(n - 1, g, i);
    }
  }

  lemma {:induction false} SumPlus(n: nat, g: nat -> real, h: nat -> real, both: nat -> real)
    requires forall i: nat :: i < n ==> both(i) == g(i) + h(i)
    ensures Sum(n, both) == Sum(n, g) + Sum(n, h)
  {
    if n > 0 {
      SumPlus(n - 1, g, h, both);
    }
  }

  lemma {:induction false} SumScaled(n: nat, g: nat -> real, c: real, scaled: nat -> real)
    requires forall i: nat :: i < n ==> scaled(i) == g(i) * c
    ensures Sum(n, scaled) == Sum(n, g) * c
  {
    if n > 0 {
      SumScaled(n - 1, g, c, scaled);
    }
  }

  type Table = (nat, nat) -> real

  function Across(h: Table, i: nat): nat -> real {
    (j: nat) => h(i, j)
  }

  function Totals(h: Table, m: nat): nat -> real {
    (i: nat) => Sum(m, Across(h, i))
  }

  function Flip(h: Table): Table {
    (i: nat, j: nat) => h(j, i)
  }

  /** The rows' totals and the columns' totals have the same sum. */
  lemma {:induction false} SumSwap(n: nat, m: nat, h: Table)
    ensures Sum(n, Totals(h, m)) == Sum(m, Totals(Flip(h), n))
  {
    if n == 0 {
      SumOfOne(m, Totals(Flip(h), 0), m);
    } else {
      SumSwap(n - 1, m, h);
      forall j: nat | j < m ensures Totals(Flip(h), n)(j) == Totals(Flip(h), n - 1)(j) + Across(h, n - 1)(j) {
        assert Sum(n, Across(Flip(h), j)) == Sum(n - 1, Across(Flip(h), j)) + h(n - 1, j);
      }
      SumPlus(m, Totals(Flip(h), n - 1), Across(h, n - 1), Totals(Flip(h), n));
    }
  }

  // ---- Matrices ----

  /** Row by column of two matrices. */
  function MatMul(x: Tensor, w: Tensor): Tensor
    requires |x.shape| == 2 && |w.shape| == 2
  {
    Tensor([x.shape[0], w.shape[1]], idx => if |idx| == 2 then Sum(x.shape[1], RowTimes(x, w, idx[0], idx[1])) else 0.0)
  }

  function RowTimes(x: Tensor, w: Tensor, r: nat, q: nat): nat -> real {
    (p: nat) => x.at([r, p]) * w.at([p, q])
  }

  /** The products of the entries of two matrices of one shape. */
  function Entries(a: Tensor, b: Tensor): Table {
    (i: nat, j: nat) => a.at([i, j]) * b.at([i, j])
  }

  function Dot(a: Tensor, b: Tensor): real
    requires |a.shape| == 2
  {
    Sum(a.shape[0], Totals(Entries(a, b), a.shape[1]))
  }

  function Term(x: Tensor, u: Tensor, w: Tensor, r: nat, p: nat, q: nat): real {
    x.at([r, p]) * u.at([r, q]) * w.at([p, q])
  }

  function ByQR(x: Tensor, u: Tensor, w: Tensor, p: nat): Table {
    (q: nat, r: nat) => Term(x, u, w, r, p, q)
  }

  function ByPQ(x: Tensor, u: Tensor, w: Tensor, r: nat): Table {
    (p: nat, q: nat) => Term(x, u, w, r, p, q)
  }

  function ByPR(x: Tensor, u: Tensor, w: Tensor, n: nat): Table {
    (p: nat, r: nat) => Sum(n, Across(ByPQ(x, u, w, r), p))
  }

  lemma Rearranged(a: real, b: real, c: real)
    ensures a * b * c == a * c * b
  {
  }

  lemma GradientEntry(x: Tensor, u: Tensor, w: Tensor, rows: nat, p: nat, q: nat)
    requires |x.shape| == 2 && |u.shape| == 2 && x.shape[0] == rows
    ensures Across(Entries(MatMulTransposed(x, u), w), p)(q) == Totals(ByQR(x, u, w, p), rows)(q)
  {
    SumScaled(rows, Terms2(x, u, p, q), w.at([p, q]), Across(ByQR(x, u, w, p), q));
  }

  /** One row of the gradient against the weights, with the sum over data rows outside. */
  lemma GradientRow(x: Tensor, u: Tensor, w: Tensor, n: nat, rows: nat, p: nat)
    requires |x.shape| == 2 && |u.shape| == 2 && x.shape[0] == rows
    ensures Totals(Entries(MatMulTransposed(x, u), w), n)(p) == Totals(ByPR(x, u, w, n), rows)(p)
  {
    var h, e := ByQR(x, u, w, p), Entries(MatMulTransposed(x, u), w);
    forall q: nat | q < n ensures Across(e, p)(q) == Totals(h, rows)(q) {
      GradientEntry(x, u, w, rows, p, q);
    }
    SumEqual(n, Across(e, p), Totals(h, rows));
    SumSwap(n, rows, h);
    forall r: nat | r < rows ensures Totals(Flip(h), n)(r) == Across(ByPR(x, u, w, n), p)(r) {
      SumEqual(n, Across(Flip(h), r), Across(ByPQ(x, u, w, r), p));
    }
    SumEqual(rows, Totals(Flip(h), n), Across(ByPR(x, u, w, n), p));
  }

  lemma SumScaledLeft(n: nat, g: nat -> real, c: real, scaled: nat -> real)
    requires forall i: nat :: i < n ==> scaled(i) == g(i) * c
    ensures Sum(n, scaled) == c * Sum(n, g)
  {
    SumScaled(n, g, c, scaled);
  }

  lemma ForwardTerm(x: Tensor, u: Tensor, w: Tensor, r: nat, p: nat, q: nat)
    ensures Across(Flip(ByPQ(x, u, w, r)), q)(p) == RowTimes(x, w, r, q)(p) * u.at([r, q])
  {
    Rearranged(x.at([r, p]), u.at([r, q]), w.at([p, q]));
  }

  lemma ForwardEntry(x: Tensor, u: Tensor, w: Tensor, k: nat, r: nat, q: nat)
    requires |x.shape| == 2 && |w.shape| == 2 && x.shape[1] == k
    ensures Totals(Flip(ByPQ(x, u, w, r)), k)(q) == Across(Entries(u, MatMul(x, w)), r)(q)
  {
    var g, f, c := Across(Flip(ByPQ(x, u, w, r)), q), RowTimes(x, w, r, q), u.at([r, q]);
    forall p: nat | p < k ensures g(p) == f(p) * c {
      ForwardTerm(x, u, w, r, p, q);
    }
    SumScaledLeft(k, f, c, g);
  }

  /** One data row of the forward product against the upstream values. */
  lemma ForwardRow(x: Tensor, u: Tensor, w: Tensor, k: nat, n: nat, r: nat)
    requires |x.shape| == 2 && |w.shape| == 2 && x.shape[1] == k
    ensures Totals(Flip(ByPR(x, u, w, n)), k)(r) == Totals(Entries(u, MatMul(x, w)), n)(r)
  {
    var h, e := ByPQ(x, u, w, r), Entries(u, MatMul(x, w));
    SumEqual(k, Across(Flip(ByPR(x, u, w, n)), r), Totals(h, n));
    SumSwap(k, n, h);
    forall q: nat | q < n ensures Totals(Flip(h), k)(q) == Across(e, r)(q) {
      ForwardEntry(x, u, w, k, r, q);
    }
    SumEqual(n, Totals(Flip(h), k), Across(e, r));
  }

  /** transpose(x) * u is adjoint to multiplication by x. */
  lemma MatMulAdjoint(x: Tensor, u: Tensor, w: Tensor, k: nat, n: nat, rows: nat)
    requires x.shape == [rows, k] && u.shape == [rows, n] && w.shape == [k, n]
    ensures Dot(MatMulTransposed(x, u), w) == Dot(u, MatMul(x, w))
  {
    var h := ByPR(x, u, w, n);
    forall p: nat | p < k ensures Totals(Entries(MatMulTransposed(x, u), w), n)(p) == Totals(h, rows)(p) {
      GradientRow(x, u, w, n, rows, p);
    }
    SumEqual(k, Totals(Entries(MatMulTransposed(x, u), w), n), Totals(h, rows));
    SumSwap(k, rows, h);
    forall r: nat | r < rows ensures Totals(Flip(h), k)(r) == Totals(Entries(u, MatMul(x, w)), n)(r) {
      ForwardRow(x, u, w, k, n, r);
    }
    SumEqual(rows, Totals(Flip(h), k), Totals(Entries(u, MatMul(x, w)), n));
  }

  // ---- Batches ----

  function Value3(x: Tensor, w: Tensor, i: nat, j: nat, q: nat): nat -> real {
    (p: nat) => x.at([i, j, p]) * w.at([p, q])
  }

  /** The upstream values of row j of batch i against the forward product there. */
  function ForwardTerms(u: Tensor, x: Tensor, w: Tensor, k: nat, i: nat, j: nat): nat -> real {
    (q: nat) => u.at([i, j, q]) * Sum(k, Value3(x, w, i, j, q))
  }

  function ForwardTable(u: Tensor, x: Tensor, w: Tensor, k: nat, n: nat): Table {
    (i: nat, j: nat) => Sum(n, ForwardTerms(u, x, w, k, i, j))
  }

  lemma FlattenedForwardEntry(x: Tensor, w: Tensor, x2: Tensor, b: nat, m: nat, k: nat, i: nat, j: nat, q: nat)
    requires x.shape == [b, m, k] && |w.shape| == 2 && i < b && j < m
    requires Reshape2d(x, b * m) == Some(x2) && x2.shape == [b * m, k]
    ensures MatMul(x2, w).at([i * m + j, q]) == Sum(k, Value3(x, w, i, j, q))
  {
    forall p: nat | p < k ensures RowTimes(x2, w, i * m + j, q)(p) == Value3(x, w, i, j, q)(p) {
      Flattened(x, b, m, k, i, j, p);
    }
    SumEqual(k, RowTimes(x2, w, i * m + j, q), Value3(x, w, i, j, q));
  }

  lemma FlattenedForwardRow(x: Tensor, u: Tensor, w: Tensor, x2: Tensor, u2: Tensor,
                            b: nat, m: nat, k: nat, n: nat, i: nat, j: nat)
    requires x.shape == [b, m, k] && u.shape == [b, m, n] && w.shape == [k, n] && i < b && j < m
    requires Reshape2d(x, b * m) == Some(x2) && Reshape2d(u, b * m) == Some(u2) && x2.shape == [b * m, k]
    ensures Totals(Entries(u2, MatMul(x2, w)), n)(i * m + j) == ForwardTable(u, x, w, k, n)(i, j)
  {
    var e := Entries(u2, MatMul(x2, w));
    forall q: nat | q < n ensures Across(e, i * m + j)(q) == ForwardTerms(u, x, w, k, i, j)(q) {
      Flattened(u, b, m, n, i, j, q);
      FlattenedForwardEntry(x, w, x2, b, m, k, i, j, q);
    }
    SumEqual(n, Across(e, i * m + j), ForwardTerms(u, x, w, k, i, j));
  }

  /** A sum over flattened rows is the sum over batches and rows. */
  lemma SumByBatch(b: nat, m: nat, g: nat -> real, h: Table)
    requires forall i: nat, j: nat :: i < b && j < m ==> g(i * m + j) == h(i, j)
    ensures Sum(b * m, g) == Sum(b, Totals(h, m))
  {
    SumFlattened(b, m, g);
    forall i: nat | i < b ensures Stretch(g, m)(i) == Totals(h, m)(i) {
      SumEqual(m, Shift(g, i * m), Across(h, i));
    }
    SumEqual(b, Stretch(g, m), Totals(h, m));
  }

  lemma ForwardByBatch(x: Tensor, u: Tensor, w: Tensor, x2: Tensor, u2: Tensor, b: nat, m: nat, k: nat, n: nat)
    requires x.shape == [b, m, k] && u.shape == [b, m, n] && w.shape == [k, n]
    requires Reshape2d(x, b * m) == Some(x2) && Reshape2d(u, b * m) == Some(u2)
    requires x2.shape == [b * m, k] && u2.shape == [b * m, n]
    ensures Dot(u2, MatMul(x2, w)) == Sum(b, Totals(ForwardTable(u, x, w, k, n), m))
  {
    var g, h := Totals(Entries(u2, MatMul(x2, w)), n), ForwardTable(u, x, w, k, n);
    forall i: nat, j: nat | i < b && j < m ensures g(i * m + j) == h(i, j) {
      FlattenedForwardRow(x, u, w, x2, u2, b, m, k, n, i, j);
    }
    SumByBatch(b, m, g, h);
  }

  /** For all weights: the weight gradient against them is the upstream values against the forward product. */
  lemma WeightGradientIsAdjoint(x: Tensor, u: Tensor, w: Tensor, b: nat, m: nat, k: nat, n: nat)
    requires x.shape == [b, m, k] && u.shape == [b, m, n] && w.shape == [k, n] && b * m > 0
    ensures FlattenedGrad(x, u).Some?
    ensures Dot(FlattenedGrad(x, u).value.0, w) == Sum(b, Totals(ForwardTable(u, x, w, k, n), m))
  {
    var x2, u2 := FlattenedMatrices(x, u, b, m, k, n);
    MatMulAdjoint(x2, u2, w, k, n, b * m);
    ForwardByBatch(x, u, w, x2, u2, b, m, k, n);
  }

  lemma FlattenedMatrices(x: Tensor, u: Tensor, b: nat, m: nat, k: nat, n: nat) returns (x2: Tensor, u2: Tensor)
    requires x.shape == [b, m, k] && u.shape == [b, m, n] && b * m > 0
    ensures Reshape2d(x, b * m) == Some(x2) && Reshape2d(u, b * m) == Some(u2)
    ensures x2.shape == [b * m, k] && u2.shape == [b * m, n]
    ensures FlattenedGrad(x, u) == Some((MatMulTransposed(x2, u2), BiasAddGrad2(u2)))
  {
    assert u.shape[..2] == [b, m];
    ProductTwoThree(b, m, k);
    ProductTwoThree(b, m, n);
    ExactDivision(b * m, k);
    ExactDivision(b * m, n);
    x2, u2 := Reshape2d(x, b * m).value, Reshape2d(u, b * m).value;
  }

  // ---- The bias ----

  function BiasTerms(g: Tensor, c: Tensor): nat -> real {
    (q: nat) => g.at([q]) * c.at([q])
  }

  function BiasTable(u2: Tensor, c: Tensor): Table {
    (q: nat, r: nat) => u2.at([r, q]) * c.at([q])
  }

  function UpstreamTerms(u: Tensor, c: Tensor, i: nat, j: nat): nat -> real {
    (q: nat) => u.at([i, j, q]) * c.at([q])
  }

  function UpstreamTable(u: Tensor, c: Tensor, n: nat): Table {
    (i: nat, j: nat) => Sum(n, UpstreamTerms(u, c, i, j))
  }

  lemma BiasEntryScaled(u2: Tensor, c: Tensor, rows: nat, q: nat)
    requires |u2.shape| == 2 && u2.shape[0] == rows
    ensures BiasTerms(BiasAddGrad2(u2), c)(q) == Totals(BiasTable(u2, c), rows)(q)
  {
    var g := Across(BiasTable(u2, c), q);
    forall r: nat | r < rows ensures g(r) == AlongFirst(u2, [q])(r) * c.at([q]) {
      assert [r] + [q] == [r, q];
    }
    SumScaled(rows, AlongFirst(u2, [q]), c.at([q]), g);
  }

  lemma BiasRow(u: Tensor, u2: Tensor, c: Tensor, b: nat, m: nat, n: nat, i: nat, j: nat)
    requires u.shape == [b, m, n] && Reshape2d(u, b * m) == Some(u2) && i < b && j < m
    ensures Totals(Flip(BiasTable(u2, c)), n)(i * m + j) == UpstreamTable(u, c, n)(i, j)
  {
    var g := Across(Flip(BiasTable(u2, c)), i * m + j);
    forall q: nat | q < n ensures g(q) == UpstreamTerms(u, c, i, j)(q) {
      Flattened(u, b, m, n, i, j, q);
    }
    SumEqual(n, g, UpstreamTerms(u, c, i, j));
  }

  lemma BiasByBatch(u: Tensor, u2: Tensor, c: Tensor, b: nat, m: nat, n: nat)
    requires u.shape == [b, m, n] && Reshape2d(u, b * m) == Some(u2) && u2.shape == [b * m, n]
    ensures Sum(n, BiasTerms(BiasAddGrad2(u2), c)) == Sum(b, Totals(UpstreamTable(u, c, n), m))
  {
    var h := BiasTable(u2, c);
    forall q: nat | q < n ensures BiasTerms(BiasAddGrad2(u2), c)(q) == Totals(h, b * m)(q) {
      BiasEntryScaled(u2, c, b * m, q);
    }
    SumEqual(n, BiasTerms(BiasAddGrad2(u2), c), Totals(h, b * m));
    SumSwap(n, b * m, h);
    forall i: nat, j: nat | i < b && j < m ensures Totals(Flip(h), n)(i * m + j) == UpstreamTable(u, c, n)(i, j) {
      BiasRow(u, u2, c, b, m, n, i, j);
    }
    SumByBatch(b, m, Totals(Flip(h), n), UpstreamTable(u, c, n));
  }

  /** For all biases: the bias gradient against them is the upstream values against the bias added to each row. */
  lemma BiasGradientIsAdjoint(x: Tensor, u: Tensor, c: Tensor, b: nat, m: nat, k: nat, n: nat)
    requires x.shape == [b, m, k] && u.shape == [b, m, n] && b * m > 0
    ensures FlattenedGrad(x, u).Some?
    ensures Sum(n, BiasTerms(FlattenedGrad(x, u).value.1, c)) == Sum(b, Totals(UpstreamTable(u, c, n), m))
  {
    var x2, u2 := FlattenedMatrices(x, u, b, m, k, n);
    BiasByBatch(u, u2, c, b, m, n);
  }
}
