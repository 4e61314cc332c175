/** The axis handling of the overridden normalisation layers: dimensions are permuted and collapsed so
    that a kernel that works on rows of the last axis can be used, and then put back. The kernel is an
    arbitrary function on rows that keeps their length. */
module Normalization {
  import opened Arithmetic
  import opened Tensors

  // ---- The permutation lists ----

  function Range(n: nat): seq<nat> {
    seq(n, i requires 0 <= i < n => i)
  }

  function Pop(s: seq<nat>, i: nat): seq<nat>
    requires i < |s|
  {
    s[..i] + s[i + 1..]
  }

  function Insert(s: seq<nat>, i: nat, v: nat): seq<nat>
    requires i <= |s|
  {
    s[..i] + [v] + s[i..]
  }

  function PermShape(ndims: nat, axis: nat): (p: seq<nat>)
    requires 1 <= axis < ndims
    ensures |p| == ndims
  {
    Insert(Pop(Range(ndims), axis), 1, axis)
  }

  function PermBackShape(ndims: nat, axis: nat): (p: seq<nat>)
    requires 1 <= axis < ndims
    ensures |p| == ndims
  {
    Insert(Pop(Range(ndims), 1), axis, 1)
  }

  /** The axis moves to place 1 and what was between shifts up; the other list says the opposite. */
  lemma PermEntries(ndims: nat, axis: nat, k: nat)
    requires 1 <= axis < ndims && k < ndims
    ensures PermShape(ndims, axis)[k] == if k == 0 then 0 else if k == 1 then axis else if k <= axis then k - 1 else k
    ensures PermBackShape(ndims, axis)[k] == if k == axis then 1 else if 1 <= k < axis then k + 1 else k
  {
    PopInsertAt(ndims, axis, 1, k);
    PopInsertAt(ndims, 1, axis, k);
  }

  /** Entry k of 0, 1, 2, ... after `pop(i)` and `insert(j, i)`. */
  lemma PopInsertAt(ndims: nat, i: nat, j: nat, k: nat)
    requires i < ndims && j < ndims && k < ndims
    ensures var popped := Pop(Range(ndims), i); |popped| == ndims - 1
    ensures Insert(Pop(Range(ndims), i), j, i)[k] ==
            if k == j then i else var m := if k < j then k else k - 1; if m < i then m else m + 1
  {
    var popped := Pop(Range(ndims), i);
    var m := if k < j then k else k - 1;
    if k != j {
      assert Insert(popped, j, i)[k] == popped[m];
      assert popped[m] == if m < i then Range(ndims)[m] else Range(ndims)[m + 1];
    }
  }

  lemma PermBackIsInverse(ndims: nat, axis: nat)
    requires 1 <= axis < ndims
    ensures Inverse(PermShape(ndims, axis), PermBackShape(ndims, axis))
    ensures Inverse(PermBackShape(ndims, axis), PermShape(ndims, axis))
  {
    var p, q := PermShape(ndims, axis), PermBackShape(ndims, axis);
    forall k | 0 <= k < ndims ensures p[k] < ndims && q[k] < ndims && q[p[k]] == k && p[q[k]] == k {
      PermEntries(ndims, axis, k);
      PermEntries(ndims, axis, p[k]);
      PermEntries(ndims, axis, q[k]);
    }
  }

  /** The accumulating loop over the dimensions after the second. */
  method CollapsedDim(shape: seq<nat>) returns (inDim: nat)
    requires |shape| >= 2
    ensures inDim == Product(shape[2..])
  {
    inDim := 1;
    for dim := 0 to |shape|
      invariant dim <= 2 ==> inDim == 1
      invariant dim >= 2 ==> inDim == Product(shape[2..dim])
    {
      if dim > 1 {
        ProductSnoc(shape, 2, dim);
        inDim := inDim * shape[dim];
      }
    }
    assert shape[2..|shape|] == shape[2..];
  }

  // ---- Collapsing trailing dimensions ----

  /** Reading a tensor of shape lead + tail through a view that merges the tail into one dimension. */
  lemma CollapseAt(x: Tensor, lead: seq<nat>, tail: seq<nat>, i: seq<nat>, d: nat)
    requires x.shape == lead + tail && InShape(lead, i) && d < Product(tail)
    ensures Reshape(x, lead + [Product(tail)]).at(i + [d]) == x.at(i + Unflat(tail, d))
  {
    FlatUnflat(tail, d);
    var j := Unflat(tail, d);
    FlatAppend(lead, tail, i, j);
    FlatAppend(lead, [Product(tail)], i, [d]);
    Singleton(Product(tail), d);
    InShapeAppend(lead, tail, i, j);
    ReshapeAt(x, lead + [Product(tail)], i + [d], i + j);
  }

  /** And back: an index of the full shape reads the merged dimension at its tail's position. */
  lemma ExpandAt(y: Tensor, lead: seq<nat>, tail: seq<nat>, i: seq<nat>, j: seq<nat>)
    requires y.shape == lead + [Product(tail)] && InShape(lead, i) && InShape(tail, j)
    ensures Reshape(y, lead + tail).at(i + j) == y.at(i + [Flat(tail, j)])
  {
    FlatBound(tail, j);
    FlatAppend(lead, tail, i, j);
    FlatAppend(lead, [Product(tail)], i, [Flat(tail, j)]);
    Singleton(Product(tail), Flat(tail, j));
    InShapeAppend(lead, [Product(tail)], i, [Flat(tail, j)]);
    ReshapeAt(y, lead + tail, i + j, i + [Flat(tail, j)]);
  }

  /** The elements that share the leading index `i`, in row-major order of the rest. */
  function Slice(x: Tensor, i: seq<nat>, tail: seq<nat>): seq<real> {
    seq(Product(tail), d requires 0 <= d < Product(tail) => x.at(i + Unflat(tail, d)))
  }

  lemma CollapsedRow(x: Tensor, lead: seq<nat>, tail: seq<nat>, i: seq<nat>)
    requires x.shape == lead + tail && InShape(lead, i)
    ensures Row(Reshape(x, lead + [Product(tail)]), i) == Slice(x, i, tail)
  {
    var row := Row(Reshape(x, lead + [Product(tail)]), i);
    forall d | 0 <= d < Product(tail) ensures row[d] == Slice(x, i, tail)[d] {
      CollapseAt(x, lead, tail, i, d);
    }
  }

  /** Collapse, apply the kernel to rows, expand: the kernel on each slice, in place. */
  lemma CollapsedRows(f: seq<real> -> seq<real>, x: Tensor, a: nat, b: nat, tail: seq<nat>, i: nat, k: nat, j: seq<nat>)
    requires KeepsLength(f) && x.shape == [a, b] + tail && i < a && k < b && InShape(tail, j)
    ensures Flat(tail, j) < Product(tail)
    ensures Reshape(MapRows(f, Reshape(x, [a, b, Product(tail)])), x.shape).at([i, k] + j)
            == f(Slice(x, [i, k], tail))[Flat(tail, j)]
  {
    FlatBound(tail, j);
    var squeezed := Reshape(x, [a, b, Product(tail)]);
    Append3(a, b, Product(tail));
    CollapsedRow(x, [a, b], tail, [i, k]);
    ExpandAt(MapRows(f, squeezed), [a, b], tail, [i, k], j);
    MapRowsAt(f, squeezed, [i, k], Flat(tail, j));
  }

  // ---- Instance normalisation ----

  /** Collapse what follows the second dimension, apply the kernel, and undo. */
  function NormSecondAxis(f: seq<real> -> seq<real>, x: Tensor): Tensor
    requires |x.shape| >= 2
  {
    Reshape(MapRows(f, Reshape(x, [x.shape[0], x.shape[1], Product(x.shape[2..])])), x.shape)
  }

  /** A negative axis counts from the end. */
  function Resolved(axis: int, ndims: nat): int {
    if axis < 0 then ndims + axis else axis
  }

  /** The call without its final scaling: unless the axis is already second, permute before and after. */
  function InstanceNorm(f: seq<real> -> seq<real>, x: Tensor, axis: int): Tensor
    requires 1 <= Resolved(axis, |x.shape|) < |x.shape|
  {
    var a := Resolved(axis, |x.shape|);
    if a == 1 then NormSecondAxis(f, x)
    else
      var p, q := PermShape(|x.shape|, a), PermBackShape(|x.shape|, a);
      Transpose(NormSecondAxis(f, Transpose(x, p, q)), q, p)
  }

  /** An index or shape without its first and its `axis` entry. */
  function Others(s: seq<nat>, axis: nat): seq<nat>
    requires 1 <= axis < |s|
  {
    s[1..axis] + s[axis + 1..]
  }

  /** The index with batch `b`, channel `c` at `axis`, and `others` elsewhere. */
  function Join(b: nat, c: nat, others: seq<nat>, axis: nat): seq<nat>
    requires 1 <= axis <= |others| + 1
  {
    [b] + others[..axis - 1] + [c] + others[axis - 1..]
  }

  /** The elements with batch `b` and channel `c`, in row-major order of the other dimensions. */
  function Instance(x: Tensor, axis: nat, b: nat, c: nat): seq<real>
    requires 1 <= axis < |x.shape|
  {
    var others := Others(x.shape, axis);
    seq(Product(others), d requires 0 <= d < Product(others) =>
      if |Unflat(others, d)| == |others| then x.at(Join(b, c, Unflat(others, d), axis)) else 0.0)
  }

  lemma GatherMovesAxis(s: seq<nat>, axis: nat)
    requires 1 <= axis < |s|
    ensures Gather(s, PermShape(|s|, axis)) == [s[0], s[axis]] + Others(s, axis)
  {
    var g := Gather(s, PermShape(|s|, axis));
    PermEntries(|s|, axis, 0);
    forall k | 0 <= k < |s| ensures g[k] == ([s[0], s[axis]] + Others(s, axis))[k] {
      PermEntries(|s|, axis, k);
    }
  }

  lemma JoinOthers(b: nat, c: nat, others: seq<nat>, axis: nat)
    requires 1 <= axis <= |others| + 1
    ensures var s := Join(b, c, others, axis);
            |s| == |others| + 2 && s[0] == b && s[axis] == c && Others(s, axis) == others
  {
  }

  lemma NormSecondAxisAt(f: seq<real> -> seq<real>, x: Tensor, i: nat, k: nat, j: seq<nat>)
    requires KeepsLength(f) && |x.shape| >= 2 && i < x.shape[0] && k < x.shape[1] && InShape(x.shape[2..], j)
    ensures Flat(x.shape[2..], j) < Product(x.shape[2..])
    ensures NormSecondAxis(f, x).at([i, k] + j) == f(Slice(x, [i, k], x.shape[2..]))[Flat(x.shape[2..], j)]
  {
    assert x.shape == [x.shape[0], x.shape[1]] + x.shape[2..];
    CollapsedRows(f, x, x.shape[0], x.shape[1], x.shape[2..], i, k, j);
  }

  lemma OthersInShape(shape: seq<nat>, idx: seq<nat>, axis: nat)
    requires 1 <= axis < |shape| && InShape(shape, idx)
    ensures InShape(Others(shape, axis), Others(idx, axis))
  {
  }

  lemma InstanceNormResolved(f: seq<real> -> seq<real>, x: Tensor, axis: int, a: nat, idx: seq<nat>)
    requires KeepsLength(f) && InShape(x.shape, idx) && 1 <= a == Resolved(axis, |x.shape|) < |x.shape|
    ensures InstanceNorm(f, x, axis).shape == x.shape
    ensures Flat(Others(x.shape, a), Others(idx, a)) < |f(Instance(x, a, idx[0], idx[a]))|
    ensures InstanceNorm(f, x, axis).at(idx)
            == f(Instance(x, a, idx[0], idx[a]))[Flat(Others(x.shape, a), Others(idx, a))]
  {
    OthersInShape(x.shape, idx, a);
    if a == 1 {
      SecondAxisNorm(f, x, idx);
    } else {
      OtherAxisNorm(f, x, a, idx);
    }
  }

  /** For every tensor, every axis but the first and every position: the value is the kernel's value for
      that batch and channel, at that element's place among them. */
  lemma InstanceNormCorrect(f: seq<real> -> seq<real>, x: Tensor, axis: int, idx: seq<nat>)
    requires KeepsLength(f) && InShape(x.shape, idx)
    requires if axis < 0 then 1 <= |x.shape| + axis else 1 <= axis < |x.shape|
    ensures InstanceNorm(f, x, axis).shape == x.shape
    ensures InstanceValue(f, x, if axis < 0 then |x.shape| + axis else axis, idx, InstanceNorm(f, x, axis).at(idx))
  {
    InstanceNormResolved(f, x, axis, if axis < 0 then |x.shape| + axis else axis, idx);
  }

  lemma SecondAxisNorm(f: seq<real> -> seq<real>, x: Tensor, idx: seq<nat>)
    requires KeepsLength(f) && 2 <= |x.shape| && InShape(x.shape, idx) && InShape(Others(x.shape, 1), Others(idx, 1))
    ensures Flat(Others(x.shape, 1), Others(idx, 1)) < |f(Instance(x, 1, idx[0], idx[1]))|
    ensures NormSecondAxis(f, x).at(idx) == f(Instance(x, 1, idx[0], idx[1]))[Flat(Others(x.shape, 1), Others(idx, 1))]
  {
    assert x.shape[2..] == Others(x.shape, 1) && idx == [idx[0], idx[1]] + Others(idx, 1);
    NormSecondAxisAt(f, x, idx[0], idx[1], Others(idx, 1));
    SliceIsInstance(x, 1, x, idx[0], idx[1]);
  }

  lemma OtherAxisNorm(f: seq<real> -> seq<real>, x: Tensor, axis: nat, idx: seq<nat>)
    requires KeepsLength(f) && 2 <= axis < |x.shape| && InShape(x.shape, idx)
    requires InShape(Others(x.shape, axis), Others(idx, axis))
    ensures InstanceNorm(f, x, axis).shape == x.shape
    ensures Flat(Others(x.shape, axis), Others(idx, axis)) < |f(Instance(x, axis, idx[0], idx[axis]))|
    ensures InstanceNorm(f, x, axis).at(idx)
            == f(Instance(x, axis, idx[0], idx[axis]))[Flat(Others(x.shape, axis), Others(idx, axis))]
  {
    var p, q := PermShape(|x.shape|, axis), PermBackShape(|x.shape|, axis);
    var inputs := Transpose(x, p, q);
    GatherMovesAxis(x.shape, axis);
    GatherMovesAxis(idx, axis);
    assert inputs.shape[2..] == Others(x.shape, axis);
    NormSecondAxisAt(f, inputs, idx[0], idx[axis], Others(idx, axis));
    SliceIsInstance(x, axis, inputs, idx[0], idx[axis]);
    PermBackIsInverse(|x.shape|, axis);
    GatherInverse(x.shape, p, q);
  }

  lemma JoinedAt(x: Tensor, axis: nat, inputs: Tensor, b: nat, c: nat, others: seq<nat>)
    requires 1 <= axis < |x.shape| && |others| == |x.shape| - 2
    requires inputs == if axis != 1 then Transpose(x, PermShape(|x.shape|, axis), PermBackShape(|x.shape|, axis)) else x
    ensures inputs.at([b, c] + others) == x.at(Join(b, c, others, axis))
  {
    var full := Join(b, c, others, axis);
    JoinOthers(b, c, others, axis);
    if axis == 1 {
      assert full == [b, c] + others;
    } else {
      GatherMovesAxis(full, axis);
      PermBackIsInverse(|x.shape|, axis);
      TransposeAt(x, PermShape(|x.shape|, axis), PermBackShape(|x.shape|, axis), full);
    }
  }

  lemma SliceIsInstance(x: Tensor, axis: nat, inputs: Tensor, b: nat, c: nat)
    requires 1 <= axis < |x.shape|
    requires inputs == if axis != 1 then Transpose(x, PermShape(|x.shape|, axis), PermBackShape(|x.shape|, axis)) else x
    ensures Slice(inputs, [b, c], Others(x.shape, axis)) == Instance(x, axis, b, c)
  {
    var tail := Others(x.shape, axis);
    forall d | 0 <= d < Product(tail) ensures Slice(inputs, [b, c], tail)[d] == Instance(x, axis, b, c)[d] {
      FlatUnflat(tail, d);
      JoinedAt(x, axis, inputs, b, c, Unflat(tail, d));
    }
  }

  /** The call itself, with its loop: the value at every index is the kernel's for that batch and channel. */
  method InstanceNormCall(f: seq<real> -> seq<real>, x: Tensor, axis: int) returns (outputs: Tensor)
    requires KeepsLength(f) && (if axis < 0 then 1 <= |x.shape| + axis else 1 <= axis < |x.shape|)
    ensures outputs.shape == x.shape
    ensures axis < 0 ==> forall idx {:trigger outputs.at(idx)} :: InShape(x.shape, idx) ==>
              InstanceValue(f, x, |x.shape| + axis, idx, outputs.at(idx))
    ensures axis >= 0 ==> forall idx {:trigger outputs.at(idx)} :: InShape(x.shape, idx) ==>
              InstanceValue(f, x, axis, idx, outputs.at(idx))
  {
    var ndims := |x.shape|;
    var a := Resolved(axis, ndims);
    var inputs := x;
    if a != 1 {
      inputs := Transpose(inputs, PermShape(ndims, a), PermBackShape(ndims, a));
    }
    var inDim := CollapsedDim(inputs.shape);
    var squeezed := Reshape(inputs, [inputs.shape[0], inputs.shape[1], inDim]);
    outputs := Reshape(MapRows(f, squeezed), inputs.shape);
    if a != 1 {
      outputs := Transpose(outputs, PermBackShape(ndims, a), PermShape(ndims, a));
    }
    assert outputs == InstanceNorm(f, x, axis);
    if a != 1 {
      PermBackIsInverse(ndims, a);
      GatherInverse(x.shape, PermShape(ndims, a), PermBackShape(ndims, a));
    }
    forall idx | InShape(x.shape, idx) ensures InstanceValue(f, x, a, idx, outputs.at(idx)) {
      InstanceNormCorrect(f, x, axis, idx);
    }
  }

  /** An axis counted from the end is the same axis. */
  lemma NegativeAxis(f: seq<real> -> seq<real>, x: Tensor, axis: nat)
    requires 1 <= axis < |x.shape|
    ensures 1 <= Resolved(axis - |x.shape|, |x.shape|) < |x.shape| && 1 <= Resolved(axis, |x.shape|) < |x.shape|
    ensures InstanceNorm(f, x, axis - |x.shape|) == InstanceNorm(f, x, axis)
  {
  }

  /** The kernel's value for the batch and channel of `idx`, at that element's place among them. */
  ghost predicate InstanceValue(f: seq<real> -> seq<real>, x: Tensor, axis: nat, idx: seq<nat>, v: real)
    requires 1 <= axis < |x.shape| && |idx| == |x.shape|
  {
    var row, place := f(Instance(x, axis, idx[0], idx[axis])), Flat(Others(x.shape, axis), Others(idx, axis));
    place < |row| && v == row[place]
  }

  // ---- Layer normalisation over several axes ----

  /** The guard for the fast path, on the sorted list of axes. */
  predicate CanUseOneDnn(axis: seq<nat>, ndims: nat) {
    && axis != [] && axis[|axis| - 1] == ndims - 1 && 2 <= ndims <= 4
    && axis[|axis| - 1] == axis[0] + |axis| - 1
  }

  /** Ascending numbers whose ends are as far apart as their places leave no number out. */
  lemma {:induction false} NoneSkipped(axis: seq<nat>, k: nat)
    requires Ascending(axis) && k < |axis| && axis[|axis| - 1] == axis[0] + |axis| - 1
    ensures axis[k] == axis[0] + k
  {
    StepsApart(axis, 0, k);
    StepsApart(axis, k, |axis| - 1);
  }

  lemma {:induction false} StepsApart(axis: seq<nat>, i: nat, j: nat)
    requires Ascending(axis) && i <= j < |axis|
    ensures axis[j] - axis[i] >= j - i
  {
    if i < j {
      StepsApart(axis, i, j - 1);
    }
  }

  /** The guard accepts exactly the axis sets that are the last dimensions of a rank 2 to 4 tensor. */
  lemma GuardMeansTrailing(axis: seq<nat>, ndims: nat)
    requires Ascending(axis)
    ensures CanUseOneDnn(axis, ndims) <==>
            && axis != [] && 2 <= ndims <= 4 && |axis| <= ndims
            && forall k :: 0 <= k < |axis| ==> axis[k] == ndims - |axis| + k
  {
    if CanUseOneDnn(axis, ndims) {
      forall k | 0 <= k < |axis| ensures axis[k] == ndims - |axis| + k {
        NoneSkipped(axis, k);
      }
    }
  }

  /** The loop that collapses the dimensions before the axes and those in them; its assertion holds. */
  method CollapseAroundAxes(shape: seq<nat>, axis: seq<nat>) returns (preDim: nat, inDim: nat)
    requires Ascending(axis) && CanUseOneDnn(axis, |shape|)
    ensures axis[0] <= |shape| && preDim == Product(shape[..axis[0]]) && inDim == Product(shape[axis[0]..])
  {
    preDim, inDim := 1, 1;
    NoneSkipped(axis, |axis| - 1);
    for dim := 0 to |shape|
      invariant dim <= axis[0] ==> preDim == Product(shape[0..dim]) && inDim == 1
      invariant dim >= axis[0] ==> preDim == Product(shape[0..axis[0]]) && inDim == Product(shape[axis[0]..dim])
    {
      if dim < axis[0] {
        ProductSnoc(shape, 0, dim);
        preDim := preDim * shape[dim];
      } else {
        NoneSkipped(axis, dim - axis[0]);
        assert dim in axis; // assert in the source
        ProductSnoc(shape, axis[0], dim);
        inDim := inDim * shape[dim];
      }
    }
    assert shape[axis[0]..|shape|] == shape[axis[0]..] && shape[0..axis[0]] == shape[..axis[0]];
  }

  lemma FlatAfterOne(p: nat, q: nat, r: nat, d: nat)
    ensures Flat([1, p, q], [0, r, d]) == r * q + d
  {
    Singleton(q, d);
    assert [1, p, q][1..] == [p, q] && [0, r, d][1..] == [r, d];
    assert [p, q][1..] == [q] && [r, d][1..] == [d];
  }

  /** Merged on both sides, element (0, r, d) is the one at the r-th leading and d-th trailing index. */
  lemma SqueezeAt(x: Tensor, lead: seq<nat>, tail: seq<nat>, r: nat, d: nat)
    requires x.shape == lead + tail && r < Product(lead) && d < Product(tail)
    ensures Reshape(x, [1, Product(lead), Product(tail)]).at([0, r, d]) == x.at(Unflat(lead, r) + Unflat(tail, d))
  {
    FlatUnflat(lead, r);
    FlatUnflat(tail, d);
    FlatAfterOne(Product(lead), Product(tail), r, d);
    FlatAppend(lead, tail, Unflat(lead, r), Unflat(tail, d));
    InShapeAppend(lead, tail, Unflat(lead, r), Unflat(tail, d));
    ReshapeAt(x, [1, Product(lead), Product(tail)], [0, r, d], Unflat(lead, r) + Unflat(tail, d));
  }

  lemma UnsqueezeAt(y: Tensor, lead: seq<nat>, tail: seq<nat>, i: seq<nat>, j: seq<nat>)
    requires y.shape == [1, Product(lead), Product(tail)] && InShape(lead, i) && InShape(tail, j)
    ensures Reshape(y, lead + tail).at(i + j) == y.at([0, Flat(lead, i), Flat(tail, j)])
  {
    FlatBound(lead, i);
    FlatBound(tail, j);
    FlatAfterOne(Product(lead), Product(tail), Flat(lead, i), Flat(tail, j));
    FlatAppend(lead, tail, i, j);
    ReshapeAt(y, lead + tail, i + j, [0, Flat(lead, i), Flat(tail, j)]);
  }

  lemma SqueezedRow(x: Tensor, lead: seq<nat>, tail: seq<nat>, r: nat)
    requires x.shape == lead + tail && r < Product(lead)
    ensures Row(Reshape(x, [1, Product(lead), Product(tail)]), [0, r]) == Slice(x, Unflat(lead, r), tail)
  {
    var row := Row(Reshape(x, [1, Product(lead), Product(tail)]), [0, r]);
    forall d | 0 <= d < Product(tail) ensures row[d] == Slice(x, Unflat(lead, r), tail)[d] {
      SqueezeAt(x, lead, tail, r, d);
      Append3(0, r, d);
    }
  }

  /** The multi-axis layer-norm call without its scaling. */
  function LayerNorm(f: seq<real> -> seq<real>, x: Tensor, first: nat): Tensor
    requires first <= |x.shape|
  {
    Reshape(MapRows(f, Reshape(x, [1, Product(x.shape[..first]), Product(x.shape[first..])])), x.shape)
  }

  /** Each value is the kernel's, on the elements that share the indices before the axes. */
  lemma LayerNormCorrect(f: seq<real> -> seq<real>, x: Tensor, first: nat, idx: seq<nat>)
    requires KeepsLength(f) && first <= |x.shape| && InShape(x.shape, idx)
    ensures var tail, j := x.shape[first..], idx[first..];
            Flat(tail, j) < Product(tail)
                && LayerNorm(f, x, first).at(idx) == f(Slice(x, idx[..first], tail))[Flat(tail, j)]
  {
    var lead, tail, i, j := x.shape[..first], x.shape[first..], idx[..first], idx[first..];
    assert lead + tail == x.shape && i + j == idx;
    FlatBound(lead, i);
    FlatBound(tail, j);
    UnflatFlat(lead, i);
    var squeezed, r, d := Reshape(x, [1, Product(lead), Product(tail)]), Flat(lead, i), Flat(tail, j);
    SqueezedRow(x, lead, tail, r);
    UnsqueezeAt(MapRows(f, squeezed), lead, tail, i, j);
    Append3(0, r, d);
    MapRowsAt(f, squeezed, [0, r], d);
  }

  lemma Append3(p: nat, q: nat, r: nat)
    ensures [p, q] + [r] == [p, q, r]
  {
  }

  /** The kernel's value for the indices before the axes, at the element's place among the rest. */
  ghost predicate LayerValue(f: seq<real> -> seq<real>, x: Tensor, first: nat, idx: seq<nat>, v: real)
    requires first <= |x.shape| == |idx|
  {
    var row, place := f(Slice(x, idx[..first], x.shape[first..])), Flat(x.shape[first..], idx[first..]);
    place < |row| && v == row[place]
  }

  /** With the last axis alone, the kernel is applied as it is. */
  lemma LastAxisCorrect(f: seq<real> -> seq<real>, x: Tensor, idx: seq<nat>)
    requires KeepsLength(f) && x.shape != [] && InShape(x.shape, idx)
    ensures LayerValue(f, x, |x.shape| - 1, idx, MapRows(f, x).at(idx))
  {
    var n := |x.shape| - 1;
    var tail, i := x.shape[n..], idx[..n];
    assert tail == [x.shape[n]] && idx[n..] == [idx[n]] && idx == i + [idx[n]];
    Singleton(x.shape[n], idx[n]);
    forall d | 0 <= d < x.shape[n] ensures Slice(x, i, tail)[d] == Row(x, i)[d] {
      Singleton(x.shape[n], d);
      FlatUnflat(tail, d);
      assert Unflat(tail, d) == [d];
    }
    assert Slice(x, i, tail) == Row(x, i);
    MapRowsAt(f, x, i, idx[n]);
  }

  /** The call itself, with its two branches and its loop, for the axes the guard accepts. */
  method LayerNormCall(f: seq<real> -> seq<real>, x: Tensor, axis: seq<nat>) returns (outputs: Tensor)
    requires KeepsLength(f) && Ascending(axis) && CanUseOneDnn(axis, |x.shape|)
    ensures axis[0] <= |x.shape| && outputs.shape == x.shape
    ensures forall idx {:trigger outputs.at(idx)} :: InShape(x.shape, idx) ==>
            LayerValue(f, x, axis[0], idx, outputs.at(idx))
  {
    if |axis| == 1 {
      outputs := MapRows(f, x);
      forall idx | InShape(x.shape, idx) ensures LayerValue(f, x, axis[0], idx, outputs.at(idx)) {
        LastAxisCorrect(f, x, idx);
      }
    } else {
      var preDim, inDim := CollapseAroundAxes(x.shape, axis);
      var squeezed := Reshape(x, [1, preDim, inDim]);
      outputs := Reshape(MapRows(f, squeezed), x.shape);
      forall idx | InShape(x.shape, idx) ensures LayerValue(f, x, axis[0], idx, outputs.at(idx)) {
        LayerNormCorrect(f, x, axis[0], idx);
      }
    }
  }
}
