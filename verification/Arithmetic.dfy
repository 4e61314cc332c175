/** Division facts and the order of lists, shared by the tensor and launcher models. */
module Arithmetic {

  ghost predicate Ascending(s: seq<nat>) {
    forall i, j :: 0 <= i < j < |s| ==> s[i] < s[j]
  }

  lemma MulMonotone(a: int, b: int, p: nat)
    requires a <= b
    ensures a * p <= b * p
  {
  }

  lemma SmallMultiple(d: int, p: int)
    requires -p < d * p < p
    ensures d == 0
  {
  }

  lemma DivModUnique(q: nat, p: nat, r: nat)
    requires r < p
    ensures (q * p + r) / p == q && (q * p + r) % p == r
  {
    var x := q * p + r;
    assert x == (x / p) * p + x % p;
    assert (x / p - q) * p == (x / p) * p - q * p;
    SmallMultiple(x / p - q, p);
  }

  lemma DivBound(n: nat, m: nat, p: nat)
    requires p > 0 && n < m * p
    ensures n / p < m
  {
    var q := n / p;
    assert n == q * p + n % p;
    assert q >= m ==> q * p >= m * p;
  }

  lemma MulAddBound(i: nat, n: nat, p: nat, r: nat)
    requires i < n && r < p
    ensures i * p + r < n * p
  {
    MulMonotone(i + 1, n, p);
  }

  /** Floor division of naturals. */
  function FloorDiv(a: nat, b: nat): (q: nat)
    requires b > 0
    ensures q * b <= a < q * b + b
    ensures a % b == 0 ==> q * b == a
  {
    QuotientNat(a, b);
    a / b
  }

  lemma QuotientNat(a: nat, b: nat)
    requires b > 0
    ensures a / b >= 0 && a == a / b * b + a % b
  {
  }
}
