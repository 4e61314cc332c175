/** Size arithmetic of the BFC allocator: rounding to 256 bytes and the choice of a size bin.
    Sizes are the source's 64-bit `size_t`; wrap-around is written out with `Wrap`. */
module Sizing {
  import opened Arithmetic

  const NUM_BINS: nat := 21
  const WORD: nat := 0x1_0000_0000_0000_0000
  const MAX_FRAGMENTATION: nat := 0x800_0000 // 128 MiB

  /** The value of an integer expression after truncation to `size_t`. */
  function Wrap(x: int): (r: nat)
    ensures r < WORD
    ensures 0 <= x < WORD ==> r == x
  {
    x % 0x1_0000_0000_0000_0000
  }

  /** A multiple of `kMinAllocationSize`. */
  predicate Aligned(x: int) {
    x % 256 == 0
  }

  function RoundedBytes(bytes: nat): nat {
    Wrap(256 * (Wrap(bytes + 256 - 1) / 256))
  }

  /** Rounding gives the multiple of 256 that holds the request with less than 256 bytes to spare exactly
      when the addition inside it does not wrap; for the 255 largest `size_t` values the result is 0. */
  lemma RoundedBytesExact(n: nat)
    requires n < WORD
    ensures Aligned(RoundedBytes(n))
    ensures n <= RoundedBytes(n) < n + 256 <==> n <= WORD - 256
    ensures n > WORD - 256 ==> RoundedBytes(n) == 0
  {
    if n <= WORD - 256 {
      assert Wrap(n + 255) == n + 255;
    } else {
      assert Wrap(n + 255) == n + 255 - WORD;
    }
  }

  function Pow2(k: nat): (r: nat)
    ensures r > 0
  {
    if k == 0 then 1 else 2 * Pow2(k - 1)
  }

  lemma {:induction false} Pow2Monotone(j: nat, k: nat)
    requires j <= k
    ensures Pow2(j) <= Pow2(k)
  {
    if j < k {
      Pow2Monotone(j, k - 1);
    }
  }

  lemma TwiceProduct(x: nat, y: nat)
    ensures 2 * (x * y) == (2 * x) * y
  {
  }

  lemma {:induction false} Pow2Sum(j: nat, k: nat)
    ensures Pow2(j + k) == Pow2(j) * Pow2(k)
  {
    if j > 0 {
      Pow2Sum(j - 1, k);
      TwiceProduct(Pow2(j - 1), Pow2(k));
    }
  }

  lemma Pow2TwentyThree()
    ensures Pow2(23) == 0x80_0000
  {
    assert Pow2(5) == 32 && Pow2(6) == 64;
    Pow2Sum(6, 6);
    Pow2Sum(6, 5);
    Pow2Sum(12, 11);
  }

  /** Position of the highest set bit, the value of `63 ^ __builtin_clzll(n)`. */
  function Log2Floor(n: nat): nat
    requires n > 0
  {
    if n == 1 then 0 else 1 + Log2Floor(n / 2)
  }

  lemma {:induction false} Log2FloorBounds(n: nat)
    requires n > 0
    ensures Pow2(Log2Floor(n)) <= n < Pow2(Log2Floor(n) + 1)
  {
    if n > 1 {
      Log2FloorBounds(n / 2);
    }
  }

  /** The logarithm reaches k exactly when the number reaches 2^k. */
  lemma Log2FloorAtLeast(n: nat, k: nat)
    requires n > 0
    ensures Log2Floor(n) >= k <==> n >= Pow2(k)
  {
    Log2FloorBounds(n);
    if k <= Log2Floor(n) {
      Pow2Monotone(k, Log2Floor(n));
    } else {
      Pow2Monotone(Log2Floor(n) + 1, k);
    }
  }

  /** The portable loop: the shift count until the word is empty, less one. */
  method Log2FloorNonZeroSlow(n: nat) returns (r: int)
    ensures n == 0 ==> r == -1
    ensures n > 0 ==> r >= 0 && Pow2(r) <= n < Pow2(r + 1)
  {
    var m := n;
    r := 0;
    while m > 0
      invariant r >= 0
      invariant m * Pow2(r) <= n < (m + 1) * Pow2(r)
      invariant r > 0 ==> n >= Pow2(r - 1)
      invariant r == 0 ==> m == n
    {
      if m == 1 {
        assert n >= Pow2(r);
      } else {
        assert m * Pow2(r) >= Pow2(r) by { MulMonotone(1, m, Pow2(r)); }
      }
      HalvingStep(m, Pow2(r), n);
      m := m / 2;
      r := r + 1;
    }
    r := r - 1;
  }

  lemma HalvingStep(m: nat, p: nat, n: nat)
    requires m * p <= n < (m + 1) * p
    ensures (m / 2) * (2 * p) <= n < (m / 2 + 1) * (2 * p)
  {
    var q := m / 2;
    assert (q * 2) * p <= m * p by { MulMonotone(q * 2, m, p); }
    assert (m + 1) * p <= (q * 2 + 2) * p by { MulMonotone(m + 1, q * 2 + 2, p); }
    assert (q * 2) * p == q * (2 * p);
    assert (q * 2 + 2) * p == (q + 1) * (2 * p);
  }

  function BinNumToSize(index: nat): nat {
    256 * Pow2(index)
  }

  function BinNumForSize(bytes: nat): (b: nat)
    ensures b < NUM_BINS
  {
    var v := (if bytes < 256 then 256 else bytes) / 256;
    if Log2Floor(v) < NUM_BINS - 1 then Log2Floor(v) else NUM_BINS - 1
  }

  /** Bin b holds exactly the sizes from `BinNumToSize(b)` up to the next bin's size; the first bin
      also takes everything smaller and the last one everything larger. */
  lemma BinRange(bytes: nat, b: nat)
    requires b < NUM_BINS
    ensures BinNumForSize(bytes) == b <==>
            && (b == 0 || BinNumToSize(b) <= bytes)
            && (b == NUM_BINS - 1 || bytes < BinNumToSize(b + 1))
  {
    var v := (if bytes < 256 then 256 else bytes) / 256;
    Log2FloorAtLeast(v, b);
    Log2FloorAtLeast(v, b + 1);
  }

  lemma BinMonotone(s: nat, t: nat)
    requires s <= t
    ensures BinNumForSize(s) <= BinNumForSize(t)
  {
    BinRange(s, BinNumForSize(s));
    BinRange(t, BinNumForSize(t));
    if BinNumForSize(t) < BinNumForSize(s) {
      Pow2Monotone(BinNumForSize(t) + 1, BinNumForSize(s));
    }
  }

  /** The first bin's size is 256 and each is twice the one before; a bin takes its own size and everything
      below twice that. */
  lemma BinSizesAgree(b: nat)
    requires b < NUM_BINS
    ensures BinNumToSize(0) == 256 && BinNumToSize(b + 1) == 2 * BinNumToSize(b)
    ensures BinNumForSize(BinNumToSize(b)) == b && BinNumForSize(BinNumToSize(b) + 255) == b
    ensures BinNumForSize(BinNumToSize(b) * 2 - 1) == b
    ensures b + 1 < NUM_BINS ==> BinNumForSize(BinNumToSize(b) * 2) == b + 1
  {
    BinRange(BinNumToSize(b), b);
    BinRange(BinNumToSize(b) + 255, b);
    BinRange(BinNumToSize(b) * 2 - 1, b);
    if b + 1 < NUM_BINS {
      BinRange(BinNumToSize(b) * 2, b + 1);
      Pow2Monotone(b + 1, b + 2);
    }
  }
}
