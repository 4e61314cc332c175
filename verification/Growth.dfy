/** How much memory an extension of the allocator asks the device for. */
module Growth {
  import opened Arithmetic
  import opened Sizing
  import opened Arenas
  import opened SinglePrecision

  const SMALL_SIZE: nat := 1048576
  const SMALL_BUFFER: nat := 2097152
  const LARGE_BUFFER: nat := 20971520
  const MIN_LARGE_ALLOC: nat := 10485760

  /** Bytes left below the limit, rounded down; the subtraction is the source's, modulo 2^64. */
  function Available(limit: nat, total: nat): nat {
    Wrap(limit - total) / 256 * 256
  }

  lemma AvailableExact(limit: nat, total: nat, rounded: nat)
    requires total <= limit < WORD && Aligned(rounded)
    ensures Aligned(Available(limit, total))
    ensures rounded <= Available(limit, total) <==> total + rounded <= limit
  {
    assert rounded == rounded / 256 * 256;
  }

  // ---- ExtendSmall ----

  function SmallRegion(rounded: nat): nat {
    if rounded <= SMALL_SIZE then SMALL_BUFFER
    else if rounded < MIN_LARGE_ALLOC then LARGE_BUFFER
    else Wrap(2097152 * (Wrap(rounded + 2097151) / 2097152))
  }

  /** The region always holds the request, unless its rounding wraps to nothing. */
  lemma SmallRegionFits(rounded: nat)
    requires rounded < WORD
    ensures Aligned(SmallRegion(rounded))
    ensures rounded <= SmallRegion(rounded) <==> rounded <= WORD - SMALL_BUFFER
    ensures SmallRegion(rounded) == 0 <==> rounded > WORD - SMALL_BUFFER
  {
    var y := Wrap(rounded + 2097151);
    if rounded <= WORD - SMALL_BUFFER {
      assert y == rounded + 2097151;
    } else {
      assert y == rounded + 2097151 - WORD;
    }
    WholeBuffers(y);
  }

  lemma WholeBuffers(y: nat)
    ensures y - 2097152 < 2097152 * (y / 2097152) <= y && Aligned(2097152 * (y / 2097152))
    ensures 2097152 * (y / 2097152) % 2097152 == 0
  {
    var q := FloorDiv(y, 2097152);
    MultipleAligned(8192 * q);
  }

  /** 2 MiB for requests up to 1 MiB, 20 MiB for those below 10 MiB, and the next multiple of 2 MiB for
      larger ones. */
  lemma SmallRegionExact(rounded: nat)
    requires rounded < WORD
    ensures rounded <= 1048576 ==> SmallRegion(rounded) == 2097152
    ensures 1048576 < rounded < 10485760 ==> SmallRegion(rounded) == 20971520
    ensures 10485760 <= rounded <= 0x1_0000_0000_0000_0000 - 2097152 ==>
              rounded <= SmallRegion(rounded) < rounded + 2097152 && SmallRegion(rounded) % 2097152 == 0
  {
    if 10485760 <= rounded <= WORD - 2097152 {
      var y := Wrap(rounded + 2097151);
      assert y == rounded + 2097151;
      WholeBuffers(y);
    }
  }

  lemma MultipleAligned(k: int)
    ensures Aligned(256 * k)
  {
  }

  /** Rounding up passes the limit check with less memory than it then takes: a 3 MiB limit with 2 MiB
      in use admits a 600000-byte request and ends at 4 MiB. */
  lemma SmallGrowthOvershoots()
    ensures var limit, total, rounded := 3 * 1048576, 2 * 1048576, RoundedBytes(600000);
            rounded <= Available(limit, total) && total + SmallRegion(rounded) > limit
  {
  }

  /** Mode 2 stays within the limit exactly when the rounded-up region, not just the request, is available. */
  lemma SmallWithinLimitIff(limit: nat, total: nat, rounded: nat)
    requires limit < WORD && rounded < WORD
    ensures total + SmallRegion(rounded) <= limit <==> total <= limit && SmallRegion(rounded) <= Available(limit, total)
  {
    SmallRegionFits(rounded);
    if total <= limit {
      AvailableExact(limit, total, SmallRegion(rounded));
    }
  }

  /** The limit check of `ExtendSmall` means what it says exactly while the total is within the limit:
      beyond it the subtraction wraps and every request that memory could ever hold is let through. */
  lemma LimitCheckExact(limit: nat, total: nat, rounded: nat)
    requires limit < WORD && total <= ADDRESS_LIMIT && Aligned(rounded) && rounded <= ADDRESS_LIMIT - 256
    ensures rounded <= Available(limit, total) <==> total + rounded <= limit || total > limit
  {
    if total <= limit {
      AvailableExact(limit, total, rounded);
    }
  }

  // ---- ExtendLarge ----

  function Min(x: nat, y: nat): nat {
    if x <= y then x else y
  }

  /** The size of the first request to the device. */
  function FirstAttempt(curr: nat, available: nat, limitAlloc: nat): nat {
    Min(Min(curr, available), limitAlloc)
  }

  /** It is the least of the three bounds. */
  lemma FirstAttemptIsLeast(curr: nat, available: nat, limitAlloc: nat)
    ensures var first := FirstAttempt(curr, available, limitAlloc);
            && first <= curr && first <= available && first <= limitAlloc
            && (first == curr || first == available || first == limitAlloc)
  {
  }

  /** Once the counter has reached a request that passes the limit check, the first attempt stays within
      the limit and holds the request exactly when the per-allocation cap does. */
  lemma FirstAttemptFits(limit: nat, total: nat, curr: nat, limitAlloc: nat, rounded: nat)
    requires total <= limit < WORD && Aligned(curr) && Aligned(limitAlloc) && Aligned(rounded)
    requires rounded <= Available(limit, total) && rounded <= curr
    ensures var first := FirstAttempt(curr, Available(limit, total), limitAlloc);
            && Aligned(first) && total + first <= limit && (rounded <= first <==> rounded <= limitAlloc)
  {
    AvailableExact(limit, total, rounded);
    AvailableExact(limit, total, Available(limit, total));
  }

  // ---- Backpedalling ----

  /** The next, smaller size to try. */
  function Backpedal(bytes: nat): nat {
    RoundedBytes(Shrunk(bytes))
  }

  /** About nine tenths of `k` slots, rounded up to `j` slots. */
  lemma NineTenths(k: nat, m: nat, j: nat)
    requires 10_000_000 * m <= 9_000_002 * (256 * k) && 8_999_998 * (256 * k) < 10_000_000 * (m + 1)
    requires m <= 256 * j < m + 256
    ensures j <= k && (j == k <==> k <= 9) && (k > 9 ==> j >= 9)
  {
  }

  lemma BackpedalStep(bytes: nat)
    requires Aligned(bytes) && bytes < WORD
    ensures Aligned(Backpedal(bytes)) && Backpedal(bytes) <= bytes
    ensures Backpedal(bytes) == bytes <==> bytes <= 2304
    ensures bytes > 2304 ==> Backpedal(bytes) >= 2304
    ensures Shrunk(bytes) <= Backpedal(bytes) < Shrunk(bytes) + 256
  {
    var m := Shrunk(bytes);
    ShrunkNear(bytes);
    RoundedBytesExact(m);
    NineTenths(bytes / 256, m, RoundedBytes(m) / 256);
  }

  /** The sizes the shrinking loop would ask for, one after the other. */
  type Sizes = nat -> nat

  ghost predicate NextSize(sizes: Sizes, n: nat) {
    sizes(n + 1) == Backpedal(sizes(n))
  }

  ghost predicate IsShrinking(sizes: Sizes, first: nat) {
    sizes(0) == first && forall n: nat {:trigger NextSize(sizes, n)} :: NextSize(sizes, n)
  }

  function Backpedalled(first: nat, n: nat): nat {
    if n == 0 then first else Backpedal(Backpedalled(first, n - 1))
  }

  lemma ShrinkingExists(first: nat)
    ensures exists sizes: Sizes :: IsShrinking(sizes, first)
  {
    var sizes: Sizes := (n: nat) => Backpedalled(first, n);
    forall n: nat ensures NextSize(sizes, n) {
      assert Backpedalled(first, n + 1) == Backpedal(Backpedalled(first, n));
    }
    assert IsShrinking(sizes, first);
  }

  ghost function SizesFrom(first: nat): (sizes: Sizes)
    ensures IsShrinking(sizes, first)
  {
    ShrinkingExists(first);
    var sizes: Sizes :| IsShrinking(sizes, first);
    sizes
  }

  /** There is only one such sequence. */
  lemma {:induction false} SizesAre(sizes: Sizes, first: nat, n: nat)
    requires IsShrinking(sizes, first)
    ensures sizes(n) == Backpedalled(first, n)
  {
    if n > 0 {
      SizesAre(sizes, first, n - 1);
      assert NextSize(sizes, n - 1);
    }
  }

  lemma {:induction false} BackpedalledFalls(sizes: Sizes, first: nat, n: nat)
    requires IsShrinking(sizes, first) && Aligned(first) && first < WORD
    ensures Aligned(sizes(n)) && sizes(n) <= first
    ensures n > 0 ==> sizes(n) <= sizes(n - 1)
    ensures sizes(n) > 2304 ==> sizes(n) + n <= first
    ensures first <= 2304 ==> sizes(n) == first
    ensures first >= 2304 ==> sizes(n) >= 2304
  {
    if n > 0 {
      BackpedalledFalls(sizes, first, n - 1);
      assert NextSize(sizes, n - 1);
      BackpedalStep(sizes(n - 1));
    }
  }

  ghost predicate GivesUp(m: nat, sizes: Sizes) {
    exists n: nat {:trigger sizes(n)} :: n > 0 && sizes(n) < m
  }

  /** Against a device that always refuses, the loop gives up if and only if the request is above the
      ninth slot or above the first size already: sizes of up to nine slots are fixed points of the
      shrinking step and are asked for for ever. */
  lemma BackpedalGivesUpIff(rounded: nat, sizes: Sizes, first: nat)
    requires IsShrinking(sizes, first) && Aligned(first) && first < WORD
    ensures GivesUp(rounded, sizes) <==> rounded > 2304 || first < rounded
  {
    if first < rounded {
      BackpedalledFalls(sizes, first, 1);
      assert sizes(1) < rounded;
    } else if rounded > 2304 {
      BackpedalledFalls(sizes, first, first + 1);
      assert sizes(first + 1) < rounded;
    } else {
      forall n: nat ensures rounded <= sizes(n) {
        BackpedalledFalls(sizes, first, n);
      }
    }
  }

  // ---- The region-size counter in 64 bits ----

  /** `curr_region_allocation_bytes_` after `n` doublings. */
  function Doubled(curr: nat, n: nat): nat {
    if n == 0 then curr else Wrap(2 * Doubled(curr, n - 1))
  }

  /** The same counter over unbounded integers. */
  function DoubledUnbounded(curr: nat, n: nat): nat {
    if n == 0 then curr else 2 * DoubledUnbounded(curr, n - 1)
  }

  /** The 64-bit counter is the unbounded one exactly until that one overflows. */
  lemma {:induction false} DoubledExact(curr: nat, n: nat)
    requires 0 < curr < WORD
    ensures DoubledUnbounded(curr, n) > 0
    ensures Doubled(curr, n) == DoubledUnbounded(curr, n) <==> DoubledUnbounded(curr, n) < WORD
  {
    if n > 0 {
      DoubledExact(curr, n - 1);
      DoubledBelow(curr, n - 1);
    }
  }

  lemma {:induction false} DoubledBelow(curr: nat, n: nat)
    requires curr < WORD
    ensures Doubled(curr, n) <= DoubledUnbounded(curr, n) && Doubled(curr, n) < WORD
  {
    if n > 0 {
      DoubledBelow(curr, n - 1);
    }
  }

  lemma DoubledNext(curr: nat, n: nat)
    ensures Doubled(curr, n + 1) == Wrap(2 * Doubled(curr, n))
  {
  }

  /** Doublings of doublings. */
  lemma {:induction false} DoubledAgain(curr: nat, m: nat, n: nat)
    ensures Doubled(Doubled(curr, m), n) == Doubled(curr, m + n)
  {
    if n > 0 {
      DoubledAgain(curr, m, n - 1);
    }
  }

  function TrailingZeros(x: nat): nat
    requires x > 0
  {
    if x % 2 == 1 then 0 else 1 + TrailingZeros(x / 2)
  }

  lemma {:induction false} TrailingZerosBound(x: nat)
    requires x > 0
    ensures Pow2(TrailingZeros(x)) <= x
  {
    if x % 2 == 0 {
      TrailingZerosBound(x / 2);
    }
  }

  /** A power of two above the number does not count among its zeros. */
  lemma {:induction false} HighBitApart(x: nat, k: nat)
    requires 0 < x < Pow2(k)
    ensures TrailingZeros(x + Pow2(k)) == TrailingZeros(x)
  {
    if x % 2 == 0 {
      HighBitApart(x / 2, k - 1);
      assert (x + Pow2(k)) / 2 == x / 2 + Pow2(k - 1);
    } else {
      assert Pow2(k) == 2 * Pow2(k - 1);
    }
  }

  lemma Pow2SixtyThree()
    ensures Pow2(63) == ADDRESS_LIMIT && Pow2(64) == WORD
  {
    Pow2TwentyThree();
    Pow2Sum(23, 23);
    assert Pow2(4) == 16 && Pow2(8) == 256;
    Pow2Sum(8, 8);
    Pow2Sum(16, 1);
    Pow2Sum(46, 17);
  }

  lemma ZerosOfDouble(x: nat)
    requires x > 0
    ensures TrailingZeros(2 * x) == TrailingZeros(x) + 1
  {
    assert (2 * x) % 2 == 0 && (2 * x) / 2 == x;
  }

  lemma WrapDouble(x: nat)
    requires x < WORD
    ensures Wrap(2 * x) == if x < ADDRESS_LIMIT then 2 * x else 2 * (x - ADDRESS_LIMIT)
  {
  }

  lemma DoubleAligned(curr: nat)
    requires curr < WORD
    ensures Aligned(curr) ==> Aligned(Wrap(2 * curr))
  {
    WrapDouble(curr);
    TwiceAligned(curr);
    TwiceAligned(curr - ADDRESS_LIMIT);
  }

  lemma TwiceAligned(x: int)
    ensures Aligned(x) ==> Aligned(2 * x) && Aligned(x - ADDRESS_LIMIT)
  {
    var q := x / 256;
    MultipleAligned(2 * q);
    MultipleAligned(q - 36028797018963968);
  }

  /** One doubling moves the lowest set bit up by one, and the top bit out. */
  lemma DoublingZeros(x: nat)
    requires 0 < x < WORD
    ensures Wrap(2 * x) == 0 <==> x == ADDRESS_LIMIT
    ensures x != ADDRESS_LIMIT ==> TrailingZeros(Wrap(2 * x)) == TrailingZeros(x) + 1
  {
    var y := Wrap(2 * x);
    assert y == if x < ADDRESS_LIMIT then 2 * x else 2 * (x - ADDRESS_LIMIT) by { WrapDouble(x); }
    ZerosOfDouble(x);
    if x > ADDRESS_LIMIT {
      ZerosAboveTop(x - ADDRESS_LIMIT);
    }
  }

  lemma ZerosAboveTop(x: nat)
    requires 0 < x < ADDRESS_LIMIT
    ensures TrailingZeros(2 * x) == TrailingZeros(x + ADDRESS_LIMIT) + 1
  {
    Pow2SixtyThree();
    HighBitApart(x, 63);
    ZerosOfDouble(x);
  }

  lemma {:induction false} TopBitZeros(k: nat)
    ensures TrailingZeros(Pow2(k)) == k
  {
    if k > 0 {
      TopBitZeros(k - 1);
    }
  }

  /** Below the top bit, fewer than 63 trailing zeros; above it, likewise. */
  lemma ZerosBelowTop(x: nat)
    requires 0 < x < WORD
    ensures TrailingZeros(x) <= 63 && (TrailingZeros(x) == 63 <==> x == ADDRESS_LIMIT)
  {
    Pow2SixtyThree();
    TopBitZeros(63);
    if x < ADDRESS_LIMIT {
      BelowTop(x, 63);
    } else if x > ADDRESS_LIMIT {
      HighBitApart(x - ADDRESS_LIMIT, 63);
      BelowTop(x - ADDRESS_LIMIT, 63);
    }
  }

  lemma BelowTop(x: nat, k: nat)
    requires 0 < x < Pow2(k)
    ensures TrailingZeros(x) < k
  {
    TrailingZerosBound(x);
    if k <= TrailingZeros(x) {
      Pow2Monotone(k, TrailingZeros(x));
    }
  }

  /** The number of doublings that take the counter to 0: 64 less the trailing zeros of its start. */
  function Lifetime(curr: nat): nat
    requires 0 < curr < WORD
  {
    ZerosBelowTop(curr);
    64 - TrailingZeros(curr)
  }

  /** The counter is 0 exactly from that doubling on; until then its trailing zeros count the doublings. */
  lemma {:induction false} DoubledDiesOut(curr: nat, n: nat)
    requires 0 < curr < WORD
    ensures Doubled(curr, n) < WORD
    ensures Doubled(curr, n) == 0 <==> n >= Lifetime(curr)
    ensures n < Lifetime(curr) ==> TrailingZeros(Doubled(curr, n)) == TrailingZeros(curr) + n
  {
    ZerosBelowTop(curr);
    if n > 0 {
      DoubledDiesOut(curr, n - 1);
      if n - 1 < Lifetime(curr) {
        var x := Doubled(curr, n - 1);
        DoublingZeros(x);
        ZerosBelowTop(x);
      }
    }
  }

  /** The counter starts as a multiple of 256, so it has 56 doublings at most. */
  lemma LifetimeOfMultiple(curr: nat)
    requires 0 < curr < WORD && Aligned(curr)
    ensures 1 <= Lifetime(curr) <= 56
  {
    ZerosBelowTop(curr);
    EightZeros(curr, 8);
  }

  lemma {:induction false} EightZeros(x: nat, k: nat)
    requires x > 0 && x % Pow2(k) == 0
    ensures TrailingZeros(x) >= k
  {
    if k > 0 {
      var p := Pow2(k - 1);
      var q := x / (2 * p);
      assert x == (q * p) * 2;
      assert x / 2 == q * p && (q * p) % p == 0 by { DivModUnique(q, p, 0); }
      EightZeros(x / 2, k - 1);
    }
  }

  // ---- The doubling loop ----

  /** The counter after the loop that doubles it up to the request. */
  function Raised(curr: nat, rounded: nat): (r: nat)
    requires curr > 0 && rounded <= ADDRESS_LIMIT
    ensures rounded <= r
    decreases rounded - curr
  {
    if rounded <= curr then curr else Raised(Wrap(2 * curr), rounded)
  }

  /** A counter below the request ends between it and twice it. */
  lemma {:induction false} RaisedBetween(curr: nat, rounded: nat)
    requires 0 < curr < rounded <= ADDRESS_LIMIT
    ensures rounded <= Raised(curr, rounded) < 2 * rounded
    decreases rounded - curr
  {
    WrapDouble(curr);
    if 2 * curr < rounded {
      RaisedBetween(2 * curr, rounded);
    }
  }

  /** It is the first doubling that reaches the request, and it does not wrap. */
  lemma {:induction false} RaisedIsFirst(curr: nat, rounded: nat) returns (n: nat)
    requires 0 < curr < WORD && rounded <= ADDRESS_LIMIT
    ensures Raised(curr, rounded) == Doubled(curr, n) == DoubledUnbounded(curr, n) < WORD
    ensures forall k: nat :: k < n ==> Doubled(curr, k) < rounded
    ensures Aligned(curr) ==> Aligned(Raised(curr, rounded))
    decreases rounded - curr
  {
    n := 0;
    if rounded > curr {
      WrapDouble(curr);
      DoubleAligned(curr);
      var m := RaisedIsFirst(Wrap(2 * curr), rounded);
      n := m + 1;
      assert Doubled(curr, 1) == Wrap(2 * Doubled(curr, 0));
      DoubledAgain(curr, 1, m);
      DoubledFromDouble(curr, m);
      forall k: nat | k < n ensures Doubled(curr, k) < rounded {
        if k > 0 { DoubledAgain(curr, 1, k - 1); }
      }
    }
  }

  lemma {:induction false} DoubledFromDouble(curr: nat, n: nat)
    ensures DoubledUnbounded(2 * curr, n) == DoubledUnbounded(curr, n + 1)
  {
    if n > 0 {
      DoubledFromDouble(curr, n - 1);
    }
  }

  /** The loop ends if and only if the counter is not 0: from 0 it goes on for ever. */
  lemma RaiseEndsIff(curr: nat, rounded: nat)
    requires curr < WORD && 0 < rounded <= ADDRESS_LIMIT
    ensures (exists n: nat :: rounded <= Doubled(curr, n)) <==> curr > 0
  {
    if curr > 0 {
      var n := RaisedIsFirst(curr, rounded);
      assert rounded <= Doubled(curr, n);
    } else {
      forall n: nat ensures Doubled(curr, n) == 0 {
        ZeroStays(n);
      }
    }
  }

  lemma {:induction false} ZeroStays(n: nat)
    ensures Doubled(0, n) == 0
  {
    if n > 0 {
      ZeroStays(n - 1);
    }
  }
}
