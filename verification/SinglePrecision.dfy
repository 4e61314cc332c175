/** Single-precision arithmetic on sizes, as far as the allocator uses it: a product with the `float` 0.9. */
module SinglePrecision {
  import opened Arithmetic
  import opened Sizing

  /** The nearest number with 24 significant bits, ties to even: what an integer becomes as a `float`. */
  function Rounded24(x: nat): nat {
    if x < 0x100_0000 then x else NearestMultiple(x, Unit(x))
  }

  function NearestMultiple(x: nat, unit: nat): nat
    requires unit > 0
  {
    var q, r := FloorDiv(x, unit), x % unit;
    if 2 * r > unit || (2 * r == unit && q % 2 == 1) then (q + 1) * unit else q * unit
  }

  /** The value of the last of the 24 bits. */
  function Unit(x: nat): (u: nat)
    requires x >= 0x100_0000
    ensures u > 0
  {
    Pow2TwentyThree();
    Log2FloorAtLeast(x, 23);
    Pow2(Log2Floor(x) - 23)
  }

  /** Rounding moves a number by at most half a unit in its last place. */
  lemma Rounded24Near(x: nat)
    ensures Near(x, Rounded24(x))
  {
    if x >= 0x100_0000 {
      NearestMultipleNear(x, Unit(x));
      UnitBound(x);
    }
  }

  /** Off by no more than one part in 2^24. */
  predicate Near(x: nat, y: nat) {
    0xFF_FFFF * x <= 0x100_0000 * y <= 0x100_0001 * x
  }

  lemma UnitBound(x: nat)
    requires x >= 0x100_0000
    ensures 0x80_0000 * Unit(x) <= x
  {
    Pow2TwentyThree();
    Log2FloorAtLeast(x, 23);
    Log2FloorBounds(x);
    Pow2Sum(23, Log2Floor(x) - 23);
  }

  lemma NearestMultipleNear(x: nat, unit: nat)
    requires unit > 0
    ensures 2 * x - unit <= 2 * NearestMultiple(x, unit) <= 2 * x + unit
  {
    var q, r := FloorDiv(x, unit), x % unit;
    QuotientNat(x, unit);
    assert (q + 1) * unit == q * unit + unit;
  }

  // ---- Rounding to the nearest ----

  /** A number with 24 significant bits. */
  ghost predicate Is24(y: nat) {
    exists mant: nat, e: nat {:trigger mant * Pow2(e)} :: mant < 0x100_0000 && y == mant * Pow2(e)
  }

  predicate NoFarther(x: nat, y: nat, z: nat) {
    (if x <= y then y - x else x - y) <= (if x <= z then z - x else x - z)
  }

  /** No multiple of the unit is nearer, and of two equally near ones the even one is taken. */
  lemma NearestOfMultiples(x: nat, unit: nat, j: nat) returns (k: nat)
    requires unit > 0
    ensures NearestMultiple(x, unit) == k * unit && NoFarther(x, k * unit, j * unit)
    ensures 2 * (k * unit) == 2 * x + unit || 2 * (k * unit) == 2 * x - unit ==> k % 2 == 0
  {
    var q, r := FloorDiv(x, unit), x % unit;
    QuotientNat(x, unit);
    k := if 2 * r > unit || (2 * r == unit && q % 2 == 1) then q + 1 else q;
    assert (q + 1) * unit == q * unit + unit;
    if j <= q {
      MulMonotone(j, q, unit);
    } else {
      MulMonotone(q + 1, j, unit);
    }
  }

  lemma UnitIs(x: nat)
    requires x >= 0x100_0000
    ensures var e := Log2Floor(x) - 23; e >= 1 && Unit(x) == Pow2(e) && 0x80_0000 * Pow2(e) <= x < 0x100_0000 * Pow2(e)
  {
    Pow2TwentyThree();
    assert Pow2(24) == 2 * Pow2(23);
    Log2FloorAtLeast(x, 24);
    Log2FloorBounds(x);
    Pow2Sum(23, Log2Floor(x) - 23);
    Pow2Sum(24, Log2Floor(x) - 23);
  }

  /** A 24-bit number not below the range of the unit is a multiple of it. */
  lemma LargeIsMultiple(mant: nat, e: nat, d: nat) returns (j: nat)
    requires mant < 0x100_0000 && mant * Pow2(e) >= 0x80_0000 * Pow2(d)
    ensures mant * Pow2(e) == j * Pow2(d)
  {
    HighExponent(mant, e, d);
    Pow2Sum(e - d, d);
    j := mant * Pow2(e - d);
    assert mant * (Pow2(e - d) * Pow2(d)) == (mant * Pow2(e - d)) * Pow2(d);
  }

  lemma HighExponent(mant: nat, e: nat, d: nat)
    requires mant < 0x100_0000 && mant * Pow2(e) >= 0x80_0000 * Pow2(d)
    ensures e >= d
  {
    assert (mant + 1) * Pow2(e) == mant * Pow2(e) + Pow2(e);
    MulMonotone(mant + 1, 0x100_0000, Pow2(e));
    if e < d {
      Pow2Monotone(e + 1, d);
    }
  }

  /** The result is one of 24 bits, and no other of them is nearer. */
  lemma Rounded24IsNearest(x: nat, y: nat)
    requires Is24(y)
    ensures Is24(Rounded24(x)) && NoFarther(x, Rounded24(x), y)
  {
    if x < 0x100_0000 {
      assert x == x * Pow2(0);
    } else {
      UnitIs(x);
      var d := Log2Floor(x) - 23;
      var low := NearestOfMultiples(x, Pow2(d), 0x80_0000);
      FitsIn24(x, d, low);
      var mant: nat, e: nat :| mant < 0x100_0000 && y == mant * Pow2(e);
      if y >= 0x80_0000 * Pow2(d) {
        var j := LargeIsMultiple(mant, e, d);
        var k := NearestOfMultiples(x, Pow2(d), j);
      }
    }
  }

  lemma FitsIn24(x: nat, d: nat, k: nat)
    requires x < 0x100_0000 * Pow2(d) && NearestMultiple(x, Pow2(d)) == k * Pow2(d)
    ensures Is24(k * Pow2(d))
  {
    var low := NearestOfMultiples(x, Pow2(d), 0x100_0000);
    NearestMultipleNear(x, Pow2(d));
    if k >= 0x100_0000 {
      MulMonotone(0x100_0000, k, Pow2(d));
      AtMostTop(k, Pow2(d));
      assert k * Pow2(d) == 0x80_0000 * Pow2(d + 1);
    }
  }

  lemma AtMostTop(k: nat, unit: nat)
    requires unit > 0 && 2 * (k * unit) < 2 * (0x100_0000 * unit) + unit
    ensures k <= 0x100_0000
  {
    if k > 0x100_0000 {
      MulMonotone(0x100_0001, k, unit);
    }
  }

  /** `y` is the nearest number to `x` with 24 significant bits, and the even one of two. */
  ghost predicate RoundsTo(x: nat, y: nat) {
    if x < 0x100_0000 then y == x
    else exists k: nat, d: nat {:trigger k * Pow2(d)} ::
      && y == k * Pow2(d) && 0x80_0000 * Pow2(d) <= x < 0x100_0000 * Pow2(d)
      && 2 * x - Pow2(d) <= 2 * y <= 2 * x + Pow2(d)
      && (2 * y == 2 * x + Pow2(d) || 2 * y == 2 * x - Pow2(d) ==> k % 2 == 0)
  }

  lemma Rounded24Rounds(x: nat)
    ensures RoundsTo(x, Rounded24(x))
  {
    if x >= 0x100_0000 {
      var k, d := Rounded24Ties(x);
      UnitFor(x, d);
      NearestMultipleNear(x, Unit(x));
      assert Rounded24(x) == k * Pow2(d);
    }
  }

  /** In the last place, a tie goes to the even number. */
  lemma Rounded24Ties(x: nat) returns (k: nat, d: nat)
    requires x >= 0x100_0000
    ensures 0x80_0000 * Pow2(d) <= x < 0x100_0000 * Pow2(d) && Rounded24(x) == k * Pow2(d)
    ensures 2 * (k * Pow2(d)) == 2 * x + Pow2(d) || 2 * (k * Pow2(d)) == 2 * x - Pow2(d) ==> k % 2 == 0
  {
    UnitIs(x);
    d := Log2Floor(x) - 23;
    k := NearestOfMultiples(x, Pow2(d), 0);
  }

  // ---- The shrinking factor ----

  /** The factor `0.9f`, in units of 2^-24. */
  const FACTOR: nat := 15099494

  /** No other such number is nearer to nine tenths. */
  lemma FactorIsNearest(k: nat)
    ensures 0x80_0000 <= FACTOR < 0x100_0000
    ensures var off := 10 * FACTOR - 9 * 0x100_0000; -5 <= off <= 5
    ensures k != FACTOR ==> var off := 10 * k - 9 * 0x100_0000; off < -5 || off > 5
  {
  }

  /** `bytes * 0.9f` in single precision, truncated. */
  function Shrunk(bytes: nat): nat {
    Rounded24(Rounded24(bytes) * FACTOR) / 0x100_0000
  }

  /** The size becomes a `float`, the product with the factor is rounded again, and the fraction dropped. */
  lemma ShrunkIs(bytes: nat) returns (f: nat, p: nat)
    ensures RoundsTo(bytes, f) && RoundsTo(f * 15099494, p)
    ensures 0x100_0000 * Shrunk(bytes) <= p < 0x100_0000 * (Shrunk(bytes) + 1)
  {
    f, p := Rounded24(bytes), Rounded24(Rounded24(bytes) * FACTOR);
    Rounded24Rounds(bytes);
    Rounded24Rounds(f * FACTOR);
  }

  /** The product is within one part in four million of nine tenths, before it is truncated. */
  lemma ShrunkNear(bytes: nat)
    ensures 10_000_000 * Shrunk(bytes) <= 9_000_002 * bytes
    ensures 8_999_998 * bytes < 10_000_000 * (Shrunk(bytes) + 1)
  {
    Rounded24Near(bytes);
    Rounded24Near(Rounded24(bytes) * FACTOR);
    Chained(bytes, Rounded24(bytes), Rounded24(Rounded24(bytes) * FACTOR), Shrunk(bytes));
  }

  /** The two roundings and the truncation, as inequalities. */
  lemma Chained(bytes: nat, f: nat, product: nat, s: nat)
    requires Near(bytes, f) && Near(f * 15099494, product)
    requires 0x100_0000 * s <= product < 0x100_0000 * (s + 1)
    ensures 10_000_000 * s <= 9_000_002 * bytes
    ensures 8_999_998 * bytes < 10_000_000 * (s + 1)
  {
  }

  lemma PowersHere()
    ensures Pow2(8) == 256 && Pow2(32) == 0x1_0000_0000
  {
    assert Pow2(4) == 16;
    Pow2Sum(4, 4);
    Pow2Sum(8, 8);
    Pow2Sum(16, 16);
  }

  /** A case with a tie: nine tenths of 3 GiB lie in the middle between two multiples of 256. */
  lemma ShrunkThreeGiB()
    ensures Shrunk(3221225472) == 2899102720
  {
    PowersHere();
    UnitFor(3221225472, 8);
    assert Rounded24(3221225472) == 3221225472;
    UnitFor(3221225472 * FACTOR, 32);
  }

  lemma UnitFor(x: nat, e: nat)
    requires 0x80_0000 * Pow2(e) <= x < 0x100_0000 * Pow2(e) && x >= 0x100_0000
    ensures Unit(x) == Pow2(e)
  {
    UnitIs(x);
    var d := Log2Floor(x) - 23;
    if d < e {
      Pow2Monotone(d + 1, e);
    } else if e < d {
      Pow2Monotone(e + 1, d);
    }
  }
}
