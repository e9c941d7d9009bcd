/** Products and half squares under names of their own, so that the proofs about motion profiles can treat
    them as atoms and use just the laws stated here. */
module Arithmetic {

  function Times(x: real, y: real): real { x * y }

  /** The distance covered in time t at the constant acceleration c. */
  function Half(c: real, t: real): real { 0.5 * c * t * t }

  lemma TimesSign(c: real, x: real)
    requires c > 0.0
    ensures Times(c, x) >= 0.0 <==> x >= 0.0
    ensures Times(c, x) > 0.0 <==> x > 0.0
  {
  }

  lemma TimesNonNegative(x: real, y: real)
    requires x >= 0.0 && y >= 0.0
    ensures Times(x, y) >= 0.0
  {
    if x > 0.0 {
      TimesSign(x, y);
    }
  }

  lemma TimesAdd(v: real, x: real, y: real)
    ensures Times(v, x + y) == Times(v, x) + Times(v, y)
    ensures Times(v, x - y) == Times(v, x) - Times(v, y)
    ensures Times(v, 1.0) == v && Times(v, 0.0) == 0.0
  {
  }

  lemma TimesRearrange(x: real, y: real, z: real)
    ensures Times(x, y) == Times(y, x)
    ensures Times(Times(x, y), z) == Times(x, Times(y, z)) == Times(Times(x, z), y)
  {
  }

  lemma TimesMonotone(v: real, x: real, y: real)
    requires v >= 0.0 && x <= y
    ensures Times(v, x) <= Times(v, y)
  {
    hide Times;
    TimesNonNegative(v, y - x);
    TimesAdd(v, y, x);
  }

  lemma TimesScale(v: real, c: real)
    ensures Times(v, c) == c * v == Times(c, v)
  {
  }

  lemma TimesWithin(v: real, z: real, lo: real, hi: real)
    requires v >= 0.0 && lo <= z <= hi
    ensures lo * v <= Times(v, z) <= hi * v
  {
    hide Times;
    TimesMonotone(v, lo, z);
    TimesMonotone(v, z, hi);
    TimesScale(v, lo);
    TimesScale(v, hi);
  }

  lemma CancelFactor(c: real, x: real, y: real)
    requires c != 0.0 && Times(c, x) == Times(c, y)
    ensures x == y
  {
    assert (x - y) * c == 0.0;
  }

  lemma TimesQuotient(c: real, x: real)
    requires c != 0.0
    ensures Times(c, x / c) == x
  {
  }

  lemma SquareBelow(x: real, d: real, y: real)
    requires 0.0 <= x && 0.0 < d && y == x + d
    ensures x * x < y * y
  {
    assert y * y == x * x + 2.0 * (x * d) + d * d;
    assert x * d >= 0.0;
    assert d * d > 0.0;
  }

  lemma OrderOfSquares(x: real, y: real)
    requires x >= 0.0 && y >= 0.0
    ensures Times(x, x) <= Times(y, y) <==> x <= y
    ensures Times(x, x) == Times(y, y) <==> x == y
  {
    if x > y {
      SquareBelow(y, x - y, x);
    } else if x < y {
      SquareBelow(x, y - x, y);
    }
  }

  // ----- half squares -----

  lemma HalfAsTimes(c: real, t: real)
    ensures Half(c, t) == 0.5 * Times(Times(c, t), t)
    ensures Half(c, 0.0) == 0.0 && Half(c, 1.0) == 0.5 * c
  {
  }

  lemma HalfNonNegative(c: real, t: real)
    requires c >= 0.0 && t >= 0.0
    ensures Half(c, t) >= 0.0
  {
    hide Times, Half;
    TimesNonNegative(c, t);
    TimesNonNegative(Times(c, t), t);
    HalfAsTimes(c, t);
  }

  /** What is left of a half square over the last `gap` of its time. */
  lemma HalfGap(c: real, t: real, gap: real)
    ensures Half(c, t) - Half(c, t - gap) == Times(Times(c, t), gap) - Half(c, gap)
    ensures Half(c, t) - Half(c, t - gap) == Times(Times(c, t - gap), gap) + Half(c, gap)
  {
  }

  lemma HalfMonotone(c: real, x: real, y: real)
    requires c >= 0.0 && 0.0 <= x <= y
    ensures 0.0 <= Half(c, x) <= Half(c, y)
  {
    hide Times, Half;
    HalfNonNegative(c, x);
    HalfNonNegative(c, y - x);
    TimesNonNegative(c, x);
    TimesNonNegative(Times(c, x), y - x);
    HalfGap(c, y, y - x);
    assert y - (y - x) == x;
  }

  lemma HalfStep(c: real, x: real)
    ensures Half(c, x + 1.0) - Half(c, x) == Times(c, x) + 0.5 * c
  {
  }

  /** One step along a half square that ends before `top`. */
  lemma HalfStepWithin(c: real, x: real, top: real)
    requires c >= 0.0 && 0.0 <= x && x + 0.5 <= top
    ensures 0.0 <= Half(c, x + 1.0) - Half(c, x) <= Times(c, top)
  {
    hide Times, Half;
    HalfStep(c, x);
    TimesNonNegative(c, x);
    TimesMonotone(c, x + 0.5, top);
    TimesAdd(c, x, 0.5);
    TimesScale(c, 0.5);
  }

  /** From a point at most 1.5 before t on a half square to its value at t. */
  lemma HalfRestWithin(c: real, t: real, gap: real)
    requires c >= 0.0 && 0.0 <= gap <= 1.5 && gap <= t
    ensures 0.0 <= Half(c, t) - Half(c, t - gap) <= 1.5 * Times(c, t)
  {
    hide Times, Half;
    HalfMonotone(c, t - gap, t);
    HalfGap(c, t, gap);
    HalfNonNegative(c, gap);
    TimesNonNegative(c, t);
    TimesWithin(Times(c, t), gap, 0.0, 1.5);
  }

  // ----- whole numbers -----

  lemma ModNext(x: nat, m: nat)
    requires m > 0
    ensures (x + 1) % m == if x % m + 1 == m then 0 else x % m + 1
  {
    var q, r := x / m, x % m;
    assert x == q * m + r;
    if r + 1 == m {
      assert x + 1 == (q + 1) * m;
      DivModUnique(x + 1, m, q + 1, 0);
    } else {
      DivModUnique(x + 1, m, q, r + 1);
    }
  }

  lemma DivModUnique(x: nat, m: nat, q: int, r: nat)
    requires m > 0 && x == q * m + r && r < m
    ensures x / m == q && x % m == r
  {
    var d := x / m - q;
    assert d * m == r - x % m;
    MulAtLeast(d, m);
  }

  lemma MulAtLeast(d: int, m: int)
    requires m >= 0
    ensures d >= 1 ==> d * m >= m
    ensures d <= -1 ==> d * m <= -m
  {
  }
}
