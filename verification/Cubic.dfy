/** The example's point-to-point move: a cubic in time, sampled every 5 ms, and its stop sequence. Positions
    are whole numbers, coefficients and times are reals. */
module Cubic {
  import opened Arithmetic
  import opened Ds402

  const TICK := 0.005

  datatype Coefficients = Coefficients(a0: real, a1: real, a2: real, a3: real)

  function Make(position: int, target: int, time: nat): Coefficients
    requires time > 0
  {
    Coefficients(position as real, 0.0,
                 3.0 / (time * time) as real * (target - position) as real,
                 -2.0 / (time * time * time) as real * (target - position) as real)
  }

  function At(c: Coefficients, t: real): real { c.a0 + c.a1 * t + c.a2 * t * t + c.a3 * t * t * t }

  /** The conversion to an integer drops the fraction. */
  function Trunc(x: real): int { if x >= 0.0 then x.Floor else -(-x).Floor }

  /** The part behind the point is dropped, on either side of 0. */
  lemma TruncIs(x: real)
    ensures x >= 0.0 ==> 0 <= Trunc(x) && Trunc(x) as real <= x < Trunc(x) as real + 1.0
    ensures x <= 0.0 ==> Trunc(x) <= 0 && Trunc(x) as real - 1.0 < x <= Trunc(x) as real
  {
  }

  // ----- the boundary conditions -----

  /** The speed on the path. */
  function Speed(c: Coefficients, t: real): real { c.a1 + 2.0 * c.a2 * t + 3.0 * c.a3 * t * t }

  /** The coefficients are the only ones of a path that starts in the one position and ends in the other, at
      rest in both. */
  lemma OnlyPath(c: Coefficients, position: int, target: int, time: nat)
    requires time > 0
    ensures c == Make(position, target, time) <==>
              && At(c, 0.0) == position as real && Speed(c, 0.0) == 0.0
              && At(c, time as real) == target as real && Speed(c, time as real) == 0.0
  {
    var n, d := time as real, (target - position) as real;
    assert At(c, 0.0) == c.a0 && Speed(c, 0.0) == c.a1;
    var q, r := c.a2 * n * n, c.a3 * n * n * n;
    SpeedTimes(c, n);
    Solved(c.a2, c.a3, d, n);
    Powers(time);
  }

  lemma SpeedTimes(c: Coefficients, n: real)
    requires n > 0.0
    ensures c.a1 == 0.0 ==>
              (Speed(c, n) == 0.0 <==> 2.0 * (c.a2 * n * n) + 3.0 * (c.a3 * n * n * n) == 0.0)
    ensures c.a1 == 0.0 ==> At(c, n) == c.a0 + c.a2 * n * n + c.a3 * n * n * n
  {
    if c.a1 == 0.0 {
      var v := Speed(c, n);
      assert v * n == 2.0 * (c.a2 * n * n) + 3.0 * (c.a3 * n * n * n);
    }
  }

  /** Two equations for the two upper coefficients. */
  lemma Solved(a2: real, a3: real, d: real, n: real)
    requires n > 0.0
    ensures n * n > 0.0 && n * n * n > 0.0
    ensures a2 == 3.0 / (n * n) * d && a3 == -2.0 / (n * n * n) * d <==>
              a2 * n * n == 3.0 * d && a3 * n * n * n == -2.0 * d
  {
    Quotient(a2, n * n, 3.0, d);
    Quotient(a3, n * n * n, -2.0, d);
  }

  lemma Quotient(a: real, m: real, k: real, d: real)
    requires m > 0.0
    ensures a == k / m * d <==> a * m == k * d
  {
    var q := k / m;
    assert q * m == k;
    assert q * d * m == k * d;
    if a * m == k * d {
      assert (a - q * d) * m == 0.0;
    }
  }

  lemma Powers(time: nat)
    ensures (time * time) as real == time as real * time as real
    ensures (time * time * time) as real == time as real * time as real * time as real
  {
  }

  // ----- the shape -----

  /** The cubic of a unit move in unit time. */
  function Shape(u: real): real { 3.0 * (u * u) - 2.0 * (u * u * u) }

  /** The chord of the shape between two times: it never falls and is never steeper than 1.5. */
  function Chord(u: real, v: real): real { 3.0 * (u + v) - 2.0 * (u * u + u * v + v * v) }

  lemma ChordIs(u: real, v: real)
    ensures Shape(u) - Shape(v) == (u - v) * Chord(u, v)
  {
    var s, p := u + v, u * u + u * v + v * v;
    assert (u - v) * s == u * u - v * v;
    Cubes(u, v);
    assert (u - v) * Chord(u, v) == 3.0 * ((u - v) * s) - 2.0 * ((u - v) * p);
  }

  lemma Cubes(u: real, v: real)
    ensures (u - v) * (u * u + u * v + v * v) == u * u * u - v * v * v
  {
    assert (u - v) * (u * u + u * v + v * v) == u * (u * u + u * v + v * v) - v * (u * u + u * v + v * v);
  }

  lemma ChordBounds(u: real, v: real)
    requires 0.0 <= v <= 1.0 && 0.0 <= u <= 1.0
    ensures 0.0 <= Chord(u, v) <= 1.5
  {
    var uu, uv, vv := u * u, u * v, v * v;
    assert Chord(u, v) == 3.0 * (u + v) - 2.0 * (uu + uv + vv);
    Product(u, 1.0 - u);
    Product(v, 1.0 - v);
    Product(u, 1.0 - v);
    Product(v, 1.0 - u);
    assert uu <= u && vv <= v && uv <= u && uv <= v by {
      assert u * (1.0 - u) == u - uu && v * (1.0 - v) == v - vv;
      assert u * (1.0 - v) == u - uv && v * (1.0 - u) == v - uv;
    }
    Peak(u, v);
  }

  lemma Peak(u: real, v: real)
    ensures 3.0 * (u + v) - 2.0 * (u * u + u * v + v * v) <= 1.5
  {
    var a, b := u - 0.5, v - 0.5;
    Square(a + b);
    Square(a);
    Square(b);
    assert (a + b) * (a + b) == a * a + 2.0 * (a * b) + b * b;
    assert a * a == u * u - u + 0.25;
    assert b * b == v * v - v + 0.25;
    assert a * b == u * v - 0.5 * u - 0.5 * v + 0.25;
  }

  lemma Square(x: real)
    ensures x * x >= 0.0
  {
  }

  lemma Product(x: real, z: real)
    requires x >= 0.0 && z >= 0.0
    ensures x * z >= 0.0
  {
  }

  /** The coefficients of the program are the unit shape, moved and stretched. */
  lemma AtIsShape(position: int, target: int, time: nat, t: real)
    requires time > 0
    ensures At(Make(position, target, time), t) ==
            position as real + Times((target - position) as real, Shape(t / time as real))
  {
    var n, d, u := time as real, (target - position) as real, t / time as real;
    Quadratic(time, d, u, t);
    Cube(time, d, u, t);
    Spread(d, u * u, u * u * u);
    Parts(Make(position, target, time), t);
    hide At, Times;
  }

  lemma Parts(c: Coefficients, t: real)
    ensures c.a1 == 0.0 ==> At(c, t) == c.a0 + c.a2 * t * t + c.a3 * t * t * t
  {
  }

  lemma Spread(d: real, x: real, y: real)
    ensures Times(d, 3.0 * x - 2.0 * y) == 3.0 * Times(d, x) - 2.0 * Times(d, y)
  {
  }

  lemma Quadratic(time: nat, d: real, u: real, t: real)
    requires time > 0 && u == t / time as real
    ensures 3.0 / (time * time) as real * d * t * t == 3.0 * Times(d, u * u)
  {
    var n := time as real;
    assert t == u * n && (time * time) as real == n * n;
    var k := 3.0 / (n * n);
    assert k * (n * n) == 3.0;
    assert k * d * (u * n) * (u * n) == (k * (n * n)) * (d * (u * u));
  }

  lemma Cube(time: nat, d: real, u: real, t: real)
    requires time > 0 && u == t / time as real
    ensures -2.0 / (time * time * time) as real * d * t * t * t == -2.0 * Times(d, u * u * u)
  {
    var n := time as real;
    assert t == u * n && (time * time * time) as real == n * n * n;
    var k := -2.0 / (n * n * n);
    assert k * (n * n * n) == -2.0;
    assert k * d * (u * n) * (u * n) * (u * n) == (k * (n * n * n)) * (d * (u * u * u));
  }

  // ----- the path -----

  /** One and a half times the average speed of a move by d, for a stretch of time. */
  function Steepest(d: real, time: nat, stretch: real): real
    requires time > 0
  {
    1.5 * d * stretch / time as real
  }

  /** The path stays between its ends, meets the target at the set time, goes only towards it, and never
      faster than one and a half times its average speed. */
  lemma PathIsSafe(position: int, target: int, time: nat, t: real, t': real)
    requires time > 0 && 0.0 <= t <= t' <= time as real
    ensures var c, d := Make(position, target, time), (target - position) as real;
      && At(c, 0.0) == position as real && At(c, time as real) == target as real
      && (d >= 0.0 ==> position as real <= At(c, t) <= At(c, t') <= target as real)
      && (d <= 0.0 ==> target as real <= At(c, t') <= At(c, t) <= position as real)
      && (d >= 0.0 ==> At(c, t') - At(c, t) <= Steepest(d, time, t' - t))
      && (d <= 0.0 ==> At(c, t) - At(c, t') <= Steepest(-d, time, t' - t))
  {
    hide At, Make, Times, Steepest, Shape;
    var n, d := time as real, (target - position) as real;
    var u, u' := t / n, t' / n;
    Ratio(t, t', n);
    AtIsShape(position, target, time, t);
    AtIsShape(position, target, time, t');
    AtIsShape(position, target, time, 0.0);
    AtIsShape(position, target, time, n);
    assert 0.0 / n == 0.0 && n / n == 1.0;
    ShapeEnds();
    TimesAdd(d, 1.0, 0.0);
    TimesAdd(-d, 1.0, 0.0);
    Rises(0.0, u);
    Rises(u, u');
    Rises(u', 1.0);
    var s, s' := Shape(u), Shape(u');
    if d >= 0.0 {
      Stretch(d, s, s', u' - u);
      SteepestIs(d, time, t, t');
    }
    if d <= 0.0 {
      Stretch(-d, s, s', u' - u);
      Mirror(d, s);
      Mirror(d, s');
      SteepestIs(-d, time, t, t');
    }
  }

  lemma ShapeEnds()
    ensures Shape(0.0) == 0.0 && Shape(1.0) == 1.0
  {
  }

  lemma Mirror(d: real, s: real)
    ensures Times(-d, s) == -Times(d, s)
  {
  }

  lemma Ratio(t: real, t': real, n: real)
    requires 0.0 <= t <= t' <= n && n > 0.0
    ensures 0.0 <= t / n <= t' / n <= 1.0
  {
    var u, u' := t / n, t' / n;
    assert t == u * n && t' == u' * n;
  }

  lemma Rises(v: real, u: real)
    requires 0.0 <= v <= u <= 1.0
    ensures 0.0 <= Shape(u) - Shape(v) <= 1.5 * (u - v)
  {
    ChordIs(u, v);
    ChordBounds(u, v);
    var w, c := u - v, Chord(u, v);
    hide Chord, Shape;
    Product(w, c);
    Product(w, 1.5 - c);
    assert w * (1.5 - c) == 1.5 * w - w * c;
  }

  lemma Stretch(d: real, s: real, s': real, w: real)
    requires d >= 0.0 && 0.0 <= s <= s' <= 1.0 && s' - s <= 1.5 * w
    ensures 0.0 <= Times(d, s) <= Times(d, s') <= d
    ensures Times(d, s') - Times(d, s) <= 1.5 * Times(d, w)
  {
    hide Times;
    TimesNonNegative(d, s);
    TimesMonotone(d, s, s');
    TimesMonotone(d, s', 1.0);
    TimesAdd(d, s', s);
    TimesMonotone(d, s' - s, 1.5 * w);
    TimesRearrange(d, 1.5, w);
    TimesScale(d, 1.5);
    TimesScale(w, 1.5);
    TimesRearrange(d, w, 1.5);
    TimesScale(Times(d, w), 1.5);
  }

  lemma SteepestIs(d: real, time: nat, t: real, t': real)
    requires time > 0
    ensures Steepest(d, time, t' - t) == 1.5 * Times(d, t' / time as real - t / time as real)
  {
    var n := time as real;
    var u, u' := t / n, t' / n;
    assert t == u * n && t' == u' * n;
    assert 1.5 * d * (t' - t) == 1.5 * (d * (u' - u)) * n;
  }

  // ----- the samples -----

  /** The position commanded in the k-th working call. */
  function Sample(position: int, target: int, time: nat, k: nat): int
    requires time > 0
  {
    if k >= 200 * time then target else Trunc(At(Make(position, target, time), k as real * TICK))
  }

  lemma TruncMonotone(x: real, y: real)
    requires x <= y
    ensures Trunc(x) <= Trunc(y) && (Trunc(y) - Trunc(x)) as real < y - x + 1.0
  {
  }

  lemma TruncWhole(n: int)
    ensures Trunc(n as real) == n
  {
    if n < 0 {
      assert (-(n as real)) == (-n) as real;
    }
  }

  /** Each sample lies between the start and the target, the next one is no farther from the target, and
      from one to the next there is at most what the steepest part of the path covers in a tick, and less
      than one for the dropped fraction. From 200 samples a second times the set time on, it is the target. */
  lemma SamplesAreSafe(position: int, target: int, time: nat, k: nat)
    requires time > 0
    ensures var p, q := Sample(position, target, time, k), Sample(position, target, time, k + 1);
      var d := (target - position) as real;
      && (d >= 0.0 ==> position <= p <= q <= target && (q - p) as real < Steepest(d, time, TICK) + 1.0)
      && (d <= 0.0 ==> target <= q <= p <= position && (p - q) as real < Steepest(-d, time, TICK) + 1.0)
      && (k >= 200 * time ==> p == target)
  {
    var d := (target - position) as real;
    var c := Make(position, target, time);
    if k + 1 <= 200 * time {
      var t, t' := k as real * TICK, (k + 1) as real * TICK;
      assert t' == t + TICK;
      SampleIs(position, target, time, k);
      SampleIs(position, target, time, k + 1);
      hide At, Make, Sample, Steepest, Trunc;
      PathIsSafe(position, target, time, t, t');
      TruncWhole(position);
      TruncWhole(target);
      if d >= 0.0 {
        TruncMonotone(position as real, At(c, t));
        TruncMonotone(At(c, t), At(c, t'));
        TruncMonotone(At(c, t'), target as real);
      }
      if d <= 0.0 {
        TruncMonotone(target as real, At(c, t'));
        TruncMonotone(At(c, t'), At(c, t));
        TruncMonotone(At(c, t), position as real);
      }
    } else {
      SteepestSign(if d >= 0.0 then d else -d, time);
    }
  }

  // ----- samples that are left out -----

  function Gap(x: int, y: int): nat { if x <= y then y - x else x - y }

  /** What one sample may be away from the one before it. */
  function TickLimit(position: int, target: int, time: nat): real
    requires time > 0
  {
    Steepest(Gap(position, target) as real, time, TICK) + 1.0
  }

  lemma OneTick(position: int, target: int, time: nat, k: nat)
    requires time > 0
    ensures var p, q := Sample(position, target, time, k), Sample(position, target, time, k + 1);
      && (if position <= target then position <= p <= q <= target else target <= q <= p <= position)
      && Gap(p, q) as real < TickLimit(position, target, time)
      && TickLimit(position, target, time) >= 1.0
      && (k >= 200 * time ==> p == target)
  {
    SamplesAreSafe(position, target, time, k);
    SteepestSign(Gap(position, target) as real, time);
    hide Sample, Steepest;
  }

  /** Samples stay in order however many are left out, and m of them cover less than m times the limit. */
  lemma {:induction false} SamplesApart(position: int, target: int, time: nat, k: nat, m: nat)
    requires time > 0
    ensures var p, q := Sample(position, target, time, k), Sample(position, target, time, k + m);
      && (if position <= target then position <= p <= q <= target else target <= q <= p <= position)
      && Gap(p, q) as real <= Times(m as real, TickLimit(position, target, time))
      && (m > 0 ==> Gap(p, q) as real < Times(m as real, TickLimit(position, target, time)))
    decreases m
  {
    hide Sample, TickLimit, Times;
    var limit := TickLimit(position, target, time);
    OneTick(position, target, time, k);
    TimesAdd(limit, 1.0, 0.0);
    TimesRearrange(limit, m as real, 1.0);
    if m > 0 {
      SamplesApart(position, target, time, k, m - 1);
      OneTick(position, target, time, k + m - 1);
      TimesAdd(limit, (m - 1) as real, 1.0);
      TimesRearrange(limit, (m - 1) as real, 1.0);
    } else {
      TimesRearrange(limit, 0.0, 1.0);
    }
  }

  /** The limit for one tick holds after every number of left out samples exactly if the whole rest of the
      way is within it. */
  lemma LimitSurvivesIff(position: int, target: int, time: nat, k: nat)
    requires time > 0
    ensures var limit, p := TickLimit(position, target, time), Sample(position, target, time, k);
      (forall j: nat :: k <= j ==> Gap(p, Sample(position, target, time, j)) as real < limit) <==>
      Gap(p, target) as real < limit
  {
    hide TickLimit;
    var limit, p := TickLimit(position, target, time), Sample(position, target, time, k);
    forall j: nat | k <= j
      ensures Gap(p, Sample(position, target, time, j)) <= Gap(p, target)
    {
      SamplesApart(position, target, time, k, j - k);
      OneTick(position, target, time, j);
    }
    assert Sample(position, target, time, k + 200 * time) == target;
  }

  lemma SteepestSign(d: real, time: nat)
    requires time > 0 && d >= 0.0
    ensures Steepest(d, time, TICK) >= 0.0
  {
    SteepestIs(d, time, 0.0, TICK);
    TimesNonNegative(d, TICK / time as real);
  }

  /** At the end of the set time the path itself is at the target. */
  lemma SampleIs(position: int, target: int, time: nat, k: nat)
    requires time > 0 && k <= 200 * time
    ensures Sample(position, target, time, k) == Trunc(At(Make(position, target, time), k as real * TICK))
  {
    if k == 200 * time {
      assert k as real * TICK == time as real;
      PathIsSafe(position, target, time, 0.0, time as real);
      TruncWhole(target);
    }
  }
}
