/** The trapezoidal planner: which (t0, t1) it computes, and that a trapezoid with the requested area
    exists exactly when it says so. */
module Planner {
  import opened Arithmetic
  import opened CspTypes

  /** What is needed of the square root: it is exact on non-negative arguments. */
  ghost predicate IsSqrt(sqrt: real -> real) {
    forall x: real :: x >= 0.0 ==> sqrt(x) >= 0.0 && Times(sqrt(x), sqrt(x)) == x
  }

  /** The quadratic the planner solves is `a0 * t0 * t0 - b * t0 + distance`, with b = accel * points. */
  function LeadCoefficient(accel: real, decel: real): real
    requires decel > 0.0
  {
    0.5 * (accel + Times(accel, accel) / decel)
  }

  function Discriminant(accel: real, decel: real, points: real, distance: real): real
    requires decel > 0.0
  {
    Times(Times(accel, points), Times(accel, points)) - 4.0 * Times(LeadCoefficient(accel, decel), distance)
  }

  /** The corner times as the planner computes them from the root of the discriminant. */
  function CornerUp(accel: real, decel: real, points: real, root: real): real
    requires accel > 0.0 && decel > 0.0
  {
    LeadPositive(accel, decel);
    (Times(accel, points) - root) / 2.0 / LeadCoefficient(accel, decel)
  }

  function CornerDown(accel: real, decel: real, points: real, t0: real): real
    requires decel > 0.0
  {
    points - Times(accel, t0) / decel
  }

  /** The sign of the discriminant, for the distance the direction has been factored out of. */
  predicate Solvable(cfg: Settings, s: Segment)
    requires cfg.deceleration > 0.0
  {
    Discriminant(cfg.acceleration, cfg.deceleration, s.pointsNum as real,
                 Abs(s.targetPos - s.originPos)) >= 0.0
  }

  /** The nominal corner times of a segment. */
  function T0(cfg: Settings, s: Segment, sqrt: real -> real): real
    requires cfg.acceleration > 0.0 && cfg.deceleration > 0.0
  {
    var n := s.pointsNum as real;
    CornerUp(cfg.acceleration, cfg.deceleration, n,
             sqrt(Discriminant(cfg.acceleration, cfg.deceleration, n, Abs(s.targetPos - s.originPos))))
  }

  function T1(cfg: Settings, s: Segment, sqrt: real -> real): real
    requires cfg.acceleration > 0.0 && cfg.deceleration > 0.0
  {
    CornerDown(cfg.acceleration, cfg.deceleration, s.pointsNum as real, T0(cfg, s, sqrt))
  }

  /** The planner. The code is 0, -1 (no real solution) or -2 (too fast); only the direction is stored
      when it fails. With a zero limit the formulas divide by zero; that case is folded into -1. */
  function Plan(cfg: Settings, s: Segment, sqrt: real -> real): (int, Segment) {
    var s1 := s.(direction := if s.targetPos - s.originPos < 0.0 then -1 else 1);
    var accel, decel := cfg.acceleration, cfg.deceleration;
    if accel <= 0.0 || decel <= 0.0 || !Solvable(cfg, s) then (-1, s1) else
    var t0, t1 := T0(cfg, s, sqrt), T1(cfg, s, sqrt);
    if Times(accel, t0) > cfg.maxSpeed then (-2, s1) else
    (0, s1.(accelPos := Half(accel, t0),
            decelPos := Half(accel, t0) + Times(Times(accel, t0), t1 - t0),
            pointAccelEnd := ToPoint(t0),
            pointDecelStart := ToPoint(t1),
            uniformSpeed := Times(accel, t0)))
  }

  /** The cast `(uint32_t)(t + 0.5)`: rounding to the nearest cycle. */
  function ToPoint(t: real): (p: nat)
    ensures t >= 0.0 ==> t - 0.5 < p as real <= t + 0.5
  {
    var f := (t + 0.5).Floor;
    if f < 0 then 0 else f
  }

  // ----- the profile the planner is meant to find -----

  /** Speed up at rate `accel` until t0, keep that speed until t1, slow down at rate `decel` until the
      last cycle, and stand still there. */
  ghost predicate Trapezoid(accel: real, decel: real, points: real, t0: real, t1: real) {
    && 0.0 <= t0 <= t1 <= points
    && Times(accel, t0) == Times(decel, points - t1)
  }

  /** The distance covered: the area under the speed curve. */
  function Area(accel: real, decel: real, points: real, t0: real, t1: real): real {
    Half(accel, t0) + Times(Times(accel, t0), t1 - t0) + Half(decel, points - t1)
  }

  ghost predicate Fits(accel: real, decel: real, points: real, distance: real, t0: real, t1: real) {
    Trapezoid(accel, decel, points, t0, t1) && Area(accel, decel, points, t0, t1) == distance
  }

  lemma LeadPositive(accel: real, decel: real)
    requires accel > 0.0 && decel > 0.0
    ensures LeadCoefficient(accel, decel) > 0.0
  {
    hide Times;
    TimesSign(accel, accel);
    TimesQuotient(decel, Times(accel, accel));
    TimesSign(decel, Times(accel, accel) / decel);
  }

  /** With t1 determined by t0, the derivative of the quadratic at t0 is -accel * (t1 - t0). */
  lemma LeadTimesT0(accel: real, decel: real, points: real, t0: real, t1: real)
    requires decel > 0.0 && Times(accel, t0) == Times(decel, points - t1)
    ensures Times(accel, t1 - t0) == Times(accel, points) - 2.0 * Times(LeadCoefficient(accel, decel), t0)
  {
    hide Times;
    var q, w := Times(accel, accel) / decel, points - t1;
    TimesQuotient(decel, Times(accel, accel));
    TimesRearrange(decel, q, t0);
    TimesRearrange(accel, accel, t0);
    TimesRearrange(accel, decel, w);
    TimesRearrange(decel, accel, w);
    CancelFactor(decel, Times(q, t0), Times(accel, w));
    LeadSplit(accel, q, t0);
    TimesAdd(accel, points, w);
    TimesAdd(accel, points - w, t0);
    assert points - w == t1;
  }

  lemma LeadSplit(accel: real, q: real, t0: real)
    ensures 2.0 * Times(0.5 * (accel + q), t0) == Times(accel, t0) + Times(q, t0)
  {
  }

  /** A trapezoid covers what the quadratic says. */
  lemma AreaIsQuadratic(accel: real, decel: real, points: real, t0: real, t1: real)
    requires decel > 0.0 && Times(accel, t0) == Times(decel, points - t1)
    ensures Area(accel, decel, points, t0, t1)
         == Times(Times(accel, points), t0) - Times(Times(LeadCoefficient(accel, decel), t0), t0)
  {
    hide Times, Half, LeadCoefficient;
    var v, w, z := Times(accel, t0), points - t1, Times(LeadCoefficient(accel, decel), t0);
    LeadTimesT0(accel, decel, points, t0, t1);
    TimesAdd(accel, t1, t0);
    TimesAdd(accel, points, t1);
    assert 2.0 * z == v + Times(accel, w);
    HalfAsTimes(accel, t0);
    HalfAsTimes(decel, w);
    TimesRearrange(accel, t0, w);
    TimesRearrange(accel, t0, points);
    TimesAdd(v, points, w);
    TimesAdd(v, points - w, t0);
    assert points - w == t1;
    TimesLinear(z, v, Times(accel, w), t0);
    TimesRearrange(accel, w, t0);
  }

  lemma TimesLinear(z: real, x: real, y: real, t: real)
    requires 2.0 * z == x + y
    ensures 2.0 * Times(z, t) == Times(x, t) + Times(y, t)
  {
    assert z == 0.5 * (x + y);
  }

  /** Completing the square: y is the derivative of the quadratic at t0 (up to its sign), and t0 solves it
      exactly when y squares to the discriminant. */
  lemma CompleteSquare(a0: real, b: real, distance: real, t0: real, y: real)
    requires a0 > 0.0 && y == b - 2.0 * Times(a0, t0)
    ensures Times(y, y) == Times(b, b) - 4.0 * Times(a0, distance)
       <==> Times(b, t0) - Times(Times(a0, t0), t0) == distance
  {
    hide Times;
    var z := Times(a0, t0);
    SquareOf(b, z, y);
    TimesRearrange(a0, b, t0);
    TimesRearrange(a0, z, t0);
    TimesRearrange(b, a0, t0);
    TimesRearrange(z, a0, t0);
    var value := Times(b, t0) - Times(z, t0);
    TimesAdd(a0, Times(b, t0), Times(z, t0));
    assert Times(a0, value) == Times(b, z) - Times(z, z);
    if Times(a0, value) == Times(a0, distance) {
      CancelFactor(a0, value, distance);
    }
  }

  lemma SquareOf(b: real, z: real, y: real)
    requires y == b - 2.0 * z
    ensures Times(y, y) == Times(b, b) - 4.0 * (Times(b, z) - Times(z, z))
  {
  }

  /** A pair of times in the right proportion fits exactly when it comes from the smaller root. */
  lemma FitsIffSmallerRoot(accel: real, decel: real, points: real, distance: real, t0: real, t1: real)
    requires accel > 0.0 && decel > 0.0 && points >= 0.0 && distance >= 0.0
    requires Times(accel, t0) == Times(decel, points - t1)
    ensures Fits(accel, decel, points, distance, t0, t1) <==>
              && Times(accel, t1 - t0) >= 0.0
              && Times(Times(accel, t1 - t0), Times(accel, t1 - t0)) == Discriminant(accel, decel, points, distance)
  {
    hide Times, Half, LeadCoefficient, Area;
    var a0, b, y := LeadCoefficient(accel, decel), Times(accel, points), Times(accel, t1 - t0);
    LeadPositive(accel, decel);
    LeadTimesT0(accel, decel, points, t0, t1);
    AreaIsQuadratic(accel, decel, points, t0, t1);
    CompleteSquare(a0, b, distance, t0, y);
    TimesSign(accel, t1 - t0);
    if y >= 0.0 && Times(y, y) == Discriminant(accel, decel, points, distance) {
      TimesNonNegative(a0, distance);
      TimesNonNegative(accel, points);
      OrderOfSquares(y, b);
      TimesSign(a0, t0);
      TimesNonNegative(accel, t0);
      TimesSign(decel, points - t1);
    }
  }

  lemma CornersSolve(accel: real, decel: real, points: real, root: real, t0: real, t1: real)
    requires accel > 0.0 && decel > 0.0
    ensures root == Times(accel, points) - 2.0 * Times(LeadCoefficient(accel, decel), t0)
       <==> t0 == CornerUp(accel, decel, points, root)
    ensures Times(accel, t0) == Times(decel, points - t1) <==> t1 == CornerDown(accel, decel, points, t0)
  {
    hide Times, LeadCoefficient;
    LeadPositive(accel, decel);
    var a0, x, y := LeadCoefficient(accel, decel), (Times(accel, points) - root) / 2.0, Times(accel, t0);
    TimesQuotient(a0, x);
    if Times(a0, t0) == x {
      CancelFactor(a0, t0, x / a0);
    }
    TimesQuotient(decel, y);
    if y == Times(decel, points - t1) {
      CancelFactor(decel, points - t1, y / decel);
    }
  }

  /** When the discriminant is not negative, the computed corners are the one fitting trapezoid;
      when it is negative there is none. */
  lemma FitsIffCorners(accel: real, decel: real, points: real, distance: real, root: real,
                       t0: real, t1: real)
    requires accel > 0.0 && decel > 0.0 && points >= 0.0 && distance >= 0.0
    requires Discriminant(accel, decel, points, distance) >= 0.0 ==>
               root >= 0.0 && Times(root, root) == Discriminant(accel, decel, points, distance)
    ensures Fits(accel, decel, points, distance, t0, t1) <==>
              && Discriminant(accel, decel, points, distance) >= 0.0
              && t0 == CornerUp(accel, decel, points, root)
              && t1 == CornerDown(accel, decel, points, t0)
  {
    hide Times, Half, LeadCoefficient, Area, Discriminant, CornerUp, CornerDown;
    CornersSolve(accel, decel, points, root, t0, t1);
    if Times(accel, t0) == Times(decel, points - t1) {
      LeadTimesT0(accel, decel, points, t0, t1);
      FitsIffSmallerRoot(accel, decel, points, distance, t0, t1);
      var y := Times(accel, t1 - t0);
      if y >= 0.0 {
        TimesNonNegative(y, y);
        if Discriminant(accel, decel, points, distance) >= 0.0 {
          OrderOfSquares(root, y);
        }
      }
    }
  }

  // ----- what the planner answers -----

  ghost predicate FitsSegment(cfg: Settings, s: Segment, t0: real, t1: real) {
    Fits(cfg.acceleration, cfg.deceleration, s.pointsNum as real, Abs(s.targetPos - s.originPos), t0, t1)
  }

  lemma FitsSegmentIff(cfg: Settings, s: Segment, sqrt: real -> real, t0: real, t1: real)
    requires IsSqrt(sqrt) && cfg.acceleration > 0.0 && cfg.deceleration > 0.0
    ensures FitsSegment(cfg, s, t0, t1) <==>
              Solvable(cfg, s) && t0 == T0(cfg, s, sqrt) && t1 == T1(cfg, s, sqrt)
  {
    hide Times, Fits, Discriminant, CornerUp, CornerDown;
    var distance := Abs(s.targetPos - s.originPos);
    var d := Discriminant(cfg.acceleration, cfg.deceleration, s.pointsNum as real, distance);
    FitsIffCorners(cfg.acceleration, cfg.deceleration, s.pointsNum as real, distance, sqrt(d), t0, t1);
  }

  /** Soundness, completeness and uniqueness. The planner succeeds exactly when some fitting trapezoid
      keeps to the maximal speed; it answers -1 exactly when none fits at any speed; and what it
      computes is the one and only fitting trapezoid. */
  lemma PlanIsExact(cfg: Settings, s: Segment, sqrt: real -> real)
    requires IsSqrt(sqrt) && cfg.acceleration > 0.0 && cfg.deceleration > 0.0
    ensures Plan(cfg, s, sqrt).0 == 0 <==>
              exists t0, t1 :: FitsSegment(cfg, s, t0, t1) && Times(cfg.acceleration, t0) <= cfg.maxSpeed
    ensures Plan(cfg, s, sqrt).0 == -1 <==> !exists t0, t1 :: FitsSegment(cfg, s, t0, t1)
    ensures Plan(cfg, s, sqrt).0 == -2 <==>
              && (exists t0, t1 :: FitsSegment(cfg, s, t0, t1))
              && forall t0, t1 :: FitsSegment(cfg, s, t0, t1) ==> Times(cfg.acceleration, t0) > cfg.maxSpeed
    ensures forall t0, t1 :: FitsSegment(cfg, s, t0, t1) ==>
              t0 == T0(cfg, s, sqrt) && t1 == T1(cfg, s, sqrt)
  {
    hide Times, FitsSegment, Solvable, T0, T1;
    forall t0, t1
      ensures FitsSegment(cfg, s, t0, t1) <==>
                Solvable(cfg, s) && t0 == T0(cfg, s, sqrt) && t1 == T1(cfg, s, sqrt)
    {
      FitsSegmentIff(cfg, s, sqrt, t0, t1);
    }
    if Solvable(cfg, s) {
      assert FitsSegment(cfg, s, T0(cfg, s, sqrt), T1(cfg, s, sqrt));
    }
  }

  /** What the planner leaves in the segment: whatever it answers, the direction is the side the target lies
      on, a target at the origin counting as ahead; a refusal changes nothing else, and no answer changes
      where the segment starts and ends, how long it takes and how far it has come. */
  lemma WhatPlanStores(cfg: Settings, s: Segment, sqrt: real -> real)
    ensures var (code, p) := Plan(cfg, s, sqrt);
      && (p.direction == -1 <==> s.targetPos < s.originPos) && (p.direction == 1 <==> s.targetPos >= s.originPos)
      && (code != 0 ==> p == s.(direction := p.direction))
      && p.originPos == s.originPos && p.targetPos == s.targetPos
      && p.pointsNum == s.pointsNum && p.currentPoint == s.currentPoint
  {
    hide Times, Half, Solvable, T0, T1, ToPoint;
  }
}
