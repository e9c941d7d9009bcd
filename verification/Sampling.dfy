/** What sampling a planned segment point by point delivers, with both phase boundaries rounded to
    whole cycles. */
module Sampling {
  import opened Arithmetic
  import opened CspTypes
  import opened Planner

  /** The distance from the origin at point k, as the sampler computes it. The third phase adds its
      square where a decelerating one would subtract it from the end. */
  function Offset(cfg: Settings, s: Segment, k: nat): real {
    if k < s.pointAccelEnd then
      Half(cfg.acceleration, k as real)
    else if k > s.pointDecelStart then
      s.decelPos + Half(cfg.deceleration, (k - s.pointDecelStart) as real)
    else
      s.accelPos + Times(s.uniformSpeed, (k - s.pointAccelEnd) as real)
  }

  /** The position at point k in user units. */
  function Position(cfg: Settings, s: Segment, k: nat): real {
    Offset(cfg, s, k) * s.direction as real + s.originPos
  }

  /** The fields of `s` come from a successful plan with corner times t0 and t1. */
  ghost predicate PlannedWith(cfg: Settings, s: Segment, t0: real, t1: real) {
    && cfg.acceleration > 0.0 && cfg.deceleration > 0.0
    && FitsSegment(cfg, s, t0, t1)
    && s.uniformSpeed == Times(cfg.acceleration, t0) <= cfg.maxSpeed
    && s.accelPos == Half(cfg.acceleration, t0)
    && s.decelPos == s.accelPos + Times(s.uniformSpeed, t1 - t0)
    && s.pointAccelEnd == ToPoint(t0) && s.pointDecelStart == ToPoint(t1)
    && s.direction == (if s.targetPos - s.originPos < 0.0 then -1 else 1)
  }

  ghost predicate Planned(cfg: Settings, s: Segment) {
    exists t0, t1 :: PlannedWith(cfg, s, t0, t1)
  }

  lemma PlanDelivers(cfg: Settings, s: Segment, sqrt: real -> real)
    requires IsSqrt(sqrt) && Plan(cfg, s, sqrt).0 == 0
    ensures Planned(cfg, Plan(cfg, s, sqrt).1)
  {
    hide Times, Half, T0, T1, Solvable, ToPoint, Fits;
    var p, t0, t1 := Plan(cfg, s, sqrt).1, T0(cfg, s, sqrt), T1(cfg, s, sqrt);
    FitsSegmentIff(cfg, s, sqrt, t0, t1);
    assert PlannedWith(cfg, p, t0, t1);
  }

  // ----- a planned segment in plain numbers -----

  /** Its corner times, its phases and how they were rounded. */
  ghost predicate Phases(cfg: Settings, s: Segment, t0: real, t1: real, distance: real) {
    var n, v := s.pointsNum as real, s.uniformSpeed;
    && cfg.acceleration > 0.0 && cfg.deceleration > 0.0
    && 0.0 <= t0 <= t1 <= n
    && 0.0 <= v == Times(cfg.acceleration, t0) == Times(cfg.deceleration, n - t1)
    && s.accelPos == Half(cfg.acceleration, t0)
    && s.decelPos == s.accelPos + Times(v, t1 - t0)
    && distance == s.decelPos + Half(cfg.deceleration, n - t1)
    && t0 - 0.5 < s.pointAccelEnd as real <= t0 + 0.5
    && t1 - 0.5 < s.pointDecelStart as real <= t1 + 0.5
    && s.pointAccelEnd <= s.pointDecelStart <= s.pointsNum
  }

  lemma PhasesOf(cfg: Settings, s: Segment, t0: real, t1: real)
    requires PlannedWith(cfg, s, t0, t1)
    ensures Phases(cfg, s, t0, t1, Abs(s.targetPos - s.originPos))
  {
    hide Times, Half, ToPoint;
    TimesNonNegative(cfg.acceleration, t0);
  }

  lemma PlannedPhases(cfg: Settings, s: Segment) returns (t0: real, t1: real)
    requires Planned(cfg, s)
    ensures Phases(cfg, s, t0, t1, Abs(s.targetPos - s.originPos))
    ensures s.uniformSpeed <= cfg.maxSpeed
  {
    hide Times, Half, ToPoint, Fits, Phases;
    t0, t1 :| PlannedWith(cfg, s, t0, t1);
    PhasesOf(cfg, s, t0, t1);
  }

  /** The rounded boundaries keep their order and stay inside the segment. */
  lemma BoundariesOrdered(cfg: Settings, s: Segment)
    requires Planned(cfg, s)
    ensures s.pointAccelEnd <= s.pointDecelStart <= s.pointsNum
    ensures 0.0 <= s.uniformSpeed <= cfg.maxSpeed
    ensures cfg.acceleration > 0.0 && cfg.deceleration > 0.0
    ensures s.direction == (if s.targetPos - s.originPos < 0.0 then -1 else 1)
  {
    hide Times, Half, ToPoint, Fits;
    var t0, t1 := PlannedPhases(cfg, s);
  }

  // ----- bounds on single samples -----

  lemma RampSample(cfg: Settings, s: Segment, k: nat, t0: real, t1: real, distance: real)
    requires Phases(cfg, s, t0, t1, distance) && k < s.pointAccelEnd
    ensures 0.0 <= Offset(cfg, s, k) <= s.accelPos
  {
    hide Times, Half;
    HalfMonotone(cfg.acceleration, k as real, t0);
  }

  lemma UniformSample(cfg: Settings, s: Segment, k: nat, t0: real, t1: real, distance: real)
    requires Phases(cfg, s, t0, t1, distance) && s.pointAccelEnd <= k <= s.pointDecelStart
    ensures 0.0 <= Offset(cfg, s, k) <= s.decelPos + s.uniformSpeed
  {
    hide Times, Half;
    var v, i := s.uniformSpeed, (k - s.pointAccelEnd) as real;
    HalfNonNegative(cfg.acceleration, t0);
    TimesNonNegative(v, i);
    TimesMonotone(v, i, t1 - t0 + 1.0);
    TimesAdd(v, t1 - t0, 1.0);
  }

  lemma TailSample(cfg: Settings, s: Segment, k: nat, t0: real, t1: real, distance: real)
    requires Phases(cfg, s, t0, t1, distance) && s.pointDecelStart < k < s.pointsNum
    ensures s.decelPos <= Offset(cfg, s, k) <= distance
  {
    hide Times, Half;
    HalfMonotone(cfg.deceleration, (k - s.pointDecelStart) as real, s.pointsNum as real - t1);
  }

  lemma PhaseEnds(cfg: Settings, s: Segment, t0: real, t1: real, distance: real)
    requires Phases(cfg, s, t0, t1, distance)
    ensures 0.0 <= s.accelPos <= s.decelPos <= distance && 0.0 <= s.uniformSpeed
  {
    hide Times, Half;
    HalfNonNegative(cfg.acceleration, t0);
    TimesNonNegative(s.uniformSpeed, t1 - t0);
    HalfNonNegative(cfg.deceleration, s.pointsNum as real - t1);
  }

  /** Every sample lies between the origin and at most one uniform step beyond the target. */
  lemma SampleWithin(cfg: Settings, s: Segment, k: nat)
    requires Planned(cfg, s) && k < Samples(s)
    ensures 0.0 <= Offset(cfg, s, k) <= Abs(s.targetPos - s.originPos) + s.uniformSpeed
  {
    hide Offset, Phases, Planned;
    var t0, t1 := PlannedPhases(cfg, s);
    var distance := Abs(s.targetPos - s.originPos);
    PhaseEnds(cfg, s, t0, t1, distance);
    if k < s.pointAccelEnd {
      RampSample(cfg, s, k, t0, t1, distance);
    } else if k <= s.pointDecelStart {
      UniformSample(cfg, s, k, t0, t1, distance);
    } else {
      BoundariesOrdered(cfg, s);
      TailSample(cfg, s, k, t0, t1, distance);
    }
  }

  // ----- bounds on steps -----

  lemma RampStep(cfg: Settings, s: Segment, k: nat, t0: real, t1: real, distance: real)
    requires Phases(cfg, s, t0, t1, distance) && k + 1 < s.pointAccelEnd
    ensures 0.0 <= Offset(cfg, s, k + 1) - Offset(cfg, s, k) <= 1.5 * s.uniformSpeed
  {
    hide Times, Half;
    HalfStepWithin(cfg.acceleration, k as real, t0);
    assert (k + 1) as real == k as real + 1.0;
  }

  lemma RampEnds(cfg: Settings, s: Segment, k: nat, t0: real, t1: real, distance: real)
    requires Phases(cfg, s, t0, t1, distance) && k + 1 == s.pointAccelEnd
    ensures 0.0 <= Offset(cfg, s, k + 1) - Offset(cfg, s, k) <= 1.5 * s.uniformSpeed
  {
    hide Times, Half;
    HalfRestWithin(cfg.acceleration, t0, t0 - k as real);
    assert t0 - (t0 - k as real) == k as real;
    TimesAdd(s.uniformSpeed, 0.0, 0.0);
  }

  lemma UniformStep(cfg: Settings, s: Segment, k: nat, t0: real, t1: real, distance: real)
    requires Phases(cfg, s, t0, t1, distance) && s.pointAccelEnd <= k < s.pointDecelStart
    ensures Offset(cfg, s, k + 1) - Offset(cfg, s, k) == s.uniformSpeed >= 0.0
  {
    hide Times, Half;
    var i := (k - s.pointAccelEnd) as real;
    assert (k + 1 - s.pointAccelEnd) as real == i + 1.0;
    TimesAdd(s.uniformSpeed, i, 1.0);
  }

  /** The step out of the uniform phase. */
  lemma UniformEnds(cfg: Settings, s: Segment, t0: real, t1: real, distance: real)
    requires Phases(cfg, s, t0, t1, distance)
    ensures Offset(cfg, s, s.pointDecelStart + 1) - Offset(cfg, s, s.pointDecelStart)
         == 0.5 * cfg.deceleration
              - Times(s.uniformSpeed, (s.pointDecelStart - s.pointAccelEnd) as real - (t1 - t0))
    ensures Abs(Times(s.uniformSpeed, (s.pointDecelStart - s.pointAccelEnd) as real - (t1 - t0))) <= s.uniformSpeed
  {
    hide Times, Half;
    var i, m := (s.pointDecelStart - s.pointAccelEnd) as real, t1 - t0;
    TimesAdd(s.uniformSpeed, i, m);
    HalfAsTimes(cfg.deceleration, 1.0);
    TimesWithin(s.uniformSpeed, i - m, -1.0, 1.0);
  }

  lemma TailStep(cfg: Settings, s: Segment, k: nat, t0: real, t1: real, distance: real)
    requires Phases(cfg, s, t0, t1, distance) && s.pointDecelStart < k && k + 1 < s.pointsNum
    ensures 0.0 <= Offset(cfg, s, k + 1) - Offset(cfg, s, k) <= 1.5 * s.uniformSpeed
  {
    hide Times, Half;
    var j := (k - s.pointDecelStart) as real;
    HalfStepWithin(cfg.deceleration, j, s.pointsNum as real - t1);
    assert (k + 1 - s.pointDecelStart) as real == j + 1.0;
  }

  /** Successive samples of one segment. Away from the start of the third phase the position never
      steps back and moves at most one and a half uniform steps; there, the step is half the
      deceleration, give or take one uniform step. */
  lemma StepWithin(cfg: Settings, s: Segment, k: nat)
    requires Planned(cfg, s) && k + 1 < s.pointsNum
    ensures k != s.pointDecelStart ==>
              0.0 <= Offset(cfg, s, k + 1) - Offset(cfg, s, k) <= 1.5 * s.uniformSpeed
    ensures k == s.pointDecelStart ==>
              Abs(Offset(cfg, s, k + 1) - Offset(cfg, s, k) - 0.5 * cfg.deceleration) <= s.uniformSpeed
  {
    hide Offset, Phases, Planned, Times;
    var t0, t1 := PlannedPhases(cfg, s);
    var distance := Abs(s.targetPos - s.originPos);
    BoundariesOrdered(cfg, s);
    if k + 1 < s.pointAccelEnd {
      RampStep(cfg, s, k, t0, t1, distance);
    } else if k + 1 == s.pointAccelEnd {
      RampEnds(cfg, s, k, t0, t1, distance);
    } else if k < s.pointDecelStart {
      UniformStep(cfg, s, k, t0, t1, distance);
    } else if k == s.pointDecelStart {
      UniformEnds(cfg, s, t0, t1, distance);
    } else {
      TailStep(cfg, s, k, t0, t1, distance);
    }
  }

  // ----- from one segment to the next -----

  /** What is left of the distance when z uniform steps and half the last x are to come. */
  lemma RestWithin(decel: real, v: real, z: real, x: real)
    requires v == Times(decel, x) >= 0.0 && -0.25 <= z + 0.5 * x <= 1.5
    ensures -0.25 * v <= Times(v, z) + Half(decel, x) <= 1.5 * v
  {
    hide Times, Half;
    TimesWithin(v, z + 0.5 * x, -0.25, 1.5);
    TimesAdd(v, z, 0.5 * x);
    HalfAsTimes(decel, x);
    TimesHalved(v, x);
  }

  lemma TimesHalved(v: real, x: real)
    ensures Times(v, 0.5 * x) == 0.5 * Times(v, x)
  {
  }

  lemma RampJoin(cfg: Settings, s: Segment, k: nat, t0: real, t1: real, distance: real)
    requires Phases(cfg, s, t0, t1, distance) && k + 1 == Samples(s) && k < s.pointAccelEnd
    ensures 0.0 <= distance - Offset(cfg, s, k) <= 1.5 * s.uniformSpeed
  {
    hide Times, Half;
    var v, gap, x := s.uniformSpeed, t0 - k as real, s.pointsNum as real - t1;
    PhaseEnds(cfg, s, t0, t1, distance);
    HalfMonotone(cfg.acceleration, k as real, t0);
    HalfGap(cfg.acceleration, t0, gap);
    HalfNonNegative(cfg.acceleration, gap);
    assert t0 - gap == k as real;
    TimesAdd(v, gap, t1 - t0);
    RestWithin(cfg.deceleration, v, gap + (t1 - t0), x);
  }

  lemma UniformJoin(cfg: Settings, s: Segment, k: nat, t0: real, t1: real, distance: real)
    requires Phases(cfg, s, t0, t1, distance) && k + 1 == Samples(s)
    requires s.pointAccelEnd <= k <= s.pointDecelStart
    ensures -0.25 * s.uniformSpeed <= distance - Offset(cfg, s, k) <= 1.5 * s.uniformSpeed
  {
    hide Times, Half;
    var v, i, m := s.uniformSpeed, (k - s.pointAccelEnd) as real, t1 - t0;
    TimesAdd(v, m, i);
    RestWithin(cfg.deceleration, v, m - i, s.pointsNum as real - t1);
  }

  lemma TailJoin(cfg: Settings, s: Segment, k: nat, t0: real, t1: real, distance: real)
    requires Phases(cfg, s, t0, t1, distance) && k + 1 == s.pointsNum && s.pointDecelStart < k
    ensures 0.0 <= distance - Offset(cfg, s, k) <= 1.5 * s.uniformSpeed
  {
    hide Times, Half;
    var x, j := s.pointsNum as real - t1, (k - s.pointDecelStart) as real;
    HalfRestWithin(cfg.deceleration, x, x - j);
    assert x - (x - j) == j;
  }

  /** The gap between the last sample of a segment and the nominal target, which is where the next
      segment starts: between a quarter of a uniform step back and one and a half forward. */
  lemma JoinWithin(cfg: Settings, s: Segment, k: nat)
    requires Planned(cfg, s) && k + 1 == Samples(s)
    ensures -0.25 * s.uniformSpeed
         <= Abs(s.targetPos - s.originPos) - Offset(cfg, s, k)
         <= 1.5 * s.uniformSpeed
  {
    hide Offset, Phases, Planned;
    var t0, t1 := PlannedPhases(cfg, s);
    var distance := Abs(s.targetPos - s.originPos);
    BoundariesOrdered(cfg, s);
    if k < s.pointAccelEnd {
      RampJoin(cfg, s, k, t0, t1, distance);
    } else if k <= s.pointDecelStart {
      UniformJoin(cfg, s, k, t0, t1, distance);
    } else {
      TailJoin(cfg, s, k, t0, t1, distance);
    }
  }

  /** A segment need not start exactly at its origin: with no ramp point at all, the first sample is
      already the end of the ramp, at most a quarter of a uniform step away. */
  lemma FirstWithin(cfg: Settings, s: Segment)
    requires Planned(cfg, s)
    ensures 0.0 <= Offset(cfg, s, 0) <= 0.25 * s.uniformSpeed
  {
    hide Times, Half, Planned;
    var t0, t1 := PlannedPhases(cfg, s);
    HalfAsTimes(cfg.acceleration, t0);
    TimesAdd(s.uniformSpeed, 0.0, 0.0);
    if s.pointAccelEnd == 0 {
      TimesWithin(s.uniformSpeed, t0, 0.0, 0.5);
    }
  }

  // ----- the profile the samples follow -----

  /** The first phase: it starts at the origin with half the acceleration, each step is one acceleration
      longer than the one before, and none is longer than the speed at its end. */
  lemma FirstPhaseSpeedsUp(cfg: Settings, s: Segment, k: nat)
    ensures s.pointAccelEnd > 0 ==> Offset(cfg, s, 0) == 0.0
    ensures s.pointAccelEnd > 1 ==> Offset(cfg, s, 1) == 0.5 * cfg.acceleration
    ensures k + 2 < s.pointAccelEnd ==>
              Offset(cfg, s, k + 2) - Offset(cfg, s, k + 1)
              == Offset(cfg, s, k + 1) - Offset(cfg, s, k) + cfg.acceleration
    ensures k + 1 < s.pointAccelEnd && cfg.acceleration >= 0.0 ==>
              0.0 <= Offset(cfg, s, k + 1) - Offset(cfg, s, k) <= Times(cfg.acceleration, (k + 1) as real)
  {
    hide Times, Half;
    var c, x := cfg.acceleration, k as real;
    HalfAsTimes(c, 0.0);
    HalfStep(c, x);
    HalfStep(c, x + 1.0);
    TimesAdd(c, x, 1.0);
    TimesAdd(c, x, 0.0);
    if c >= 0.0 {
      TimesNonNegative(c, x);
    }
  }

  /** The distance a trapezoid has covered at time t: the area under its speed curve up to there. */
  function Covered(accel: real, decel: real, t0: real, t1: real, t: real): real {
    var v := Times(accel, t0);
    if t <= t0 then Half(accel, t)
    else if t <= t1 then Half(accel, t0) + Times(v, t - t0)
    else Half(accel, t0) + Times(v, t - t0) - Half(decel, t - t1)
  }

  /** That distance ends with the whole area. */
  lemma CoveredIsArea(accel: real, decel: real, points: real, t0: real, t1: real)
    requires Trapezoid(accel, decel, points, t0, t1)
    ensures Covered(accel, decel, t0, t1, points) == Area(accel, decel, points, t0, t1)
  {
    hide Times, Half;
    var v, w := Times(accel, t0), points - t1;
    TimesAdd(v, t1 - t0, w);
    assert t1 - t0 + w == points - t0;
    HalfAsTimes(decel, w);
    HalfAsTimes(decel, points - t1);
    HalfAsTimes(accel, t0);
    TimesAdd(v, points - t0, 0.0);
    TimesAdd(v, 0.0, 0.0);
    HalfAsTimes(decel, 0.0);
  }

  /** Up to the start of the third phase the samples follow the trapezoid the planner found: exactly on the
      ramp, and within three quarters of a uniform step, for the rounding of the corners, behind it. */
  lemma FollowsTrapezoid(cfg: Settings, s: Segment, t0: real, t1: real, k: nat)
    requires PlannedWith(cfg, s, t0, t1) && k <= s.pointDecelStart
    ensures k < s.pointAccelEnd ==>
              Offset(cfg, s, k) == Covered(cfg.acceleration, cfg.deceleration, t0, t1, k as real)
    ensures Abs(Offset(cfg, s, k) - Covered(cfg.acceleration, cfg.deceleration, t0, t1, k as real))
            <= 0.75 * s.uniformSpeed
  {
    PhasesOf(cfg, s, t0, t1);
    hide PlannedWith, Times, Half, ToPoint;
    if k < s.pointAccelEnd {
      TimesNonNegative(cfg.acceleration, t0);
    } else if k as real <= t0 {
      FollowsRampEnd(cfg, s, t0, t1, k);
    } else {
      FollowsUniform(cfg, s, t0, t1, k);
    }
  }

  lemma FollowsRampEnd(cfg: Settings, s: Segment, t0: real, t1: real, k: nat)
    requires Phases(cfg, s, t0, t1, Abs(s.targetPos - s.originPos))
    requires s.pointAccelEnd <= k <= s.pointDecelStart && k as real <= t0
    ensures Abs(Offset(cfg, s, k) - Covered(cfg.acceleration, cfg.deceleration, t0, t1, k as real))
            <= 0.75 * s.uniformSpeed
  {
    hide Times, Half;
    var v, x, m := s.uniformSpeed, k as real, s.pointAccelEnd as real;
    RampGap(cfg.acceleration, v, t0, t0 - x);
    assert t0 - (t0 - x) == x;
    TimesAdd(v, x - m, t0 - x);
    assert x - m + (t0 - x) == t0 - m;
    TimesWithin(v, t0 - m, -0.5, 0.5);
    TimesNonNegative(v, x - m);
    TimesNonNegative(v, t0 - x);
  }

  lemma FollowsUniform(cfg: Settings, s: Segment, t0: real, t1: real, k: nat)
    requires Phases(cfg, s, t0, t1, Abs(s.targetPos - s.originPos))
    requires s.pointAccelEnd <= k <= s.pointDecelStart && t0 < k as real
    ensures Abs(Offset(cfg, s, k) - Covered(cfg.acceleration, cfg.deceleration, t0, t1, k as real))
            <= 0.75 * s.uniformSpeed
  {
    hide Times, Half;
    var v, x, m := s.uniformSpeed, k as real, s.pointAccelEnd as real;
    TimesAdd(v, x - m, x - t0);
    TimesWithin(v, t0 - m, -0.5, 0.5);
    assert x - m - (x - t0) == t0 - m;
    if x > t1 {
      HalfSmall(cfg.deceleration, v, x - t1, s.pointsNum as real - t1);
    }
  }

  /** How the other phases go: the uniform one starts with the way the ramp covers and goes on by the uniform
      speed in each step; the third starts half a deceleration behind the way covered when it is due, and its
      first step is one and a half decelerations. */
  lemma PhasesGoOn(cfg: Settings, s: Segment, t0: real, t1: real, k: nat)
    requires PlannedWith(cfg, s, t0, t1)
    ensures s.pointAccelEnd <= s.pointDecelStart
    ensures Offset(cfg, s, s.pointAccelEnd) == Covered(cfg.acceleration, cfg.deceleration, t0, t1, t0)
    ensures s.pointAccelEnd <= k < s.pointDecelStart ==>
              Offset(cfg, s, k + 1) - Offset(cfg, s, k) == s.uniformSpeed == Times(cfg.acceleration, t0)
    ensures Offset(cfg, s, s.pointDecelStart + 1)
         == Covered(cfg.acceleration, cfg.deceleration, t0, t1, t1) + 0.5 * cfg.deceleration
    ensures Offset(cfg, s, s.pointDecelStart + 2) - Offset(cfg, s, s.pointDecelStart + 1) == 1.5 * cfg.deceleration
  {
    PhasesOf(cfg, s, t0, t1);
    hide PlannedWith, Times, Half, ToPoint;
    var d := cfg.deceleration;
    if s.pointAccelEnd <= k < s.pointDecelStart {
      UniformStep(cfg, s, k, t0, t1, Abs(s.targetPos - s.originPos));
    }
    HalfAsTimes(d, 1.0);
    HalfStep(d, 1.0);
    TimesAdd(d, 1.0, 0.0);
    TimesAdd(s.uniformSpeed, 0.0, 0.0);
    TimesAdd(s.uniformSpeed, t1 - t0, 0.0);
    HalfAsTimes(d, 0.0);
  }

  /** A little before the end of the ramp. */
  lemma RampGap(a: real, v: real, t0: real, gap: real)
    requires a > 0.0 && v == Times(a, t0) && 0.0 <= gap <= t0
    ensures 0.5 * Times(v, gap) <= Half(a, t0) - Half(a, t0 - gap) <= Times(v, gap)
  {
    hide Times, Half;
    HalfGap(a, t0, gap);
    HalfNonNegative(a, gap);
    HalfAsTimes(a, gap);
    TimesMonotone(a, gap, t0);
    TimesRearrange(Times(a, gap), gap, 0.0);
    TimesRearrange(v, gap, 0.0);
    TimesMonotone(gap, Times(a, gap), v);
  }

  /** A little after the start of the last phase. */
  lemma HalfSmall(d: real, v: real, x: real, w: real)
    requires d > 0.0 && v == Times(d, w) && 0.0 <= x <= 0.5 && x <= w
    ensures 0.0 <= Half(d, x) <= 0.25 * v
  {
    hide Times, Half;
    HalfNonNegative(d, x);
    HalfAsTimes(d, x);
    TimesNonNegative(d, x);
    TimesMonotone(d, x, w);
    TimesWithin(Times(d, x), x, 0.0, 0.5);
  }

  // ----- what does not hold -----

  /** The step out of the uniform phase goes backwards exactly when the rounding of the two corner
      times makes the uniform phase long by more than half the deceleration is worth. */
  lemma StepsBackIff(cfg: Settings, s: Segment, t0: real, t1: real)
    requires PlannedWith(cfg, s, t0, t1) && s.pointDecelStart + 1 < s.pointsNum
    ensures Offset(cfg, s, s.pointDecelStart + 1) < Offset(cfg, s, s.pointDecelStart) <==>
              Times(s.uniformSpeed, (s.pointDecelStart - s.pointAccelEnd) as real - (t1 - t0))
                > 0.5 * cfg.deceleration
  {
    hide Offset, Phases, Times, Half, Fits;
    PhasesOf(cfg, s, t0, t1);
    UniformEnds(cfg, s, t0, t1, Abs(s.targetPos - s.originPos));
  }

  /** The third phase is meant to slow down. Its steps never get shorter: each is one deceleration
      longer than the one before it. */
  lemma ThirdPhaseSpeedsUp(cfg: Settings, s: Segment, k: nat)
    requires s.pointAccelEnd <= s.pointDecelStart < k
    ensures Offset(cfg, s, k + 2) - Offset(cfg, s, k + 1)
         == Offset(cfg, s, k + 1) - Offset(cfg, s, k) + cfg.deceleration
  {
    hide Times, Half;
    var j, c := (k - s.pointDecelStart) as real, cfg.deceleration;
    assert (k + 1 - s.pointDecelStart) as real == j + 1.0;
    assert (k + 2 - s.pointDecelStart) as real == j + 1.0 + 1.0;
    HalfStep(c, j);
    HalfStep(c, j + 1.0);
    TimesAdd(c, j, 1.0);
  }

  /** No step of the third phase is longer than the one before it. */
  ghost predicate SlowsDown(cfg: Settings, s: Segment) {
    forall k: nat :: s.pointDecelStart < k && k + 2 < s.pointsNum ==>
      Offset(cfg, s, k + 2) - Offset(cfg, s, k + 1) <= Offset(cfg, s, k + 1) - Offset(cfg, s, k)
  }

  /** A planned segment slows down exactly when its third phase is too short to show two steps. */
  lemma SlowsDownIff(cfg: Settings, s: Segment)
    requires Planned(cfg, s)
    ensures SlowsDown(cfg, s) <==> s.pointsNum <= s.pointDecelStart + 3
  {
    hide Offset, Planned;
    BoundariesOrdered(cfg, s);
    if s.pointsNum > s.pointDecelStart + 3 {
      var k := s.pointDecelStart + 1;
      ThirdPhaseSpeedsUp(cfg, s, k);
      assert Offset(cfg, s, k + 2) - Offset(cfg, s, k + 1) > Offset(cfg, s, k + 1) - Offset(cfg, s, k);
    }
  }

  /** Every sample keeps to the distance. */
  predicate StaysInside(cfg: Settings, s: Segment) {
    forall k: nat :: k < Samples(s) ==> Offset(cfg, s, k) <= Abs(s.targetPos - s.originPos)
  }

  /** A segment whose planning was refused keeps its cleared fields. Its samples depend on neither the
      distance nor the speed limit: they start at the origin and accelerate towards the side of the target to
      the end. They stay within the distance exactly if the last one does. */
  lemma UnplannedRunsAway(cfg: Settings, s: Segment, sqrt: real -> real)
    requires cfg.acceleration > 0.0 && cfg.deceleration > 0.0 && Plan(cfg, s, sqrt).0 != 0
    requires s.accelPos == s.decelPos == s.uniformSpeed == 0.0 && s.pointAccelEnd == s.pointDecelStart == 0
    ensures var p := Plan(cfg, s, sqrt).1;
      && (forall k: nat :: Offset(cfg, p, k) == Half(cfg.deceleration, k as real))
      && (forall k: nat :: Position(cfg, p, k) ==
            if s.targetPos < s.originPos then s.originPos - Half(cfg.deceleration, k as real)
            else s.originPos + Half(cfg.deceleration, k as real))
      && (StaysInside(cfg, p) <==>
          Half(cfg.deceleration, (Samples(s) - 1) as real) <= Abs(s.targetPos - s.originPos))
  {
    hide Times, Half;
    var p, last := Plan(cfg, s, sqrt).1, Samples(s) - 1;
    HalfAsTimes(cfg.deceleration, 0.0);
    TimesAdd(0.0, 0.0, 0.0);
    WhatPlanStores(cfg, s, sqrt);
    hide Plan;
    assert Offset(cfg, p, last) == Half(cfg.deceleration, last as real);
    if Half(cfg.deceleration, last as real) <= Abs(s.targetPos - s.originPos) {
      forall k: nat | k < Samples(p)
        ensures Offset(cfg, p, k) <= Abs(p.targetPos - p.originPos)
      {
        HalfMonotone(cfg.deceleration, k as real, last as real);
      }
    }
  }

  // ----- inputs on the failing side -----

  /** A segment as the loader leaves it to the planner. */
  function Fresh(points: nat, origin: real, target: real): Segment {
    EMPTY_SEGMENT.(pointsNum := points, originPos := origin, targetPos := target)
  }

  /** What the planner makes of an input for which a fitting trapezoid is at hand. */
  lemma PlannedAs(cfg: Settings, s: Segment, sqrt: real -> real, t0: real, t1: real)
    requires IsSqrt(sqrt) && cfg.acceleration > 0.0 && cfg.deceleration > 0.0
    requires FitsSegment(cfg, s, t0, t1)
    ensures Plan(cfg, s, sqrt).0 == if Times(cfg.acceleration, t0) <= cfg.maxSpeed then 0 else -2
    ensures Plan(cfg, s, sqrt).0 == 0 ==> PlannedWith(cfg, Plan(cfg, s, sqrt).1, t0, t1)
    ensures var p := Plan(cfg, s, sqrt).1;
      p.pointsNum == s.pointsNum && p.originPos == s.originPos && p.targetPos == s.targetPos
  {
    hide Times, Half, Fits;
    FitsSegmentIff(cfg, s, sqrt, t0, t1);
    hide T0, T1, Solvable, ToPoint;
  }

  /** 10 points from 361.76 (position 36176 at scale 100) to 0, with corners at 1.4 and 6.6 that are rounded
      to 1 and 7: the uniform phase is counted 6 long instead of 5.2, and the 8th sample goes back from
      318.92 to 287.84. */
  lemma StepBackHappens(sqrt: real -> real)
    requires IsSqrt(sqrt)
    ensures var cfg := Settings(false, 100, 0, 34.0, 14.0, 48.0);
      var p := Plan(cfg, Fresh(10, 361.76, 0.0), sqrt);
      && p.0 == 0 && p.1.pointDecelStart == 7 && p.1.pointsNum == 10
      && Offset(cfg, p.1, 7) == 318.92 && Offset(cfg, p.1, 8) == 287.84
  {
    var cfg, s := Settings(false, 100, 0, 34.0, 14.0, 48.0), Fresh(10, 361.76, 0.0);
    Corners(34.0, 14.0, 10.0, 361.76, 1.4, 6.6);
    assert FitsSegment(cfg, s, 1.4, 6.6);
    PlannedAs(cfg, s, sqrt, 1.4, 6.6);
    hide Plan, FitsSegment;
  }

  /** 12 points over a distance of 32 at rates of 1: the third phase, from 8 on, shows growing steps. */
  lemma SpeedUpHappens(sqrt: real -> real)
    requires IsSqrt(sqrt)
    ensures var cfg := Settings(false, 1, 0, 1.0, 1.0, 4.0);
      var p := Plan(cfg, Fresh(12, 0.0, 32.0), sqrt);
      p.0 == 0 && Planned(cfg, p.1) && !SlowsDown(cfg, p.1)
  {
    var cfg, s := Settings(false, 1, 0, 1.0, 1.0, 4.0), Fresh(12, 0.0, 32.0);
    Corners(1.0, 1.0, 12.0, 32.0, 4.0, 8.0);
    assert FitsSegment(cfg, s, 4.0, 8.0);
    PlannedAs(cfg, s, sqrt, 4.0, 8.0);
    hide Plan, FitsSegment, SlowsDown;
    var p := Plan(cfg, s, sqrt).1;
    assert Planned(cfg, p) && p.pointDecelStart == 8;
    SlowsDownIff(cfg, p);
  }

  /** A segment of that length, from 100 down to 68, with the speed limit 3: it is refused as too fast, and
      its 12th sample is at 39.5. */
  lemma RunAwayHappens(sqrt: real -> real)
    requires IsSqrt(sqrt)
    ensures var cfg := Settings(false, 1, 0, 1.0, 1.0, 3.0);
      var p := Plan(cfg, Fresh(12, 100.0, 68.0), sqrt);
      p.0 == -2 && Offset(cfg, p.1, 11) == 60.5 && Position(cfg, p.1, 11) == 39.5 && !StaysInside(cfg, p.1)
  {
    var cfg, s := Settings(false, 1, 0, 1.0, 1.0, 3.0), Fresh(12, 100.0, 68.0);
    Corners(1.0, 1.0, 12.0, 32.0, 4.0, 8.0);
    assert FitsSegment(cfg, s, 4.0, 8.0);
    PlannedAs(cfg, s, sqrt, 4.0, 8.0);
    assert Times(1.0, 4.0) == 4.0;
    hide Plan, FitsSegment, StaysInside, Position;
    UnplannedRunsAway(cfg, s, sqrt);
    assert Half(1.0, 11.0) == 60.5;
  }

  lemma Corners(accel: real, decel: real, points: real, distance: real, t0: real, t1: real)
    requires 0.0 <= t0 <= t1 <= points && accel * t0 == decel * (points - t1)
    requires 0.5 * accel * t0 * t0 + accel * t0 * (t1 - t0) + 0.5 * decel * (points - t1) * (points - t1) == distance
    ensures Fits(accel, decel, points, distance, t0, t1)
  {
  }
}
