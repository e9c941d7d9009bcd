/** The sampler as a step machine over whole axis states: how it walks the table, and what the stream
    of samples is in closed form. */
module CspEngine {
  import opened Arithmetic
  import opened CspTypes
  import opened Planner
  import opened Sampling

  predicate Active(st: AxisState) { st.status == Running || st.status == PreStop }

  /** Advance the walk by one sample: point by point, segment by segment, back to segment 1 at the end
      of a cyclic table, and to a stop at the end of any other or when a stop was requested. */
  function NextPos(st: AxisState): AxisState
    requires st.currentTp < |st.tp|
  {
    var i := st.currentTp;
    var s := st.tp[i];
    if s.currentPoint + 1 < s.pointsNum then
      st.(tp := st.tp[i := s.(currentPoint := s.currentPoint + 1)])
    else
      var st1 := st.(tp := st.tp[i := s.(currentPoint := 0)], currentTp := i + 1);
      if i + 1 < st.tpNum then st1
      else if st.settings.isCyclic && st.status != PreStop then st1.(currentTp := 1)
      else st1.(status := Stop, currentTp := 0)
  }

  /** The sample the walk is at, in user units. */
  function CurrentPos(st: AxisState): real
    requires st.currentTp < |st.tp|
  {
    Position(st.settings, st.tp[st.currentTp], st.tp[st.currentTp].currentPoint)
  }

  // ----- the invariant of the walk -----

  /** A table the sampler can walk. */
  predicate Table(st: AxisState) {
    && 1 <= st.tpNum == |st.tp|
    && (st.settings.isCyclic ==> 2 <= st.tpNum)
  }

  predicate AtRest(tp: seq<Segment>) {
    forall i :: 0 <= i < |tp| ==> tp[i].currentPoint == 0
  }

  predicate Walking(st: AxisState) {
    && Table(st)
    && st.currentTp < st.tpNum
    && st.tp[st.currentTp].currentPoint < Samples(st.tp[st.currentTp])
    && forall i :: 0 <= i < st.tpNum && i != st.currentTp ==> st.tp[i].currentPoint == 0
  }

  lemma NextPosKeepsWalking(st: AxisState)
    requires Walking(st) && Active(st)
    ensures Walking(NextPos(st))
    ensures !Active(NextPos(st)) ==> NextPos(st).status == Stop && NextPos(st).currentTp == 0 && AtRest(NextPos(st).tp)
  {
  }

  // ----- positions in the table, counted in samples -----

  function Lengths(tp: seq<Segment>): (ls: seq<nat>)
    ensures |ls| == |tp| && forall i :: 0 <= i < |ls| ==> ls[i] == Samples(tp[i])
  {
    seq(|tp|, i requires 0 <= i < |tp| => Samples(tp[i]))
  }

  /** The number of samples in the first i segments. */
  function Before(ls: seq<nat>, i: nat): nat
    requires i <= |ls|
  {
    if i == 0 then 0 else Before(ls, i - 1) + ls[i - 1]
  }

  lemma {:induction false} BeforeGrows(ls: seq<nat>, i: nat, j: nat)
    requires i <= j <= |ls| && forall x :: 0 <= x < |ls| ==> ls[x] >= 1
    ensures Before(ls, i) + (j - i) <= Before(ls, j)
    decreases j
  {
    if i < j {
      BeforeGrows(ls, i, j - 1);
    }
  }

  /** How many samples of the table the walk has behind it. */
  function Progress(st: AxisState): nat
    requires Walking(st)
  {
    Before(Lengths(st.tp), st.currentTp) + st.tp[st.currentTp].currentPoint
  }

  function Total(st: AxisState): nat {
    var ls := Lengths(st.tp);
    Before(ls, |ls|)
  }

  /** The progress of a walk determines its cursors. */
  lemma ProgressIsUnique(st: AxisState, st': AxisState)
    requires Walking(st) && Walking(st') && Lengths(st.tp) == Lengths(st'.tp)
    requires Progress(st) == Progress(st')
    ensures st.currentTp == st'.currentTp
    ensures st.tp[st.currentTp].currentPoint == st'.tp[st'.currentTp].currentPoint
  {
    var ls := Lengths(st.tp);
    if st.currentTp < st'.currentTp {
      BeforeGrows(ls, st.currentTp + 1, st'.currentTp);
    } else if st'.currentTp < st.currentTp {
      BeforeGrows(ls, st'.currentTp + 1, st.currentTp);
    }
  }

  lemma ProgressBelowTotal(st: AxisState)
    requires Walking(st)
    ensures Progress(st) < Total(st)
  {
    BeforeGrows(Lengths(st.tp), st.currentTp + 1, |st.tp|);
  }

  /** One sample moves the progress by one; the sample that completes the table takes a cyclic walk back
      to the end of segment 0 and stops any other. */
  lemma NextPosProgress(st: AxisState)
    requires Walking(st) && Active(st)
    ensures Walking(NextPos(st)) && Lengths(NextPos(st).tp) == Lengths(st.tp)
    ensures NextPos(st).settings == st.settings
    ensures Progress(st) + 1 < Total(st) ==>
              NextPos(st).status == st.status && Progress(NextPos(st)) == Progress(st) + 1
    ensures Progress(st) + 1 == Total(st) ==>
              if st.settings.isCyclic && st.status == Running
              then NextPos(st).status == Running && Progress(NextPos(st)) == Before(Lengths(st.tp), 1)
              else NextPos(st).status == Stop && NextPos(st).currentTp == 0 && AtRest(NextPos(st).tp)
  {
    var ls, i := Lengths(st.tp), st.currentTp;
    NextPosKeepsWalking(st);
    SameLengths(st);
    NextCursor(st);
    BeforeGrows(ls, i + 1, st.tpNum);
    hide NextPos, Lengths, Walking;
    assert Before(ls, i + 1) == Before(ls, i) + ls[i];
  }

  /** The cursors after one sample. */
  lemma NextCursor(st: AxisState)
    requires Walking(st) && Active(st)
    ensures var i, s', st' := st.currentTp, st.tp[st.currentTp].currentPoint + 1, NextPos(st);
      && st'.settings == st.settings && |st'.tp| == |st.tp|
      && s' <= Samples(st.tp[i])
      && (s' < Samples(st.tp[i]) ==>
            st'.status == st.status && st'.currentTp == i && st'.tp[i].currentPoint == s')
      && (s' == Samples(st.tp[i]) && i + 1 < st.tpNum ==>
            st'.status == st.status && st'.currentTp == i + 1 && st'.tp[i + 1].currentPoint == 0)
      && (s' == Samples(st.tp[i]) && i + 1 == st.tpNum ==>
            if st.settings.isCyclic && st.status == Running
            then st'.status == Running && st'.currentTp == 1 && st'.tp[1].currentPoint == 0
            else st'.status == Stop && st'.currentTp == 0 && AtRest(st'.tp))
  {
  }

  lemma SameLengths(st: AxisState)
    requires Walking(st)
    ensures Lengths(NextPos(st).tp) == Lengths(st.tp)
  {
  }

  /** k samples in a row; a walk that has stopped stays where it is. */
  function Ticks(st: AxisState, k: nat): (st': AxisState)
    requires Walking(st)
    ensures Walking(st') && Lengths(st'.tp) == Lengths(st.tp) && st'.settings == st.settings
  {
    if k == 0 then st else
    var p := Ticks(st, k - 1);
    if Active(p) then NextPosProgress(p); NextPos(p) else p
  }

  // ----- the stream in closed form -----

  /** Segment 0 once, then segments 1 to the end for ever: where the k-th sample of a cyclic table is. */
  function StreamIndex(first: nat, total: nat, k: nat): nat
    requires first < total
  {
    if k < first then k else first + (k - first) % (total - first)
  }

  lemma StreamIndexNext(first: nat, total: nat, k: nat)
    requires first < total
    ensures StreamIndex(first, total, k) < total
    ensures StreamIndex(first, total, k + 1) ==
              if StreamIndex(first, total, k) + 1 == total then first
              else StreamIndex(first, total, k) + 1
  {
    if k >= first {
      ModNext(k - first, total - first);
    }
  }

  predicate FreshlyStarted(st: AxisState) {
    Table(st) && st.status == Running && st.currentTp == 0 && AtRest(st.tp)
  }

  /** The stream refinement: however long a freshly started cyclic table has been running, its cursors
      are those of the closed form (by ProgressIsUnique the progress fixes both of them). */
  lemma {:induction false} CyclicStream(st: AxisState, k: nat)
    requires FreshlyStarted(st) && st.settings.isCyclic
    ensures Before(Lengths(st.tp), 1) < Total(st)
    ensures Ticks(st, k).status == Running
    ensures Progress(Ticks(st, k)) == StreamIndex(Before(Lengths(st.tp), 1), Total(st), k)
  {
    hide NextPos, Walking, Progress, Before, StreamIndex, FreshlyStarted;
    FreshProgress(st);
    if k > 0 {
      CyclicStream(st, k - 1);
      CyclicStep(Ticks(st, k - 1), Before(Lengths(st.tp), 1), Total(st), k - 1);
    }
  }

  lemma CyclicStep(p: AxisState, first: nat, total: nat, k: nat)
    requires Walking(p) && p.status == Running && p.settings.isCyclic
    requires first == Before(Lengths(p.tp), 1) && total == Total(p) && first < total
    requires Progress(p) == StreamIndex(first, total, k)
    ensures Walking(NextPos(p)) && NextPos(p).status == Running
    ensures Progress(NextPos(p)) == StreamIndex(first, total, k + 1)
  {
    hide NextPos, Walking, Progress, Before, StreamIndex;
    NextPosProgress(p);
    ProgressBelowTotal(p);
    StreamIndexNext(first, total, k);
  }

  lemma FreshProgress(st: AxisState)
    requires FreshlyStarted(st)
    ensures Walking(st) && st.status == Running && st.tp != [] && Progress(st) == 0
    ensures st.settings.isCyclic ==> Before(Lengths(st.tp), 1) < Total(st)
    ensures st.settings.isCyclic ==> StreamIndex(Before(Lengths(st.tp), 1), Total(st), 0) == 0
  {
    BeforeGrows(Lengths(st.tp), 0, 1);
    if st.settings.isCyclic {
      BeforeGrows(Lengths(st.tp), 1, |st.tp|);
    }
  }

  /** The exact stop. A walk that is not going to wrap is active for exactly the samples left in the
      table, which go down by one each time, and then stands at the start of the table. */
  lemma {:induction false} ExactStop(st: AxisState, k: nat)
    requires Walking(st)
    requires st.status == PreStop || (st.status == Running && !st.settings.isCyclic)
    ensures Progress(st) < Total(st)
    ensures k < Total(st) - Progress(st) ==>
              Ticks(st, k).status == st.status && Progress(Ticks(st, k)) == Progress(st) + k
    ensures k >= Total(st) - Progress(st) ==>
              Ticks(st, k).status == Stop && Ticks(st, k).currentTp == 0 && AtRest(Ticks(st, k).tp)
  {
    hide NextPos, Walking, Progress, Before;
    ProgressBelowTotal(st);
    if k > 0 {
      ExactStop(st, k - 1);
      var p := Ticks(st, k - 1);
      if Active(p) {
        NextPosProgress(p);
      }
    }
  }

  // ----- what the stream looks like to the drive -----

  predicate Chained(st: AxisState) {
    && (forall i :: 0 <= i && i + 1 < |st.tp| ==> st.tp[i + 1].originPos == st.tp[i].targetPos)
    && (st.settings.isCyclic && 2 <= |st.tp| ==> st.tp[1].originPos == st.tp[|st.tp| - 1].targetPos)
  }

  ghost predicate AllPlanned(st: AxisState) {
    forall i :: 0 <= i < |st.tp| ==> Planned(st.settings, st.tp[i])
  }

  /** The longest move between two samples of a well-planned table. */
  function StepLimit(cfg: Settings): (m: real)
    ensures m >= 1.75 * cfg.maxSpeed && m >= cfg.maxSpeed + 0.5 * cfg.deceleration
  {
    var x, y := 1.75 * cfg.maxSpeed, cfg.maxSpeed + 0.5 * cfg.deceleration;
    if x < y then y else x
  }

  lemma Signed(s: Segment, dist: real, x: real, y: real)
    requires s.direction == 1 || s.direction == -1
    requires s.direction == (if s.targetPos - s.originPos < 0.0 then -1 else 1)
    requires dist == Abs(s.targetPos - s.originPos)
    ensures Abs((x * s.direction as real + s.originPos) - (y * s.direction as real + s.originPos)) == Abs(x - y)
    ensures s.targetPos == dist * s.direction as real + s.originPos
  {
  }

  lemma StepInSegment(cfg: Settings, s: Segment, k: nat)
    requires Planned(cfg, s) && k + 1 < s.pointsNum
    ensures Abs(Position(cfg, s, k + 1) - Position(cfg, s, k)) <= StepLimit(cfg)
  {
    hide Offset, Fits;
    StepWithin(cfg, s, k);
    BoundariesOrdered(cfg, s);
    Signed(s, Abs(s.targetPos - s.originPos), Offset(cfg, s, k + 1), Offset(cfg, s, k));
  }

  lemma LastInSegment(cfg: Settings, s: Segment, k: nat)
    requires Planned(cfg, s) && k + 1 == Samples(s)
    ensures Abs(s.targetPos - Position(cfg, s, k)) <= 1.5 * cfg.maxSpeed
  {
    hide Offset, Fits;
    JoinWithin(cfg, s, k);
    BoundariesOrdered(cfg, s);
    Signed(s, Abs(s.targetPos - s.originPos), Abs(s.targetPos - s.originPos), Offset(cfg, s, k));
  }

  lemma FirstInSegment(cfg: Settings, s: Segment)
    requires Planned(cfg, s)
    ensures Abs(Position(cfg, s, 0) - s.originPos) <= 0.25 * cfg.maxSpeed
  {
    hide Offset, Fits;
    FirstWithin(cfg, s);
    BoundariesOrdered(cfg, s);
    Signed(s, Abs(s.targetPos - s.originPos), Offset(cfg, s, 0), 0.0);
  }

  /** Whatever the walk does between two samples -- next point, next segment, wrap to segment 1 -- the
      commanded position moves by no more than the step limit. The last sample before a stop is within
      one and a half full-speed steps of the end of the table. */
  lemma StreamIsSmooth(st: AxisState)
    requires Walking(st) && Active(st) && AllPlanned(st) && Chained(st)
    ensures Active(NextPos(st)) ==>
              Abs(CurrentPos(NextPos(st)) - CurrentPos(st)) <= StepLimit(st.settings)
    ensures !Active(NextPos(st)) ==>
              Abs(st.tp[|st.tp| - 1].targetPos - CurrentPos(st)) <= 1.5 * st.settings.maxSpeed
  {
    hide Position, Planned;
    var i, cfg := st.currentTp, st.settings;
    var k := st.tp[i].currentPoint;
    var st' := NextPos(st);
    if k + 1 < st.tp[i].pointsNum {
      StepInSegment(cfg, st.tp[i], k);
      PositionIgnoresCursor(cfg, st.tp[i], st'.tp[i], k + 1);
    } else {
      LastInSegment(cfg, st.tp[i], k);
      if Active(st') {
        var j := st'.currentTp;
        FirstInSegment(cfg, st.tp[j]);
        PositionIgnoresCursor(cfg, st.tp[j], st'.tp[j], 0);
        assert st.tp[j].originPos == st.tp[i].targetPos;
      }
    }
  }

  lemma PositionIgnoresCursor(cfg: Settings, s: Segment, s': Segment, k: nat)
    requires s' == s.(currentPoint := s'.currentPoint)
    ensures Position(cfg, s', k) == Position(cfg, s, k)
  {
  }
}
