/** The profile-position task: a counter that holds each requested set-point still, strobes it to the drive
    and waits until it is reached (CiA DSP 402 V2.0, section 12), while requests arrive at any time. */
module ProfilePosition {
  import opened Ds402
  import opened AxisControl
  import Drive

  /** What the server keeps of the axis, and the outputs it shares with the drive. */
  datatype Axis = Axis(status: int, target: int, velocity: int)

  datatype Outputs = Outputs(controlword: bv16, targetPosition: int, profileVelocity: int)

  datatype Inputs = Inputs(statusword: bv16, allOp: bool, position: int)

  predicate Strobes(controlword: bv16) { controlword & 0x10 != 0 }

  predicate LetThrough(i: Inputs) { StartAnswer(i.statusword) == 1 }

  predicate Works(i: Inputs) { LetThrough(i) && i.allOp }

  /** In terms of the profile: the drive shows that its operation is enabled, and the bus is operational. */
  lemma WorksIff(i: Inputs)
    ensures Works(i) <==> Shows(OperationEnabled, i.statusword) && i.allOp
  {
    LetsThroughIff(i.statusword, 0);
  }

  function NextAxis(a: Axis, i: Inputs): Axis {
    if !Works(i) then a
    else if a.status == 0 then a.(target := i.position, status := if a.velocity != 0 then 1 else 0)
    else if 0 < a.status < 30 then a.(status := a.status + 1)
    else if a.status == 30 && IsTargetReached(i.statusword) then a.(status := 1)
    else a
  }

  function NextOutputs(a: Axis, o: Outputs, i: Inputs): Outputs {
    var started := o.(controlword := StartControl(i.statusword, o.controlword));
    if !Works(i) then started
    else if a.status == 0 then Outputs(0xF, i.position, a.velocity)
    else if 0 < a.status < 20 then started.(targetPosition := a.target, profileVelocity := a.velocity)
    else if 20 <= a.status < 30 then started.(controlword := NewSetPoint(o.controlword))
    else if a.status == 30 then started.(controlword := 0xF)
    else started
  }

  // ----- runs -----

  datatype Event =
    | Cycle(i: Inputs)
    | SetTarget(value: int)
    | SetVelocity(value: int)

  /** The axis and its outputs with what happened so far: the request in force when the counter last left
      its hold phase, and how often the drive was strobed, a target was reached, the start sequence
      intervened. */
  datatype State = State(axis: Axis, outputs: Outputs, chosen: int, strobed: nat, reached: nat, interrupted: nat)

  function Count(b: bool): nat { if b then 1 else 0 }

  function Step(s: State, e: Event): State {
    match e
    case SetTarget(v) => s.(axis := s.axis.(target := v))
    case SetVelocity(v) => s.(axis := s.axis.(velocity := v))
    case Cycle(i) =>
      var o := NextOutputs(s.axis, s.outputs, i);
      State(NextAxis(s.axis, i), o,
            if Works(i) && s.axis.status == 19 then s.axis.target else s.chosen,
            s.strobed + Count(Strobes(o.controlword) && !Strobes(s.outputs.controlword)),
            s.reached + Count(Works(i) && s.axis.status == 30 && IsTargetReached(i.statusword)),
            s.interrupted + Count(!LetThrough(i)))
  }

  function Run(s: State, es: seq<Event>): State
    decreases |es|
  {
    if es == [] then s else Run(Step(s, es[0]), es[1..])
  }

  /** A cleared axis in front of outputs that do not strobe. */
  predicate Clear(s: State) {
    s.axis.status == 0 && !Strobes(s.outputs.controlword) && s.strobed == s.reached == s.interrupted == 0
  }

  /** Whether the strobe that belongs to the current set-point has gone out and has not been cut short. */
  predicate Pending(s: State) {
    s.axis.status > 20 && (s.axis.status == 30 || Strobes(s.outputs.controlword))
  }

  predicate Inv(s: State) {
    && 0 <= s.axis.status <= 30
    && (Strobes(s.outputs.controlword) ==> 21 <= s.axis.status)
    && (20 <= s.axis.status ==> s.outputs.targetPosition == s.chosen)
    && s.reached + Count(s.axis.status > 20) <= s.strobed <= s.reached + Count(Pending(s)) + s.interrupted
  }

  lemma ControlFacts(statusword: bv16, controlword: bv16)
    ensures Strobes(NewSetPoint(controlword)) && !Strobes(0xF)
    ensures !Strobes(controlword) ==> !Strobes(StartControl(statusword, controlword))
    ensures StartAnswer(statusword) == 1 ==> StartControl(statusword, controlword) == controlword
  {
    LetsThroughIff(statusword, controlword);
  }

  lemma StepKeepsInv(s: State, e: Event)
    requires Inv(s)
    ensures Inv(Step(s, e))
    ensures e.Cycle? && 20 <= s.axis.status ==>
              Step(s, e).outputs.targetPosition == s.outputs.targetPosition
  {
    if e.Cycle? {
      ControlFacts(e.i.statusword, s.outputs.controlword);
    }
    hide Strobes, NewSetPoint, StartControl, StartAnswer, IsTargetReached;
  }

  /** The handshake, over every run from a clear start and any mix of cycles and requests. The counter
      stays in range; the drive is strobed only while the counter is past 20; from then on the position
      that stands in the process data is the request that was in force when the counter left 19, and no
      cycle changes it; and strobes, reached targets and interventions balance. */
  lemma {:induction false} Handshake(s: State, es: seq<Event>)
    requires Clear(s) || Inv(s)
    ensures Inv(Run(s, es))
    decreases |es|
  {
    if es != [] {
      StepKeepsInv(s, es[0]);
      Handshake(Step(s, es[0]), es[1..]);
    }
  }

  /** While the start sequence never intervenes, every set-point costs exactly one strobe: a new one is
      raised only after the drive reported the last one reached. */
  lemma {:induction false} OneStrobePerSetPoint(s: State, es: seq<Event>)
    requires Clear(s)
    requires forall j :: 0 <= j < |es| && es[j].Cycle? ==> LetThrough(es[j].i)
    ensures var t := Run(s, es); t.strobed == t.reached + Count(t.axis.status > 20)
  {
    Handshake(s, es);
    NoInterruption(s, es);
  }

  lemma {:induction false} NoInterruption(s: State, es: seq<Event>)
    requires forall j :: 0 <= j < |es| && es[j].Cycle? ==> LetThrough(es[j].i)
    ensures Run(s, es).interrupted == s.interrupted
    decreases |es|
  {
    hide LetThrough, NextAxis, NextOutputs;
    if es != [] {
      NoInterruption(Step(s, es[0]), es[1..]);
    }
  }

  // ----- before the first set-point -----

  /** While no velocity is asked for, the axis stands: in every run of cycles and target requests the target
      that goes out is the position the drive reported in the last cycle that worked, so that it does not
      move, and no target that is asked for gets there. */
  lemma {:induction false} Standing(s: State, es: seq<Event>, k: nat)
    requires s.axis.status == 0 && s.axis.velocity == 0 && k <= |es|
    requires forall j :: 0 <= j < |es| ==> !es[j].SetVelocity?
    requires k > 0 ==> es[k - 1].Cycle? && Works(es[k - 1].i)
    requires forall j :: k <= j < |es| && es[j].Cycle? ==> !Works(es[j].i)
    ensures var t := Run(s, es);
      && t.axis.status == 0 && t.axis.velocity == 0
      && t.outputs.targetPosition == (if k == 0 then s.outputs.targetPosition else es[k - 1].i.position)
      && t.outputs.profileVelocity == (if k == 0 then s.outputs.profileVelocity else 0)
    decreases |es|
  {
    hide Works, IsTargetReached, NewSetPoint, StartControl, LetThrough, Strobes;
    if es != [] {
      assert forall j :: 0 <= j < |es[1..]| ==> es[1..][j] == es[j + 1];
      if k > 0 {
        Standing(Step(s, es[0]), es[1..], k - 1);
      } else {
        Standing(Step(s, es[0]), es[1..], 0);
      }
    }
  }

  /** Once a velocity is asked for, the first cycle that works starts the count: the target is the position of
      that cycle, for the drive and for the server, the velocity goes out, and operation stays enabled. */
  lemma VelocityStarts(s: State, v: int, idle: seq<Event>, i: Inputs)
    requires s.axis.status == 0 && v != 0
    requires forall j :: 0 <= j < |idle| ==> idle[j].Cycle? && !Works(idle[j].i)
    requires Works(i)
    ensures var t := Step(Run(Step(s, SetVelocity(v)), idle), Cycle(i));
      && t.axis == Axis(1, i.position, v)
      && t.outputs.targetPosition == i.position && t.outputs.profileVelocity == v
      && Drive.IsEnableOperation(t.outputs.controlword) && !Strobes(t.outputs.controlword)
  {
    Idle(Step(s, SetVelocity(v)), idle);
    hide Run, Works;
  }

  /** Cycles that do not work change neither the counter nor what goes out, apart from the controlword of the
      start sequence. */
  lemma {:induction false} Idle(s: State, es: seq<Event>)
    requires forall j :: 0 <= j < |es| ==> es[j].Cycle? && !Works(es[j].i)
    ensures var t := Run(s, es);
      && t.axis == s.axis && t.chosen == s.chosen && t.reached == s.reached
      && t.outputs.targetPosition == s.outputs.targetPosition
      && t.outputs.profileVelocity == s.outputs.profileVelocity
      && ((forall j :: 0 <= j < |es| ==> LetThrough(es[j].i)) ==> t.outputs == s.outputs)
    decreases |es|
  {
    hide Works, IsTargetReached, NewSetPoint, StartControl, LetThrough, Strobes;
    if es != [] {
      assert forall j :: 0 <= j < |es[1..]| ==> es[1..][j] == es[j + 1];
      LetsThroughIff(es[0].i.statusword, s.outputs.controlword);
      Untouched(s.outputs, es[0].i);
      Idle(Step(s, es[0]), es[1..]);
    }
  }

  lemma Untouched(o: Outputs, i: Inputs)
    ensures LetThrough(i) ==> StartControl(i.statusword, o.controlword) == o.controlword
  {
    LetsThroughIff(i.statusword, o.controlword);
  }

  /** Once the controlword enables operation, a cycle that is let through keeps it so, strobe or not. */
  lemma KeepsEnabled(s: State, i: Inputs)
    requires LetThrough(i) && Drive.IsEnableOperation(s.outputs.controlword)
    ensures Drive.IsEnableOperation(Step(s, Cycle(i)).outputs.controlword)
  {
    Untouched(s.outputs, i);
    StrobeKeepsEnabled(s.outputs.controlword);
    hide Drive.IsEnableOperation, NewSetPoint, StartControl, LetThrough, IsTargetReached, Strobes;
    assert Drive.IsEnableOperation(0xF) by { PlainEnables(); }
  }

  lemma StrobeKeepsEnabled(c: bv16)
    ensures Drive.IsEnableOperation(c) ==> Drive.IsEnableOperation(NewSetPoint(c))
  {
  }

  lemma PlainEnables()
    ensures Drive.IsEnableOperation(0xF) && !Strobes(0xF)
  {
  }

  // ----- the timing of one set-point -----

  /** Cycles that work, with no request in between, only count. */
  lemma {:induction false} Counting(s: State, es: seq<Event>)
    requires 1 <= s.axis.status && s.axis.status + |es| <= 30
    requires forall j :: 0 <= j < |es| ==> es[j].Cycle? && Works(es[j].i)
    ensures var t := Run(s, es);
      && t.axis == s.axis.(status := s.axis.status + |es|)
      && (Strobes(t.outputs.controlword) <==>
           (if es == [] || t.axis.status <= 20 then Strobes(s.outputs.controlword) else true))
      && (es != [] && s.axis.status < 20 ==> t.outputs.targetPosition == s.axis.target
                                             && t.outputs.profileVelocity == s.axis.velocity)
      && (s.axis.status >= 20 ==> t.outputs.targetPosition == s.outputs.targetPosition
                                  && t.outputs.profileVelocity == s.outputs.profileVelocity)
    decreases |es|
  {
    if es != [] {
      ControlFacts(es[0].i.statusword, s.outputs.controlword);
      hide Strobes, NewSetPoint, StartControl, StartAnswer, IsTargetReached;
      Counting(Step(s, es[0]), es[1..]);
    }
  }

  /** One set-point from request to rest: 19 working cycles put it into the process data and hold it, 10
      strobe it, and from the next on the strobe is down and the counter waits, for as long as it takes,
      for the drive to report the target. */
  lemma OneSetPoint(s: State, hold: seq<Event>, strobe: seq<Event>, wait: seq<Event>, last: Inputs)
    requires s.axis.status == 1 && !Strobes(s.outputs.controlword) && |hold| == 19 && |strobe| == 10
    requires forall e :: e in hold + strobe + wait ==> e.Cycle? && Works(e.i)
    requires forall e :: e in wait ==> !IsTargetReached(e.i.statusword)
    requires Works(last) && IsTargetReached(last.statusword)
    ensures var held := Run(s, hold);
      var strobed := Run(held, strobe);
      var waited := Run(strobed, wait);
      var done := Step(waited, Cycle(last));
      && held.axis.status == 20 && held.outputs.targetPosition == s.axis.target
      && !Strobes(held.outputs.controlword)
      && strobed.axis.status == 30 && Strobes(strobed.outputs.controlword)
      && (wait != [] ==> !Strobes(waited.outputs.controlword)) && waited.axis.status == 30
      && done.axis == s.axis && !Strobes(done.outputs.controlword)
      && done.outputs.targetPosition == s.axis.target && done.outputs.profileVelocity == s.axis.velocity
  {
    assert forall j :: 0 <= j < |hold| ==> hold[j] in hold + strobe + wait;
    assert forall j :: 0 <= j < |strobe| ==> strobe[j] in hold + strobe + wait;
    assert forall j :: 0 <= j < |wait| ==> wait[j] in hold + strobe + wait;
    Counting(s, hold);
    var held := Run(s, hold);
    Counting(held, strobe);
    var strobed := Run(held, strobe);
    Waiting(strobed, wait);
    ControlFacts(last.statusword, Run(strobed, wait).outputs.controlword);
    hide Run, Strobes, NewSetPoint, StartControl, StartAnswer, IsTargetReached;
  }

  lemma {:induction false} Waiting(s: State, es: seq<Event>)
    requires s.axis.status == 30
    requires forall j :: 0 <= j < |es| ==>
               es[j].Cycle? && Works(es[j].i) && !IsTargetReached(es[j].i.statusword)
    ensures var t := Run(s, es);
      && t.axis == s.axis && (es != [] ==> !Strobes(t.outputs.controlword))
      && t.outputs.targetPosition == s.outputs.targetPosition
      && t.outputs.profileVelocity == s.outputs.profileVelocity
    decreases |es|
  {
    if es != [] {
      ControlFacts(es[0].i.statusword, s.outputs.controlword);
      hide Strobes, NewSetPoint, StartControl, StartAnswer, IsTargetReached;
      Waiting(Step(s, es[0]), es[1..]);
    }
  }

  /** A request is lost in the next cycle, as if it had never been made, exactly if it asks for what stands
      there already, or if that cycle works and finds the axis in its first state: then the position the
      drive stands at overwrites it. In every other case it is still in force after the cycle. */
  lemma EarlyRequestIsLost(s: State, value: int, i: Inputs)
    ensures Step(Step(s, SetTarget(value)), Cycle(i)) == Step(s, Cycle(i)) <==>
              value == s.axis.target || (s.axis.status == 0 && Works(i))
    ensures !(s.axis.status == 0 && Works(i)) ==>
              Step(Step(s, SetTarget(value)), Cycle(i)).axis.target == value
  {
    var s1 := Step(s, SetTarget(value));
    if s.axis.status == 0 && Works(i) {
      SameStart(s.axis, s1.axis, s.outputs, i);
    } else {
      KeepsTarget(s.axis, i);
      KeepsTarget(s1.axis, i);
      if value == s.axis.target {
        assert s1 == s;
      }
    }
    hide NextOutputs, Works;
  }

  lemma KeepsTarget(a: Axis, i: Inputs)
    requires !(a.status == 0 && Works(i))
    ensures NextAxis(a, i).target == a.target
  {
    hide IsTargetReached, Works;
  }

  lemma SameStart(a: Axis, b: Axis, o: Outputs, i: Inputs)
    requires a.status == b.status == 0 && a.velocity == b.velocity && Works(i)
    ensures NextOutputs(a, o, i) == NextOutputs(b, o, i)
  {
  }

  /** One cycle by the counter it finds. */
  lemma ByStatus(a: Axis, o: Outputs, i: Inputs)
    ensures Works(i) <==> StartAnswer(i.statusword) == 1 && i.allOp
    ensures StartAnswer(i.statusword) == 1 ==> StartControl(i.statusword, o.controlword) == o.controlword
    ensures !Works(i) ==>
              && NextAxis(a, i) == a
              && NextOutputs(a, o, i) == o.(controlword := StartControl(i.statusword, o.controlword))
    ensures Works(i) ==>
              var a', o' := NextAxis(a, i), NextOutputs(a, o, i);
              if a.status == 0 then
                a' == Axis(if a.velocity != 0 then 1 else 0, i.position, a.velocity)
                && o' == Outputs(0xF, i.position, a.velocity)
              else if 0 < a.status < 20 then
                a' == a.(status := a.status + 1) && o' == Outputs(o.controlword, a.target, a.velocity)
              else if 20 <= a.status < 30 then
                a' == a.(status := a.status + 1) && o' == o.(controlword := NewSetPoint(o.controlword))
              else if a.status == 30 then
                a' == a.(status := if IsTargetReached(i.statusword) then 1 else 30) && o' == o.(controlword := 0xF)
              else a' == a && o' == o
  {
    Untouched(o, i);
    hide StartControl, StartAnswer, NewSetPoint, IsTargetReached;
  }

  // ----- the task itself -----

  class PpAxis {
    var status: int
    var targetPosition: int
    var profileVelocity: int
    var currentPosition: int
    var currentVelocity: int

    function View(): Axis
      reads this
    {
      Axis(status, targetPosition, profileVelocity)
    }

    constructor ()
      ensures View() == Axis(0, 0, 0)
    {
      status, targetPosition, profileVelocity, currentPosition, currentVelocity := 0, 0, 0, 0, 0;
    }

    method PpUpdateTargetPosition(pdo: ProcessImage, allOp: bool)
      modifies this, pdo`controlword, pdo`modesOfOperation, pdo`targetPosition, pdo`profileVelocity
      ensures var i := Inputs(pdo.statusword, allOp, pdo.positionActual);
        && View() == NextAxis(old(View()), i)
        && Outputs(pdo.controlword, pdo.targetPosition, pdo.profileVelocity) ==
           NextOutputs(old(View()), old(Outputs(pdo.controlword, pdo.targetPosition, pdo.profileVelocity)), i)
        && (Works(i) ==> currentPosition == pdo.positionActual && currentVelocity == pdo.velocityActual)
        && (!Works(i) ==> currentPosition == old(currentPosition) && currentVelocity == old(currentVelocity))
        && pdo.modesOfOperation ==
           (if Shows(SwitchedOn, pdo.statusword) then OP_MODE_PP else old(pdo.modesOfOperation))
    {
      hide NextAxis, NextOutputs, Works, LetThrough, StartControl, StartAnswer, SetsMode, Shows;
      hide NewSetPoint, IsTargetReached;
      SetsModeIff(pdo.statusword);
      ByStatus(View(), Outputs(pdo.controlword, pdo.targetPosition, pdo.profileVelocity),
               Inputs(pdo.statusword, allOp, pdo.positionActual));
      var controlword := pdo.controlword;
      var started := AxisStart(pdo, OP_MODE_PP);
      if started != 1 {
        return;
      }
      if allOp {
        currentVelocity := pdo.velocityActual;
        currentPosition := pdo.positionActual;
        if status == 0 {
          targetPosition := currentPosition;
          pdo.profileVelocity := profileVelocity;
          pdo.targetPosition := targetPosition;
          pdo.controlword := 0xF;
          if profileVelocity != 0 {
            status := 1;
          }
        } else if 0 < status < 20 {
          pdo.targetPosition := targetPosition;
          pdo.profileVelocity := profileVelocity;
          status := status + 1;
        } else if 20 <= status < 30 {
          pdo.controlword := NewSetPoint(controlword);
          status := status + 1;
        } else if status == 30 {
          if IsTargetReached(pdo.statusword) {
            status := 1;
          }
          pdo.controlword := 0xF;
        }
      }
    }
  }
}
