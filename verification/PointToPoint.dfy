/** The cyclic task of the example: it samples the cubic move call by call and, once told to stop, ends
    within a bounded number of calls. */
module PointToPoint {
  import opened Arithmetic
  import opened AxisControl
  import opened Cubic
  import opened Drive
  import opened Ds402

  const STOP_NS := 2_000_000_000

  /** Where the axis is sent, how long it may take, what is commanded while it is switched on, and the
      cycle time. */
  datatype Order = Order(target: int, time: nat, initial: int, period: nat)

  predicate Usable(g: Order) { g.time > 0 && g.period > 0 }

  /** What the task keeps between calls. */
  datatype Statics = Statics(
    c: Coefficients,
    position: int,
    next: int,
    index: nat,
    moving: bool,
    stopping: bool,
    timeout: nat)

  const FRESH := Statics(Coefficients(0.0, 0.0, 0.0, 0.0), 0, 0, 0, false, false, 0)

  datatype Inputs = Inputs(running: bool, statusword: bv16, axleState: AxleState, position: int)

  datatype Outputs = Outputs(controlword: bv16, target: int)

  /** The start sequence of the example lets the task through in every state but the four before
      operation, a fault included. */
  predicate LetThrough(statusword: bv16) {
    match GetAxleState(statusword)
    case NotReadyToSwitchOn | SwitchOnDisabled | ReadyToSwitchOn | SwitchedOn => false
    case OperationEnabled | QuickStopActive | FaultReactionActive | Fault => true
  }

  /** The words that let the task through are those of an enabled drive, of one that stops quickly, and of
      one in a fault; a fault may well report the target reached. */
  lemma LetThroughIff(statusword: bv16)
    ensures LetThrough(statusword) <==>
              || Shows(OperationEnabled, statusword) || Shows(QuickStopActive, statusword)
              || Shows(FaultReactionActive, statusword) || Shows(Fault, statusword)
    ensures Shows(Fault, 0x0408) && IsTargetReached(0x0408)
  {
    DecodeIsTable(OperationEnabled, statusword);
    DecodeIsTable(QuickStopActive, statusword);
    DecodeIsTable(FaultReactionActive, statusword);
    DecodeIsTable(Fault, statusword);
    hide GetAxleState, Shows;
    FaultWord();
  }

  lemma FaultWord()
    ensures Shows(Fault, 0x0408) && IsTargetReached(0x0408)
  {
  }

  function Started(o: Outputs, statusword: bv16, initial: int): Outputs {
    match GetAxleState(statusword)
    case NotReadyToSwitchOn | SwitchOnDisabled => o.(controlword := Shutdown(0))
    case ReadyToSwitchOn => o.(controlword := SwitchOn(0))
    case SwitchedOn => Outputs(EnableOperation(0), initial)
    case OperationEnabled | QuickStopActive | FaultReactionActive | Fault => o
  }

  /** The start sequence in terms of the drive: the next command on the way up, and in the cycle that enables
      operation the initial target with it; in operation, a quick stop or a fault it leaves everything. */
  lemma StartCommands(o: Outputs, statusword: bv16, initial: int)
    ensures var o', w := Started(o, statusword, initial), statusword;
      && (Shows(NotReadyToSwitchOn, w) || Shows(SwitchOnDisabled, w) ==> IsShutdown(o'.controlword))
      && (Shows(ReadyToSwitchOn, w) ==> IsSwitchOn(o'.controlword))
      && (Shows(SwitchedOn, w) ==> IsEnableOperation(o'.controlword) && o'.target == initial)
      && (!Shows(SwitchedOn, w) ==> o'.target == o.target)
      && (LetThrough(w) ==> o' == o)
  {
    BuildersCommand(0);
    DecodeIsTable(NotReadyToSwitchOn, statusword);
    DecodeIsTable(SwitchOnDisabled, statusword);
    DecodeIsTable(ReadyToSwitchOn, statusword);
    DecodeIsTable(SwitchedOn, statusword);
    hide Shows, GetAxleState, IsShutdown, IsSwitchOn, IsEnableOperation, Shutdown, SwitchOn, EnableOperation;
  }

  /** It is the start sequence of the server, except that it never resets a fault. */
  lemma SameStartUnlessFault(o: Outputs, statusword: bv16, initial: int)
    ensures !Bit(statusword, 3) ==>
              Started(o, statusword, initial).controlword == StartControl(statusword, o.controlword)
    ensures Shows(FaultReactionActive, statusword) || Shows(Fault, statusword) ==>
              && StartControl(statusword, o.controlword) == 0x80
              && Started(o, statusword, initial).controlword == o.controlword
  {
    DecodeIsTable(FaultReactionActive, statusword);
    DecodeIsTable(Fault, statusword);
    FaultBit(statusword);
    hide Shows, GetAxleState, Bit, Shutdown, SwitchOn, EnableOperation;
  }

  lemma FaultBit(w: bv16)
    ensures Bit(w, 3) <==> w & 0x8 != 0
    ensures Shows(FaultReactionActive, w) || Shows(Fault, w) ==> Bit(w, 3)
  {
  }

  // ----- moving -----

  /** A working call: the first plans the move from where the axis stands, each later one takes the next
      sample. */
  function Sampled(s: Statics, i: Inputs, g: Order): Statics
    requires Usable(g)
  {
    if !s.moving then
      var c := Make(i.position, g.target, g.time);
      s.(c := c, position := i.position, next := Trunc(At(c, TICK)), index := 2, moving := true)
    else if s.index as real * TICK >= g.time as real then s.(next := g.target)
    else s.(next := Trunc(At(s.c, s.index as real * TICK)), index := s.index + 1)
  }

  predicate Works(i: Inputs) { i.running && LetThrough(i.statusword) }

  // ----- stopping -----

  /** A call after the task was told to stop; the answer 0 ends the task. */
  function Stopped(s: Statics, axleState: AxleState, period: nat): (r: (Statics, int))
    requires period > 0
  {
    if !s.stopping then (s.(stopping := true), 1)
    else if axleState == SwitchOnDisabled then (s, 0)
    else (s.(timeout := s.timeout + 1), if s.timeout > STOP_NS / period then 0 else 1)
  }

  function StopControl(s: Statics, axleState: AxleState, period: nat, controlword: bv16): bv16
    requires period > 0
  {
    if !s.stopping then QuickStop(controlword)
    else if axleState != SwitchOnDisabled && s.timeout > STOP_NS / period then DisableVoltage(controlword)
    else controlword
  }

  /** One call. */
  function Next(s: Statics, i: Inputs, g: Order): Statics
    requires Usable(g)
  {
    if !i.running then Stopped(s, i.axleState, g.period).0 else if Works(i) then Sampled(s, i, g) else s
  }

  function Answer(s: Statics, i: Inputs, g: Order): int
    requires Usable(g)
  {
    if i.running then 1 else Stopped(s, i.axleState, g.period).1
  }

  function Written(s: Statics, o: Outputs, i: Inputs, g: Order): Outputs
    requires Usable(g)
  {
    if !i.running then o.(controlword := StopControl(s, i.axleState, g.period, o.controlword))
    else
      var started := Started(o, i.statusword, g.initial);
      if Works(i) && IsTargetReached(i.statusword) then started.(target := Next(s, i, g).next) else started
  }

  // ----- runs of the move -----

  function Run(s: Statics, inputs: seq<Inputs>, g: Order): Statics
    requires Usable(g)
    decreases |inputs|
  {
    if inputs == [] then s else Run(Next(s, inputs[0], g), inputs[1..], g)
  }

  /** The positions commanded by working calls, in order. */
  function Commands(s: Statics, inputs: seq<Inputs>, g: Order): seq<int>
    requires Usable(g)
    decreases |inputs|
  {
    if inputs == [] then []
    else
      (if Works(inputs[0]) && IsTargetReached(inputs[0].statusword) then [Next(s, inputs[0], g).next] else [])
      + Commands(Next(s, inputs[0], g), inputs[1..], g)
  }

  function Working(inputs: seq<Inputs>): nat
    decreases |inputs|
  {
    if inputs == [] then 0 else (if Works(inputs[0]) then 1 else 0) + Working(inputs[1..])
  }

  /** Where the axis stood in the first working call. */
  function StartOf(inputs: seq<Inputs>): int
    requires Working(inputs) > 0
    decreases |inputs|
  {
    if Works(inputs[0]) then inputs[0].position else StartOf(inputs[1..])
  }

  /** The move has had k samples, the first from the position p. */
  predicate Moved(s: Statics, g: Order, p: int, k: nat)
    requires Usable(g)
  {
    && k > 0 && s.moving && s.position == p && s.c == Make(p, g.target, g.time)
    && s.next == Sample(p, g.target, g.time, k)
    && s.index == if k < 200 * g.time then k + 1 else 200 * g.time
  }

  lemma WorkingStep(s: Statics, i: Inputs, g: Order, p: int, k: nat)
    requires Usable(g) && Works(i)
    requires if k == 0 then !s.moving && p == i.position else Moved(s, g, p, k)
    ensures Moved(Sampled(s, i, g), g, p, k + 1)
  {
    hide At, Make, Trunc;
  }

  /** After any run of calls, with pauses of any length while the axis is not enabled, the next position
      is the sample of the cubic that belongs to the number of working calls: no sample is skipped or taken
      twice, and from 200 per second of the set time on it is the target. */
  lemma {:induction false} RunIsSampled(s: Statics, inputs: seq<Inputs>, g: Order, p: int, k: nat)
    requires Usable(g) && k > 0 && Moved(s, g, p, k)
    requires forall i :: i in inputs ==> i.running
    ensures Moved(Run(s, inputs, g), g, p, k + Working(inputs))
    decreases |inputs|
  {
    hide Moved, Sampled, LetThrough;
    if inputs != [] {
      if Works(inputs[0]) {
        WorkingStep(s, inputs[0], g, p, k);
        RunIsSampled(Next(s, inputs[0], g), inputs[1..], g, p, k + 1);
      } else {
        RunIsSampled(s, inputs[1..], g, p, k);
      }
    }
  }

  /** Until the first working call nothing is planned; the position it finds is the start of the move. */
  lemma {:induction false} FreshRunIsSampled(s: Statics, inputs: seq<Inputs>, g: Order)
    requires Usable(g) && !s.moving
    requires forall i :: i in inputs ==> i.running
    ensures Working(inputs) == 0 ==> Run(s, inputs, g) == s
    ensures Working(inputs) > 0 ==> Moved(Run(s, inputs, g), g, StartOf(inputs), Working(inputs))
    decreases |inputs|
  {
    hide Moved, Sampled, LetThrough;
    if inputs != [] {
      if Works(inputs[0]) {
        WorkingStep(s, inputs[0], g, inputs[0].position, 0);
        RunIsSampled(Next(s, inputs[0], g), inputs[1..], g, inputs[0].position, 1);
      } else {
        FreshRunIsSampled(s, inputs[1..], g);
      }
    }
  }

  /** Commands that go one way, from one position to another. */
  predicate OneWay(commands: seq<int>, from: int, to: int, up: bool) {
    && (forall a :: 0 <= a < |commands| ==> if up then from <= commands[a] <= to else to <= commands[a] <= from)
    && forall a, b :: 0 <= a < b < |commands| ==>
         if up then commands[a] <= commands[b] else commands[b] <= commands[a]
  }

  /** Whatever the drive reports, the commanded positions only ever go from the start towards the target
      and never beyond it. */
  lemma {:induction false} CommandsGoOneWay(s: Statics, inputs: seq<Inputs>, g: Order, p: int, k: nat)
    requires Usable(g) && Moved(s, g, p, k)
    requires forall i :: i in inputs ==> i.running
    ensures OneWay(Commands(s, inputs, g), Sample(p, g.target, g.time, k), g.target, g.target >= p)
    decreases |inputs|
  {
    var up := g.target >= p;
    OneTick(p, g.target, g.time, k);
    hide Sampled, LetThrough, Sample, Make, IsTargetReached, TickLimit, Trunc, At, OneWay, Next;
    NextSampled(s, inputs, g);
    OneWayNone(Sample(p, g.target, g.time, k), g.target, up);
    if inputs != [] {
      if Works(inputs[0]) {
        WorkingStep(s, inputs[0], g, p, k);
        OneTick(p, g.target, g.time, k + 1);
        CommandsGoOneWay(Next(s, inputs[0], g), inputs[1..], g, p, k + 1);
        OneWayFrom(Sample(p, g.target, g.time, k), Sample(p, g.target, g.time, k + 1),
                   Commands(Next(s, inputs[0], g), inputs[1..], g), g.target, up);
      } else {
        CommandsGoOneWay(s, inputs[1..], g, p, k);
      }
    }
  }

  /** What a working call leaves. */
  lemma NextSampled(s: Statics, inputs: seq<Inputs>, g: Order)
    requires Usable(g) && forall i :: i in inputs ==> i.running
    ensures inputs != [] ==> Next(s, inputs[0], g) == if Works(inputs[0]) then Sampled(s, inputs[0], g) else s
  {
    hide Sampled, LetThrough;
  }

  lemma OneWayNone(from: int, to: int, up: bool)
    ensures OneWay([], from, to, up)
  {
  }

  /** One command more in front, or none. */
  lemma OneWayFrom(from: int, next: int, commands: seq<int>, to: int, up: bool)
    requires OneWay(commands, next, to, up) && if up then from <= next <= to else to <= next <= from
    ensures OneWay(commands, from, to, up) && OneWay([next] + commands, from, to, up)
  {
  }

  /** The move goes on in a fault: a call that finds one, with the target reported reached, commands the
      next sample and leaves the controlword alone. */
  lemma FaultIsCommanded(s: Statics, o: Outputs, i: Inputs, g: Order, p: int, k: nat)
    requires Usable(g) && Moved(s, g, p, k) && i.running && IsTargetReached(i.statusword)
    requires Shows(FaultReactionActive, i.statusword) || Shows(Fault, i.statusword)
    ensures Written(s, o, i, g) == Outputs(o.controlword, Sample(p, g.target, g.time, k + 1))
  {
    LetThroughIff(i.statusword);
    hide Shows, Sampled, LetThrough, Started, IsTargetReached;
    WorkingStep(s, i, g, p, k);
    StartedLeavesTarget(o, i.statusword, g.initial);
  }

  // ----- from one command to the next -----

  predicate Commanding(i: Inputs) { Works(i) && IsTargetReached(i.statusword) }

  /** Between two commands the samples go on: from sample k, through calls that command nothing to one that
      does, the next command is as many samples further as there were working calls, and less than that many
      times the limit for one tick away. If every working call commands, it is within the limit itself. */
  lemma NextCommand(s: Statics, quiet: seq<Inputs>, i: Inputs, g: Order, p: int, k: nat)
    requires Usable(g) && Moved(s, g, p, k) && Commanding(i)
    requires forall q :: q in quiet ==> q.running && !Commanding(q)
    ensures var m := Working(quiet) + 1;
      && Commands(s, quiet + [i], g) == [Sample(p, g.target, g.time, k + m)]
      && Gap(s.next, Sample(p, g.target, g.time, k + m)) as real < Times(m as real, TickLimit(p, g.target, g.time))
      && (Working(quiet) == 0 ==>
            Gap(s.next, Sample(p, g.target, g.time, k + m)) as real < TickLimit(p, g.target, g.time))
  {
    QuietRun(s, quiet, i, g, p, k);
    SamplesApart(p, g.target, g.time, k, Working(quiet) + 1);
    OneTick(p, g.target, g.time, k);
    hide Sample, TickLimit, Times, Commands, Working;
  }

  lemma {:induction false} QuietRun(s: Statics, quiet: seq<Inputs>, i: Inputs, g: Order, p: int, k: nat)
    requires Usable(g) && Moved(s, g, p, k) && Commanding(i)
    requires forall q :: q in quiet ==> q.running && !Commanding(q)
    ensures Commands(s, quiet + [i], g) == [Sample(p, g.target, g.time, k + Working(quiet) + 1)]
    decreases |quiet|
  {
    hide Sampled, LetThrough, Sample, Make, IsTargetReached;
    if quiet == [] {
      assert quiet + [i] == [i];
      WorkingStep(s, i, g, p, k);
      assert Commands(Next(s, i, g), [i][1..], g) == [];
    } else {
      assert (quiet + [i])[0] == quiet[0] && (quiet + [i])[1..] == quiet[1..] + [i];
      if Works(quiet[0]) {
        WorkingStep(s, quiet[0], g, p, k);
        QuietRun(Next(s, quiet[0], g), quiet[1..], i, g, p, k + 1);
      } else {
        QuietRun(s, quiet[1..], i, g, p, k);
      }
    }
  }

  /** The program's own move, 40000 in 10 seconds from 0: after the first command, drive words without the
      target bit for the rest of the move, and the next command is the target, over a thousand times
      farther away than the limit for one tick. */
  lemma CommandsMayJump(s: Statics, g: Order)
    requires Usable(g) && g.target == 40000 && g.time == 10 && Moved(s, g, 0, 1)
    ensures var quiet := seq(1998, _ => Inputs(true, 0x0027, OperationEnabled, 0));
      var i := Inputs(true, 0x0427, OperationEnabled, 0);
      && Commands(s, quiet + [i], g) == [40000]
      && 0 <= s.next <= 31 && TickLimit(0, 40000, 10) == 31.0
      && Gap(s.next, 40000) as real > 1000.0 * TickLimit(0, 40000, 10)
  {
    var q, i := Inputs(true, 0x0027, OperationEnabled, 0), Inputs(true, 0x0427, OperationEnabled, 0);
    var quiet := seq(1998, _ => q);
    OneTick(0, 40000, 10, 0);
    OneTick(0, 40000, 10, 1);
    FirstOfAll();
    EnabledWords();
    hide Works, IsTargetReached, At, Make, LetThrough;
    AllWorking(quiet);
    assert Commanding(i) && !Commanding(q);
    NextCommand(s, quiet, i, g, 0, 1);
  }

  lemma FirstOfAll()
    ensures Sample(0, 40000, 10, 0) == 0
  {
  }

  lemma EnabledWords()
    ensures LetThrough(0x0027) && !IsTargetReached(0x0027) && LetThrough(0x0427) && IsTargetReached(0x0427)
  {
  }

  lemma {:induction false} AllWorking(inputs: seq<Inputs>)
    requires forall i :: i in inputs ==> Works(i)
    ensures Working(inputs) == |inputs|
    decreases |inputs|
  {
    hide Works;
    if inputs != [] {
      AllWorking(inputs[1..]);
    }
  }

  // ----- the bounded stop -----

  function StopAfter(s: Statics, states: seq<AxleState>, period: nat): Statics
    requires period > 0
  {
    if states == [] then s
    else Stopped(StopAfter(s, states[..|states| - 1], period), states[|states| - 1], period).0
  }

  function StopAnswer(s: Statics, states: seq<AxleState>, period: nat, k: nat): int
    requires period > 0 && k < |states|
  {
    Stopped(StopAfter(s, states[..k], period), states[k], period).1
  }

  /** Once told to stop: the first call sends the quick stop and goes on, and as long as no call has ended
      the task, call k (from 0) ends it exactly if the axis has become disabled or two seconds' worth of
      calls have gone by. */
  lemma {:induction false} StopsWhen(s: Statics, states: seq<AxleState>, period: nat, k: nat)
    requires period > 0 && !s.stopping && s.timeout == 0 && k < |states|
    requires forall j :: 0 <= j < k ==> StopAnswer(s, states, period, j) == 1
    ensures var t := StopAfter(s, states[..k], period);
      t.stopping == (k > 0) && t.timeout == if k > 1 then k - 1 else 0
    ensures StopAnswer(s, states, period, k) == 0 || StopAnswer(s, states, period, k) == 1
    ensures StopAnswer(s, states, period, k) == 0 <==>
              k > 0 && (states[k] == SwitchOnDisabled || k >= STOP_NS / period + 2)
    decreases k
  {
    if k > 0 {
      StopsWhen(s, states, period, k - 1);
      assert states[..k][..k - 1] == states[..k - 1];
      assert StopAnswer(s, states, period, k - 1) == 1;
    }
  }

  /** So the task ends by call floor(2 s / period) + 3, whatever the drive does. */
  lemma {:induction false} StopIsBounded(s: Statics, states: seq<AxleState>, period: nat, j: nat)
    requires period > 0 && !s.stopping && s.timeout == 0
    requires |states| >= STOP_NS / period + 3 && j <= STOP_NS / period + 2
    requires forall i :: 0 <= i < j ==> StopAnswer(s, states, period, i) == 1
    ensures exists k :: j <= k < STOP_NS / period + 3 && StopAnswer(s, states, period, k) == 0
    decreases STOP_NS / period + 3 - j
  {
    hide StopAnswer;
    StopsWhen(s, states, period, j);
    if StopAnswer(s, states, period, j) != 0 {
      StopIsBounded(s, states, period, j + 1);
    }
  }

  function ControlAfter(s: Statics, states: seq<AxleState>, period: nat, controlword: bv16): bv16
    requires period > 0
  {
    if states == [] then controlword
    else
      var front := states[..|states| - 1];
      StopControl(StopAfter(s, front, period), states[|states| - 1], period,
                  ControlAfter(s, front, period, controlword))
  }

  /** What the stop sends: a quick stop in its first call, which stands while it waits, and the voltage is
      disabled on top of it exactly in the call that gives up. */
  lemma {:induction false} StopCommands(s: Statics, states: seq<AxleState>, period: nat, k: nat, controlword: bv16)
    requires period > 0 && !s.stopping && s.timeout == 0 && k < |states|
    requires forall j :: 0 <= j < k ==> StopAnswer(s, states, period, j) == 1
    ensures var quick := QuickStop(controlword);
      var sent := ControlAfter(s, states[..k + 1], period, controlword);
      && IsQuickStop(quick) && IsDisableVoltage(DisableVoltage(quick))
      && sent == if k >= STOP_NS / period + 2 && states[k] != SwitchOnDisabled then DisableVoltage(quick) else quick
    decreases k
  {
    BuildersCommand(controlword);
    BuildersCommand(QuickStop(controlword));
    hide QuickStop, DisableVoltage, IsQuickStop, IsDisableVoltage, StopAnswer, StopAfter, ControlAfter;
    StopsWhen(s, states, period, k);
    LastControl(s, states, period, k, controlword);
    if k > 0 {
      StopCommands(s, states, period, k - 1, controlword);
      StopsWhen(s, states, period, k - 1);
      assert StopAnswer(s, states, period, k - 1) == 1;
    }
  }

  lemma LastControl(s: Statics, states: seq<AxleState>, period: nat, k: nat, controlword: bv16)
    requires period > 0 && k < |states|
    ensures ControlAfter(s, states[..0], period, controlword) == controlword
    ensures ControlAfter(s, states[..k + 1], period, controlword) ==
            StopControl(StopAfter(s, states[..k], period), states[k], period,
                        ControlAfter(s, states[..k], period, controlword))
  {
    hide StopControl, StopAfter;
    assert states[..k + 1][..k] == states[..k];
  }

  /** The task goes on while it is not told to stop, and the stop leaves the move alone. */
  lemma EndsOnlyStopping(s: Statics, i: Inputs, g: Order)
    requires Usable(g)
    ensures i.running ==> Answer(s, i, g) == 1
    ensures Answer(s, i, g) == 0 ==> !i.running && s.stopping
    ensures !i.running ==> Next(s, i, g).(stopping := s.stopping, timeout := s.timeout) == s
  {
  }

  // ----- what goes out -----

  function OutputsAfter(s: Statics, o: Outputs, inputs: seq<Inputs>, g: Order): Outputs
    requires Usable(g)
    decreases |inputs|
  {
    if inputs == [] then o
    else OutputsAfter(Next(s, inputs[0], g), Written(s, o, inputs[0], g), inputs[1..], g)
  }

  /** The target in the process data is the last position commanded, in every run in which the drive is not
      seen switched on again, where it would be reset to the initial one. */
  lemma {:induction false} TargetIsLastCommand(s: Statics, o: Outputs, inputs: seq<Inputs>, g: Order)
    requires Usable(g)
    requires forall i :: i in inputs ==> i.running && !Shows(SwitchedOn, i.statusword)
    ensures var commands := Commands(s, inputs, g);
      OutputsAfter(s, o, inputs, g).target == if commands == [] then o.target else commands[|commands| - 1]
    decreases |inputs|
  {
    hide Next, Shows, LetThrough, Started, IsTargetReached;
    if inputs != [] {
      var i := inputs[0];
      StartCommands(o, i.statusword, g.initial);
      TargetIsLastCommand(Next(s, i, g), Written(s, o, i, g), inputs[1..], g);
    }
  }

  // ----- the task itself -----

  class Task {
    var c: Coefficients
    var position: int
    var next: int
    var index: nat
    var moving: bool
    var stopping: bool
    var timeout: nat
    const order: Order

    function View(): Statics
      reads this
    {
      Statics(c, position, next, index, moving, stopping, timeout)
    }

    constructor (order: Order)
      ensures View() == FRESH && this.order == order
    {
      c := Coefficients(0.0, 0.0, 0.0, 0.0);
      position, next, index, moving, stopping, timeout := 0, 0, 0, false, false, 0;
      this.order := order;
    }

    method AxleStart(pdo: ProcessImage) returns (ret: int)
      modifies pdo`controlword, pdo`modesOfOperation, pdo`targetPosition
      ensures ret != 0 <==> LetThrough(pdo.statusword)
      ensures Outputs(pdo.controlword, pdo.targetPosition) ==
              Started(old(Outputs(pdo.controlword, pdo.targetPosition)), pdo.statusword, order.initial)
      ensures pdo.modesOfOperation ==
              if Shows(SwitchedOn, pdo.statusword) then OP_MODE_CSP else old(pdo.modesOfOperation)
    {
      ret := 0;
      DecodeIsTable(SwitchedOn, pdo.statusword);
      hide Shows;
      hide GetAxleState;
      match GetAxleState(pdo.statusword) {
        case NotReadyToSwitchOn | SwitchOnDisabled =>
          pdo.controlword := Shutdown(0);
        case ReadyToSwitchOn =>
          pdo.controlword := SwitchOn(0);
        case SwitchedOn =>
          pdo.controlword := EnableOperation(0);
          pdo.modesOfOperation := OP_MODE_CSP;
          pdo.targetPosition := order.initial;
        case OperationEnabled =>
          ret := 1;
        case QuickStopActive | FaultReactionActive | Fault =>
          ret := -1;
      }
    }

    /** The calls after the task was told to stop. */
    method Stop(pdo: ProcessImage, axleState: AxleState) returns (ret: int)
      requires order.period > 0
      modifies this, pdo`controlword
      ensures (View(), ret) == Stopped(old(View()), axleState, order.period)
      ensures pdo.controlword == StopControl(old(View()), axleState, order.period, old(pdo.controlword))
    {
      if !stopping {
        pdo.controlword := QuickStop(pdo.controlword);
        stopping := true;
        return 1;
      } else if axleState == SwitchOnDisabled {
        return 0;
      }
      timeout := timeout + 1;
      if timeout - 1 > STOP_NS / order.period {
        pdo.controlword := DisableVoltage(pdo.controlword);
        return 0;
      }
      ret := 1;
    }

    method Move(pdo: ProcessImage)
      requires Usable(order)
      modifies this, pdo`targetPosition
      ensures View() == Sampled(old(View()), Inputs(true, pdo.statusword, OperationEnabled, pdo.positionActual), order)
      ensures pdo.targetPosition == if IsTargetReached(pdo.statusword) then next else old(pdo.targetPosition)
    {
      hide At, Make, Trunc, IsTargetReached;
      if !moving {
        position := pdo.positionActual;
        c := Make(position, order.target, order.time);
        next := Trunc(At(c, TICK));
        index := 2;
        if IsTargetReached(pdo.statusword) {
          pdo.targetPosition := next;
        }
        moving := true;
      } else {
        var t := index as real * TICK;
        if t >= order.time as real {
          next := order.target;
        } else {
          next := Trunc(At(c, t));
          index := index + 1;
        }
        if IsTargetReached(pdo.statusword) {
          pdo.targetPosition := next;
        }
      }
    }

    method UpdateTargetPosition(pdo: ProcessImage, running: bool, axleState: AxleState) returns (ret: int)
      requires Usable(order)
      modifies this, pdo`controlword, pdo`modesOfOperation, pdo`targetPosition
      ensures var i := Inputs(running, pdo.statusword, axleState, pdo.positionActual);
        && View() == Next(old(View()), i, order)
        && ret == Answer(old(View()), i, order)
        && Outputs(pdo.controlword, pdo.targetPosition) ==
           Written(old(View()), old(Outputs(pdo.controlword, pdo.targetPosition)), i, order)
        && pdo.modesOfOperation ==
           (if running && Shows(SwitchedOn, pdo.statusword) then OP_MODE_CSP else old(pdo.modesOfOperation))
    {
      hide Shows;
      hide Stopped, StopControl, Started, LetThrough, IsTargetReached;
      if !running {
        ret := Stop(pdo, axleState);
        return;
      }
      var started := AxleStart(pdo);
      if started != 0 {
        StartedLeavesTarget(Outputs(pdo.controlword, pdo.targetPosition), pdo.statusword, order.initial);
        SameSample(View(), Inputs(true, pdo.statusword, axleState, pdo.positionActual), OperationEnabled, order);
        hide Sampled;
        Move(pdo);
      }
      ret := 1;
    }
  }

  lemma StartedLeavesTarget(o: Outputs, statusword: bv16, initial: int)
    requires LetThrough(statusword)
    ensures Started(o, statusword, initial) == o
  {
  }

  /** Sampling does not look at the remembered state. */
  lemma SameSample(s: Statics, i: Inputs, state: AxleState, g: Order)
    requires Usable(g)
    ensures Sampled(s, i, g) == Sampled(s, i.(axleState := state), g)
  {
  }
}
