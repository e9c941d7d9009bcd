/** The auto-starter of the cyclic task: it acts on statuses that are only read every so many cycles, and
    switches itself off when everything is running. */
module StartUp {
  import opened Arithmetic
  import opened Ds402
  import opened Drive

  datatype MasterState = UnKnown | Activate | NoSlave | NoAllOp | AllOp

  /** What the task keeps of one axle, and the process data it exchanges with it. */
  datatype Axle = Axle(
    state: AxleState,
    lastState: AxleState,
    mode: nat,
    statusword: bv16,
    controlword: bv16,
    modesOfOperation: nat)

  function ReadState(a: Axle): Axle { a.(state := GetAxleState(a.statusword)) }

  function StartAnswer(s: AxleState): int {
    match s
    case NotReadyToSwitchOn | SwitchOnDisabled | ReadyToSwitchOn | SwitchedOn => 0
    case OperationEnabled => 1
    case QuickStopActive | FaultReactionActive | Fault => -1
  }

  /** 0 on the way up, 1 in operation, -1 beyond. */
  lemma AnswerByRank(s: AxleState)
    ensures StartAnswer(s) == if Rank(s) < 4 then 0 else if Rank(s) == 4 then 1 else -1
  {
  }

  function StartAxle(a: Axle): Axle {
    var a1 := a.(lastState := a.state);
    match a.state
    case NotReadyToSwitchOn | SwitchOnDisabled => a1.(controlword := Shutdown(0))
    case ReadyToSwitchOn => a1.(controlword := SwitchOn(0))
    case SwitchedOn => a1.(controlword := EnableOperation(0), modesOfOperation := a.mode)
    case OperationEnabled | QuickStopActive | FaultReactionActive | Fault => a1
  }

  function ReadAll(axles: seq<Axle>): (read: seq<Axle>)
    ensures |read| == |axles|
  {
    seq(|axles|, i requires 0 <= i < |axles| => ReadState(axles[i]))
  }

  function StartAll(axles: seq<Axle>): (started: seq<Axle>)
    ensures |started| == |axles|
  {
    seq(|axles|, i requires 0 <= i < |axles| => StartAxle(axles[i]))
  }

  /** One axle through one cycle: its statusword arrives, is read if this is a cycle for it, and the
      auto-starter reacts if it is still on. */
  function AxleCycle(a: Axle, word: bv16, due: bool, auto: bool): Axle {
    var a1 := a.(statusword := word);
    var a2 := if due then ReadState(a1) else a1;
    if auto then StartAxle(a2) else a2
  }

  // ----- the latch -----

  function CountAllOp(ms: seq<MasterState>): nat {
    if ms == [] then 0 else CountAllOp(ms[..|ms| - 1]) + if ms[|ms| - 1] == AllOp then 1 else 0
  }

  function SumAnswers(axles: seq<Axle>): int {
    if axles == [] then 0 else SumAnswers(axles[..|axles| - 1]) + StartAnswer(axles[|axles| - 1].state)
  }

  predicate EverythingRuns(ms: seq<MasterState>, axles: seq<Axle>) {
    && (forall i :: 0 <= i < |ms| ==> ms[i] == AllOp)
    && (forall i :: 0 <= i < |axles| ==> axles[i].state == OperationEnabled)
  }

  lemma {:induction false} CountIsFull(ms: seq<MasterState>)
    ensures CountAllOp(ms) <= |ms|
    ensures CountAllOp(ms) == |ms| <==> forall i :: 0 <= i < |ms| ==> ms[i] == AllOp
  {
    if ms != [] {
      CountIsFull(ms[..|ms| - 1]);
    }
  }

  lemma {:induction false} SumIsFull(axles: seq<Axle>)
    ensures SumAnswers(axles) <= |axles|
    ensures SumAnswers(axles) == |axles| <==> forall i :: 0 <= i < |axles| ==> axles[i].state == OperationEnabled
  {
    if axles != [] {
      SumIsFull(axles[..|axles| - 1]);
    }
  }

  /** The one sum the task compares means what it is meant to mean: a -1 of one axle can never be made up
      for by the others or by the masters. */
  lemma SumTestIsExact(ms: seq<MasterState>, axles: seq<Axle>)
    ensures CountAllOp(ms) + SumAnswers(axles) == |ms| + |axles| <==> EverythingRuns(ms, axles)
  {
    CountIsFull(ms);
    SumIsFull(axles);
  }

  // ----- the cyclic task with its drives -----

  datatype System = System(axles: seq<Axle>, drives: seq<AxleState>, auto: bool, counter: nat)

  /** What the outside does in one cycle: the statuswords that arrive, the state of the masters, and where
      the drives are after the controlwords went out. */
  datatype Choice = Choice(words: seq<bv16>, masters: seq<MasterState>, drives: seq<AxleState>)

  function AxlesAfter(s: System, c: Choice, freq: nat): (axles: seq<Axle>)
    requires |c.words| == |s.axles| && freq > 0
    ensures |axles| == |s.axles|
  {
    seq(|s.axles|, i requires 0 <= i < |s.axles| =>
      AxleCycle(s.axles[i], c.words[i], s.counter % freq == 0, s.auto))
  }

  /** One cycle of the task. */
  function Cycle(s: System, c: Choice, freq: nat): System
    requires |c.words| == |s.axles| && freq > 0
  {
    var axles := AxlesAfter(s, c, freq);
    System(axles, c.drives, s.auto && !EverythingRuns(c.masters, axles), s.counter + 1)
  }

  /** The outside plays by the profile: every drive shows its own state and moves, if at all, along a
      fault-free transition its controlword enables. */
  predicate Legal(s: System, c: Choice, freq: nat)
    requires freq > 0
  {
    && |c.words| == |c.drives| == |s.axles| == |s.drives|
    && forall i :: 0 <= i < |s.axles| ==>
         && Shows(s.drives[i], c.words[i])
         && MayMove(s.drives[i], AxlesAfter(s, c, freq)[i].controlword, c.drives[i])
  }

  /** The drives react: an enabled transition is taken within the cycle. */
  ghost predicate Prompt(s: System, c: Choice, freq: nat)
    requires freq > 0
  {
    && Legal(s, c, freq)
    && forall i :: 0 <= i < |s.axles| ==>
         Moves(s.drives[i], AxlesAfter(s, c, freq)[i].controlword, c.drives[i])
  }

  /** What is known of an axle only changes in a cycle for it, and then to what the drive shows. */
  lemma ReadsWhenDue(s: System, c: Choice, freq: nat, i: nat)
    requires freq > 0 && |c.words| == |s.axles| && i < |s.axles|
    ensures var a, a' := s.axles[i], Cycle(s, c, freq).axles[i];
      a'.state == if s.counter % freq == 0 then GetAxleState(c.words[i]) else a.state
    ensures Cycle(s, c, freq).counter == s.counter + 1
  {
    hide GetAxleState, EverythingRuns;
  }

  // ----- runs -----

  /** A word arrives for each axle; nothing else is asked of the outside. */
  predicate Fitting(s: System, cs: seq<Choice>) {
    forall k :: 0 <= k < |cs| ==> |cs[k].words| == |s.axles|
  }

  function After(s: System, cs: seq<Choice>, freq: nat): System
    requires freq > 0 && Fitting(s, cs)
    decreases |cs|
  {
    if cs == [] then s else After(Cycle(s, cs[0], freq), cs[1..], freq)
  }

  predicate LegalRun(s: System, cs: seq<Choice>, freq: nat): (legal: bool)
    requires freq > 0
    ensures legal ==> Fitting(s, cs)
    decreases |cs|
  {
    cs == [] || (Legal(s, cs[0], freq) && LegalRun(Cycle(s, cs[0], freq), cs[1..], freq))
  }

  ghost predicate PromptRun(s: System, cs: seq<Choice>, freq: nat)
    requires freq > 0
    decreases |cs|
  {
    cs == [] || (Prompt(s, cs[0], freq) && PromptRun(Cycle(s, cs[0], freq), cs[1..], freq))
  }

  /** Before the first cycle: nothing is known of the drives, none of which is enabled or stopping. */
  predicate Fresh(s: System) {
    && s.counter == 0 && s.auto && |s.axles| == |s.drives|
    && forall i :: 0 <= i < |s.axles| ==>
         s.axles[i].state == NotReadyToSwitchOn && Rank(s.drives[i]) < Rank(OperationEnabled)
  }

  // ----- what every cycle keeps -----

  function Max(x: nat, y: nat): nat { if x < y then y else x }

  function Min(x: nat, y: nat): nat { if x < y then x else y }

  /** The command that belongs to a status on the way up; the last one stays in force. */
  function CommandFor(s: AxleState): bv16 {
    match s
    case NotReadyToSwitchOn | SwitchOnDisabled => 0x06
    case ReadyToSwitchOn => 0x07
    case SwitchedOn | OperationEnabled | QuickStopActive | FaultReactionActive | Fault => 0x0F
  }

  /** The status that is remembered is never ahead of the drive and never more than one transition behind
      what its command can reach. */
  predicate Tracks(known: AxleState, drive: AxleState) {
    Rank(known) <= Rank(drive) <= Max(Rank(known), Rank(SwitchOnDisabled)) + 1
    && Rank(drive) <= Rank(OperationEnabled)
  }

  predicate AxleInv(a: Axle, drive: AxleState, counter: nat) {
    if counter == 0 then a.state == NotReadyToSwitchOn && Rank(drive) < Rank(OperationEnabled)
    else
      && Tracks(a.state, drive) && a.controlword == CommandFor(a.state)
      && (Rank(SwitchedOn) <= Rank(a.state) ==> a.modesOfOperation == a.mode)
  }

  predicate Inv(s: System) {
    && |s.axles| == |s.drives|
    && (forall i :: 0 <= i < |s.axles| ==> AxleInv(s.axles[i], s.drives[i], s.counter))
    && (s.counter == 0 ==> s.auto)
    && (!s.auto ==> forall i :: 0 <= i < |s.axles| ==> s.axles[i].state == OperationEnabled)
  }

  lemma Commands()
    ensures Shutdown(0) == 0x06 && SwitchOn(0) == 0x07 && EnableOperation(0) == 0x0F
    ensures IsShutdown(0x06) && !IsSwitchOn(0x06) && !IsEnableOperation(0x06)
    ensures !IsDisableVoltage(0x06) && !IsQuickStop(0x06)
    ensures !IsShutdown(0x07) && IsSwitchOn(0x07) && !IsEnableOperation(0x07)
    ensures !IsDisableVoltage(0x07) && !IsQuickStop(0x07)
    ensures !IsShutdown(0x0F) && !IsSwitchOn(0x0F) && IsEnableOperation(0x0F)
    ensures !IsDisableVoltage(0x0F) && !IsQuickStop(0x0F)
  {
  }

  /** What the remembered status and the command are after a cycle. */
  lemma CommandAfter(a: Axle, drive: AxleState, word: bv16, due: bool, auto: bool, counter: nat)
    requires AxleInv(a, drive, counter) && Shows(drive, word)
    requires counter == 0 ==> due && auto
    requires !auto ==> a.state == OperationEnabled
    ensures var a' := AxleCycle(a, word, due, auto);
      && a'.state == (if due then drive else a.state) && a'.controlword == CommandFor(a'.state)
      && a'.mode == a.mode && Rank(a.state) <= Rank(a'.state)
      && a'.modesOfOperation == if Rank(SwitchedOn) <= Rank(a'.state) then a.mode else a.modesOfOperation
  {
    Commands();
    DecodeIsTable(drive, word);
    hide Shows, GetAxleState, Shutdown, SwitchOn, EnableOperation;
  }

  /** A drive never falls back and never gets more than one transition ahead of what its command asks. */
  lemma DriveStep(known: AxleState, drive: AxleState, drive': AxleState)
    requires Tracks(known, drive) && MayMove(drive, CommandFor(known), drive')
    ensures Tracks(known, drive') && Rank(drive) <= Rank(drive')
  {
    Commands();
    hide IsShutdown, IsSwitchOn, IsEnableOperation, IsDisableVoltage, IsQuickStop;
  }

  /** One cycle of one axle with its drive. */
  lemma AxleStep(a: Axle, drive: AxleState, word: bv16, due: bool, auto: bool, counter: nat, drive': AxleState)
    requires AxleInv(a, drive, counter) && Shows(drive, word)
    requires counter == 0 ==> due && auto
    requires !auto ==> a.state == OperationEnabled
    requires MayMove(drive, AxleCycle(a, word, due, auto).controlword, drive')
    ensures AxleInv(AxleCycle(a, word, due, auto), drive', counter + 1)
    ensures Rank(drive) <= Rank(drive')
  {
    CommandAfter(a, drive, word, due, auto, counter);
    hide AxleCycle, Shows, MayMove, CommandFor;
    DriveStep(AxleCycle(a, word, due, auto).state, drive, drive');
  }

  lemma CycleKeepsInv(s: System, c: Choice, freq: nat)
    requires freq > 0 && Inv(s) && Legal(s, c, freq)
    ensures Inv(Cycle(s, c, freq))
    ensures forall i :: 0 <= i < |s.drives| ==> Rank(s.drives[i]) <= Rank(c.drives[i])
  {
    var s', due := Cycle(s, c, freq), s.counter % freq == 0;
    forall i | 0 <= i < |s.axles|
      ensures AxleInv(s'.axles[i], s'.drives[i], s'.counter) && Rank(s.drives[i]) <= Rank(c.drives[i])
      ensures !s.auto ==> s'.axles[i].state == OperationEnabled
    {
      AxleStep(s.axles[i], s.drives[i], c.words[i], due, s.auto, s.counter, c.drives[i]);
      CommandAfter(s.axles[i], s.drives[i], c.words[i], due, s.auto, s.counter);
    }
  }

  /** Start-up under stale status: in every state of every legal run, each remembered status tracks its
      drive. */
  lemma {:induction false} StaleStatusTracks(s: System, cs: seq<Choice>, freq: nat)
    requires freq > 0 && Inv(s) && LegalRun(s, cs, freq)
    ensures Inv(After(s, cs, freq))
    ensures cs != [] ==> var t := After(s, cs, freq);
      forall i :: 0 <= i < |t.axles| ==> Tracks(t.axles[i].state, t.drives[i])
    ensures |After(s, cs, freq).drives| == |s.drives|
    ensures forall i :: 0 <= i < |s.drives| ==> Rank(s.drives[i]) <= Rank(After(s, cs, freq).drives[i])
    ensures After(s, cs, freq).counter == s.counter + |cs|
    decreases |cs|
  {
    hide AxleCycle, Shows, AxlesAfter, MayMove, Tracks;
    if cs != [] {
      CycleKeepsInv(s, cs[0], freq);
      StaleStatusTracks(Cycle(s, cs[0], freq), cs[1..], freq);
      TrackedWhenRunning(After(s, cs, freq));
    }
  }

  /** The mode of operation: in every legal run it is left alone until the axle is known to be switched on,
      and from then on, enabled or not, it is the one that is configured. */
  lemma {:induction false} ModeIsSet(s: System, cs: seq<Choice>, freq: nat)
    requires freq > 0 && Inv(s) && LegalRun(s, cs, freq) && cs != []
    ensures var t := After(s, cs, freq);
      && |t.axles| == |s.axles|
      && forall i :: 0 <= i < |s.axles| ==>
           && t.axles[i].mode == s.axles[i].mode
           && Rank(s.axles[i].state) <= Rank(t.axles[i].state) <= Rank(OperationEnabled)
           && t.axles[i].modesOfOperation ==
              if t.axles[i].state == SwitchedOn || t.axles[i].state == OperationEnabled
              then s.axles[i].mode else s.axles[i].modesOfOperation
    decreases |cs|
  {
    hide AxleCycle, Shows, MayMove, Tracks, Inv, Rank, AxlesAfter, Legal;
    var s1 := Cycle(s, cs[0], freq);
    ModeInCycle(s, cs[0], freq);
    CycleKeepsInv(s, cs[0], freq);
    if |cs| > 1 {
      ModeIsSet(s1, cs[1..], freq);
      HighRanks();
    } else {
      assert cs[1..] == [];
    }
  }

  lemma ModeInCycle(s: System, c: Choice, freq: nat)
    requires freq > 0 && Inv(s) && Legal(s, c, freq)
    ensures var t := Cycle(s, c, freq);
      && |t.axles| == |s.axles|
      && forall i :: 0 <= i < |s.axles| ==>
           && t.axles[i].mode == s.axles[i].mode
           && Rank(s.axles[i].state) <= Rank(t.axles[i].state) <= Rank(OperationEnabled)
           && t.axles[i].modesOfOperation ==
              if t.axles[i].state == SwitchedOn || t.axles[i].state == OperationEnabled
              then s.axles[i].mode else s.axles[i].modesOfOperation
  {
    var due := s.counter % freq == 0;
    CycleKeepsInv(s, c, freq);
    HighRanks();
    forall i | 0 <= i < |s.axles|
      ensures var a, a' := s.axles[i], Cycle(s, c, freq).axles[i];
        && a'.mode == a.mode && Rank(a.state) <= Rank(a'.state) <= Rank(OperationEnabled)
        && a'.modesOfOperation == if Rank(SwitchedOn) <= Rank(a'.state) then a.mode else a.modesOfOperation
    {
      CommandAfter(s.axles[i], s.drives[i], c.words[i], due, s.auto, s.counter);
      hide AxleCycle;
    }
  }

  lemma HighRanks()
    ensures forall s: AxleState :: Rank(SwitchedOn) <= Rank(s) <= Rank(OperationEnabled) <==>
                                   s == SwitchedOn || s == OperationEnabled
  {
  }

  lemma TrackedWhenRunning(s: System)
    requires Inv(s) && s.counter > 0
    ensures forall i :: 0 <= i < |s.axles| ==> Tracks(s.axles[i].state, s.drives[i])
  {
  }

  lemma FreshHolds(s: System)
    requires Fresh(s)
    ensures Inv(s)
  {
  }

  // ----- how long it takes -----

  /** After the cycle in which the m-th reading (from 0) was the latest, every axle is known to be at
      least m steps up and its drive one further. */
  predicate Progressed(s: System, freq: nat)
    requires freq > 0 && |s.axles| == |s.drives|
  {
    s.counter > 0 ==> var m := (s.counter - 1) / freq;
      forall i :: 0 <= i < |s.axles| ==>
        Min(4, m) <= Rank(s.axles[i].state) && Min(4, m + 1) <= Rank(s.drives[i])
  }

  lemma AxleProgress(a: Axle, drive: AxleState, word: bv16, due: bool, auto: bool, counter: nat, drive': AxleState)
    requires AxleInv(a, drive, counter) && Shows(drive, word)
    requires counter == 0 ==> due && auto
    requires !auto ==> a.state == OperationEnabled
    requires Moves(drive, AxleCycle(a, word, due, auto).controlword, drive')
    ensures due ==> AxleCycle(a, word, due, auto).state == drive
    ensures due ==> Min(4, Rank(drive) + 1) <= Rank(drive')
    ensures !due ==> AxleCycle(a, word, due, auto).state == a.state
  {
    CommandAfter(a, drive, word, due, auto, counter);
    Commands();
    hide AxleCycle, Shows, IsShutdown, IsSwitchOn, IsEnableOperation, IsDisableVoltage, IsQuickStop;
    if due {
      match drive {
        case NotReadyToSwitchOn => assert Transition(drive, 0x06, SwitchOnDisabled);
        case SwitchOnDisabled => assert Transition(drive, 0x06, ReadyToSwitchOn);
        case ReadyToSwitchOn => assert Transition(drive, 0x07, SwitchedOn);
        case SwitchedOn => assert Transition(drive, 0x0F, OperationEnabled);
        case OperationEnabled =>
      }
    }
  }

  lemma CycleProgresses(s: System, c: Choice, freq: nat)
    requires freq > 0 && Inv(s) && Prompt(s, c, freq) && Progressed(s, freq)
    ensures Progressed(Cycle(s, c, freq), freq)
  {
    var s', due, m := Cycle(s, c, freq), s.counter % freq == 0, s.counter / freq;
    CycleKeepsInv(s, c, freq);
    Readings(s.counter, freq);
    forall i | 0 <= i < |s.axles|
      ensures Min(4, m) <= Rank(s'.axles[i].state) && Min(4, m + 1) <= Rank(s'.drives[i])
    {
      assert Shows(s.drives[i], c.words[i]);
      AxleProgress(s.axles[i], s.drives[i], c.words[i], due, s.auto, s.counter, c.drives[i]);
    }
  }

  lemma Readings(counter: nat, freq: nat)
    requires freq > 0
    ensures counter == 0 ==> counter / freq == 0 && counter % freq == 0
    ensures counter > 0 ==>
              (counter - 1) / freq == if counter % freq == 0 then counter / freq - 1 else counter / freq
  {
    if counter > 0 {
      var q, r := counter / freq, counter % freq;
      assert counter == q * freq + r;
      if r == 0 {
        assert counter - 1 == (q - 1) * freq + (freq - 1);
        DivModUnique(counter - 1, freq, q - 1, freq - 1);
      } else {
        DivModUnique(counter - 1, freq, q, r - 1);
      }
    }
  }

  lemma {:induction false} RunProgresses(s: System, cs: seq<Choice>, freq: nat)
    requires freq > 0 && Inv(s) && PromptRun(s, cs, freq) && Progressed(s, freq)
    ensures LegalRun(s, cs, freq)
    ensures var t := After(s, cs, freq); |t.axles| == |t.drives| && Progressed(t, freq)
    decreases |cs|
  {
    hide AxlesAfter, Progressed, Legal;
    if cs != [] {
      PromptIsLegal(s, cs[0], freq);
      CycleProgresses(s, cs[0], freq);
      CycleKeepsInv(s, cs[0], freq);
      RunProgresses(Cycle(s, cs[0], freq), cs[1..], freq);
    }
  }

  lemma PromptIsLegal(s: System, c: Choice, freq: nat)
    requires freq > 0 && Prompt(s, c, freq)
    ensures Legal(s, c, freq)
  {
  }

  /** The start-up takes at most four readings after the first one: when the drives are prompt, every
      axle is known to be operational from cycle 4 * freq on, and once the masters report the same the
      auto-starter is off. */
  lemma StartUpCompletes(s: System, cs: seq<Choice>, freq: nat)
    requires freq > 0 && Fresh(s) && PromptRun(s, cs, freq) && |cs| > 4 * freq
    ensures LegalRun(s, cs, freq)
    ensures var t := After(s, cs, freq);
      && |t.axles| == |t.drives| == |s.axles|
      && forall i :: 0 <= i < |t.axles| ==>
           && t.axles[i].state == t.drives[i] == OperationEnabled
           && t.axles[i].modesOfOperation == s.axles[i].mode
  {
    FreshHolds(s);
    hide Inv, LegalRun, PromptRun, After, Tracks, Rank, Progressed;
    RunProgresses(s, cs, freq);
    StaleStatusTracks(s, cs, freq);
    ModeIsSet(s, cs, freq);
    FourReadings(|cs| - 1, freq);
    LateEnough(After(s, cs, freq), freq);
  }

  lemma LateEnough(s: System, freq: nat)
    requires freq > 0 && |s.axles| == |s.drives| && s.counter > 0 && Progressed(s, freq)
    requires (s.counter - 1) / freq >= 4
    requires forall i :: 0 <= i < |s.axles| ==> Tracks(s.axles[i].state, s.drives[i])
    ensures forall i :: 0 <= i < |s.axles| ==> s.axles[i].state == s.drives[i] == OperationEnabled
  {
    FullRank();
    hide Rank;
  }

  lemma {:induction false} AfterLast(s: System, cs: seq<Choice>, freq: nat)
    requires freq > 0 && cs != [] && LegalRun(s, cs, freq)
    ensures var c, front := cs[|cs| - 1], cs[..|cs| - 1];
      && LegalRun(s, front, freq) && Legal(After(s, front, freq), c, freq)
      && |c.words| == |After(s, front, freq).axles|
      && After(s, cs, freq) == Cycle(After(s, front, freq), c, freq)
    decreases |cs|
  {
    hide AxlesAfter, MayMove, Shows;
    if |cs| > 1 {
      AfterLast(Cycle(s, cs[0], freq), cs[1..], freq);
      assert cs[1..][..|cs| - 2] == cs[..|cs| - 1][1..];
    } else {
      assert cs[..0] == [] && cs[1..] == [];
    }
  }

  /** ... and in such a cycle, if all masters report operation, the auto-starter goes off. */
  lemma StartUpEnds(s: System, cs: seq<Choice>, freq: nat)
    requires freq > 0 && Fresh(s) && PromptRun(s, cs, freq) && |cs| > 4 * freq
    requires var ms := cs[|cs| - 1].masters; forall i :: 0 <= i < |ms| ==> ms[i] == AllOp
    ensures LegalRun(s, cs, freq) && !After(s, cs, freq).auto
    ensures var t := After(s, cs, freq);
      |t.axles| == |s.axles| && forall i :: 0 <= i < |t.axles| ==> t.axles[i].modesOfOperation == s.axles[i].mode
  {
    StartUpCompletes(s, cs, freq);
    AfterLast(s, cs, freq);
    hide LegalRun, PromptRun, After, Legal, AxlesAfter;
  }

  lemma FullRank()
    ensures forall s: AxleState :: Rank(s) == 4 <==> s == OperationEnabled
  {
  }

  lemma FourReadings(x: nat, freq: nat)
    requires freq > 0 && x >= 4 * freq
    ensures x / freq >= 4
  {
    var k := 4 - x / freq;
    assert k * freq == 4 * freq - x + x % freq;
    MulAtLeast(k, freq);
  }

  // ----- the latch over runs -----

  /** The auto-starter goes off in a cycle exactly if all masters report operation in it and every axle is known
      to be operational. */
  lemma LatchGoesOffIff(s: System, c: Choice, freq: nat)
    requires freq > 0 && |c.words| == |s.axles| && s.auto
    ensures var t := Cycle(s, c, freq);
      !t.auto <==>
        && (forall i :: 0 <= i < |c.masters| ==> c.masters[i] == AllOp)
        && (forall i :: 0 <= i < |t.axles| ==> t.axles[i].state == OperationEnabled)
  {
    hide AxleCycle;
  }

  /** Once it is off it never writes again: whatever words arrive, whatever the drives and the masters do, faults
      included, no later cycle changes a controlword or a mode. */
  lemma {:induction false} LatchIsFinal(s: System, cs: seq<Choice>, freq: nat)
    requires freq > 0 && Fitting(s, cs) && !s.auto
    ensures var t := After(s, cs, freq);
      && !t.auto && |t.axles| == |s.axles|
      && forall i :: 0 <= i < |s.axles| ==>
           t.axles[i].controlword == s.axles[i].controlword
           && t.axles[i].modesOfOperation == s.axles[i].modesOfOperation
    decreases |cs|
  {
    if cs != [] {
      LatchIsFinal(Cycle(s, cs[0], freq), cs[1..], freq);
    }
  }

  // ----- the task itself -----

  class Task {
    var masters: array<MasterState>
    var axles: array<Axle>
    var isAutoStart: bool
    var cycleCounter: nat
    const axleStatusUpdateFreq: nat

    /** The axles and masters come from the configuration. */
    constructor (masters: array<MasterState>, axles: array<Axle>, freq: nat, isAutoStart: bool)
      ensures this.masters == masters && this.axles == axles && axleStatusUpdateFreq == freq
      ensures this.isAutoStart == isAutoStart && cycleCounter == 0
    {
      this.masters, this.axles, this.isAutoStart := masters, axles, isAutoStart;
      cycleCounter, axleStatusUpdateFreq := 0, freq;
    }

    method UpdateAxlesStates()
      requires axleStatusUpdateFreq > 0
      modifies axles
      ensures axles[..] == if cycleCounter % axleStatusUpdateFreq == 0 then ReadAll(old(axles[..]))
                           else old(axles[..])
    {
      if cycleCounter % axleStatusUpdateFreq == 0 {
        for i := 0 to axles.Length
          invariant forall j :: 0 <= j < i ==> axles[j] == ReadState(old(axles[j]))
          invariant forall j :: i <= j < axles.Length ==> axles[j] == old(axles[j])
        {
          axles[i] := axles[i].(state := GetAxleState(axles[i].statusword));
        }
      }
    }

    method AxleAutoStart(i: nat) returns (ret: int)
      requires i < axles.Length
      modifies axles
      ensures ret == StartAnswer(old(axles[i].state))
      ensures axles[..] == old(axles[..])[i := StartAxle(old(axles[i]))]
    {
      ret := 0;
      var s := axles[i].state;
      match s {
        case NotReadyToSwitchOn | SwitchOnDisabled =>
          axles[i] := axles[i].(controlword := Shutdown(0));
        case ReadyToSwitchOn =>
          axles[i] := axles[i].(controlword := SwitchOn(0));
        case SwitchedOn =>
          axles[i] := axles[i].(controlword := EnableOperation(0));
          axles[i] := axles[i].(modesOfOperation := axles[i].mode);
        case OperationEnabled =>
          ret := 1;
        case QuickStopActive | FaultReactionActive | Fault =>
          ret := -1;
      }
      if axles[i].lastState != s {
        axles[i] := axles[i].(lastState := s);
      }
    }

    method CountRunningMasters() returns (ret: nat)
      ensures ret == CountAllOp(masters[..])
    {
      ret := 0;
      for i := 0 to masters.Length
        invariant ret == CountAllOp(masters[..i])
      {
        assert masters[..i + 1][..i] == masters[..i];
        if masters[i] == AllOp {
          ret := ret + 1;
        }
      }
      assert masters[..] == masters[..masters.Length];
    }

    method StartAxles() returns (ret: int)
      modifies axles
      ensures ret == SumAnswers(old(axles[..])) && axles[..] == StartAll(old(axles[..]))
    {
      hide StartAxle, StartAnswer;
      ret := 0;
      ghost var before := axles[..];
      for i := 0 to axles.Length
        invariant ret == SumAnswers(before[..i])
        invariant forall j :: 0 <= j < i ==> axles[j] == StartAxle(before[j])
        invariant forall j :: i <= j < axles.Length ==> axles[j] == before[j]
      {
        assert before[..i + 1][..i] == before[..i];
        var answer := AxleAutoStart(i);
        ret := ret + answer;
      }
      assert before[..axles.Length] == before;
    }

    /** The auto-start block of the task: one sum over masters and axles decides the latch. */
    method AutoStart()
      modifies axles, `isAutoStart
      ensures axles[..] == if old(isAutoStart) then StartAll(old(axles[..])) else old(axles[..])
      ensures isAutoStart == (old(isAutoStart) && !EverythingRuns(old(masters[..]), old(axles[..])))
    {
      hide StartAll, EverythingRuns, CountAllOp, SumAnswers;
      if isAutoStart {
        ghost var ms, before := masters[..], axles[..];
        var ret := CountRunningMasters();
        var answers := StartAxles();
        SumTestIsExact(ms, before);
        if ret + answers == masters.Length + axles.Length {
          isAutoStart := false;
        }
      }
    }

    /** One cycle, after the statuswords have arrived and before the user's own task. */
    method Control(ghost s: System, ghost c: Choice)
      requires axleStatusUpdateFreq > 0
      requires s.counter == cycleCounter && s.auto == isAutoStart && |s.axles| == axles.Length == |c.words|
      requires c.masters == masters[..]
      requires forall i :: 0 <= i < axles.Length ==> axles[i] == s.axles[i].(statusword := c.words[i])
      modifies axles, `isAutoStart, `cycleCounter
      ensures System(axles[..], c.drives, isAutoStart, cycleCounter) == Cycle(s, c, axleStatusUpdateFreq)
    {
      UpdateAxlesStates();
      ghost var read := axles[..];
      AutoStart();
      cycleCounter := cycleCounter + 1;
      assert axles[..] == AxlesAfter(s, c, axleStatusUpdateFreq);
      StatesSurvive(masters[..], read, axles[..]);
    }
  }

  /** Starting an axle does not change what is known of it. */
  lemma StatesSurvive(ms: seq<MasterState>, before: seq<Axle>, after: seq<Axle>)
    requires |before| == |after|
    requires forall i :: 0 <= i < |before| ==> after[i] == before[i] || after[i] == StartAxle(before[i])
    ensures EverythingRuns(ms, before) == EverythingRuns(ms, after)
  {
    assert forall i :: 0 <= i < |before| ==> after[i].state == before[i].state;
  }
}
