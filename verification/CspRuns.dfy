/** Whole runs of an axis in CSP mode: cycles, start and stop requests and loads in any order. */
module CspRuns {
  import opened Arithmetic
  import opened CspTypes
  import opened CspEngine
  import opened TpLoader
  import opened Planner
  import opened Sampling
  import AxisControl
  import opened Ds402
  import opened Widths
  import RoundTrip = TpRoundTrip
  import Text = TpText

  /** What one call of the cyclic task sees on the bus. */
  datatype Cycle = Cycle(statusword: bv16, allOp: bool, position: int, velocity: int)

  /** The start sequence has to let the task through, and the whole bus has to be operational. */
  predicate Enabled(c: Cycle) {
    AxisControl.StartAnswer(c.statusword) == 1 && c.allOp
  }

  /** The drive shows that its operation is enabled, on a bus that is operational. */
  predicate Reports(c: Cycle) { Shows(OperationEnabled, c.statusword) && c.allOp }

  /** In these terms the task is enabled. */
  lemma EnabledIff(c: Cycle)
    ensures Enabled(c) <==> Reports(c)
  {
    AxisControl.LetsThroughIff(c.statusword, 0);
  }

  function Measure(st: AxisState, c: Cycle): AxisState {
    st.(currentVelocity := c.velocity, currentPosition := c.position)
  }

  /** One cycle of the task. */
  function Tick(st: AxisState, c: Cycle): AxisState
    requires Active(st) ==> st.currentTp < |st.tp|
  {
    if !Enabled(c) then st
    else if Active(st) then NextPos(Measure(st, c))
    else Measure(st, c)
  }

  function SetStart(st: AxisState): AxisState {
    if st.status == Ready then st.(status := Running) else st
  }

  function SetStop(st: AxisState): AxisState {
    if st.status == Running then st.(status := PreStop) else st
  }

  function SetScale(st: AxisState, value: int): AxisState {
    st.(settings := st.settings.(scale := Text.ToUint32(value)))
  }

  /** A start is taken by an axis that is ready, a stop by one that runs, and in every other state the
      request changes nothing; neither touches the table, the cursors or the settings. */
  lemma RequestsByStatus(st: AxisState)
    ensures st.status == Ready ==> SetStart(st).status == Running
    ensures st.status in {Stop, Running, PreStop} ==> SetStart(st) == st
    ensures st.status == Running ==> SetStop(st).status == PreStop
    ensures st.status in {Stop, Ready, PreStop} ==> SetStop(st) == st
    ensures SetStart(st).(status := st.status) == st == SetStop(st).(status := st.status)
    ensures SetStop(SetStop(SetStart(st))) == SetStop(SetStart(st)) == SetStart(SetStop(SetStart(st)))
  {
  }

  /** A scale that is set is the number given, if 32 bits hold it, and its lowest 32 bits otherwise; nothing
      else changes. */
  lemma ScaleIsSet(st: AxisState, value: int, k: int, low: nat)
    requires low < TWO_32 && value == k * TWO_32 + low
    ensures SetScale(st, value).settings.scale == low
    ensures SetScale(st, value).(settings := st.settings) == st
    ensures SetScale(st, value).settings.(scale := st.settings.scale) == st.settings
  {
  }

  // ----- the invariant -----

  predicate Inv(st: AxisState) {
    && (st.status == Stop ==> st.currentTp == 0 && AtRest(st.tp))
    && (st.status != Stop ==> Walking(st))
    && (st.status == Ready ==> st.currentTp == 0 && AtRest(st.tp))
  }

  /** When a load leaves an axis that is ready or stopping with something it can walk: a text that fails
      before the table is replaced must not turn a one-segment table cyclic, the allocation must be
      granted, and the cursor must be inside the new table -- at its start if the load succeeds. A load
      is refused while running, and harmless while stopped. */
  predicate LoadSafe(st: AxisState, text: string, granted: bool)
    requires NoTrailingBlank(text)
  {
    if st.mode != OP_MODE_CSP || st.status == Running || st.status == Stop then true else
    var sc := Scan(text, st.settings, Text.None);
    var n := if sc.list.Some? then Text.CountOpen(sc.list.value) else 0;
    if sc.code != 0 || n == 0 then !(sc.cfg.isCyclic && st.tpNum < 2)
    else if !granted then false
    else if Text.FillPairs(sc.list.value).1 then st.currentTp == 0
    else st.currentTp < if sc.cfg.isCyclic then n + 1 else n
  }

  /** That condition is exact, for every text. */
  lemma LoadKeepsInvIff(st: AxisState, text: string, period: nat, granted: bool, sqrt: real -> real)
    requires Inv(st) && st.settings.scale > 0 && period > 0 && NoTrailingBlank(text)
    ensures Inv(Load(st, text, period, granted, sqrt).1) <==> LoadSafe(st, text, granted)
  {
    hide Scan, Text.FillPairs, TableOf, Text.CountOpen;
    var sc := Scan(text, st.settings, Text.None);
    if st.mode == OP_MODE_CSP && st.status != Running && sc.code == 0 && sc.list.Some? {
      var pairs := Text.FillPairs(sc.list.value).0;
      Text.FillWithinCount(sc.list.value);
      var n := Load(st, text, period, granted, sqrt).1.tpNum;
      TableAtRest(sc.cfg, pairs, OriginPos(st), period, n, sqrt);
      if pairs != [] {
        TableAtRest(sc.cfg, Closing(sc.cfg, pairs), OriginPos(st), period, n, sqrt);
      }
    }
  }

  /** The stopping state is where the guard of the loader is missing: a complete load there leaves an axis
      that is ready with its cursor anywhere, and starting it may leave the table. */
  lemma LoadWhileStopping(st: AxisState, text: string, period: nat, sqrt: real -> real)
    requires Walking(st) && st.status == PreStop && st.mode == OP_MODE_CSP && st.settings.scale > 0
    requires period > 0 && NoTrailingBlank(text)
    requires Load(st, text, period, true, sqrt).0 == 0
    ensures var sc := Scan(text, st.settings, Text.None);
      var st' := SetStart(Load(st, text, period, true, sqrt).1);
      && sc.list.Some? && st'.status == Running
      && (st'.currentTp < |st'.tp| <==>
          st.currentTp < Text.CountOpen(sc.list.value) + if sc.cfg.isCyclic then 1 else 0)
  {
    hide Scan, Text.FillPairs, TableOf, Text.CountOpen;
  }

  /** What a list in the array clause, and nothing else, does to an axis that takes a load. */
  lemma LoadList(st: AxisState, list: string, period: nat, sqrt: real -> real)
    requires st.mode == OP_MODE_CSP && st.status != Running && st.settings.scale > 0 && period > 0
    requires ']' !in list && Text.FillPairs(list).1 && !st.settings.isCyclic
    ensures var text, n := RoundTrip.PrintList(list), Text.CountOpen(list);
      && NoTrailingBlank(text)
      && Load(st, text, period, true, sqrt) ==
         (0, st.(tpNum := n, status := Ready,
                 tp := TableOf(st.settings, Text.FillPairs(list).0, OriginPos(st), period, n, sqrt)))
  {
    RoundTrip.ListRoundTrip(list, st.settings, Text.None);
    Text.FillWithinCount(list);
    hide Scan, Text.FillPairs, TableOf, Text.CountOpen, RoundTrip.PrintList;
    var pairs := Text.FillPairs(list).0;
    assert pairs + [] == pairs;
  }

  /** A forgotten comma is accepted. The entry behind it is lost, and the table ends in a cleared segment, so
      that the axis is sent to 0 at the end, wherever it was. */
  lemma ForgottenCommaIsAccepted(st: AxisState, a: seq<(nat, nat)>, b: seq<(nat, nat)>, period: nat, sqrt: real -> real)
    requires st.mode == OP_MODE_CSP && st.status != Running && st.settings.scale > 0 && period > 0
    requires !st.settings.isCyclic && a != [] && b != [] && Text.Words(a) && Text.Words(b)
    ensures var text := RoundTrip.PrintList(Text.PrintPairs(a, ",") + Text.PrintPairs(b, ","));
      && NoTrailingBlank(text)
      && var (code, st') := Load(st, text, period, true, sqrt);
         && code == 0 && |st'.tp| == st'.tpNum == |a| + |b|
         && (forall j :: 0 <= j < |a| + |b| - 1 ==> st'.tp[j].targetPos == (a + b[1..])[j].0 as real)
         && st'.tp[|a| + |b| - 1] == EMPTY_SEGMENT
         && Position(st'.settings, st'.tp[|a| + |b| - 1], 0) == 0.0
  {
    hide *;
    var list := Text.PrintPairs(a, ",") + Text.PrintPairs(b, ",");
    Text.CommaForgotten(a, b);
    RoundTrip.NoBracket(a);
    RoundTrip.NoBracket(b);
    LoadList(st, list, period, sqrt);
    ShortTable(st.settings, a + b[1..], OriginPos(st), period, |a| + |b|, sqrt);
    ClearedIsAtZero(st.settings);
  }

  /** A table with room for one entry more. */
  lemma ShortTable(cfg: Settings, pairs: seq<(nat, nat)>, origin: real, period: nat, n: nat, sqrt: real -> real)
    requires period > 0 && n == |pairs| + 1
    ensures var tp := TableOf(cfg, pairs, origin, period, n, sqrt);
      (forall j :: 0 <= j < n - 1 ==> tp[j].targetPos == pairs[j].0 as real) && tp[n - 1] == EMPTY_SEGMENT
  {
    TableAtRest(cfg, pairs, origin, period, n, sqrt);
    var tp := TableOf(cfg, pairs, origin, period, n, sqrt);
    assert tp[n - 1] == EMPTY_SEGMENT;
    hide TableOf;
    assert forall j :: 0 <= j < n - 1 ==> IsEntry(tp[j], pairs, origin, period, j);
  }

  /** A program printed in the layout of the example files, with a scale of its own, moves the start of an
      axis that does not stand at 0: from position 1000 at scale 100, with scale 364, it begins at 3640. */
  lemma NewScaleMovesStart(st: AxisState, p: RoundTrip.Program, period: nat, sqrt: real -> real)
    requires st.mode == OP_MODE_CSP && st.status != Running && period > 0 && RoundTrip.Printable(p)
    requires st.settings.scale == 100 && st.currentPosition == 1000 && p.cfg.scale == 364
    ensures var text := RoundTrip.PrintProgram(p);
      && NoTrailingBlank(text)
      && var (code, st') := Load(st, text, period, true, sqrt);
         && code == 0 && |st'.tp| > 0 && st'.settings == p.cfg
         && Times(st'.tp[0].originPos, st'.settings.scale as real) == 3640.0
  {
    RoundTrip.ProgramRoundTrip(p, st.settings);
    hide Scan, Text.FillPairs, Text.CountOpen, TableOf, RoundTrip.PrintProgram, Text.PrintPairs;
    StartsWhereItStandsIff(st, RoundTrip.PrintProgram(p), period, true, sqrt);
    assert OriginPos(st) == 10.0 && Times(10.0, 364.0) == 3640.0;
  }

  /** What a printed array does to an axis that takes a load. */
  lemma LoadPrinted(st: AxisState, pairs: seq<(nat, nat)>, period: nat, sqrt: real -> real)
    requires st.mode == OP_MODE_CSP && st.status != Running && st.settings.scale > 0 && period > 0
    requires pairs != [] && Text.Words(pairs) && !st.settings.isCyclic
    ensures var text := RoundTrip.PrintArray(pairs);
      && NoTrailingBlank(text)
      && Load(st, text, period, true, sqrt) ==
         (0, st.(tpNum := |pairs|, status := Ready,
                 tp := TableOf(st.settings, pairs, OriginPos(st), period, |pairs|, sqrt)))
      && (LoadSafe(st, text, true) <==> st.status == Stop || st.currentTp == 0)
  {
    RoundTrip.ArrayRoundTrip(pairs, st.settings, Text.None);
    RoundTrip.NoBracket(pairs);
    Text.PairsRoundTrip(pairs);
    LoadList(st, Text.PrintPairs(pairs, ","), period, sqrt);
    hide Scan, Load, Text.FillPairs, TableOf, Text.CountOpen, RoundTrip.PrintList, Text.PrintPairs;
  }

  /** The failing side: an axis that stops in a later segment and takes a shorter table is outside it as
      soon as it is started. */
  lemma ShorterTableIsLeft(st: AxisState, pairs: seq<(nat, nat)>, period: nat, sqrt: real -> real)
    requires Walking(st) && st.status == PreStop && st.mode == OP_MODE_CSP && st.settings.scale > 0
    requires period > 0 && !st.settings.isCyclic
    requires 0 < |pairs| <= st.currentTp && Text.Words(pairs)
    ensures var text := RoundTrip.PrintArray(pairs);
      && NoTrailingBlank(text) && Load(st, text, period, true, sqrt).0 == 0
      && var st' := SetStart(Load(st, text, period, true, sqrt).1);
         st'.status == Running && |st'.tp| == |pairs| <= st'.currentTp
  {
    hide Load, TableOf;
    LoadPrinted(st, pairs, period, sqrt);
  }

  // ----- events and runs -----

  datatype Event =
    | OnCycle(c: Cycle)
    | OnStart
    | OnStop
    | OnScale(value: int)
    | OnLoad(text: string, granted: bool)

  /** Loads have to be admissible; everything else may come at any time. */
  predicate Admissible(st: AxisState, e: Event) {
    e.OnLoad? ==> st.settings.scale > 0 && NoTrailingBlank(e.text) && LoadSafe(st, e.text, e.granted)
  }

  function Step(st: AxisState, e: Event, period: nat, sqrt: real -> real): (st': AxisState)
    requires Inv(st) && Admissible(st, e) && period > 0
    ensures Inv(st')
  {
    match e
    case OnCycle(c) =>
      if Active(st) && Enabled(c) then NextPosKeepsWalking(Measure(st, c)); Tick(st, c) else Tick(st, c)
    case OnStart => SetStart(st)
    case OnStop => SetStop(st)
    case OnScale(value) => SetScale(st, value)
    case OnLoad(text, granted) =>
      LoadKeepsInvIff(st, text, period, granted, sqrt);
      Load(st, text, period, granted, sqrt).1
  }

  predicate AllAdmissible(st: AxisState, es: seq<Event>, period: nat, sqrt: real -> real)
    requires Inv(st) && period > 0
    decreases |es|
  {
    es == [] || (Admissible(st, es[0]) && AllAdmissible(Step(st, es[0], period, sqrt), es[1..], period, sqrt))
  }

  function Run(st: AxisState, es: seq<Event>, period: nat, sqrt: real -> real): AxisState
    requires Inv(st) && period > 0 && AllAdmissible(st, es, period, sqrt)
    decreases |es|
  {
    if es == [] then st else Run(Step(st, es[0], period, sqrt), es[1..], period, sqrt)
  }

  /** An axis as the program allocates it. */
  predicate Allocated(st: AxisState) {
    st.status == Stop && st.currentTp == 0 && st.tpNum == 0 && st.tp == []
  }

  /** The run invariant: in every run of admissible events from the start, a moving axis has both cursors
      inside its table, a cyclic table that is loaded has a segment to wrap to, and an axis that does
      not move stands at the start. */
  lemma RunInvariant(st: AxisState, es: seq<Event>, period: nat, sqrt: real -> real)
    requires Allocated(st) && period > 0 && AllAdmissible(st, es, period, sqrt)
    ensures var st' := Run(st, es, period, sqrt);
      && (Active(st') ==> (st'.currentTp < st'.tpNum == |st'.tp|
            && st'.tp[st'.currentTp].currentPoint < Samples(st'.tp[st'.currentTp])))
      && (st'.status != Stop && st'.settings.isCyclic ==> 2 <= st'.tpNum)
      && (st'.status == Stop || st'.status == Ready ==>
            st'.currentTp == 0 && forall i :: 0 <= i < |st'.tp| ==> st'.tp[i].currentPoint == 0)
  {
    RunKeepsInv(st, es, period, sqrt);
  }

  function Five(text: string, c: Cycle): seq<Event> { [OnScale(1)] + ([OnLoad(text, true)] + StartAndStop(c)) }

  function StartAndStop(c: Cycle): seq<Event> { [OnStart] + ([OnCycle(c)] + ([OnStop] + [])) }

  /** Such an axis is reached in five events: it is scaled, loaded with two entries of which the first takes
      no time, started, run for a cycle and told to stop. */
  lemma StoppingLateIsReached(st: AxisState, pairs: seq<(nat, nat)>, c: Cycle, period: nat, sqrt: real -> real)
    requires Allocated(st) && st.mode == OP_MODE_CSP && !st.settings.isCyclic && period > 0 && Enabled(c)
    requires |pairs| == 2 && Text.Words(pairs) && pairs[0].1 == 0
    ensures var es := Five(RoundTrip.PrintArray(pairs), c);
      && AllAdmissible(st, es, period, sqrt)
      && var t := Run(st, es, period, sqrt);
         && Walking(t) && t.status == PreStop && t.currentTp == 1
         && t.mode == OP_MODE_CSP && t.settings.scale == 1 && !t.settings.isCyclic
  {
    var text, s1 := RoundTrip.PrintArray(pairs), SetScale(st, 1);
    TwoEntries(s1, pairs, period, sqrt);
    FirstEvents(st, text, period, sqrt);
    hide *;
    var s2 := Load(s1, text, period, true, sqrt).1;
    StartedAndStopped(s2, c, period, sqrt);
    RunCons(s1, OnLoad(text, true), StartAndStop(c), period, sqrt);
    RunCons(st, OnScale(1), [OnLoad(text, true)] + StartAndStop(c), period, sqrt);
  }

  lemma FirstEvents(st: AxisState, text: string, period: nat, sqrt: real -> real)
    requires Allocated(st) && period > 0 && NoTrailingBlank(text) && LoadSafe(SetScale(st, 1), text, true)
    ensures Inv(st) && Admissible(st, OnScale(1)) && Step(st, OnScale(1), period, sqrt) == SetScale(st, 1)
    ensures var s1 := SetScale(st, 1);
      && Inv(s1) && s1.settings.scale == 1 && Admissible(s1, OnLoad(text, true))
      && Step(s1, OnLoad(text, true), period, sqrt) == Load(s1, text, period, true, sqrt).1
      && s1.mode == st.mode && s1.settings.isCyclic == st.settings.isCyclic
  {
    hide Load, LoadSafe, NoTrailingBlank;
  }

  lemma StartedAndStopped(st: AxisState, c: Cycle, period: nat, sqrt: real -> real)
    requires st.status == Ready && st.tpNum == |st.tp| == 2 && st.currentTp == 0 && AtRest(st.tp)
    requires st.tp[0].pointsNum == 0 && Enabled(c) && !st.settings.isCyclic && period > 0
    ensures Inv(st) && AllAdmissible(st, StartAndStop(c), period, sqrt)
    ensures var t := Run(st, StartAndStop(c), period, sqrt);
      && Walking(t) && t.status == PreStop && t.currentTp == 1 && t.mode == st.mode && t.settings == st.settings
  {
    var s3 := SetStart(st);
    var s4 := Tick(s3, c);
    SecondOfTwo(s3, c);
    hide Tick, Enabled, Load;
    RunNil(SetStop(s4), period, sqrt);
    RunCons(s4, OnStop, [], period, sqrt);
    RunCons(s3, OnCycle(c), [OnStop] + [], period, sqrt);
    RunCons(st, OnStart, [OnCycle(c)] + ([OnStop] + []), period, sqrt);
    hide AllAdmissible, Run;
  }

  lemma TwoEntries(st: AxisState, pairs: seq<(nat, nat)>, period: nat, sqrt: real -> real)
    requires st.mode == OP_MODE_CSP && st.status == Stop && st.currentTp == 0 && st.settings.scale > 0
    requires period > 0 && !st.settings.isCyclic && |pairs| == 2 && Text.Words(pairs) && pairs[0].1 == 0
    ensures var text := RoundTrip.PrintArray(pairs);
      && NoTrailingBlank(text) && LoadSafe(st, text, true)
      && var s := Load(st, text, period, true, sqrt).1;
         && s.status == Ready && s.tpNum == |s.tp| == 2 && s.currentTp == 0 && AtRest(s.tp)
         && s.tp[0].pointsNum == 0 && s.settings == st.settings && s.mode == st.mode
  {
    hide Load, LoadSafe, TableOf, RoundTrip.PrintArray, Text.Words;
    LoadPrinted(st, pairs, period, sqrt);
    TableAtRest(st.settings, pairs, OriginPos(st), period, 2, sqrt);
    assert IsEntry(TableOf(st.settings, pairs, OriginPos(st), period, 2, sqrt)[0], pairs, OriginPos(st), period, 0);
  }

  lemma SecondOfTwo(st: AxisState, c: Cycle)
    requires st.status == Running && st.tpNum == |st.tp| == 2 && st.currentTp == 0 && AtRest(st.tp)
    requires st.tp[0].pointsNum == 0 && Enabled(c)
    ensures Walking(Tick(st, c)) && Tick(st, c).status == Running && Tick(st, c).currentTp == 1
    ensures Tick(st, c).settings == st.settings && Tick(st, c).mode == st.mode
  {
  }

  lemma RunNil(st: AxisState, period: nat, sqrt: real -> real)
    requires Inv(st) && period > 0
    ensures AllAdmissible(st, [], period, sqrt) && Run(st, [], period, sqrt) == st
  {
  }

  lemma RunCons(st: AxisState, e: Event, es: seq<Event>, period: nat, sqrt: real -> real)
    requires Inv(st) && period > 0 && Admissible(st, e) && AllAdmissible(Step(st, e, period, sqrt), es, period, sqrt)
    ensures AllAdmissible(st, [e] + es, period, sqrt)
    ensures Run(st, [e] + es, period, sqrt) == Run(Step(st, e, period, sqrt), es, period, sqrt)
  {
    hide Step, Admissible, Inv;
    assert ([e] + es)[0] == e && ([e] + es)[1..] == es;
  }

  /** Every admissible event keeps the invariant, and so does every run. */
  lemma {:induction false} RunKeepsInv(st: AxisState, es: seq<Event>, period: nat, sqrt: real -> real)
    requires Inv(st) && period > 0 && AllAdmissible(st, es, period, sqrt)
    ensures Inv(Run(st, es, period, sqrt))
    decreases |es|
  {
    hide Inv, Step, Admissible;
    if es != [] {
      RunKeepsInv(Step(st, es[0], period, sqrt), es[1..], period, sqrt);
    }
  }

  // ----- pauses -----

  function Cycles(st: AxisState, cs: seq<Cycle>): (st': AxisState)
    requires Inv(st)
    ensures Inv(st')
    decreases |cs|
  {
    if cs == [] then st else
    var p := Cycles(st, cs[..|cs| - 1]);
    var c := cs[|cs| - 1];
    if Active(p) && Enabled(c) then NextPosKeepsWalking(Measure(p, c)); Tick(p, c) else Tick(p, c)
  }

  function Passes(cs: seq<Cycle>): nat {
    if cs == [] then 0
    else Passes(cs[..|cs| - 1]) + if Enabled(cs[|cs| - 1]) then 1 else 0
  }

  predicate SameWalk(a: AxisState, b: AxisState) {
    a.settings == b.settings && a.status == b.status && a.tpNum == b.tpNum
    && a.currentTp == b.currentTp && a.tp == b.tp
  }

  /** Cycles in which the drive or the bus is not ready pause the stream and do nothing else: the walk
      only depends on how many cycles were let through. */
  lemma {:induction false} PausesAreHarmless(st: AxisState, cs: seq<Cycle>)
    requires Inv(st) && st.status != Stop
    ensures SameWalk(Cycles(st, cs), Ticks(st, Passes(cs)))
    decreases |cs|
  {
    hide Tick, NextPos, Enabled, Walking, SameWalk;
    if cs == [] {
      SameAsItself(st);
    } else {
      var front, c := cs[..|cs| - 1], cs[|cs| - 1];
      PausesAreHarmless(st, front);
      OneCycle(Cycles(st, front), Ticks(st, Passes(front)), c);
    }
  }

  lemma SameAsItself(st: AxisState)
    ensures SameWalk(st, st)
  {
  }

  lemma OneCycle(p: AxisState, q: AxisState, c: Cycle)
    requires Inv(p) && Walking(q) && SameWalk(p, q)
    ensures SameWalk(Tick(p, c), if Enabled(c) && Active(q) then NextPos(q) else q)
  {
  }

  /** The measurement an axis holds is that of the last cycle in which the drive was enabled and the bus
      operational, and while there is none it stays as it was. */
  lemma {:induction false} MeasuredLast(st: AxisState, cs: seq<Cycle>, k: nat)
    requires Inv(st) && k <= |cs|
    requires k > 0 ==> Reports(cs[k - 1])
    requires forall j :: k <= j < |cs| ==> !Reports(cs[j])
    ensures var t := Cycles(st, cs);
      && t.currentPosition == (if k == 0 then st.currentPosition else cs[k - 1].position)
      && t.currentVelocity == (if k == 0 then st.currentVelocity else cs[k - 1].velocity)
      && t.settings == st.settings && t.mode == st.mode
    decreases |cs|
  {
    hide Enabled, Reports, Inv;
    if cs != [] {
      var front, c := cs[..|cs| - 1], cs[|cs| - 1];
      EnabledIff(c);
      InvCovers(Cycles(st, front));
      OneMeasurement(Cycles(st, front), c);
      if k < |cs| {
        MeasuredLast(st, front, k);
      } else {
        CyclesKeepSettings(st, front);
      }
    }
  }

  lemma InvCovers(st: AxisState)
    requires Inv(st)
    ensures Active(st) ==> st.currentTp < |st.tp|
  {
  }

  lemma OneMeasurement(st: AxisState, c: Cycle)
    requires Active(st) ==> st.currentTp < |st.tp|
    ensures var t := Tick(st, c);
      && t.currentPosition == (if Enabled(c) then c.position else st.currentPosition)
      && t.currentVelocity == (if Enabled(c) then c.velocity else st.currentVelocity)
      && t.settings == st.settings && t.mode == st.mode
  {
    hide Enabled;
  }

  lemma {:induction false} CyclesKeepSettings(st: AxisState, cs: seq<Cycle>)
    requires Inv(st)
    ensures Cycles(st, cs).settings == st.settings && Cycles(st, cs).mode == st.mode
    decreases |cs|
  {
    hide Enabled, Tick;
    if cs != [] {
      CyclesKeepSettings(st, cs[..|cs| - 1]);
      OneMeasurement(Cycles(st, cs[..|cs| - 1]), cs[|cs| - 1]);
    }
  }

  /** The positions commanded in a sequence of cycles. */
  function Commanded(st: AxisState, cs: seq<Cycle>): seq<real>
    requires Inv(st)
    decreases |cs|
  {
    if cs == [] then [] else
    var front := cs[..|cs| - 1];
    var p := Cycles(st, front);
    Commanded(st, front) + if Active(p) && Enabled(cs[|cs| - 1]) then [CurrentPos(p)] else []
  }

  /** A walk that is active was so all the time. */
  lemma {:induction false} ActiveBefore(st: AxisState, i: nat, k: nat)
    requires Walking(st) && i <= k && Active(Ticks(st, k))
    ensures Active(Ticks(st, i))
    decreases k
  {
    hide NextPos, Walking;
    if i < k {
      ActiveBefore(st, i, k - 1);
    }
  }

  /** No sample of the stream is skipped or repeated, however the cycles that are let through and those
      that are not alternate: the commands are the samples of the walk, one for each cycle let through
      until the walk is over. */
  lemma {:induction false} NothingSkipped(st: AxisState, cs: seq<Cycle>)
    requires Inv(st) && st.status != Stop
    ensures var n := |Commanded(st, cs)|;
      && n <= Passes(cs) && (n < Passes(cs) ==> !Active(Ticks(st, n)))
      && forall i :: 0 <= i < n ==> Active(Ticks(st, i)) && Commanded(st, cs)[i] == CurrentPos(Ticks(st, i))
    decreases |cs|
  {
    hide Tick, NextPos, Enabled, Walking, SameWalk, Position, CurrentPos;
    if cs != [] {
      var front := cs[..|cs| - 1];
      NothingSkipped(st, front);
      PausesAreHarmless(st, front);
      SameSample(Cycles(st, front), Ticks(st, Passes(front)));
      if Active(Ticks(st, Passes(front))) {
        ActiveBefore(st, |Commanded(st, front)|, Passes(front));
      }
    }
  }

  lemma SameSample(p: AxisState, q: AxisState)
    requires Walking(q) && SameWalk(p, q)
    ensures Active(p) == Active(q) && p.currentTp < |p.tp| && CurrentPos(p) == CurrentPos(q)
  {
  }

  /** The exact stop over cycles: a walk that will not wrap is over exactly when as many cycles were let
      through as there are samples left, and as many positions are commanded as there are of both. */
  lemma StopsExactly(st: AxisState, cs: seq<Cycle>)
    requires Walking(st)
    requires st.status == PreStop || (st.status == Running && !st.settings.isCyclic)
    ensures Progress(st) < Total(st)
    ensures Cycles(st, cs).status == Stop <==> Passes(cs) >= Total(st) - Progress(st)
    ensures var left := Total(st) - Progress(st);
      |Commanded(st, cs)| == if Passes(cs) < left then Passes(cs) else left
  {
    hide *;
    StatusTells(st);
    var left, n := Total(st) - Progress(st), |Commanded(st, cs)|;
    PausesAreHarmless(st, cs);
    SameStatus(Cycles(st, cs), Ticks(st, Passes(cs)));
    NothingSkipped(st, cs);
    ExactStop(st, Passes(cs));
    ExactStop(st, left);
    ExactStop(st, n);
    StatusTells(Ticks(st, left));
    StatusTells(Ticks(st, n));
  }

  lemma StatusTells(st: AxisState)
    ensures Active(st) <==> st.status == Running || st.status == PreStop
    ensures Walking(st) && Active(st) ==> Inv(st)
  {
  }

  lemma SameStatus(a: AxisState, b: AxisState)
    requires SameWalk(a, b)
    ensures a.status == b.status
  {
  }

  // ----- smoothness of whole streams -----

  lemma {:induction false} TicksKeepPlan(st: AxisState, k: nat)
    requires Walking(st) && AllPlanned(st) && Chained(st)
    ensures AllPlanned(Ticks(st, k)) && Chained(Ticks(st, k))
  {
    hide NextPos, Walking, AllPlanned, Chained;
    if k > 0 {
      TicksKeepPlan(st, k - 1);
      var p := Ticks(st, k - 1);
      if Active(p) {
        NextPosKeepsPlan(p);
      }
    }
  }

  lemma NextPosKeepsPlan(st: AxisState)
    requires Walking(st) && Active(st) && AllPlanned(st) && Chained(st)
    ensures AllPlanned(NextPos(st)) && Chained(NextPos(st))
  {
    hide Planned;
    var i, st' := st.currentTp, NextPos(st);
    assert st'.tp == st.tp[i := st'.tp[i]];
    CursorKeepsPlan(st.settings, st.tp[i], st'.tp[i]);
  }

  lemma CursorKeepsPlan(cfg: Settings, s: Segment, s': Segment)
    requires Planned(cfg, s) && s' == s.(currentPoint := s'.currentPoint)
    ensures Planned(cfg, s')
  {
    hide Fits, ToPoint;
    var t0, t1 :| PlannedWith(cfg, s, t0, t1);
    assert PlannedWith(cfg, s', t0, t1);
  }

  /** From text to motion: when a well-formed text is loaded, every plan is accepted and the axis is
      started, no two successive positions of the stream, at any time and across every segment border
      and wrap, are further apart than the step limit. */
  lemma LoadedStreamIsSmooth(st: AxisState, text: string, period: nat, sqrt: real -> real, k: nat)
    requires IsSqrt(sqrt) && Inv(st) && st.settings.scale > 0 && period > 0 && NoTrailingBlank(text)
    requires Load(st, text, period, true, sqrt).0 == 0 && LoadSafe(st, text, true)
    requires WellFormed(Scan(text, st.settings, Text.None).list.value)
    requires EveryPlanAccepted(st, text, period, sqrt)
    ensures var go := SetStart(Load(st, text, period, true, sqrt).1);
      && FreshlyStarted(go)
      && (Active(Ticks(go, k + 1)) ==>
            Abs(CurrentPos(Ticks(go, k + 1)) - CurrentPos(Ticks(go, k))) <= StepLimit(go.settings))
  {
    hide *;
    LoadedStarts(st, text, period, sqrt);
    var go := SetStart(Load(st, text, period, true, sqrt).1);
    FreshWalks(go);
    TicksKeepPlan(go, k);
    if Active(Ticks(go, k + 1)) {
      StepOfStream(go, k);
    }
  }

  lemma LoadedStarts(st: AxisState, text: string, period: nat, sqrt: real -> real)
    requires IsSqrt(sqrt) && Inv(st) && st.settings.scale > 0 && period > 0 && NoTrailingBlank(text)
    requires Load(st, text, period, true, sqrt).0 == 0 && LoadSafe(st, text, true)
    requires WellFormed(Scan(text, st.settings, Text.None).list.value)
    requires EveryPlanAccepted(st, text, period, sqrt)
    ensures var go := SetStart(Load(st, text, period, true, sqrt).1);
      FreshlyStarted(go) && AllPlanned(go) && Chained(go)
  {
    hide Scan, Text.FillPairs, Load, LoadSafe, EveryPlanAccepted, AllPlanned, Chained;
    var ld := Load(st, text, period, true, sqrt).1;
    LoadKeepsInvIff(st, text, period, true, sqrt);
    LoadedReady(st, text, period, sqrt);
    LoadedIsChained(st, text, period, true, sqrt);
    LoadedIsPlanned(st, text, period, true, sqrt);
    SameTable(ld, SetStart(ld));
  }

  /** The first position commanded after a load and a start is within a quarter of a full-speed step of the
      measured one, in units of the scale that was in force before the load. */
  lemma FirstCommandIsClose(st: AxisState, text: string, period: nat, sqrt: real -> real)
    requires IsSqrt(sqrt) && Inv(st) && st.settings.scale > 0 && period > 0 && NoTrailingBlank(text)
    requires Load(st, text, period, true, sqrt).0 == 0 && LoadSafe(st, text, true)
    requires WellFormed(Scan(text, st.settings, Text.None).list.value)
    requires EveryPlanAccepted(st, text, period, sqrt)
    ensures var go := SetStart(Load(st, text, period, true, sqrt).1);
      && go.currentTp < |go.tp| && Abs(CurrentPos(go) - OriginPos(st)) <= 0.25 * go.settings.maxSpeed
  {
    hide *;
    LoadedStarts(st, text, period, sqrt);
    StartsWhereItStandsIff(st, text, period, true, sqrt);
    var ld := Load(st, text, period, true, sqrt).1;
    Starting(ld);
    StartsAtOrigin(SetStart(ld));
  }

  lemma Starting(st: AxisState)
    ensures SetStart(st).tp == st.tp && SetStart(st).settings == st.settings
  {
  }

  lemma StartsAtOrigin(st: AxisState)
    requires FreshlyStarted(st) && AllPlanned(st)
    ensures st.currentTp < |st.tp| && |st.tp| > 0
    ensures Abs(CurrentPos(st) - st.tp[0].originPos) <= 0.25 * st.settings.maxSpeed
  {
    hide Planned, Position;
    FirstInSegment(st.settings, st.tp[0]);
  }

  lemma FreshWalks(st: AxisState)
    requires FreshlyStarted(st)
    ensures Walking(st)
  {
  }

  lemma StepOfStream(st: AxisState, k: nat)
    requires Walking(st) && AllPlanned(Ticks(st, k)) && Chained(Ticks(st, k)) && Active(Ticks(st, k + 1))
    ensures Abs(CurrentPos(Ticks(st, k + 1)) - CurrentPos(Ticks(st, k))) <= StepLimit(st.settings)
  {
    hide Walking, AllPlanned, Chained, NextPos, CurrentPos, StepLimit;
    StreamIsSmooth(Ticks(st, k));
  }

  lemma SameTable(a: AxisState, b: AxisState)
    requires a.tp == b.tp && a.settings == b.settings && AllPlanned(a) && Chained(a)
    ensures AllPlanned(b) && Chained(b)
  {
    hide Planned;
  }

  lemma LoadedReady(st: AxisState, text: string, period: nat, sqrt: real -> real)
    requires Inv(st) && st.settings.scale > 0 && period > 0 && NoTrailingBlank(text)
    requires Load(st, text, period, true, sqrt).0 == 0
    ensures Load(st, text, period, true, sqrt).1.status == Ready
  {
    hide Scan, Text.FillPairs, TableOf, Text.CountOpen;
  }
}
