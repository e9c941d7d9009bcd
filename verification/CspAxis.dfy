/** The CSP axis as the server keeps it: fields that the planner, the sampler, the loader and the
    commands update in place. Each method is tied to a function on the axis as a value. */
module CspAxis {
  import opened CspTypes
  import opened CspEngine
  import opened CspRuns
  import opened Planner
  import opened Sampling
  import opened TpLoader
  import opened Arithmetic
  import opened AxisControl
  import opened Ds402
  import opened Widths
  import Text = TpText

  /** The cast `(uint32_t)value`, where C defines it. */
  predicate CastDefined(v: real) { -1.0 < v < TWO_32 as real }

  function Cast(v: real): (w: nat)
    requires CastDefined(v)
    ensures w < TWO_32 && (v >= 0.0 ==> w as real <= v < w as real + 1.0)
  {
    if v < 0.0 then 0 else v.Floor
  }

  /** What a position given in user units is turned into: its scaled word, and outside the range of the
      cast any word at all. */
  ghost predicate IsWordFor(position: real, scale: nat, w: int) {
    var v := Times(position, scale as real);
    0 <= w < TWO_32 && (CastDefined(v) ==> w == Cast(v))
  }

  class Axis {
    var mode: nat
    var currentPosition: int
    var currentVelocity: int
    var scale: nat
    var bias: int
    var isCyclic: bool
    var acceleration: real
    var deceleration: real
    var maxSpeed: real
    var status: CspStatus
    var tpNum: nat
    var currentTp: nat
    var tp: array<Segment>

    function Config(): Settings
      reads this
    {
      Settings(isCyclic, scale, bias, acceleration, deceleration, maxSpeed)
    }

    ghost function View(): AxisState
      reads this, tp
    {
      AxisState(mode, currentPosition, currentVelocity, Config(), status, tpNum, currentTp, tp[..])
    }

    /** A cleared axis. */
    constructor (mode: nat)
      ensures View().mode == mode && Allocated(View())
      ensures fresh(tp)
    {
      this.mode := mode;
      currentPosition, currentVelocity, scale, bias, isCyclic := 0, 0, 0, 0, false;
      acceleration, deceleration, maxSpeed := 0.0, 0.0, 0.0;
      status, tpNum, currentTp := Stop, 0, 0;
      tp := new Segment[0];
    }

    method TrajectoryPlanner(i: nat, sqrt: real -> real) returns (ret: int)
      requires i < tp.Length
      modifies tp
      ensures (ret, tp[i]) == Plan(Config(), old(tp[i]), sqrt)
      ensures tp[..] == old(tp[..])[i := tp[i]]
    {
      hide Times, Half, LeadCoefficient, Discriminant, CornerUp, CornerDown, ToPoint;
      var accel, decel, n := acceleration, deceleration, tp[i].pointsNum as real;
      var deltaPos := tp[i].targetPos - tp[i].originPos;
      tp[i] := tp[i].(direction := 1);
      if deltaPos < 0.0 {
        tp[i] := tp[i].(direction := -1);
        deltaPos := -deltaPos;
      }
      if accel <= 0.0 || decel <= 0.0 {
        return -1;
      }
      assert deltaPos == Abs(tp[i].targetPos - tp[i].originPos);
      var delta := Discriminant(accel, decel, n, deltaPos);
      if delta < 0.0 {
        return -1;
      }
      var t0 := CornerUp(accel, decel, n, sqrt(delta));
      var t1 := CornerDown(accel, decel, n, t0);
      assert t0 == T0(Config(), old(tp[i]), sqrt) && t1 == T1(Config(), old(tp[i]), sqrt);
      hide T0, T1, Solvable;
      if Times(accel, t0) > maxSpeed {
        return -2;
      }
      tp[i] := tp[i].(accelPos := Half(accel, t0),
                      decelPos := Half(accel, t0) + Times(Times(accel, t0), t1 - t0),
                      pointAccelEnd := ToPoint(t0),
                      pointDecelStart := ToPoint(t1),
                      uniformSpeed := Times(accel, t0));
      return 0;
    }

    /** Scale a position and cast it. Outside the range of the cast any word may come. */
    method ScaleToWord(position: real) returns (ret: nat)
      ensures IsWordFor(position, scale, ret)
    {
      var value := position * scale as real;
      if CastDefined(value) {
        ret := Cast(value);
      } else {
        ret :| ret < TWO_32;
      }
    }

    /** The next target position. */
    method GetNextPos() returns (ret: nat)
      requires currentTp < tp.Length
      modifies `currentTp, `status, tp
      ensures View() == NextPos(old(View()))
      ensures IsWordFor(CurrentPos(old(View())), scale, ret)
    {
      var i := currentTp;
      var value := Offset(Config(), tp[i], tp[i].currentPoint);
      value := value * tp[i].direction as real;
      value := value + tp[i].originPos;
      assert value == CurrentPos(View());
      hide CurrentPos, IsWordFor, Offset;
      ret := ScaleToWord(value);
      tp[i] := tp[i].(currentPoint := tp[i].currentPoint + 1);
      if tp[i].currentPoint < tp[i].pointsNum {
        return;
      }
      tp[i] := tp[i].(currentPoint := 0);
      currentTp := currentTp + 1;
      if currentTp < tpNum {
        return;
      }
      if isCyclic && status != PreStop {
        currentTp := 1;
      } else {
        status := Stop;
        currentTp := 0;
      }
    }

    /** One cycle of the task in CSP mode. */
    method CspUpdateTargetPosition(pdo: ProcessImage, allOp: bool)
      requires Active(View()) ==> currentTp < tp.Length
      modifies this, tp, pdo`controlword, pdo`modesOfOperation, pdo`targetPosition
      ensures var c := Cycle(pdo.statusword, allOp, pdo.positionActual, pdo.velocityActual);
        && View() == Tick(old(View()), c)
        && if Enabled(c) && Active(old(View()))
           then IsWordFor(CurrentPos(old(View())), scale, pdo.targetPosition)
           else pdo.targetPosition == old(pdo.targetPosition)
      ensures var measured := Reports(Cycle(pdo.statusword, allOp, pdo.positionActual, pdo.velocityActual));
        && currentPosition == (if measured then pdo.positionActual else old(currentPosition))
        && currentVelocity == (if measured then pdo.velocityActual else old(currentVelocity))
      ensures pdo.controlword == StartControl(pdo.statusword, old(pdo.controlword))
      ensures pdo.modesOfOperation ==
              if Shows(SwitchedOn, pdo.statusword) then OP_MODE_CSP else old(pdo.modesOfOperation)
    {
      EnabledIff(Cycle(pdo.statusword, allOp, pdo.positionActual, pdo.velocityActual));
      SetsModeIff(pdo.statusword);
      hide Shows, Reports, Position, NextPos, StartControl, SetsMode, StartAnswer, IsWordFor, CurrentPos;
      ghost var before, c := View(), Cycle(pdo.statusword, allOp, pdo.positionActual, pdo.velocityActual);
      var started := AxisStart(pdo, OP_MODE_CSP);
      if started != 1 {
        return;
      }
      if allOp {
        currentVelocity := pdo.velocityActual;
        currentPosition := pdo.positionActual;
        if status == Running || status == PreStop {
          MeasuringKeepsPos(before, c);
          assert View() == Measure(before, c);
          var next := GetNextPos();
          pdo.targetPosition := next;
        }
      }
    }

    method SetStart()
      modifies `status
      ensures View() == CspRuns.SetStart(old(View()))
    {
      if status == Ready {
        status := Running;
      }
    }

    method SetStop()
      modifies `status
      ensures View() == CspRuns.SetStop(old(View()))
    {
      if status == Running {
        status := PreStop;
      }
    }

    method SetScale(value: int)
      modifies `scale
      ensures View() == CspRuns.SetScale(old(View()), value)
    {
      scale := Text.ToUint32(value);
    }

    method Configure(cfg: Settings)
      modifies `isCyclic, `scale, `bias, `acceleration, `deceleration, `maxSpeed
      ensures Config() == cfg
    {
      isCyclic, scale, bias := cfg.isCyclic, cfg.scale, cfg.bias;
      acceleration, deceleration, maxSpeed := cfg.acceleration, cfg.deceleration, cfg.maxSpeed;
    }

    /** The clause scan: settings take effect one by one, also when a later clause is refused. */
    method ScanText(text: string) returns (code: int, list: Text.Option<string>)
      requires NoTrailingBlank(text)
      modifies `isCyclic, `scale, `bias, `acceleration, `deceleration, `maxSpeed
      ensures Scanned(code, Config(), list) == Scan(text, old(Config()), Text.None)
    {
      hide Scan, ScanRound, NoTrailingBlank;
      var p := 0;
      list := Text.None;
      assert text[p..] == text;
      while p < |text|
        invariant p <= |text| && NoTrailingBlank(text[p..])
        invariant Scan(text[p..], Config(), list) == Scan(text, old(Config()), Text.None)
      {
        ScanStep(text[p..], Config(), list);
        match ScanRound(Text.SkipBlanks(text[p..]), Config(), list) {
          case Over(answer) =>
            return answer, list;
          case On(rest, cfg, found) =>
            Configure(cfg);
            list := found;
            p := |text| - |rest|;
            assert text[p..] == rest;
        }
      }
      assert text[p..] == "";
      ScanEnd(Config(), list);
      code := 0;
    }

    /** The count pass. */
    method CountEntries(list: string) returns (n: nat)
      ensures n == Text.CountOpen(list)
    {
      n := 0;
      var p := 0;
      while p <= |list|
        invariant p <= |list| + 1
        invariant p <= |list| ==> n + Text.CountOpen(list[p..]) == Text.CountOpen(list)
        invariant p == |list| + 1 ==> n == Text.CountOpen(list)
      {
        var rest := list[p..];
        Text.CountToNext(rest);
        match Text.IndexOf(rest, '(') {
          case None =>
            p := |list| + 1;
          case Some(i) =>
            n, p := n + 1, p + i + 1;
            assert list[p..] == rest[i + 1..];
        }
      }
    }

    method StoreEntry(i: nat, pair: (nat, nat), origin: real, period: nat, sqrt: real -> real)
      requires i < tp.Length && period > 0
      modifies tp
      ensures tp[..] == old(tp[..])[i := Plan(Config(), EMPTY_SEGMENT.(
                pointsNum := Points(pair.1, period), originPos := origin, targetPos := pair.0 as real), sqrt).1]
    {
      tp[i] := EMPTY_SEGMENT.(pointsNum := Points(pair.1, period), originPos := origin, targetPos := pair.0 as real);
      var answer := TrajectoryPlanner(i, sqrt);
    }

    /** The fill pass: plan the entries one after the other into a cleared table; the planner's answers
        are not looked at. */
    method FillTable(list: string, origin: real, period: nat, sqrt: real -> real)
        returns (complete: bool, ghost pairs: seq<(nat, nat)>)
      requires period > 0 && Text.CountOpen(list) <= tp.Length
      requires isCyclic ==> Text.CountOpen(list) < tp.Length
      requires forall j :: 0 <= j < tp.Length ==> tp[j] == EMPTY_SEGMENT
      modifies tp
      ensures (pairs, complete) == Text.FillPairs(list) && (complete ==> pairs != [])
      ensures tp[..] == TableOf(Config(), if complete then Closing(Config(), pairs) else pairs,
                                origin, period, tp.Length, sqrt)
    {
      hide Text.FillPairs, Text.CountOpen, Text.ScanPair, Text.IndexOf, TableOf, Plan;
      var i, p, start := 0, 0, origin;
      pairs := [];
      ghost var n := tp.Length;
      Text.FillWithinCount(list);
      assert list[0..] == list && [] + Text.FillPairs(list).0 == Text.FillPairs(list).0;
      EmptyTable(Config(), origin, period, n, sqrt);
      assert tp[..] == TableOf(Config(), [], origin, period, n, sqrt);
      complete := false;
      while !complete
        invariant p <= |list| && i == |pairs|
        invariant complete ==> pairs != [] && (pairs, true) == Text.FillPairs(list)
        invariant !complete ==>
                    Text.FillPairs(list) == (pairs + Text.FillPairs(list[p..]).0, Text.FillPairs(list[p..]).1)
        invariant start == if pairs == [] then origin else pairs[i - 1].0 as real
        invariant tp[..] == TableOf(Config(), pairs, origin, period, n, sqrt)
        decreases !complete, |list| - p
      {
        var rest := list[p..];
        var entry := Text.ScanPair(rest);
        Text.OneMore(list, rest, pairs);
        if entry.None? {
          return;
        }
        TableGrows(Config(), pairs, entry.value, origin, period, n, sqrt);
        StoreEntry(i, entry.value, start, period, sqrt);
        start, i := entry.value.0 as real, i + 1;
        pairs := pairs + [entry.value];
        match Text.IndexOf(rest, ',') {
          case None =>
            complete := true;
          case Some(k) =>
            SuffixTwice(list, p, k + 1);
            p := p + k + 1;
        }
      }
      if isCyclic {
        var first := Text.ScanPair(list);
        TableGrows(Config(), pairs, pairs[0], origin, period, n, sqrt);
        StoreEntry(i, first.value, start, period, sqrt);
      } else {
        assert pairs + [] == pairs;
      }
    }

    /** Loading a trajectory text. */
    method TpArraysPaster(text: string, period: nat, granted: bool, sqrt: real -> real) returns (ret: int)
      requires scale > 0 && period > 0 && NoTrailingBlank(text)
      modifies this
      ensures (ret, View()) == Load(old(View()), text, period, granted, sqrt)
    {
      hide Scan, Text.FillPairs, TableOf, Text.CountOpen;
      var origin := currentPosition as real / scale as real;
      if mode != OP_MODE_CSP {
        return -1;
      }
      if status == Running {
        return -2;
      }
      var code, list := ScanText(text);
      if code != 0 {
        return code;
      }
      if list.None? {
        return -3;
      }
      var n := CountEntries(list.value);
      if n == 0 {
        return -3;
      }
      if isCyclic {
        n := n + 1;
      }
      if !granted {
        tp := new Segment[0];
        assert tp[..] == [];
        return -4;
      }
      tp := new Segment[n](_ => EMPTY_SEGMENT);
      tpNum := n;
      var complete, pairs := FillTable(list.value, origin, period, sqrt);
      if !complete {
        return -5;
      }
      status := Ready;
      return 0;
    }
  }

  lemma MeasuringKeepsPos(st: AxisState, c: Cycle)
    requires st.currentTp < |st.tp|
    ensures CurrentPos(Measure(st, c)) == CurrentPos(st)
  {
  }

  // ----- what goes over the bus -----

  lemma CastApart(x: real, y: real)
    requires CastDefined(x) && CastDefined(y)
    ensures Abs((Cast(x) - Cast(y)) as real) < Abs(x - y) + 1.0
  {
  }

  /** The words written for a sequence of positions. */
  ghost predicate WordsFor(positions: seq<real>, scale: nat, words: seq<int>) {
    |words| == |positions| && forall i :: 0 <= i < |words| ==> IsWordFor(positions[i], scale, words[i])
  }

  /** Whatever cycles a planned and chained table is run through, pauses included: where the cast is
      defined, successive words differ by at most the scaled step limit, and less than one for the dropped
      fraction. */
  lemma WordsAreSmooth(go: AxisState, cs: seq<Cycle>, words: seq<int>, i: nat)
    requires Walking(go) && Active(go) && AllPlanned(go) && Chained(go)
    requires WordsFor(Commanded(go, cs), go.settings.scale, words) && i + 1 < |words|
    requires InRange(Commanded(go, cs)[i], go.settings.scale)
    requires InRange(Commanded(go, cs)[i + 1], go.settings.scale)
    ensures WordsWithin(words[i + 1], words[i], go.settings.scale, StepLimit(go.settings))
  {
    hide Walking, AllPlanned, Chained, CurrentPos, StepLimit, NextPos, Commanded, Ticks;
    hide InRange, IsWordFor, WordsWithin;
    var ps := Commanded(go, cs);
    NothingSkipped(go, cs);
    TicksKeepPlan(go, i);
    assert Active(Ticks(go, i + 1));
    StepOfStream(go, i);
    WordsClose(ps[i + 1], ps[i], go.settings.scale, StepLimit(go.settings), words[i + 1], words[i]);
  }

  /** From text to words: the words written for a loaded and started program, over any cycles. */
  lemma LoadedWordsAreSmooth(st: AxisState, text: string, period: nat, sqrt: real -> real,
                             cs: seq<Cycle>, words: seq<int>, i: nat)
    requires IsSqrt(sqrt) && CspRuns.Inv(st) && st.settings.scale > 0 && period > 0 && NoTrailingBlank(text)
    requires Load(st, text, period, true, sqrt).0 == 0 && LoadSafe(st, text, true)
    requires WellFormed(Scan(text, st.settings, Text.None).list.value)
    requires EveryPlanAccepted(st, text, period, sqrt)
    ensures var go := CspRuns.SetStart(Load(st, text, period, true, sqrt).1);
      && Walking(go) && Active(go)
      && (WordsFor(Commanded(go, cs), go.settings.scale, words) && i + 1 < |words|
          && InRange(Commanded(go, cs)[i], go.settings.scale) && InRange(Commanded(go, cs)[i + 1], go.settings.scale)
          ==> WordsWithin(words[i + 1], words[i], go.settings.scale, StepLimit(go.settings)))
  {
    hide *;
    LoadedStarts(st, text, period, sqrt);
    var go := CspRuns.SetStart(Load(st, text, period, true, sqrt).1);
    FreshWalks(go);
    FreshIsActive(go);
    if WordsFor(Commanded(go, cs), go.settings.scale, words) && i + 1 < |words| {
      SameNumber(Commanded(go, cs), go.settings.scale, words);
      if InRange(Commanded(go, cs)[i], go.settings.scale) && InRange(Commanded(go, cs)[i + 1], go.settings.scale) {
        WordsAreSmooth(go, cs, words, i);
      }
    }
  }

  lemma FreshIsActive(st: AxisState)
    requires FreshlyStarted(st)
    ensures Active(st) && CspRuns.Inv(st)
  {
  }

  lemma SameNumber(positions: seq<real>, scale: nat, words: seq<int>)
    requires WordsFor(positions, scale, words)
    ensures |positions| == |words|
  {
  }

  /** The first word written after a load and a start: at the measured position in units of the old scale,
      scaled by the new one, give or take a quarter of a full-speed step and the dropped fraction. If the text
      keeps the scale, that is the measured position itself. */
  lemma FirstWordIsClose(st: AxisState, text: string, period: nat, sqrt: real -> real, word: int)
    requires IsSqrt(sqrt) && CspRuns.Inv(st) && st.settings.scale > 0 && period > 0 && NoTrailingBlank(text)
    requires Load(st, text, period, true, sqrt).0 == 0 && LoadSafe(st, text, true)
    requires WellFormed(Scan(text, st.settings, Text.None).list.value)
    requires EveryPlanAccepted(st, text, period, sqrt)
    ensures var go := CspRuns.SetStart(Load(st, text, period, true, sqrt).1);
      var scale, slack := go.settings.scale, Times(0.25 * go.settings.maxSpeed, go.settings.scale as real) + 1.0;
      && go.currentTp < |go.tp|
      && (IsWordFor(CurrentPos(go), scale, word) && InRange(CurrentPos(go), scale) ==>
          && Abs(word as real - Times(OriginPos(st), scale as real)) < slack
          && (scale == st.settings.scale ==> Abs((word - st.currentPosition) as real) < slack))
  {
    hide *;
    FirstCommandIsClose(st, text, period, sqrt);
    StartsWhereItStandsIff(st, text, period, true, sqrt);
    var ld := Load(st, text, period, true, sqrt).1;
    Starting(ld);
    var go := CspRuns.SetStart(ld);
    if IsWordFor(CurrentPos(go), go.settings.scale, word) && InRange(CurrentPos(go), go.settings.scale) {
      WordNear(CurrentPos(go), OriginPos(st), go.settings.scale, 0.25 * go.settings.maxSpeed, word);
    }
  }

  /** A load that is taken whole: well-formed, with every plan accepted. */
  ghost predicate TakenWhole(st: AxisState, text: string, period: nat, sqrt: real -> real)
    requires st.settings.scale > 0 && period > 0 && NoTrailingBlank(text)
  {
    && Load(st, text, period, true, sqrt).0 == 0 && LoadSafe(st, text, true)
    && var list := Scan(text, st.settings, Text.None).list;
       list.Some? && WellFormed(list.value) && EveryPlanAccepted(st, text, period, sqrt)
  }

  /** From the drive and back to it: a program that keeps the scale, loaded after any cycles and then started,
      writes its first word near the position the drive reported in the last cycle that measured. */
  lemma FirstWordIsNearDrive(st: AxisState, cs: seq<Cycle>, k: nat, text: string, period: nat,
                             sqrt: real -> real, go: AxisState, word: int)
    requires CspRuns.Inv(st) && IsSqrt(sqrt) && st.settings.scale > 0 && period > 0 && NoTrailingBlank(text)
    requires k < |cs| && Reports(cs[k]) && forall j :: k < j < |cs| ==> !Reports(cs[j])
    requires Cycles(st, cs).settings.scale > 0 && TakenWhole(Cycles(st, cs), text, period, sqrt)
    requires go == CspRuns.SetStart(Load(Cycles(st, cs), text, period, true, sqrt).1)
    requires go.settings.scale == st.settings.scale
    ensures go.currentTp < |go.tp|
    ensures IsWordFor(CurrentPos(go), st.settings.scale, word) && InRange(CurrentPos(go), st.settings.scale) ==>
              Abs((word - cs[k].position) as real) < Times(0.25 * go.settings.maxSpeed, st.settings.scale as real) + 1.0
  {
    hide *;
    MeasuredLast(st, cs, k + 1);
    TakenWholeTells(Cycles(st, cs), text, period, sqrt);
    FirstWordIsClose(Cycles(st, cs), text, period, sqrt, word);
  }

  lemma TakenWholeTells(st: AxisState, text: string, period: nat, sqrt: real -> real)
    requires st.settings.scale > 0 && period > 0 && NoTrailingBlank(text) && TakenWhole(st, text, period, sqrt)
    ensures Load(st, text, period, true, sqrt).0 == 0 && LoadSafe(st, text, true)
    ensures var list := Scan(text, st.settings, Text.None).list;
      list.Some? && WellFormed(list.value) && EveryPlanAccepted(st, text, period, sqrt)
  {
    hide Load, LoadSafe, Scan, WellFormed, EveryPlanAccepted;
  }

  lemma WordNear(x: real, y: real, scale: nat, limit: real, w: int)
    requires IsWordFor(x, scale, w) && InRange(x, scale) && Abs(x - y) <= limit
    ensures Abs(w as real - Times(y, scale as real)) < Times(limit, scale as real) + 1.0
  {
    hide IsWordFor, InRange, Times;
    WordIs(x, scale, w);
    TimesApart(x, y, scale as real, limit);
  }

  /** The position can be cast once it is scaled. */
  predicate InRange(position: real, scale: nat) { CastDefined(Times(position, scale as real)) }

  predicate WordsWithin(w: int, v: int, scale: nat, limit: real) {
    Abs((w - v) as real) < Times(limit, scale as real) + 1.0
  }

  lemma WordsClose(x: real, y: real, scale: nat, limit: real, w: int, v: int)
    requires IsWordFor(x, scale, w) && IsWordFor(y, scale, v) && InRange(x, scale) && InRange(y, scale)
    requires Abs(x - y) <= limit
    ensures WordsWithin(w, v, scale, limit)
  {
    hide IsWordFor, InRange, Cast, CastDefined, Times;
    WordIs(x, scale, w);
    WordIs(y, scale, v);
    CastApart(Times(x, scale as real), Times(y, scale as real));
    TimesApart(x, y, scale as real, limit);
  }

  lemma WordIs(x: real, scale: nat, w: int)
    requires IsWordFor(x, scale, w) && InRange(x, scale)
    ensures CastDefined(Times(x, scale as real)) && w == Cast(Times(x, scale as real))
  {
  }

  lemma TimesApart(x: real, y: real, scale: real, limit: real)
    requires scale >= 0.0 && Abs(x - y) <= limit
    ensures Abs(Times(x, scale) - Times(y, scale)) <= Times(limit, scale)
  {
    hide Times;
    TimesRearrange(x, scale, 0.0);
    TimesRearrange(y, scale, 0.0);
    TimesRearrange(limit, scale, 0.0);
    TimesAdd(scale, x, y);
    TimesAdd(scale, y, x);
    TimesMonotone(scale, x - y, limit);
    TimesMonotone(scale, y - x, limit);
  }

  lemma SuffixTwice(list: string, p: nat, k: nat)
    requires p + k <= |list|
    ensures list[p..][k..] == list[p + k..]
  {
  }

  lemma ScanEnd(cfg: Settings, list: Text.Option<string>)
    ensures Scan("", cfg, list) == Scanned(0, cfg, list)
  {
  }

  lemma EmptyTable(cfg: Settings, origin: real, period: nat, n: nat, sqrt: real -> real)
    requires period > 0
    ensures TableOf(cfg, [], origin, period, n, sqrt) == seq(n, _ => EMPTY_SEGMENT)
  {
  }

  lemma TableGrows(cfg: Settings, pairs: seq<(nat, nat)>, p: (nat, nat), origin: real, period: nat, n: nat,
                   sqrt: real -> real)
    requires period > 0
    ensures |pairs| < n ==>
      TableOf(cfg, pairs + [p], origin, period, n, sqrt)
        == TableOf(cfg, pairs, origin, period, n, sqrt)
             [|pairs| := Plan(cfg, Entry(pairs + [p], origin, period, |pairs|), sqrt).1]
  {
    hide Plan;
    assert forall j :: 0 <= j < |pairs| ==> Entry(pairs + [p], origin, period, j) == Entry(pairs, origin, period, j);
  }
}
