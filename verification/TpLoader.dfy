/** What loading a trajectory text does to an axis: the clause scan, the two passes over the array text
    and the chained table they leave behind. */
module TpLoader {
  import opened Arithmetic
  import opened CspTypes
  import opened CspEngine
  import opened Ds402
  import opened Planner
  import opened Sampling
  import opened Widths
  import Text = TpText

  // ----- the clause scan -----

  /** One round of the scan at a position that is not blank: a clause is refused with a code, or taken,
      or the position is passed by. */
  datatype Clause =
    | Refused(code: int)
    | Taken(cfg: Settings, rest: string)
    | NoClause

  function ScanClause(s: string, cfg: Settings): (r: Clause)
    ensures r.Taken? ==> |r.rest| < |s| && r.rest == s[|s| - |r.rest|..]
  {
    var cyclic := Text.LoadParameter(s, "Cyclic");
    if cyclic.Bad? then Refused(-5)
    else if cyclic.Assigned? then Taken(cfg.(isCyclic := cyclic.value > 0), cyclic.rest) else
    var scale := Text.LoadParameter(s, "Scale");
    if scale.Bad? then Refused(-5)
    else if scale.Assigned? then Taken(cfg.(scale := scale.value), scale.rest) else
    var bias := Text.LoadParameter(s, "Bias");
    if bias.Bad? then Refused(-1)
    else if bias.Assigned? then Taken(cfg.(bias := Text.ToInt32(bias.value)), bias.rest) else
    var accel := Text.LoadParameter(s, "Accel");
    if accel.Bad? then Refused(-1)
    else if accel.Assigned? then Taken(cfg.(acceleration := accel.value as real), accel.rest) else
    var decel := Text.LoadParameter(s, "Decel");
    if decel.Bad? then Refused(-1)
    else if decel.Assigned? then Taken(cfg.(deceleration := decel.value as real), decel.rest) else
    var maxSpeed := Text.LoadParameter(s, "Max_speed");
    if maxSpeed.Bad? then Refused(-1)
    else if maxSpeed.Assigned? then Taken(cfg.(maxSpeed := maxSpeed.value as real), maxSpeed.rest)
    else NoClause
  }

  /** The array clause `TpArrays...[...]...;`: the text between the brackets, and what follows. */
  datatype ArrayClause = NoArray | BadArray | Found(list: string, rest: string)

  function ScanArray(s: string): (r: ArrayClause)
    ensures r.Found? ==> |r.rest| < |s| && r.rest == s[|s| - |r.rest|..]
  {
    if "TpArrays" <= s then ScanBrackets(s[8..]) else NoArray
  }

  function ScanBrackets(p: string): (r: ArrayClause)
    ensures r.Found? ==> |r.rest| < |p| && r.rest == p[|p| - |r.rest|..]
  {
    var open, close := Text.IndexOf(p, '['), Text.IndexOf(p, ']');
    if open.None? || close.None? then BadArray else
    var tail := p[close.value + 1..];
    var end := Text.IndexOf(tail, ';');
    if end.None? then BadArray else
    // the closing bracket is overwritten with a terminator
    Found(if open.value < close.value then p[open.value + 1..close.value] else p[open.value + 1..],
          tail[end.value + 1..])
  }

  datatype Scanned = Scanned(code: int, cfg: Settings, list: Text.Option<string>)

  predicate NoTrailingBlank(s: string) { s != "" ==> s[|s| - 1] != ' ' }

  /** What one round leads to: an answer, or a next position. */
  datatype Round = Over(code: int) | On(rest: string, cfg: Settings, list: Text.Option<string>)

  function ScanRound(t: string, cfg: Settings, list: Text.Option<string>): (r: Round)
    requires t != ""
    ensures r.On? ==> |r.rest| < |t| && r.rest == t[|t| - |r.rest|..]
  {
    match ScanClause(t, cfg)
    case Refused(code) => Over(code)
    case Taken(cfg', rest) => On(rest, cfg', list)
    case NoClause =>
      match ScanArray(t)
      case BadArray => Over(-5)
      case Found(a, rest) => On(rest, cfg, Text.Some(a))
      case NoArray => On(t[1..], cfg, list)
  }

  /** The whole scan. A text that ends in a blank would take it past the terminator. */
  function Scan(s: string, cfg: Settings, list: Text.Option<string>): Scanned
    requires NoTrailingBlank(s)
    decreases |s|
  {
    if s == "" then Scanned(0, cfg, list) else
    assert s[|s| - 1] != ' ';
    match ScanRound(Text.SkipBlanks(s), cfg, list)
    case Over(code) => Scanned(code, cfg, list)
    case On(rest, cfg', list') => Scan(rest, cfg', list')
  }

  lemma ScanStep(s: string, cfg: Settings, list: Text.Option<string>)
    requires NoTrailingBlank(s) && s != ""
    ensures Text.SkipBlanks(s) != ""
    ensures var r := ScanRound(Text.SkipBlanks(s), cfg, list);
      && (r.Over? ==> Scan(s, cfg, list) == Scanned(r.code, cfg, list))
      && (r.On? ==> |r.rest| < |s| && r.rest == s[|s| - |r.rest|..] && NoTrailingBlank(r.rest))
      && (r.On? ==> Scan(s, cfg, list) == Scan(r.rest, r.cfg, r.list))
  {
    hide Text.SkipBlanks, NoTrailingBlank, ScanRound;
    BlanksSkipped(s);
    var t := Text.SkipBlanks(s);
    var r := ScanRound(t, cfg, list);
    if r.On? {
      SuffixKeepsEnd(t, r.rest);
      SuffixOfSuffix(s, t, r.rest);
    }
  }

  lemma BlanksSkipped(s: string)
    requires NoTrailingBlank(s) && s != ""
    ensures Text.SkipBlanks(s) != "" && NoTrailingBlank(Text.SkipBlanks(s))
  {
    assert s[|s| - 1] != ' ';
  }

  lemma SuffixOfSuffix(s: string, t: string, r: string)
    requires |t| <= |s| && t == s[|s| - |t|..] && |r| <= |t| && r == t[|t| - |r|..]
    ensures r == s[|s| - |r|..]
  {
  }

  lemma SuffixKeepsEnd(s: string, rest: string)
    requires NoTrailingBlank(s) && |rest| <= |s| && rest == s[|s| - |rest|..]
    ensures NoTrailingBlank(rest)
  {
  }

  // ----- the table -----

  /** `time * 1000000 / period_ns` in 32 bits. */
  function Points(time: nat, period: nat): nat
    requires period > 0
  {
    time * 1000000 % TWO_32 / period
  }

  /** The j-th entry before planning: it starts where the one before it ends. */
  function Entry(pairs: seq<(nat, nat)>, origin: real, period: nat, j: nat): Segment
    requires j < |pairs| && period > 0
  {
    EMPTY_SEGMENT.(
      pointsNum := Points(pairs[j].1, period),
      originPos := if j == 0 then origin else pairs[j - 1].0 as real,
      targetPos := pairs[j].0 as real)
  }

  /** The table: an entry for each pair, planned whatever the planner answers, and cleared entries up to
      the number of opening parentheses. */
  function TableOf(cfg: Settings, pairs: seq<(nat, nat)>, origin: real, period: nat, n: nat,
                   sqrt: real -> real): (tp: seq<Segment>)
    requires period > 0
    ensures |tp| == n
  {
    seq(n, j requires 0 <= j < n =>
      if j < |pairs| then Plan(cfg, Entry(pairs, origin, period, j), sqrt).1 else EMPTY_SEGMENT)
  }

  function Closing(cfg: Settings, pairs: seq<(nat, nat)>): seq<(nat, nat)>
    requires pairs != []
  {
    pairs + if cfg.isCyclic then [pairs[0]] else []
  }

  function OriginPos(st: AxisState): real
    requires st.settings.scale > 0
  {
    st.currentPosition as real / st.settings.scale as real
  }

  /** Loading a text: the answer code and the axis afterwards. `granted` tells whether the table
      could be granted. */
  function Load(st: AxisState, text: string, period: nat, granted: bool, sqrt: real -> real): (int, AxisState)
    requires st.settings.scale > 0 && period > 0 && NoTrailingBlank(text)
  {
    var origin := OriginPos(st);
    if st.mode != OP_MODE_CSP then (-1, st)
    else if st.status == Running then (-2, st) else
    var sc := Scan(text, st.settings, Text.None);
    var st1 := st.(settings := sc.cfg);
    if sc.code != 0 then (sc.code, st1) else
    var n := if sc.list.Some? then Text.CountOpen(sc.list.value) else 0;
    if n == 0 then (-3, st1) else
    var list := sc.list.value;
    var size := if sc.cfg.isCyclic then n + 1 else n;
    if !granted then (-4, st1.(tp := [])) else
    var (pairs, complete) := Text.FillPairs(list);
    if complete then
      Text.FillWithinCount(list);
      (0, st1.(tpNum := size, status := Ready,
               tp := TableOf(sc.cfg, Closing(sc.cfg, pairs), origin, period, size, sqrt)))
    else
      (-5, st1.(tpNum := size, tp := TableOf(sc.cfg, pairs, origin, period, size, sqrt)))
  }

  // ----- what a load delivers -----

  /** Every opening parenthesis of the array text starts an entry. */
  predicate WellFormed(list: string) {
    Text.FillPairs(list).1 && |Text.FillPairs(list).0| == Text.CountOpen(list)
  }

  /** For an array the fill pass gets through, this is seen from its text: there is one opening parenthesis
      more than there are commas. */
  lemma WellFormedIff(list: string)
    requires Text.FillPairs(list).1
    ensures WellFormed(list) <==> Text.CountOpen(list) == 1 + Text.Commas(list)
  {
    hide Text.FillPairs, Text.CountOpen, Text.Commas;
    Text.FillByCommas(list);
  }

  /** A successful load leaves the whole table filled exactly when the array has one opening parenthesis more
      than commas; otherwise its last segment is a cleared one, whose one sample is the position 0. */
  lemma TableFilledIff(st: AxisState, text: string, period: nat, granted: bool, sqrt: real -> real)
    requires st.settings.scale > 0 && period > 0 && NoTrailingBlank(text)
    requires Load(st, text, period, granted, sqrt).0 == 0
    ensures var st', sc := Load(st, text, period, granted, sqrt).1, Scan(text, st.settings, Text.None);
      && sc.list.Some? && Text.FillPairs(sc.list.value).0 != []
      && Table(st') && AtRest(st'.tp) && st'.status == Ready && st'.currentTp == st.currentTp
      && var pairs := Closing(sc.cfg, Text.FillPairs(sc.list.value).0);
         && |pairs| <= st'.tpNum
         && (|pairs| == st'.tpNum <==> Text.CountOpen(sc.list.value) == 1 + Text.Commas(sc.list.value))
         && (|pairs| < st'.tpNum ==> st'.tp[st'.tpNum - 1] == EMPTY_SEGMENT)
         && Samples(EMPTY_SEGMENT) == 1 && Position(st'.settings, EMPTY_SEGMENT, 0) == 0.0
  {
    hide Scan, Text.FillPairs, Text.CountOpen, Text.Commas, Plan, Position, AtRest;
    var sc := Scan(text, st.settings, Text.None);
    assert sc.list.Some?;
    Text.FillWithinCount(sc.list.value);
    Text.FillByCommas(sc.list.value);
    LoadedAtRest(st, text, period, granted, sqrt);
    ClearedIsAtZero(sc.cfg);
  }

  lemma ClearedIsAtZero(cfg: Settings)
    ensures Samples(EMPTY_SEGMENT) == 1 && Position(cfg, EMPTY_SEGMENT, 0) == 0.0
  {
  }

  lemma PlanKeepsRest(cfg: Settings, s: Segment, sqrt: real -> real)
    ensures var p := Plan(cfg, s, sqrt).1;
      && p.currentPoint == s.currentPoint && p.pointsNum == s.pointsNum
      && p.originPos == s.originPos && p.targetPos == s.targetPos
  {
    hide T0, T1, Solvable;
  }

  /** The nominal part of entry j, which planning does not touch. */
  predicate IsEntry(s: Segment, pairs: seq<(nat, nat)>, origin: real, period: nat, j: nat)
    requires j < |pairs| && period > 0
  {
    && s.originPos == (if j == 0 then origin else pairs[j - 1].0 as real)
    && s.targetPos == pairs[j].0 as real
    && s.pointsNum == Points(pairs[j].1, period)
  }

  lemma TableAtRest(cfg: Settings, pairs: seq<(nat, nat)>, origin: real, period: nat, n: nat, sqrt: real -> real)
    requires period > 0
    ensures var tp := TableOf(cfg, pairs, origin, period, n, sqrt);
      AtRest(tp) && forall j :: 0 <= j < n && j < |pairs| ==> IsEntry(tp[j], pairs, origin, period, j)
  {
    var tp := TableOf(cfg, pairs, origin, period, n, sqrt);
    forall j | 0 <= j < n && j < |pairs|
      ensures tp[j].currentPoint == 0 && IsEntry(tp[j], pairs, origin, period, j)
    {
      PlanKeepsRest(cfg, Entry(pairs, origin, period, j), sqrt);
    }
  }

  lemma LoadedAtRest(st: AxisState, text: string, period: nat, granted: bool, sqrt: real -> real)
    requires st.settings.scale > 0 && period > 0 && NoTrailingBlank(text)
    requires Load(st, text, period, granted, sqrt).0 == 0
    ensures AtRest(Load(st, text, period, granted, sqrt).1.tp)
  {
    hide Scan, Text.FillPairs, TableOf, AtRest;
    var sc := Scan(text, st.settings, Text.None);
    Text.FillWithinCount(sc.list.value);
    var pairs := Text.FillPairs(sc.list.value).0;
    var n := Load(st, text, period, granted, sqrt).1.tpNum;
    TableAtRest(sc.cfg, Closing(sc.cfg, pairs), OriginPos(st), period, n, sqrt);
  }

  /** The closed loop: after a well-formed load every segment starts at its predecessor's target, the
      first one at the measured position in units of the scale that was in force before the load, and a
      cyclic table ends where its segment 1 begins. */
  lemma LoadedIsChained(st: AxisState, text: string, period: nat, granted: bool, sqrt: real -> real)
    requires st.settings.scale > 0 && period > 0 && NoTrailingBlank(text)
    requires Load(st, text, period, granted, sqrt).0 == 0
    requires WellFormed(Scan(text, st.settings, Text.None).list.value)
    ensures var st' := Load(st, text, period, granted, sqrt).1;
      Chained(st') && st'.tp[0].originPos == OriginPos(st)
  {
    hide Scan, Text.FillPairs, TableOf, Plan;
    var sc, st' := Scan(text, st.settings, Text.None), Load(st, text, period, granted, sqrt).1;
    Text.FillWithinCount(sc.list.value);
    var pairs := Closing(sc.cfg, Text.FillPairs(sc.list.value).0);
    TableAtRest(sc.cfg, pairs, OriginPos(st), period, st'.tpNum, sqrt);
    assert st'.tp == TableOf(sc.cfg, pairs, OriginPos(st), period, st'.tpNum, sqrt);
    assert |pairs| == |st'.tp|;
  }

  /** Where the drive is sent first. The origin is the measured position in units of the old scale, and is
      scaled by the one the text leaves: the two agree exactly if the axis stands at 0 or the text keeps the
      scale. */
  lemma StartsWhereItStandsIff(st: AxisState, text: string, period: nat, granted: bool, sqrt: real -> real)
    requires st.settings.scale > 0 && period > 0 && NoTrailingBlank(text)
    requires Load(st, text, period, granted, sqrt).0 == 0
    ensures var st' := Load(st, text, period, granted, sqrt).1;
      && st'.settings == Scan(text, st.settings, Text.None).cfg
      && |st'.tp| > 0 && st'.tp[0].originPos == OriginPos(st)
      && (Times(st'.tp[0].originPos, st'.settings.scale as real) == st.currentPosition as real <==>
          st.currentPosition == 0 || st'.settings.scale == st.settings.scale)
  {
    hide Scan, Text.FillPairs, TableOf, Plan;
    var sc, st' := Scan(text, st.settings, Text.None), Load(st, text, period, granted, sqrt).1;
    Text.FillWithinCount(sc.list.value);
    var pairs := Closing(sc.cfg, Text.FillPairs(sc.list.value).0);
    TableAtRest(sc.cfg, pairs, OriginPos(st), period, st'.tpNum, sqrt);
    assert st'.tp == TableOf(sc.cfg, pairs, OriginPos(st), period, st'.tpNum, sqrt);
    RatioIff(st.currentPosition as real, st.settings.scale as real, sc.cfg.scale as real);
  }

  lemma RatioIff(x: real, a: real, b: real)
    requires a > 0.0
    ensures Times(x / a, a) == x
    ensures Times(x / a, b) == x <==> x == 0.0 || a == b
  {
    var q := x / a;
    TimesQuotient(a, x);
    TimesRearrange(a, q, 0.0);
    TimesAdd(q, b, a);
    TimesRearrange(q, b - a, 0.0);
    hide Times;
    if Times(q, b) == x && a != b {
      TimesAdd(b - a, 0.0, 0.0);
      CancelFactor(b - a, q, 0.0);
      TimesAdd(a, 0.0, 0.0);
    }
    if x == 0.0 {
      assert q == 0.0;
      TimesAdd(b, 0.0, 0.0);
      TimesRearrange(b, 0.0, 0.0);
    }
  }

  /** Whether the planner accepted every entry: the loader does not look at its answers. */
  ghost predicate EveryPlanAccepted(st: AxisState, text: string, period: nat, sqrt: real -> real)
    requires st.settings.scale > 0 && period > 0 && NoTrailingBlank(text)
  {
    var sc := Scan(text, st.settings, Text.None);
    sc.list.Some? && Text.FillPairs(sc.list.value).0 != [] &&
    var pairs := Closing(sc.cfg, Text.FillPairs(sc.list.value).0);
    forall j :: 0 <= j < |pairs| ==> Plan(sc.cfg, Entry(pairs, OriginPos(st), period, j), sqrt).0 == 0
  }

  lemma LoadedIsPlanned(st: AxisState, text: string, period: nat, granted: bool, sqrt: real -> real)
    requires IsSqrt(sqrt) && st.settings.scale > 0 && period > 0 && NoTrailingBlank(text)
    requires Load(st, text, period, granted, sqrt).0 == 0
    requires WellFormed(Scan(text, st.settings, Text.None).list.value)
    requires EveryPlanAccepted(st, text, period, sqrt)
    ensures AllPlanned(Load(st, text, period, granted, sqrt).1)
  {
    hide Scan, Text.FillPairs, Plan, Planned;
    var sc, st' := Scan(text, st.settings, Text.None), Load(st, text, period, granted, sqrt).1;
    Text.FillWithinCount(sc.list.value);
    var pairs := Closing(sc.cfg, Text.FillPairs(sc.list.value).0);
    forall j | 0 <= j < |st'.tp|
      ensures Planned(st'.settings, st'.tp[j])
    {
      PlanDelivers(sc.cfg, Entry(pairs, OriginPos(st), period, j), sqrt);
    }
  }

  /** The 32-bit product keeps the number of points exact precisely for times below 4.295 seconds'
      worth of milliseconds, whatever the period. */
  lemma PointsExactIff(time: nat, period: nat)
    requires 0 < period < TWO_32
    ensures Points(time, period) == time * 1000000 / period <==> time <= 4294
  {
    var x := time * 1000000;
    if x < TWO_32 {
      assert x % TWO_32 == x;
    } else {
      WrapLoses(x, period);
    }
  }

  /** Beyond that the product wraps: of the nanoseconds only the remainder by 2 to the 32 counts. 5 seconds at
      a period of a millisecond are 705 points. */
  lemma PointsWrap(time: nat, period: nat, k: nat, low: nat)
    requires period > 0 && low < TWO_32 && time * 1000000 == k * TWO_32 + low
    ensures Points(time, period) == low / period
    ensures Points(5000, 1000000) == 705
  {
    DivModUnique(time * 1000000, TWO_32, k, low);
    assert 5000 * 1000000 % TWO_32 / 1000000 == 705;
  }

  lemma WrapLoses(x: nat, period: nat)
    requires 0 < period < TWO_32 <= x
    ensures x % TWO_32 / period < x / period
  {
    var r := x % TWO_32;
    var k := r / period;
    QuotientBelow(r, period);
    assert (k + 1) * period == k * period + period;
    DivAtLeast(x, period, k + 1);
  }

  lemma QuotientBelow(r: nat, period: nat)
    requires 0 < period
    ensures r / period * period <= r
  {
  }

  lemma DivAtLeast(x: nat, period: nat, k: nat)
    requires 0 < period && k * period <= x
    ensures k <= x / period
  {
    var q := x / period;
    assert (k - q) * period == k * period - q * period;
    MulAtLeast(k - q, period);
  }
}
