/** The clauses of a trajectory text, read off the text itself: which are refused, what the others set, and
    how a load ends. */
module TpClauses {
  import opened CspTypes
  import opened Ds402
  import opened TpLoader
  import opened Widths
  import RoundTrip = TpRoundTrip
  import Text = TpText

  type Name = RoundTrip.Name

  // ----- one clause -----

  /** The name stands at the front of t. */
  predicate Names(t: string, name: Name) { RoundTrip.Spelled(name) <= t }

  /** What follows a name and the equals sign behind it. */
  function Behind(t: string, name: Name): string {
    var n := |RoundTrip.Spelled(name)| + 1;
    if n <= |t| then t[n..] else ""
  }

  /** The name is followed by an equals sign and a number, and a semicolon comes after it. */
  predicate Proper(t: string, name: Name) {
    RoundTrip.Spelled(name) + "=" <= t && Text.ScanInt(Behind(t, name)).Some? && ';' in t
  }

  predicate Malformed(t: string, name: Name) { Names(t, name) && !Proper(t, name) }

  function Refusal(name: Name): int {
    match name
    case Cyclic | Scale => -5
    case Bias | Accel | Decel | MaxSpeed => -1
  }

  /** The 32 bits of the number, with a sign where the setting has one. */
  function Value(name: Name, v: int): int {
    if name == RoundTrip.Bias && v % TWO_32 >= TWO_32 / 2 then v % TWO_32 - TWO_32 else v % TWO_32
  }

  lemma OneName(t: string, name: Name, other: Name)
    requires Names(t, name) && Names(t, other)
    ensures name == other
  {
    assert t[0] == RoundTrip.Spelled(name)[0] == RoundTrip.Spelled(other)[0];
  }

  /** What the branch of a name makes of its clause. */
  function Branch(p: Text.Parameter, name: Name, cfg: Settings): Clause {
    match p
    case NoMatch => NoClause
    case Bad => Refused(Refusal(name))
    case Assigned(v, rest) => Taken(RoundTrip.Assign(cfg, name, Value(name, v)), rest)
  }

  lemma OneBranch(t: string, name: Name, cfg: Settings)
    requires Names(t, name)
    ensures ScanClause(t, cfg) == Branch(Text.LoadParameter(t, RoundTrip.Spelled(name)), name, cfg)
  {
    hide Text.LoadParameter;
    assert t[0] == RoundTrip.Spelled(name)[0];
    RoundTrip.OtherLetters(t);
  }

  /** A clause in terms of its text: where a name stands, it is refused with the code of that name exactly if
      it is malformed; otherwise it sets just what it names, and the scan goes on behind the semicolon. */
  lemma ClauseIs(t: string, name: Name, cfg: Settings)
    requires Names(t, name)
    ensures Malformed(t, name) ==> ScanClause(t, cfg) == Refused(Refusal(name))
    ensures Proper(t, name) ==>
              var r := ScanClause(t, cfg);
              && r.Taken?
              && r.cfg == RoundTrip.Assign(cfg, name, Value(name, Text.ScanInt(Behind(t, name)).value.0))
              && t == t[..|t| - |r.rest| - 1] + ";" + r.rest && ';' !in t[..|t| - |r.rest| - 1]
  {
    hide ScanClause, Text.LoadParameter, Text.ScanInt, RoundTrip.Spelled, RoundTrip.Assign, Value, Refusal, Behind;
    Text.ParameterIs(t, RoundTrip.Spelled(name));
    BehindIs(t, name);
    OneBranch(t, name, cfg);
    ValueOfWord(name, Text.ScanInt(Behind(t, name)));
  }

  lemma BehindIs(t: string, name: Name)
    ensures RoundTrip.Spelled(name) + "=" <= t ==> Behind(t, name) == t[|RoundTrip.Spelled(name)| + 1..]
  {
  }

  lemma ValueOfWord(name: Name, r: Text.Option<(int, string)>)
    ensures r.Some? ==> Value(name, r.value.0 % TWO_32) == Value(name, r.value.0)
  {
  }

  /** Where no name stands, there is no clause. */
  lemma NoNameNoClause(t: string, cfg: Settings)
    requires forall name: Name :: !Names(t, name)
    ensures ScanClause(t, cfg) == NoClause
  {
    hide Text.LoadParameter, RoundTrip.Spelled;
    Spellings();
    assert !Names(t, RoundTrip.Cyclic) && !Names(t, RoundTrip.Scale) && !Names(t, RoundTrip.Bias);
    assert !Names(t, RoundTrip.Accel) && !Names(t, RoundTrip.Decel) && !Names(t, RoundTrip.MaxSpeed);
  }

  lemma Spellings()
    ensures RoundTrip.Spelled(RoundTrip.Cyclic) == "Cyclic" && RoundTrip.Spelled(RoundTrip.Scale) == "Scale"
    ensures RoundTrip.Spelled(RoundTrip.Bias) == "Bias" && RoundTrip.Spelled(RoundTrip.Accel) == "Accel"
    ensures RoundTrip.Spelled(RoundTrip.Decel) == "Decel" && RoundTrip.Spelled(RoundTrip.MaxSpeed) == "Max_speed"
  {
  }

  // ----- the array clause -----

  predicate NamesArray(t: string) { "TpArrays" <= t }

  /** A bracket is missing, or the semicolon behind the first closing one. */
  predicate MalformedArray(t: string) {
    && NamesArray(t)
    && var p := t[8..];
       || '[' !in p || ']' !in p
       || forall i :: 0 <= i < |p| && p[i] == ']' && ']' !in p[..i] ==> ';' !in p[i + 1..]
  }

  lemma ArrayIs(t: string, cfg: Settings)
    requires NamesArray(t)
    ensures ScanClause(t, cfg) == NoClause
    ensures MalformedArray(t) ==> ScanArray(t) == BadArray
    ensures !MalformedArray(t) ==> ScanArray(t).Found?
  {
    assert t[0] == "TpArrays"[0];
    RoundTrip.NotAParameter(t, cfg);
    var p := t[8..];
    if ']' in p {
      FirstOnly(p, ']');
    }
  }

  lemma FirstOnly(p: string, c: char)
    requires c in p
    ensures var k := Text.IndexOf(p, c);
      && k.Some? && p[k.value] == c && c !in p[..k.value]
      && forall i :: 0 <= i < |p| && p[i] == c && c !in p[..i] ==> i == k.value
  {
    var k := Text.IndexOf(p, c).value;
    forall i | 0 <= i < |p| && p[i] == c && c !in p[..i]
      ensures i == k
    {
      BothFirst(p, c, i, k);
    }
  }

  lemma BothFirst(p: string, c: char, i: nat, k: nat)
    requires i < |p| && k < |p| && p[i] == c == p[k] && c !in p[..i] && c !in p[..k]
    ensures i == k
  {
    assert forall j :: 0 <= j < i ==> p[..i][j] == p[j];
    assert forall j :: 0 <= j < k ==> p[..k][j] == p[j];
  }

  /** The list of an array clause: what stands between the brackets, or, if the closing one comes first, all
      that stands behind the opening one. */
  lemma ListIs(before: string, list: string, between: string, rest: string)
    requires '[' !in before && ']' !in before && ']' !in list && ';' !in between
    ensures ScanBrackets(before + "[" + list + "]" + between + ";" + rest) == Found(list, rest)
  {
    hide *;
    var p, close := before + "[" + list + "]" + between + ";" + rest, |before + "[" + list|;
    HeadHasNone(before, list);
    OpensEarly(before, list, between, rest, p);
    ClosesEarly(before + "[" + list, between, rest, p);
    BracketsAre(p, |before|, close, |between|);
  }

  lemma OpensEarly(before: string, list: string, between: string, rest: string, p: string)
    requires '[' !in before && p == before + "[" + list + "]" + between + ";" + rest
    ensures var close := |before + "[" + list|;
      && |before| < close < |p| && Text.IndexOf(p, '[') == Text.Some(|before|) && p[|before| + 1..close] == list
  {
    hide Text.IndexOf;
    var behind := "]" + between + ";" + rest;
    BehindTheList(before + "[" + list, between, rest);
    AroundTheList(before, list, behind);
    Text.FirstBehind(before, '[', list + behind);
  }

  lemma BehindTheList(head: string, between: string, rest: string)
    ensures head + "]" + between + ";" + rest == head + ("]" + between + ";" + rest)
  {
  }

  lemma AroundTheList(before: string, list: string, behind: string)
    ensures before + "[" + list + behind == before + (['['] + (list + behind))
    ensures (before + "[" + list + behind)[|before| + 1..|before + "[" + list|] == list
  {
  }

  lemma ListIsLate(before: string, between: string, rest: string, list: string, tail: string, p: string)
    requires ']' !in before && '[' !in before && '[' !in between && ';' !in between && '[' !in rest
    requires tail == rest + "[" + list && p == before + "]" + between + ";" + tail
    ensures ScanBrackets(p) == Found(list, tail)
  {
    hide *;
    var open := |before + "]" + between + ";" + rest|;
    LateHeadHasNone(before, between, rest);
    OpensLate(before, between, rest, list, p);
    ClosesEarly(before, between, tail, p);
    BracketsAre(p, open, |before|, |between|);
  }

  lemma OpensLate(before: string, between: string, rest: string, list: string, p: string)
    requires '[' !in before + "]" + between + ";" + rest
    requires p == before + "]" + between + ";" + (rest + "[" + list)
    ensures var open := |before + "]" + between + ";" + rest|;
      open < |p| && Text.IndexOf(p, '[') == Text.Some(open) && p[open + 1..] == list
  {
    hide Text.IndexOf;
    var head := before + "]" + between + ";" + rest;
    assert p == head + (['['] + list);
    Text.FirstBehind(head, '[', list);
    Text.RestBehind(head, '[', list);
  }

  lemma ClosesEarly(before: string, between: string, tail: string, p: string)
    requires ']' !in before && ';' !in between && p == before + "]" + between + ";" + tail
    ensures |before| < |p| && Text.IndexOf(p, ']') == Text.Some(|before|)
    ensures var behind := p[|before| + 1..];
      && |between| < |behind| && Text.IndexOf(behind, ';') == Text.Some(|between|) && behind[|between| + 1..] == tail
  {
    hide Text.IndexOf;
    var behind := between + ([';'] + tail);
    assert p == before + ([']'] + behind);
    Text.FirstBehind(before, ']', behind);
    Text.RestBehind(before, ']', behind);
    assert p[|before| + 1..] == behind;
    Text.FirstBehind(between, ';', tail);
    Text.RestBehind(between, ';', tail);
  }

  lemma BracketsAre(p: string, open: nat, close: nat, end: nat)
    requires Text.IndexOf(p, '[') == Text.Some(open) && Text.IndexOf(p, ']') == Text.Some(close)
    requires close < |p| && Text.IndexOf(p[close + 1..], ';') == Text.Some(end)
    ensures open < |p| && end < |p[close + 1..]|
    ensures var r := ScanBrackets(p);
      && r.Found?
      && r.list == (if open < close then p[open + 1..close] else p[open + 1..])
      && r.rest == p[close + 1..][end + 1..]
  {
    hide Text.IndexOf;
  }

  lemma HeadHasNone(before: string, list: string)
    requires ']' !in before && ']' !in list
    ensures ']' !in before + "[" + list && |before + "[" + list| == |before| + 1 + |list|
  {
  }

  lemma LateHeadHasNone(before: string, between: string, rest: string)
    requires '[' !in before && '[' !in between && '[' !in rest
    ensures '[' !in before + "]" + between + ";" + rest
    ensures |before| < |before + "]" + between + ";" + rest|
  {
  }

  // ----- the scan -----

  /** The scan of s comes to t, with these settings and this list taken on the way. */
  ghost predicate ComesTo(s: string, cfg: Settings, list: Text.Option<string>,
                          t: string, cfg': Settings, list': Text.Option<string>)
    requires NoTrailingBlank(s)
    decreases |s|
  {
    || (s == t && cfg == cfg' && list == list')
    || (s != "" && Text.SkipBlanks(s) != ""
        && var r := ScanRound(Text.SkipBlanks(s), cfg, list);
           r.On? && |r.rest| < |s| && NoTrailingBlank(r.rest) && ComesTo(r.rest, r.cfg, r.list, t, cfg', list'))
  }

  lemma {:induction false} ScanFromThere(s: string, cfg: Settings, list: Text.Option<string>,
                                         t: string, cfg': Settings, list': Text.Option<string>)
    requires NoTrailingBlank(s) && ComesTo(s, cfg, list, t, cfg', list')
    ensures NoTrailingBlank(t) && Scan(s, cfg, list) == Scan(t, cfg', list')
    ensures t == "" ==> Scan(s, cfg, list) == Scanned(0, cfg', list')
    decreases |s|
  {
    RoundTrip.ScanNothing(cfg', list');
    hide ScanRound, Scan, NoTrailingBlank, Text.SkipBlanks;
    if !(s == t && cfg == cfg' && list == list') {
      ScanStep(s, cfg, list);
      var r := ScanRound(Text.SkipBlanks(s), cfg, list);
      ScanFromThere(r.rest, r.cfg, r.list, t, cfg', list');
    }
  }

  /** A text is passed by where neither a name nor an array stands: one character further, nothing set. */
  lemma OtherIsPassed(t: string, cfg: Settings, list: Text.Option<string>)
    requires t != "" && t[0] != ' ' && NoTrailingBlank(t)
    requires !NamesArray(t) && forall name: Name :: !Names(t, name)
    ensures NoTrailingBlank(t[1..]) && Scan(t, cfg, list) == Scan(t[1..], cfg, list)
  {
    NoNameNoClause(t, cfg);
    RoundTrip.NoBlanks(t);
    RoundPasses(t, cfg, list);
    hide *;
    ScanStep(t, cfg, list);
  }

  lemma RoundPasses(t: string, cfg: Settings, list: Text.Option<string>)
    requires t != "" && ScanClause(t, cfg) == NoClause && !NamesArray(t)
    ensures ScanRound(t, cfg, list) == On(t[1..], cfg, list)
  {
    hide ScanClause, ScanBrackets;
  }

  /** Where the scan meets a malformed clause or array, it ends with the code that belongs to it, and with the
      settings taken before. */
  lemma ScanRefuses(s: string, cfg: Settings, t: string, cfg': Settings, list': Text.Option<string>, code: int)
    requires NoTrailingBlank(s) && ComesTo(s, cfg, Text.None, t, cfg', list') && t != ""
    requires Refuses(Text.SkipBlanks(t), code)
    ensures Scan(s, cfg, Text.None) == Scanned(code, cfg', list') && code != 0
  {
    hide *;
    ScanFromThere(s, cfg, Text.None, t, cfg', list');
    ScanStep(t, cfg', list');
    RefusedThere(Text.SkipBlanks(t), cfg', code);
    RoundOver(Text.SkipBlanks(t), cfg', list', code);
  }

  lemma RoundOver(t: string, cfg: Settings, list: Text.Option<string>, code: int)
    requires t != ""
    requires ScanClause(t, cfg) == Refused(code)
             || (ScanClause(t, cfg) == NoClause && ScanArray(t) == BadArray && code == -5)
    ensures ScanRound(t, cfg, list) == Over(code)
  {
    hide ScanClause, ScanArray;
  }

  /** A malformed clause stands here, and the code says which. */
  ghost predicate Refuses(t: string, code: int) {
    (exists name: Name :: Malformed(t, name) && code == Refusal(name)) || (MalformedArray(t) && code == -5)
  }

  lemma RefusedThere(t: string, cfg: Settings, code: int)
    requires Refuses(t, code)
    ensures t != "" && code != 0
    ensures ScanClause(t, cfg) == Refused(code)
            || (ScanClause(t, cfg) == NoClause && ScanArray(t) == BadArray && code == -5)
  {
    hide ScanClause, ScanArray, Proper;
    if name: Name :| Malformed(t, name) && code == Refusal(name) {
      ClauseIs(t, name, cfg);
    } else {
      ArrayIs(t, cfg);
    }
  }

  // ----- the load -----

  /** A text with a malformed clause is not loaded: the answer is -5 for Cyclic, Scale and the array and -1
      for the others; status, cursor and table stay, and only the settings before the clause are taken. */
  lemma MalformedIsRefused(st: AxisState, text: string, period: nat, granted: bool, sqrt: real -> real,
                           t: string, cfg: Settings, list: Text.Option<string>, code: int)
    requires st.mode == OP_MODE_CSP && st.status != Running && st.settings.scale > 0 && period > 0
    requires NoTrailingBlank(text) && ComesTo(text, st.settings, Text.None, t, cfg, list) && t != ""
    requires Refuses(Text.SkipBlanks(t), code)
    ensures Load(st, text, period, granted, sqrt) == (code, st.(settings := cfg))
  {
    ScanRefuses(text, st.settings, t, cfg, list, code);
    hide Scan, ComesTo, Refuses;
  }

  /** An instance: a scale that is no number in front of a proper array. */
  lemma BadScaleIsRefused(st: AxisState, rest: string, period: nat, granted: bool, sqrt: real -> real)
    requires st.mode == OP_MODE_CSP && st.status != Running && st.settings.scale > 0 && period > 0
    requires NoTrailingBlank("Scale=x" + rest)
    ensures Load(st, "Scale=x" + rest, period, granted, sqrt) == (-5, st)
  {
    var t := "Scale=x" + rest;
    assert RoundTrip.Spelled(RoundTrip.Scale) == "Scale" && t[..5] == "Scale" && t[0] == 'S';
    assert Behind(t, RoundTrip.Scale) == t[6..] && t[6] == 'x';
    NotANumber(t[6..]);
    RoundTrip.NoBlanks(t);
    hide Load, Text.ScanInt, Text.SkipBlanks;
    assert Malformed(t, RoundTrip.Scale) && Refusal(RoundTrip.Scale) == -5;
    MalformedIsRefused(st, t, period, granted, sqrt, t, st.settings, Text.None, -5);
  }

  lemma NotANumber(s: string)
    requires s != "" && s[0] == 'x'
    ensures Text.ScanInt(s).None?
  {
  }

  /** How a load ends, for every text: the answers before the table is touched leave all but the settings as
      it was, a table that is not granted is gone, and one that is not filled to the end stays behind without
      making the axis ready. */
  lemma FailureLeaves(st: AxisState, text: string, period: nat, granted: bool, sqrt: real -> real)
    requires st.settings.scale > 0 && period > 0 && NoTrailingBlank(text)
    requires Load(st, text, period, granted, sqrt).0 != 0
    ensures var (code, st') := Load(st, text, period, granted, sqrt);
      && st'.status == st.status && st'.currentTp == st.currentTp && st'.mode == st.mode
      && st'.currentPosition == st.currentPosition && st'.currentVelocity == st.currentVelocity
      && (st.mode != OP_MODE_CSP ==> code == -1 && st' == st)
      && (st.mode == OP_MODE_CSP && st.status == Running ==> code == -2 && st' == st)
      && (code == -3 ==> st'.tp == st.tp && st'.tpNum == st.tpNum)
      && (code == -4 ==> !granted && st'.tp == [] && st'.tpNum == st.tpNum)
  {
    hide Scan, Text.FillPairs, Text.CountOpen, TableOf, OriginPos, Closing, Text.ScanPair, NoTrailingBlank;
    if st.mode == OP_MODE_CSP && st.status != Running {
      RefusalCodes(text, st.settings, Text.None);
    }
  }

  /** The scan itself answers only these. */
  lemma {:induction false} RefusalCodes(s: string, cfg: Settings, list: Text.Option<string>)
    requires NoTrailingBlank(s)
    ensures Scan(s, cfg, list).code in {0, -1, -5}
    decreases |s|
  {
    if s != "" {
      ScanStep(s, cfg, list);
      var t := Text.SkipBlanks(s);
      OneRoundCodes(t, cfg, list);
      var r := ScanRound(t, cfg, list);
      hide Scan, ScanRound, NoTrailingBlank;
      if r.On? {
        RefusalCodes(r.rest, r.cfg, r.list);
      }
    }
  }

  lemma OneRoundCodes(t: string, cfg: Settings, list: Text.Option<string>)
    requires t != ""
    ensures ScanRound(t, cfg, list).Over? ==> ScanRound(t, cfg, list).code in {-1, -5}
  {
    hide Text.LoadParameter, ScanArray;
  }

  /** The answer to every text an axis takes: what the scan refuses is refused with its code; -3 if there is no
      array or no opening parenthesis in it; -4 if the table is not granted; -5 if an entry cannot be read; and
      0 in all other cases. The settings are those the scan has taken, whatever the answer. */
  lemma AnswerIs(st: AxisState, text: string, period: nat, granted: bool, sqrt: real -> real)
    requires st.mode == OP_MODE_CSP && st.status != Running && st.settings.scale > 0 && period > 0
    requires NoTrailingBlank(text)
    ensures var sc, (code, st') := Scan(text, st.settings, Text.None), Load(st, text, period, granted, sqrt);
      && st'.settings == sc.cfg
      && code == if sc.code != 0 then sc.code
                 else if sc.list.None? || '(' !in sc.list.value then -3
                 else if !granted then -4
                 else if !Text.FillPairs(sc.list.value).1 then -5
                 else 0
  {
    RefusalCodes(text, st.settings, Text.None);
    var sc := Scan(text, st.settings, Text.None);
    hide Scan, Text.FillPairs, TableOf, OriginPos, Closing;
    if sc.list.Some? {
      NoneOpenIff(sc.list.value);
    }
  }

  lemma {:induction false} NoneOpenIff(s: string)
    ensures Text.CountOpen(s) == 0 <==> '(' !in s
  {
    if s != "" {
      NoneOpenIff(s[1..]);
      assert s == [s[0]] + s[1..];
    }
  }

  /** The table of a load that succeeds, entry by entry: each goes where it says, in the points its time is
      worth, from where the one before it ends; and in a cyclic table the closing one goes to the target of
      the first in the points of the first. */
  lemma LoadedTells(st: AxisState, text: string, period: nat, granted: bool, sqrt: real -> real)
    requires st.settings.scale > 0 && period > 0 && NoTrailingBlank(text)
    requires Load(st, text, period, granted, sqrt).0 == 0
    ensures var sc, st' := Scan(text, st.settings, Text.None), Load(st, text, period, granted, sqrt).1;
      && sc.list.Some?
      && var n, pairs := Text.CountOpen(sc.list.value), Text.FillPairs(sc.list.value).0;
         && |pairs| <= n && |st'.tp| == st'.tpNum == (if sc.cfg.isCyclic then n + 1 else n)
         && pairs != [] && st'.tp[0].originPos == OriginPos(st)
         && (forall j :: 1 <= j < |pairs| ==> st'.tp[j].originPos == pairs[j - 1].0 as real)
         && (forall j :: 0 <= j < |pairs| ==> st'.tp[j].targetPos == pairs[j].0 as real)
         && (forall j :: 0 <= j < |pairs| ==> st'.tp[j].pointsNum == Points(pairs[j].1, period))
         && (sc.cfg.isCyclic ==>
               && st'.tp[|pairs|].originPos == pairs[|pairs| - 1].0 as real
               && st'.tp[|pairs|].targetPos == st'.tp[0].targetPos
               && st'.tp[|pairs|].pointsNum == st'.tp[0].pointsNum)
  {
    hide Scan, Text.FillPairs, TableOf, Text.CountOpen, Points, OriginPos, Closing, NoTrailingBlank;
    var sc, st' := Scan(text, st.settings, Text.None), Load(st, text, period, granted, sqrt).1;
    Text.FillWithinCount(sc.list.value);
    var pairs := Text.FillPairs(sc.list.value).0;
    TableTells(sc.cfg, pairs, OriginPos(st), period, st'.tpNum, sqrt);
  }

  lemma TableTells(cfg: Settings, pairs: seq<(nat, nat)>, origin: real, period: nat, n: nat, sqrt: real -> real)
    requires period > 0 && pairs != [] && |pairs| + (if cfg.isCyclic then 1 else 0) <= n
    ensures var tp := TableOf(cfg, Closing(cfg, pairs), origin, period, n, sqrt);
      && tp[0].originPos == origin
      && (forall j :: 1 <= j < |pairs| ==> tp[j].originPos == pairs[j - 1].0 as real)
      && (forall j :: 0 <= j < |pairs| ==> tp[j].targetPos == pairs[j].0 as real)
      && (forall j :: 0 <= j < |pairs| ==> tp[j].pointsNum == Points(pairs[j].1, period))
      && (cfg.isCyclic ==>
            && tp[|pairs|].originPos == pairs[|pairs| - 1].0 as real
            && tp[|pairs|].targetPos == tp[0].targetPos
            && tp[|pairs|].pointsNum == tp[0].pointsNum)
  {
    hide TableOf, Points;
    var closed := Closing(cfg, pairs);
    TableAtRest(cfg, closed, origin, period, n, sqrt);
    var tp := TableOf(cfg, closed, origin, period, n, sqrt);
    assert forall j :: 0 <= j < |closed| ==> IsEntry(tp[j], closed, origin, period, j);
    assert forall j :: 0 <= j < |pairs| ==> closed[j] == pairs[j];
  }

  /** A list that cannot be read to the end is answered with -5, but the new table is there all the same: the
      entries that were read, cleared ones behind them, and no closing one. */
  lemma IncompleteStays(st: AxisState, text: string, period: nat, sqrt: real -> real)
    requires st.mode == OP_MODE_CSP && st.status != Running && st.settings.scale > 0 && period > 0
    requires NoTrailingBlank(text)
    requires Scan(text, st.settings, Text.None).code == 0 && Scan(text, st.settings, Text.None).list.Some?
    requires '(' in Scan(text, st.settings, Text.None).list.value
    requires !Text.FillPairs(Scan(text, st.settings, Text.None).list.value).1
    ensures var sc, (code, st') := Scan(text, st.settings, Text.None), Load(st, text, period, true, sqrt);
      var n, pairs := Text.CountOpen(sc.list.value), Text.FillPairs(sc.list.value).0;
      && code == -5 && st'.status == st.status && st'.currentTp == st.currentTp && st'.settings == sc.cfg
      && |pairs| <= n && |st'.tp| == st'.tpNum == (if sc.cfg.isCyclic then n + 1 else n)
      && (forall j :: 0 <= j < |pairs| ==> IsEntry(st'.tp[j], pairs, OriginPos(st), period, j))
      && forall j :: |pairs| <= j < |st'.tp| ==> st'.tp[j] == EMPTY_SEGMENT
  {
    hide Scan, Text.FillPairs, Text.CountOpen, Points, OriginPos, IsEntry, TableOf;
    var sc, st' := Scan(text, st.settings, Text.None), Load(st, text, period, true, sqrt).1;
    Text.FillWithinCount(sc.list.value);
    NoneOpenIff(sc.list.value);
    var pairs := Text.FillPairs(sc.list.value).0;
    TableAtRest(sc.cfg, pairs, OriginPos(st), period, st'.tpNum, sqrt);
    ClearedBehind(sc.cfg, pairs, OriginPos(st), period, st'.tpNum, sqrt);
  }

  lemma ClearedBehind(cfg: Settings, pairs: seq<(nat, nat)>, origin: real, period: nat, n: nat, sqrt: real -> real)
    requires period > 0
    ensures forall j :: |pairs| <= j < n ==> TableOf(cfg, pairs, origin, period, n, sqrt)[j] == EMPTY_SEGMENT
  {
  }
}
