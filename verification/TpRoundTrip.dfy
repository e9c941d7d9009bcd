/** Printing a trajectory program in the layout of the shipped example files, and loading it again. */
module TpRoundTrip {
  import opened CspTypes
  import opened TpLoader
  import opened Widths
  import Text = TpText

  datatype Program = Program(cfg: Settings, pairs: seq<(nat, nat)>)

  /** The settings are whole numbers the text can carry. */
  predicate Printable(p: Program) {
    && p.cfg.scale < TWO_32
    && -(TWO_32 / 2) <= p.cfg.bias < TWO_32 / 2
    && 0.0 <= p.cfg.acceleration < TWO_32 as real
    && p.cfg.acceleration == p.cfg.acceleration.Floor as real
    && 0.0 <= p.cfg.deceleration < TWO_32 as real
    && p.cfg.deceleration == p.cfg.deceleration.Floor as real
    && 0.0 <= p.cfg.maxSpeed < TWO_32 as real
    && p.cfg.maxSpeed == p.cfg.maxSpeed.Floor as real
    && p.pairs != [] && Text.Words(p.pairs)
  }

  /** A line in the layout of the shipped example files. */
  function PrintProgram(p: Program): string {
    Text.PrintClause("Cyclic", if p.cfg.isCyclic then 1 else 0) + (" " +
    (Text.PrintClause("Scale", p.cfg.scale) + (" " +
    (Text.PrintClause("Bias", p.cfg.bias) + (" " +
    (Text.PrintClause("Accel", p.cfg.acceleration.Floor) + (" " +
    (Text.PrintClause("Decel", p.cfg.deceleration.Floor) + (" " +
    (Text.PrintClause("Max_speed", p.cfg.maxSpeed.Floor) + (" " +
    PrintArray(p.pairs))))))))))))
  }

  /** The array clause around a list. */
  function PrintList(list: string): string { "TpArrays" + ("=[" + (list + "];")) }

  function PrintArray(pairs: seq<(nat, nat)>): string { PrintList(Text.PrintPairs(pairs, ",")) }

  /** No two names begin with the same letter. */
  lemma OtherLetters(s: string)
    requires s != ""
    ensures s[0] != 'C' ==> Text.LoadParameter(s, "Cyclic") == Text.NoMatch
    ensures s[0] != 'S' ==> Text.LoadParameter(s, "Scale") == Text.NoMatch
    ensures s[0] != 'B' ==> Text.LoadParameter(s, "Bias") == Text.NoMatch
    ensures s[0] != 'A' ==> Text.LoadParameter(s, "Accel") == Text.NoMatch
    ensures s[0] != 'D' ==> Text.LoadParameter(s, "Decel") == Text.NoMatch
    ensures s[0] != 'M' ==> Text.LoadParameter(s, "Max_speed") == Text.NoMatch
  {
    hide Text.LoadParameter;
    assert "Cyclic" <= s ==> s[0] == "Cyclic"[0];
    assert "Scale" <= s ==> s[0] == "Scale"[0];
    assert "Bias" <= s ==> s[0] == "Bias"[0];
    assert "Accel" <= s ==> s[0] == "Accel"[0];
    assert "Decel" <= s ==> s[0] == "Decel"[0];
    assert "Max_speed" <= s ==> s[0] == "Max_speed"[0];
  }

  datatype Name = Cyclic | Scale | Bias | Accel | Decel | MaxSpeed

  function Spelled(name: Name): (s: string)
    ensures s != "" && ';' !in s && s[0] != ' '
  {
    match name
    case Cyclic => "Cyclic"
    case Scale => "Scale"
    case Bias => "Bias"
    case Accel => "Accel"
    case Decel => "Decel"
    case MaxSpeed => "Max_speed"
  }

  /** What the clause `name=v;` is meant to set. */
  function Assign(cfg: Settings, name: Name, v: int): Settings
    requires name == Scale ==> v >= 0
  {
    match name
    case Cyclic => cfg.(isCyclic := v > 0)
    case Scale => cfg.(scale := v)
    case Bias => cfg.(bias := v)
    case Accel => cfg.(acceleration := v as real)
    case Decel => cfg.(deceleration := v as real)
    case MaxSpeed => cfg.(maxSpeed := v as real)
  }

  predicate Fits32(name: Name, v: int) {
    if name == Bias then -(TWO_32 / 2) <= v < TWO_32 / 2 else 0 <= v < TWO_32
  }

  /** Each clause is read back by its own branch. */
  lemma ClauseAssigns(cfg: Settings, name: Name, v: int, rest: string)
    requires Fits32(name, v)
    ensures ScanClause(Text.PrintClause(Spelled(name), v) + rest, cfg) == Taken(Assign(cfg, name, v), rest)
  {
    hide Text.LoadParameter, Text.PrintInt;
    var s := Text.PrintClause(Spelled(name), v) + rest;
    assert s[0] == Spelled(name)[0];
    Text.ClauseRoundTrip(Spelled(name), v, rest);
    hide Text.PrintClause;
    OtherLetters(s);
  }

  lemma ScanTaken(s: string, rest: string, cfg: Settings, cfg': Settings, list: Text.Option<string>)
    requires s != "" && s[0] != ' ' && NoTrailingBlank(s)
    requires ScanClause(s, cfg) == Taken(cfg', rest)
    ensures NoTrailingBlank(rest) && Scan(s, cfg, list) == Scan(rest, cfg', list)
  {
    hide ScanClause, ScanArray;
    assert Text.SkipBlanks(s) == s;
    assert ScanRound(s, cfg, list) == On(rest, cfg', list);
  }

  lemma ScanBlank(rest: string, cfg: Settings, list: Text.Option<string>)
    requires rest != "" && rest[0] != ' ' && NoTrailingBlank(rest)
    ensures NoTrailingBlank(" " + rest) && Scan(" " + rest, cfg, list) == Scan(rest, cfg, list)
  {
    hide ScanRound, Scan;
    var t := " " + rest;
    assert t[1..] == rest && t[|t| - 1] == rest[|rest| - 1];
    assert Text.SkipBlanks(t) == rest == Text.SkipBlanks(rest);
    hide Text.SkipBlanks;
    ScanStep(t, cfg, list);
    ScanStep(rest, cfg, list);
  }

  /** A printed clause, the blank behind it, and on to the next one. */
  lemma ScanOn(name: Name, v: int, rest: string, cfg: Settings, list: Text.Option<string>)
    requires Fits32(name, v)
    requires rest != "" && rest[0] != ' ' && NoTrailingBlank(rest)
    ensures var s := Text.PrintClause(Spelled(name), v) + (" " + rest);
      s != "" && s[0] != ' ' && NoTrailingBlank(s) && Scan(s, cfg, list) == Scan(rest, Assign(cfg, name, v), list)
  {
    hide Text.PrintInt, Scan, ScanClause;
    var s := Text.PrintClause(Spelled(name), v) + (" " + rest);
    assert s[0] == Spelled(name)[0];
    assert s[|s| - 1] == rest[|rest| - 1];
    ClauseAssigns(cfg, name, v, " " + rest);
    ScanTaken(s, " " + rest, cfg, Assign(cfg, name, v), list);
    ScanBlank(rest, Assign(cfg, name, v), list);
  }

  lemma {:induction false} NoBracket(pairs: seq<(nat, nat)>)
    ensures ']' !in Text.PrintPairs(pairs, ",")
  {
    if pairs != [] {
      Text.DigitsHave(Text.PrintNat(pairs[0].0), ']');
      Text.DigitsHave(Text.PrintNat(pairs[0].1), ']');
      NoBracket(pairs[1..]);
    }
  }

  lemma BracketsFound(pp: string)
    requires ']' !in pp
    ensures ScanBrackets("=[" + (pp + "];")) == Found(pp, "")
  {
    hide Text.IndexOf;
    var p := "=[" + (pp + "];");
    assert p == "=" + (['['] + (pp + "];"));
    assert p == ("=[" + pp) + ([']'] + ";");
    Text.FirstBehind("=", '[', pp + "];");
    Text.FirstBehind("=[" + pp, ']', ";");
    assert p[2..|pp| + 2] == pp;
    assert p[|pp| + 3..] == "" + ([';'] + "");
    Text.FirstBehind("", ';', "");
  }

  lemma ListRoundTrip(pp: string, cfg: Settings, list: Text.Option<string>)
    requires ']' !in pp
    ensures var s := PrintList(pp);
      s != "" && s[0] == 'T' && NoTrailingBlank(s) && Scan(s, cfg, list) == Scanned(0, cfg, Text.Some(pp))
  {
    hide Scan, ScanClause, ScanBrackets, Text.SkipBlanks;
    var s, p := PrintList(pp), "=[" + (pp + "];");
    BracketsFound(pp);
    assert s == "TpArrays" + p;
    assert s[8..] == p && "TpArrays" <= s && s[|s| - 1] == ';';
    hide PrintList;
    NotAParameter(s, cfg);
    NoBlanks(s);
    ScanStep(s, cfg, list);
    ScanNothing(cfg, Text.Some(pp));
  }

  lemma NoBlanks(s: string)
    requires s != "" && s[0] != ' '
    ensures Text.SkipBlanks(s) == s
  {
  }

  lemma ScanNothing(cfg: Settings, list: Text.Option<string>)
    ensures Scan("", cfg, list) == Scanned(0, cfg, list)
  {
  }

  lemma ArrayRoundTrip(pairs: seq<(nat, nat)>, cfg: Settings, list: Text.Option<string>)
    ensures var s := PrintArray(pairs);
      s != "" && s[0] == 'T' && NoTrailingBlank(s)
      && Scan(s, cfg, list) == Scanned(0, cfg, Text.Some(Text.PrintPairs(pairs, ",")))
  {
    hide Scan, PrintList, Text.PrintPairs;
    NoBracket(pairs);
    ListRoundTrip(Text.PrintPairs(pairs, ","), cfg, list);
  }

  lemma NotAParameter(s: string, cfg: Settings)
    requires s != "" && s[0] == 'T'
    ensures ScanClause(s, cfg) == NoClause
  {
    hide Text.LoadParameter;
    OtherLetters(s);
  }

  /** Printing a program in the layout of the example files and loading it gives back every setting and
      every entry, whatever the axis was set to before. */
  lemma ProgramRoundTrip(p: Program, cfg: Settings)
    requires Printable(p)
    ensures NoTrailingBlank(PrintProgram(p))
    ensures Scan(PrintProgram(p), cfg, Text.None)
         == Scanned(0, p.cfg, Text.Some(Text.PrintPairs(p.pairs, ",")))
    ensures Text.FillPairs(Text.PrintPairs(p.pairs, ",")) == (p.pairs, true)
    ensures WellFormed(Text.PrintPairs(p.pairs, ","))
  {
    hide Scan, PrintArray, Text.PrintClause, Text.FillPairs, Text.PrintPairs, Text.CountOpen;
    var q := p.cfg;
    var x := if q.isCyclic then 1 else 0;
    var accel, decel, max := q.acceleration.Floor, q.deceleration.Floor, q.maxSpeed.Floor;
    var s6 := PrintArray(p.pairs);
    var s5 := Text.PrintClause("Max_speed", max) + (" " + s6);
    var s4 := Text.PrintClause("Decel", decel) + (" " + s5);
    var s3 := Text.PrintClause("Accel", accel) + (" " + s4);
    var s2 := Text.PrintClause("Bias", q.bias) + (" " + s3);
    var s1 := Text.PrintClause("Scale", q.scale) + (" " + s2);
    var c1 := Assign(cfg, Cyclic, x);
    var c2 := Assign(c1, Scale, q.scale);
    var c3 := Assign(c2, Bias, q.bias);
    var c4 := Assign(c3, Accel, accel);
    var c5 := Assign(c4, Decel, decel);
    ArrayRoundTrip(p.pairs, q, Text.None);
    ScanOn(MaxSpeed, max, s6, c5, Text.None);
    ScanOn(Decel, decel, s5, c4, Text.None);
    ScanOn(Accel, accel, s4, c3, Text.None);
    ScanOn(Bias, q.bias, s3, c2, Text.None);
    ScanOn(Scale, q.scale, s2, c1, Text.None);
    ScanOn(Cyclic, x, s1, cfg, Text.None);
    Text.PairsRoundTrip(p.pairs);
  }
}
