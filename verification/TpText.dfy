/** The text layer of the trajectory loader: the C library calls it makes, on strings without their
    terminator, and the printing they undo. */
module TpText {
  import opened Widths

  datatype Option<+T> = None | Some(value: T)

  // ----- strchr and sscanf -----

  /** The first position of c (`strchr`). */
  function IndexOf(s: string, c: char): (r: Option<nat>)
    ensures r.Some? ==> r.value < |s| && s[r.value] == c && c !in s[..r.value]
    ensures r.None? ==> c !in s
  {
    if s == "" then None
    else if s[0] == c then Some(0)
    else
      match IndexOf(s[1..], c)
      case None => None
      case Some(i) =>
        assert s[..i + 1] == [s[0]] + s[1..][..i];
        Some(i + 1)
  }

  predicate IsDigit(c: char) { '0' <= c <= '9' }

  function SkipBlanks(s: string): (r: string)
    ensures |r| <= |s| && r == s[|s| - |r|..] && (r != "" ==> r[0] != ' ')
    ensures forall i :: 0 <= i < |s| - |r| ==> s[i] == ' '
  {
    if s != "" && s[0] == ' ' then SkipBlanks(s[1..]) else s
  }

  function SkipSpaces(s: string): string {
    if s != "" && IsSpace(s[0]) then SkipSpaces(s[1..]) else s
  }

  /** The digits at the front of s, continuing the number acc. */
  function ScanDigits(s: string, acc: nat): (int, string) {
    if s != "" && IsDigit(s[0]) then ScanDigits(s[1..], 10 * acc + (s[0] - '0') as nat) else (acc, s)
  }

  /** The conversion `%d`: white space, a sign, at least one digit. */
  function ScanInt(s: string): Option<(int, string)> {
    var t := SkipSpaces(s);
    var negative := t != "" && t[0] == '-';
    var u := if t != "" && (t[0] == '-' || t[0] == '+') then t[1..] else t;
    if u == "" || !IsDigit(u[0]) then None
    else
      var (v, rest) := ScanDigits(u, 0);
      Some((if negative then -v else v, rest))
  }

  /** What a run of digits stands for, read from its last one. */
  function Decimal(digits: string): nat
    requires forall i :: 0 <= i < |digits| ==> IsDigit(digits[i])
  {
    if digits == "" then 0
    else
      var last := digits[|digits| - 1];
      assert IsDigit(last);
      10 * Decimal(digits[..|digits| - 1]) + (last - '0') as nat
  }

  lemma {:induction false} DigitsValue(front: string, digits: string, rest: string)
    requires forall i :: 0 <= i < |front| ==> IsDigit(front[i])
    requires forall i :: 0 <= i < |digits| ==> IsDigit(digits[i])
    ensures forall i :: 0 <= i < |front + digits| ==> IsDigit((front + digits)[i])
    ensures ScanDigits(digits + rest, Decimal(front)) == ScanDigits(rest, Decimal(front + digits))
    decreases |digits|
  {
    if digits == "" {
      assert digits + rest == rest && front + digits == front;
    } else {
      var next := front + [digits[0]];
      assert next[..|front|] == front && next[|front|] == digits[0];
      assert next + digits[1..] == front + digits;
      assert (digits + rest)[0] == digits[0] && (digits + rest)[1..] == digits[1..] + rest;
      DigitsValue(next, digits[1..], rest);
    }
  }

  lemma {:induction false} SpacesSkipped(blank: string, rest: string)
    requires forall i :: 0 <= i < |blank| ==> IsSpace(blank[i])
    requires rest == "" || !IsSpace(rest[0])
    ensures SkipSpaces(blank + rest) == rest
  {
    if blank == "" {
      assert blank + rest == rest;
    } else {
      assert (blank + rest)[1..] == blank[1..] + rest;
      SpacesSkipped(blank[1..], rest);
    }
  }

  predicate IsSign(sign: string) { sign == "" || sign == "+" || sign == "-" }

  /** What the conversion reads: after white space and at most one sign, the longest run of digits, leading
      zeros included. */
  lemma NumberIs(blank: string, sign: string, digits: string, rest: string)
    requires (forall i :: 0 <= i < |blank| ==> IsSpace(blank[i])) && IsSign(sign)
    requires digits != "" && forall i :: 0 <= i < |digits| ==> IsDigit(digits[i])
    requires rest == "" || !IsDigit(rest[0])
    ensures var v: int := Decimal(digits);
      ScanInt(blank + (sign + (digits + rest))) == Some((if sign == "-" then -v else v, rest))
  {
    hide SkipSpaces, Decimal, ScanDigits, ScanInt, IsSpace;
    var u := digits + rest;
    assert u[0] == digits[0];
    SignOrDigit(sign, u);
    SpacesSkipped(blank, sign + u);
    ScanIntFrom(blank + (sign + u), sign, u);
    DigitsValue("", digits, rest);
    assert "" + digits == digits;
    NoDigits(rest, digits);
  }

  lemma NoDigits(rest: string, digits: string)
    requires rest == "" || !IsDigit(rest[0])
    requires forall i :: 0 <= i < |digits| ==> IsDigit(digits[i])
    ensures Decimal("") == 0 && ScanDigits(rest, Decimal(digits)) == (Decimal(digits), rest)
  {
  }

  lemma SignOrDigit(sign: string, u: string)
    requires IsSign(sign) && u != "" && IsDigit(u[0])
    ensures sign + u != "" && !IsSpace((sign + u)[0])
  {
    SignFirst(sign, u);
  }

  lemma ScanIntFrom(s: string, sign: string, u: string)
    requires IsSign(sign) && SkipSpaces(s) == sign + u && u != "" && IsDigit(u[0])
    ensures ScanInt(s) ==
            Some((if sign == "-" then -ScanDigits(u, 0).0 else ScanDigits(u, 0).0, ScanDigits(u, 0).1))
  {
    hide SkipSpaces, ScanDigits;
    SignFirst(sign, u);
  }

  /** Without a digit there, there is no number. */
  lemma NoNumber(blank: string, sign: string, rest: string)
    requires (forall i :: 0 <= i < |blank| ==> IsSpace(blank[i])) && IsSign(sign)
    requires rest == "" || !IsDigit(rest[0])
    requires sign == "" && rest != "" ==> !IsSpace(rest[0]) && rest[0] != '+' && rest[0] != '-'
    ensures ScanInt(blank + (sign + rest)) == None
  {
    SignFirst(sign, rest);
    SpacesSkipped(blank, sign + rest);
    hide SkipSpaces, ScanDigits;
  }

  lemma SignFirst(sign: string, u: string)
    requires IsSign(sign)
    ensures if sign == "" then sign + u == u else (sign + u)[0] == sign[0] && (sign + u)[1..] == u
  {
  }

  /** The 32 bits a parsed number leaves in an unsigned variable. */
  function ToUint32(v: int): (r: nat)
    ensures r < TWO_32 && (0 <= v < TWO_32 ==> r == v)
  {
    v % TWO_32
  }

  function ToInt32(v: nat): int {
    if v % TWO_32 < TWO_32 / 2 then v % TWO_32 else v % TWO_32 - TWO_32
  }

  // ----- load_parameter -----

  datatype Parameter = NoMatch | Bad | Assigned(value: nat, rest: string)

  /** One clause `name=number ... ;` at the front of s; whatever follows the number up to the
      semicolon is ignored. */
  function LoadParameter(s: string, name: string): (r: Parameter)
    requires name != ""
    ensures r.Assigned? ==> |r.rest| < |s| && r.rest == s[|s| - |r.rest|..] && r.value < TWO_32
    ensures !(name <= s) ==> r == NoMatch
  {
    if !(name <= s) then NoMatch else
    var t := s[|name|..];
    if t == "" || t[0] != '=' then Bad else
    match ScanInt(t[1..])
    case None => Bad
    case Some((v, _)) =>
      match IndexOf(s, ';')
      case None => Bad
      case Some(i) => Assigned(ToUint32(v), s[i + 1..])
  }

  /** A clause does not match exactly if another name stands there; it is taken exactly if the name is
      followed by an equals sign and a number and there is a semicolon anywhere behind; then the value is the
      low 32 bits of the number and the scan goes on behind the first semicolon. */
  lemma ParameterIs(s: string, name: string)
    requires name != ""
    ensures var r := LoadParameter(s, name);
      && (r == NoMatch <==> !(name <= s))
      && (r.Assigned? <==> name + "=" <= s && ScanInt(s[|name| + 1..]).Some? && ';' in s)
      && (r.Assigned? ==> r.value == ScanInt(s[|name| + 1..]).value.0 % TWO_32)
      && (r.Assigned? ==> s == s[..|s| - |r.rest| - 1] + ";" + r.rest && ';' !in s[..|s| - |r.rest| - 1])
  {
    hide ScanInt, IndexOf;
    NameThenEquals(s, name);
    if IndexOf(s, ';').Some? {
      SplitAt(s, ';', IndexOf(s, ';').value);
    }
  }

  lemma NameThenEquals(s: string, name: string)
    ensures name + "=" <= s <==> name <= s && s[|name|..] != "" && s[|name|..][0] == '='
    ensures name + "=" <= s ==> s[|name|..][1..] == s[|name| + 1..]
  {
    if name <= s && s[|name|..] != "" && s[|name|..][0] == '=' {
      assert s[..|name|] == name && s[|name|] == '=';
      assert s[..|name| + 1] == name + "=";
    }
  }

  lemma SplitAt(s: string, c: char, i: nat)
    requires i < |s| && s[i] == c
    ensures s == s[..i] + [c] + s[i + 1..] && |s| - |s[i + 1..]| - 1 == i
  {
  }

  /** One entry `(pos:time`; the closing parenthesis is not looked at. */
  function ScanPair(s: string): (r: Option<(nat, nat)>)
    ensures r.Some? ==> s != "" && s[0] == '('
  {
    if s == "" || s[0] != '(' then None else
    match ScanInt(s[1..])
    case None => None
    case Some((pos, t)) =>
      if t == "" || t[0] != ':' then None else
      match ScanInt(t[1..])
      case None => None
      case Some((time, _)) => Some((ToUint32(pos), ToUint32(time)))
  }

  /** An entry of any two numbers, negative ones included, whatever comes behind: its words are their lowest 32
      bits, and the closing parenthesis is not needed. */
  lemma EntryIs(v: int, w: int, rest: string)
    requires rest == "" || !IsDigit(rest[0])
    ensures ScanPair("(" + (PrintInt(v) + (":" + (PrintInt(w) + rest)))) == Some((v % TWO_32, w % TWO_32))
  {
    var tail := ":" + (PrintInt(w) + rest);
    var s := "(" + (PrintInt(v) + tail);
    assert s[1..] == PrintInt(v) + tail && tail[1..] == PrintInt(w) + rest;
    IntRoundTrip(v, tail);
    IntRoundTrip(w, rest);
    hide PrintInt, ScanInt;
  }

  /** There is no entry without the opening parenthesis, the first number, the colon right behind it, or the
      second number. */
  lemma NoEntry(s: string, v: int, rest: string)
    ensures s == "" || s[0] != '(' || ScanInt(s[1..]).None? ==> ScanPair(s) == None
    ensures (rest == "" || (!IsDigit(rest[0]) && (rest[0] != ':' || ScanInt(rest[1..]).None?)))
            ==> ScanPair("(" + (PrintInt(v) + rest)) == None
  {
    var t := "(" + (PrintInt(v) + rest);
    assert t[1..] == PrintInt(v) + rest;
    if rest == "" || !IsDigit(rest[0]) {
      IntRoundTrip(v, rest);
    }
    hide PrintInt, ScanInt;
  }

  // ----- the two passes over the array text -----

  function CountOpen(s: string): nat {
    if s == "" then 0 else (if s[0] == '(' then 1 else 0) + CountOpen(s[1..])
  }

  /** The fill pass: an entry, then the next one behind the next comma. The flag tells whether every
      entry that was looked at could be read. */
  function FillPairs(s: string): (seq<(nat, nat)>, bool) {
    match ScanPair(s)
    case None => ([], false)
    case Some(p) =>
      match IndexOf(s, ',')
      case None => ([p], true)
      case Some(i) =>
        var (ps, ok) := FillPairs(s[i + 1..]);
        ([p] + ps, ok)
  }

  lemma {:induction false} CountOpenSplit(s: string, i: nat)
    requires i <= |s|
    ensures CountOpen(s) == CountOpen(s[..i]) + CountOpen(s[i..])
    decreases i
  {
    if i > 0 {
      CountOpenSplit(s[1..], i - 1);
      assert s[..i][1..] == s[1..][..i - 1];
      assert s[i..] == s[1..][i - 1..];
    } else {
      assert s[..0] == "";
      assert s[0..] == s;
    }
  }

  /** One round of the fill pass. */
  lemma FillOnce(s: string)
    ensures ScanPair(s).None? ==> FillPairs(s) == ([], false)
    ensures ScanPair(s).Some? && IndexOf(s, ',').None? ==> FillPairs(s) == ([ScanPair(s).value], true)
    ensures ScanPair(s).Some? && IndexOf(s, ',').Some? ==>
      var rest := s[IndexOf(s, ',').value + 1..];
      FillPairs(s) == ([ScanPair(s).value] + FillPairs(rest).0, FillPairs(rest).1)
  {
    hide ScanPair, IndexOf;
  }

  /** One round somewhere in the list: what was read so far, and the rest. */
  lemma OneMore(list: string, rest: string, pairs: seq<(nat, nat)>)
    requires FillPairs(list) == (pairs + FillPairs(rest).0, FillPairs(rest).1)
    ensures ScanPair(rest).None? ==> FillPairs(list) == (pairs, false)
    ensures ScanPair(rest).Some? && IndexOf(rest, ',').None? ==>
              FillPairs(list) == (pairs + [ScanPair(rest).value], true)
    ensures ScanPair(rest).Some? && IndexOf(rest, ',').Some? ==>
              var tail := rest[IndexOf(rest, ',').value + 1..];
              FillPairs(list) == (pairs + [ScanPair(rest).value] + FillPairs(tail).0, FillPairs(tail).1)
  {
    hide FillPairs, ScanPair, IndexOf;
    FillOnce(rest);
    if ScanPair(rest).None? {
      Joined(pairs, (0, 0), []);
    } else if IndexOf(rest, ',').Some? {
      Joined(pairs, ScanPair(rest).value, FillPairs(rest[IndexOf(rest, ',').value + 1..]).0);
    }
  }

  lemma Joined(pairs: seq<(nat, nat)>, v: (nat, nat), ps: seq<(nat, nat)>)
    ensures pairs + ([v] + ps) == pairs + [v] + ps && pairs + [] == pairs
  {
  }

  lemma {:induction false} CountToNext(s: string)
    ensures match IndexOf(s, '(')
      case None => CountOpen(s) == 0
      case Some(i) => CountOpen(s) == 1 + CountOpen(s[i + 1..])
  {
    if s != "" && s[0] != '(' {
      CountToNext(s[1..]);
    }
  }

  /** For every text, the fill pass (by comma) never delivers more entries than the count pass found
      opening parentheses, so it stays inside the table allocated for them. */
  lemma {:induction false} FillWithinCount(s: string)
    ensures |FillPairs(s).0| <= CountOpen(s)
    ensures FillPairs(s).1 ==> FillPairs(s).0 != [] && ScanPair(s) == Some(FillPairs(s).0[0])
    decreases |s|
  {
    if ScanPair(s).Some? {
      match IndexOf(s, ',')
      case None =>
      case Some(i) =>
        FillWithinCount(s[i + 1..]);
        CountOpenSplit(s, i + 1);
    }
  }

  function Commas(s: string): nat {
    if s == "" then 0 else (if s[0] == ',' then 1 else 0) + Commas(s[1..])
  }

  lemma {:induction false} CommasToNext(s: string)
    ensures match IndexOf(s, ',')
      case None => Commas(s) == 0
      case Some(i) => Commas(s) == 1 + Commas(s[i + 1..])
  {
    if s != "" && s[0] != ',' {
      CommasToNext(s[1..]);
    }
  }

  /** A complete fill pass delivers one entry more than there are commas, and one that gives up no more than
      there are commas. */
  lemma {:induction false} FillByCommas(s: string)
    ensures FillPairs(s).1 ==> |FillPairs(s).0| == 1 + Commas(s)
    ensures !FillPairs(s).1 ==> |FillPairs(s).0| <= Commas(s)
    decreases |s|
  {
    hide FillPairs, ScanPair, Commas;
    FillOnce(s);
    CommasToNext(s);
    if ScanPair(s).Some? && IndexOf(s, ',').Some? {
      FillByCommas(s[IndexOf(s, ',').value + 1..]);
    }
  }

  // ----- printing -----

  function Digit(d: nat): (c: char)
    requires d < 10
    ensures IsDigit(c) && (c - '0') as nat == d
  {
    '0' + d as char
  }

  function PrintNat(n: nat): (s: string)
    ensures s != "" && forall i :: 0 <= i < |s| ==> IsDigit(s[i])
  {
    if n < 10 then [Digit(n)] else PrintNat(n / 10) + [Digit(n % 10)]
  }

  function PrintInt(v: int): (s: string)
    ensures s != "" && forall i :: 0 <= i < |s| ==> IsDigit(s[i]) || s[i] == '-'
  {
    if v < 0 then "-" + PrintNat(-v) else PrintNat(v)
  }

  lemma {:induction false} DigitsRoundTrip(n: nat, rest: string)
    requires rest == "" || !IsDigit(rest[0])
    ensures ScanDigits(PrintNat(n) + rest, 0) == (n, rest)
  {
    DigitsThen(n, rest);
  }

  lemma {:induction false} DigitsThen(n: nat, rest: string)
    ensures ScanDigits(PrintNat(n) + rest, 0) == ScanDigits(rest, n)
  {
    if n < 10 {
      assert ([Digit(n)] + rest)[1..] == rest;
    } else {
      var tail := [Digit(n % 10)] + rest;
      assert PrintNat(n) + rest == PrintNat(n / 10) + tail;
      DigitsThen(n / 10, tail);
      assert tail[1..] == rest;
    }
  }

  lemma IntRoundTrip(v: int, rest: string)
    requires rest == "" || !IsDigit(rest[0])
    ensures ScanInt(PrintInt(v) + rest) == Some((v, rest))
  {
    hide PrintNat, ScanDigits;
    var n := if v < 0 then -v else v;
    var s, digits := PrintInt(v) + rest, PrintNat(n) + rest;
    DigitsRoundTrip(n, rest);
    assert digits[0] == PrintNat(n)[0];
    assert if v < 0 then s[0] == '-' && s[1..] == digits else s == digits;
    assert SkipSpaces(s) == s;
  }

  function PrintClause(name: string, v: int): string { name + "=" + PrintInt(v) + ";" }

  lemma ClauseRoundTrip(name: string, v: int, rest: string)
    requires name != "" && ';' !in name
    ensures LoadParameter(PrintClause(name, v) + rest, name) == Assigned(ToUint32(v), rest)
  {
    hide PrintInt, ScanInt, IndexOf;
    var s := PrintClause(name, v) + rest;
    var t := s[|name|..];
    assert s == name + (("=" + PrintInt(v) + ";") + rest);
    assert t == "=" + PrintInt(v) + ";" + rest;
    assert t[1..] == PrintInt(v) + (";" + rest);
    IntRoundTrip(v, ";" + rest);
    var head := name + "=" + PrintInt(v);
    assert s == head + ([';'] + rest);
    FirstBehind(head, ';', rest);
    assert s[|head| + 1..] == rest;
  }

  lemma {:induction false} FirstBehind(head: string, c: char, rest: string)
    requires c !in head
    ensures IndexOf(head + ([c] + rest), c) == Some(|head|)
  {
    if head != "" {
      assert (head + ([c] + rest))[1..] == head[1..] + ([c] + rest);
      FirstBehind(head[1..], c, rest);
    }
  }

  function PrintPair(p: (nat, nat)): string { "(" + PrintNat(p.0) + ":" + PrintNat(p.1) + ")" }

  function PrintPairs(ps: seq<(nat, nat)>, separator: string): string {
    if ps == [] then "" else
    if |ps| == 1 then PrintPair(ps[0])
    else PrintPair(ps[0]) + separator + PrintPairs(ps[1..], separator)
  }

  predicate Words(ps: seq<(nat, nat)>) {
    forall i :: 0 <= i < |ps| ==> ps[i].0 < TWO_32 && ps[i].1 < TWO_32
  }

  lemma PairRoundTrip(p: (nat, nat), rest: string)
    requires p.0 < TWO_32 && p.1 < TWO_32
    ensures ScanPair(PrintPair(p) + rest) == Some(p)
  {
    var s := PrintPair(p) + rest;
    assert s[1..] == PrintInt(p.0) + (":" + (PrintInt(p.1) + (")" + rest)));
    IntRoundTrip(p.0, ":" + (PrintInt(p.1) + (")" + rest)));
    assert (":" + (PrintInt(p.1) + (")" + rest)))[1..] == PrintInt(p.1) + (")" + rest);
    IntRoundTrip(p.1, ")" + rest);
  }

  lemma {:induction false} DigitsHave(s: string, c: char)
    requires forall i :: 0 <= i < |s| ==> IsDigit(s[i])
    requires !IsDigit(c)
    ensures c !in s && (c == '(' ==> CountOpen(s) == 0)
  {
    if s != "" {
      DigitsHave(s[1..], c);
    }
  }

  lemma PairShape(p: (nat, nat))
    ensures ',' !in PrintPair(p) && CountOpen(PrintPair(p)) == 1
  {
    var a, b := PrintNat(p.0), PrintNat(p.1);
    DigitsHave(a, ',');
    DigitsHave(b, ',');
    DigitsHave(a, '(');
    DigitsHave(b, '(');
    var s := PrintPair(p);
    assert s[1..] == a + (":" + (b + ")"));
    CountOpenConcat(a, ":" + (b + ")"));
    CountOpenConcat(":", b + ")");
    CountOpenConcat(b, ")");
  }

  lemma CountOpenConcat(s: string, t: string)
    ensures CountOpen(s + t) == CountOpen(s) + CountOpen(t)
  {
    CountOpenSplit(s + t, |s|);
    assert (s + t)[..|s|] == s && (s + t)[|s|..] == t;
  }

  lemma FillStep(p: (nat, nat), tail: string)
    requires p.0 < TWO_32 && p.1 < TWO_32
    ensures FillPairs(PrintPair(p) + ("," + tail)) == ([p] + FillPairs(tail).0, FillPairs(tail).1)
  {
    hide PrintPair, ScanPair, IndexOf, FillPairs;
    var head := PrintPair(p);
    PairShape(p);
    PairRoundTrip(p, "," + tail);
    FirstBehind(head, ',', tail);
    FillOnce(head + ("," + tail));
    RestBehind(head, ',', tail);
  }

  lemma RestBehind(head: string, c: char, rest: string)
    ensures (head + ([c] + rest))[|head| + 1..] == rest
  {
  }

  /** Printing any nonempty list without blanks and reading it back, by both passes. */
  lemma {:induction false} PairsRoundTrip(ps: seq<(nat, nat)>)
    requires ps != [] && Words(ps)
    ensures FillPairs(PrintPairs(ps, ",")) == (ps, true)
    ensures CountOpen(PrintPairs(ps, ",")) == |ps|
  {
    hide PrintPair, PrintPairs, ScanPair, IndexOf, CountOpen, FillPairs, Words;
    PrintPairsIs(ps);
    PairShape(ps[0]);
    var head := PrintPair(ps[0]);
    if |ps| == 1 {
      assert head + "" == head && ps == [ps[0]];
      PairRoundTrip(ps[0], "");
      FillOnce(head);
      NotFound(head, ',');
    } else {
      var tail := PrintPairs(ps[1..], ",");
      assert PrintPairs(ps, ",") == head + ("," + tail);
      FillStep(ps[0], tail);
      PairsRoundTrip(ps[1..]);
      assert [ps[0]] + ps[1..] == ps;
      CountOpenConcat(head, "," + tail);
      CountOpenConcat(",", tail);
      assert CountOpen(",") == 0 by { NoneOpen(); }
    }
  }

  /** Two lists with the comma between them forgotten: the fill pass does not notice, and loses the first
      entry of the second one. */
  lemma {:induction false} CommaForgotten(a: seq<(nat, nat)>, b: seq<(nat, nat)>)
    requires a != [] && b != [] && Words(a) && Words(b)
    ensures FillPairs(PrintPairs(a, ",") + PrintPairs(b, ",")) == (a + b[1..], true)
    ensures CountOpen(PrintPairs(a, ",") + PrintPairs(b, ",")) == |a| + |b|
    decreases |a|
  {
    hide FillPairs, PrintPair, CountOpen;
    PairsRoundTrip(a);
    PairsRoundTrip(b);
    CountOpenConcat(PrintPairs(a, ","), PrintPairs(b, ","));
    var s := PrintPairs(a, ",") + PrintPairs(b, ",");
    if |a| == 1 {
      PairThenPairs(a[0], b);
      assert [a[0]] == a;
    } else {
      var tail := PrintPairs(a[1..], ",") + PrintPairs(b, ",");
      CommaForgotten(a[1..], b);
      FillStep(a[0], tail);
      assert s == PrintPair(a[0]) + ("," + tail);
      assert [a[0]] + (a[1..] + b[1..]) == a + b[1..];
    }
  }

  lemma PairThenPairs(p: (nat, nat), b: seq<(nat, nat)>)
    requires b != [] && p.0 < TWO_32 && p.1 < TWO_32 && Words(b)
    ensures FillPairs(PrintPair(p) + PrintPairs(b, ",")) == ([p] + b[1..], true)
  {
    hide PrintPair, PrintPairs, ScanPair, IndexOf, FillPairs, CountOpen, Words;
    var both, s := PrintPair(p) + PrintPair(b[0]), PrintPair(p) + PrintPairs(b, ",");
    PrintPairsIs(b);
    PairRoundTrip(p, PrintPairs(b, ","));
    PairShape(p);
    PairShape(b[0]);
    FillOnce(s);
    if |b| == 1 {
      assert [p] + b[1..] == [p];
      NotFound(both, ',');
    } else {
      var tail := PrintPairs(b[1..], ",");
      assert s == both + ([','] + tail);
      FirstBehind(both, ',', tail);
      RestBehind(both, ',', tail);
      PairsRoundTrip(b[1..]);
    }
  }

  lemma PrintPairsIs(ps: seq<(nat, nat)>)
    requires ps != [] && Words(ps)
    ensures ps[0].0 < TWO_32 && ps[0].1 < TWO_32
    ensures |ps| == 1 ==> PrintPairs(ps, ",") == PrintPair(ps[0])
    ensures |ps| > 1 ==> PrintPairs(ps, ",") == PrintPair(ps[0]) + "," + PrintPairs(ps[1..], ",") && Words(ps[1..])
  {
  }

  lemma NotFound(s: string, c: char)
    requires c !in s
    ensures IndexOf(s, c) == None
  {
  }

  lemma NoneOpen()
    ensures CountOpen(",") == 0
  {
  }

  /** A list printed with a blank behind some of its commas. */
  function PrintSpaced(ps: seq<(nat, nat)>, blank: seq<bool>): string
    requires |ps| == |blank| + 1
  {
    if blank == [] then PrintPair(ps[0])
    else PrintPair(ps[0]) + ("," + ((if blank[0] then " " else "") + PrintSpaced(ps[1..], blank[1..])))
  }

  /** How many entries come before the first blank. */
  function ToBlank(blank: seq<bool>): (n: nat)
    ensures 1 <= n <= |blank| + 1
  {
    if blank == [] || blank[0] then 1 else 1 + ToBlank(blank[1..])
  }

  /** The fill pass reads a list up to the first blank behind a comma and gives up there: it is accepted,
      whole, exactly when there is none. */
  lemma {:induction false} AcceptedIffNoBlanks(ps: seq<(nat, nat)>, blank: seq<bool>)
    requires |ps| == |blank| + 1 && Words(ps)
    ensures FillPairs(PrintSpaced(ps, blank)) == (ps[..ToBlank(blank)], true !in blank)
    decreases |ps|
  {
    hide PrintPair, FillPairs;
    if blank == [] {
      PairsRoundTrip(ps);
      assert PrintPairs(ps, ",") == PrintSpaced(ps, blank) && ps[..1] == ps;
    } else {
      var tail := PrintSpaced(ps[1..], blank[1..]);
      if blank[0] {
        BlankTail(ps[0], tail);
        assert [ps[0]] == ps[..1];
      } else {
        FillStep(ps[0], tail);
        assert "" + tail == tail;
        AcceptedIffNoBlanks(ps[1..], blank[1..]);
        assert [ps[0]] + ps[1..][..ToBlank(blank[1..])] == ps[..ToBlank(blank)];
        assert blank == [blank[0]] + blank[1..];
      }
    }
  }

  lemma BlankTail(p: (nat, nat), tail: string)
    requires p.0 < TWO_32 && p.1 < TWO_32
    ensures FillPairs(PrintPair(p) + ("," + (" " + tail))) == ([p], false)
  {
    hide ScanPair, PrintPair, IndexOf;
    FillStep(p, " " + tail);
    assert FillPairs(" " + tail) == ([], false);
    assert [p] + [] == [p];
  }
}
