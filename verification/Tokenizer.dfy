/** The console's command splitter, which cuts its line in place: separators become terminators and the
    words are pointed to where they stand. */
module Tokenizer {
  import opened Widths

  const BUFF_LEN := 64

  const NUL: char := '\0'

  /** A word begins here: a character that is no blank, first in the line or after a blank. */
  predicate Start(s: string, i: nat) {
    i < |s| && !IsSpace(s[i]) && (i == 0 || IsSpace(s[i - 1]))
  }

  /** All beginnings from i on, in order. */
  function StartsFrom(s: string, i: nat): (starts: seq<nat>)
    requires i <= |s|
    decreases |s| - i
  {
    if i == |s| then []
    else (if Start(s, i) then [i] else []) + StartsFrom(s, i + 1)
  }

  /** Where the run of non-blanks from i ends. */
  function End(s: string, i: nat): (e: nat)
    requires i <= |s|
    ensures i <= e <= |s| && (forall k :: i <= k < e ==> !IsSpace(s[k])) && (e < |s| ==> IsSpace(s[e]))
    decreases |s| - i
  {
    if i == |s| || IsSpace(s[i]) then i else End(s, i + 1)
  }

  /** The words from i on: the maximal runs of non-blanks. */
  function WordsFrom(s: string, i: nat): (words: seq<string>)
    requires i <= |s|
    decreases |s| - i
  {
    if i == |s| then []
    else (if Start(s, i) then [s[i..End(s, i)]] else []) + WordsFrom(s, i + 1)
  }

  /** The line after the cut: the first blank after each word is a terminator. */
  function CutAt(s: string, i: nat): char
    requires i < |s|
  {
    if IsSpace(s[i]) && i > 0 && !IsSpace(s[i - 1]) then NUL else s[i]
  }

  lemma {:induction false} StartsAreStarts(s: string, i: nat)
    requires i <= |s|
    ensures forall a :: a in StartsFrom(s, i) <==> i <= a && Start(s, a)
    ensures forall j, k :: 0 <= j < k < |StartsFrom(s, i)| ==> StartsFrom(s, i)[j] < StartsFrom(s, i)[k]
    decreases |s| - i
  {
    if i < |s| {
      StartsAreStarts(s, i + 1);
      var rest := StartsFrom(s, i + 1);
      assert forall k :: 0 <= k < |rest| ==> rest[k] in rest;
    }
  }

  lemma {:induction false} WordsAtStarts(s: string, i: nat)
    requires i <= |s|
    ensures |WordsFrom(s, i)| == |StartsFrom(s, i)|
    ensures forall k :: 0 <= k < |StartsFrom(s, i)| ==>
              Start(s, StartsFrom(s, i)[k])
              && WordsFrom(s, i)[k] == s[StartsFrom(s, i)[k]..End(s, StartsFrom(s, i)[k])]
    decreases |s| - i
  {
    if i < |s| {
      WordsAtStarts(s, i + 1);
    }
  }

  /** The line is cut exactly where a word ends, and every other character of it stays. */
  lemma CutsAreEnds(s: string, i: nat)
    requires NUL !in s && i < |s|
    ensures CutAt(s, i) == NUL || CutAt(s, i) == s[i]
    ensures CutAt(s, i) == NUL <==> exists a: nat :: Start(s, a) && End(s, a) == i
  {
    assert s[i] in s;
    if IsSpace(s[i]) && i > 0 && !IsSpace(s[i - 1]) {
      var a := StartOfRun(s, i - 1);
      EndIs(s, a, i);
      assert Start(s, a) && End(s, a) == i;
    }
    if a: nat :| Start(s, a) && End(s, a) == i {
      assert a < i;
    }
  }

  /** Where the run of non-blanks that reaches i begins. */
  lemma {:induction false} StartOfRun(s: string, i: nat) returns (a: nat)
    requires i < |s| && !IsSpace(s[i])
    ensures a <= i && Start(s, a) && forall k :: a <= k <= i ==> !IsSpace(s[k])
  {
    if i == 0 || IsSpace(s[i - 1]) {
      a := i;
    } else {
      a := StartOfRun(s, i - 1);
    }
  }

  /** Whether a terminated string stands in the buffer from a on. */
  predicate HoldsString(buffer: seq<char>, a: nat, w: string) {
    && a + |w| < |buffer|
    && buffer[a..a + |w|] == w
    && NUL !in w
    && buffer[a + |w|] == NUL
  }

  /** A buffer that holds a line, with the terminator that ends it. */
  predicate HoldsLine(buffer: seq<char>, l: nat) {
    l < |buffer| && buffer[l] == NUL && forall k :: 0 <= k < l ==> buffer[k] != NUL
  }

  /** After the cut, each beginning is the address of its word as a terminated string. */
  lemma WordsStand(s: string, buffer: seq<char>)
    requires NUL !in s && |s| < |buffer| && buffer[|s|] == NUL
    requires forall i :: 0 <= i < |s| ==> buffer[i] == CutAt(s, i)
    ensures |WordsFrom(s, 0)| == |StartsFrom(s, 0)|
    ensures forall k :: 0 <= k < |StartsFrom(s, 0)| ==>
              HoldsString(buffer, StartsFrom(s, 0)[k], WordsFrom(s, 0)[k])
  {
    WordsAtStarts(s, 0);
    forall k | 0 <= k < |StartsFrom(s, 0)|
      ensures HoldsString(buffer, StartsFrom(s, 0)[k], WordsFrom(s, 0)[k])
    {
      var a := StartsFrom(s, 0)[k];
      var e := End(s, a);
      assert a < e;
      assert forall i :: a <= i < e ==> s[i] in s;
      assert buffer[a..e] == s[a..e];
    }
  }

  method StrLen(cmd: array<char>, ghost n: nat) returns (l: nat)
    requires HoldsLine(cmd[..], n)
    ensures l == n
  {
    l := 0;
    while cmd[l] != NUL
      invariant l <= n && forall k :: 0 <= k < l ==> cmd[k] != NUL
      decreases n - l
    {
      l := l + 1;
    }
  }

  /** What one call leaves: the count, the addresses of the words, and the line with its cuts. */
  ghost predicate Parsed(s: string, before: seq<char>, after: seq<char>, argv: seq<nat>) {
    && |after| == |before|
    && argv == StartsFrom(s, 0)
    && (forall i :: 0 <= i < |s| && i < |after| ==> after[i] == CutAt(s, i))
    && (forall i :: |s| <= i < |after| ==> after[i] == before[i])
  }

  /** From i on the line is still whole. */
  predicate HoldsRest(buffer: seq<char>, i: nat, l: nat) {
    l < |buffer| && buffer[l] == NUL && forall k :: i <= k < l ==> buffer[k] != NUL
  }

  method SkipBlanks(cmd: array<char>, i: nat, ghost n: nat) returns (e: nat)
    requires i <= n && HoldsRest(cmd[..], i, n)
    ensures i <= e <= n && !IsSpace(cmd[e]) && forall k :: i <= k < e ==> IsSpace(cmd[k])
  {
    e := i;
    while IsSpace(cmd[e])
      invariant i <= e <= n && forall k :: i <= k < e ==> IsSpace(cmd[k])
      decreases n - e
    {
      e := e + 1;
    }
  }

  method SkipWord(cmd: array<char>, i: nat, ghost n: nat) returns (e: nat)
    requires i < n && HoldsRest(cmd[..], i, n) && !IsSpace(cmd[i])
    ensures i < e <= n && (e < n ==> IsSpace(cmd[e])) && forall k :: i <= k < e ==> !IsSpace(cmd[k])
  {
    e := i;
    while !IsSpace(cmd[e]) && cmd[e] != NUL
      invariant i <= e <= n && forall k :: i <= k < e ==> !IsSpace(cmd[k])
      decreases n - e
    {
      e := e + 1;
    }
  }

  /** The line is n characters long; argv has room for as many words as fit in it. */
  method ParseCmd(cmd: array<char>, argv: array<nat>, ghost n: nat) returns (argc: nat)
    requires HoldsLine(cmd[..], n) && n <= 2 * argv.Length
    modifies cmd, argv
    ensures argc <= argv.Length
    ensures n == 0 || n > BUFF_LEN ==> argc == 0 && cmd[..] == old(cmd[..]) && argv[..] == old(argv[..])
    ensures 0 < n <= BUFF_LEN ==> Parsed(old(cmd[..n]), old(cmd[..]), cmd[..], argv[..argc])
  {
    hide StartsFrom, IsSpace, CutTo, CutAt;
    var l := StrLen(cmd, n);
    ghost var before, s := cmd[..], cmd[..l];
    if l > BUFF_LEN || l <= 0 {
      return 0;
    }
    var i, j := 0, 0;
    NothingLeft(s);
    CutNothing(before, s);
    ghost var found: seq<nat> := [];
    while i < l
      invariant 0 <= i <= l && 0 <= 2 * j <= i && j <= argv.Length
      invariant i == 0 || IsSpace(s[i - 1])
      invariant argv[..j] == found && found + StartsFrom(s, i) == StartsFrom(s, 0)
      invariant CutTo(cmd[..], before, s, i)
    {
      CutSoFar(cmd[..], before, s, i);
      var a := SkipBlanks(cmd, i, l);
      BlanksStartNothing(s, i, a);
      CutThrough(cmd[..], before, s, i, a);
      if cmd[a] == NUL {
        CutWhole(cmd[..], before, s);
        return j;
      }
      argv[j] := a;
      j := j + 1;
      var e := SkipWord(cmd, a, l);
      WordStartsOnce(s, a, e);
      CutThrough(cmd[..], before, s, a, e);
      found := found + [a];
      if cmd[e] == NUL {
        CutWhole(cmd[..], before, s);
        return j;
      }
      CutHere(cmd[..], before, s, e);
      cmd[e] := NUL;
      i := e + 1;
    }
    CutWhole(cmd[..], before, s);
    return j;
  }

  /** The buffer is cut up to i and untouched from there on. */
  predicate CutTo(buffer: seq<char>, before: seq<char>, s: string, i: nat) {
    && i <= |s| < |buffer| == |before| && s == before[..|s|]
    && (forall k :: 0 <= k < i ==> buffer[k] == CutAt(s, k))
    && forall k :: i <= k < |buffer| ==> buffer[k] == before[k]
  }

  lemma CutNothing(before: seq<char>, s: string)
    requires |s| < |before| && s == before[..|s|]
    ensures CutTo(before, before, s, 0)
  {
  }

  lemma CutSoFar(buffer: seq<char>, before: seq<char>, s: string, i: nat)
    requires CutTo(buffer, before, s, i) && HoldsLine(before, |s|)
    ensures HoldsRest(buffer, i, |s|) && forall k :: i <= k < |s| ==> buffer[k] == s[k]
  {
  }

  /** A run of blanks after a blank, or of non-blanks, is not cut. */
  lemma CutThrough(buffer: seq<char>, before: seq<char>, s: string, i: nat, e: nat)
    requires CutTo(buffer, before, s, i) && i <= e <= |s| && HoldsLine(before, |s|)
    requires || ((i == 0 || IsSpace(s[i - 1])) && forall k :: i <= k < e ==> IsSpace(s[k]))
             || forall k :: i <= k < e ==> !IsSpace(s[k])
    ensures CutTo(buffer, before, s, e) && HoldsRest(buffer, e, |s|)
  {
  }

  lemma CutHere(buffer: seq<char>, before: seq<char>, s: string, e: nat)
    requires CutTo(buffer, before, s, e) && 0 < e < |s| && IsSpace(s[e]) && !IsSpace(s[e - 1])
    ensures CutTo(buffer[e := NUL], before, s, e + 1)
  {
  }

  lemma CutWhole(buffer: seq<char>, before: seq<char>, s: string)
    requires CutTo(buffer, before, s, |s|)
    ensures Parsed(s, before, buffer, StartsFrom(s, 0))
  {
  }

  lemma NothingLeft(s: string)
    ensures StartsFrom(s, |s|) == [] && !IsSpace(NUL)
  {
  }

  lemma {:induction false} BlanksStartNothing(s: string, i: nat, a: nat)
    requires i <= a <= |s| && forall k :: i <= k < a ==> IsSpace(s[k])
    ensures StartsFrom(s, i) == StartsFrom(s, a)
    decreases a - i
  {
    if i < a {
      BlanksStartNothing(s, i + 1, a);
    }
  }

  lemma {:induction false} WordStartsNothing(s: string, i: nat, e: nat)
    requires 0 < i <= e <= |s| && forall k :: i - 1 <= k < e ==> !IsSpace(s[k])
    ensures StartsFrom(s, i) == StartsFrom(s, e)
    decreases e - i
  {
    if i < e {
      WordStartsNothing(s, i + 1, e);
    }
  }

  lemma WordStartsOnce(s: string, a: nat, e: nat)
    requires Start(s, a) && a < e <= |s|
    requires (forall k :: a <= k < e ==> !IsSpace(s[k])) && (e < |s| ==> IsSpace(s[e]))
    ensures StartsFrom(s, a) == [a] + StartsFrom(s, e)
    ensures e < |s| ==> StartsFrom(s, e) == StartsFrom(s, e + 1)
  {
    WordStartsNothing(s, a + 1, e);
  }

  // ----- the round trip -----

  predicate IsWord(w: string) {
    w != "" && NUL !in w && forall k :: 0 <= k < |w| ==> !IsSpace(w[k])
  }

  function Join(words: seq<string>): string {
    if words == [] then ""
    else if |words| == 1 then words[0]
    else words[0] + " " + Join(words[1..])
  }

  /** Past a beginning nothing begins until the word is over. */
  lemma {:induction false} InsideAWord(s: string, i: nat, e: nat)
    requires 0 < i <= e <= |s| && !IsSpace(s[i - 1])
    requires forall k :: i <= k < e ==> !IsSpace(s[k])
    ensures WordsFrom(s, i) == WordsFrom(s, e)
    decreases e - i
  {
    if i < e {
      InsideAWord(s, i + 1, e);
    }
  }

  lemma EndIs(s: string, i: nat, e: nat)
    requires i <= e <= |s| && (forall k :: i <= k < e ==> !IsSpace(s[k])) && (e < |s| ==> IsSpace(s[e]))
    ensures End(s, i) == e
    decreases e - i
  {
    if i < e {
      EndIs(s, i + 1, e);
    }
  }

  /** One word that stands from a to e. */
  lemma OneWord(s: string, a: nat, e: nat)
    requires a < e <= |s| && (a == 0 || IsSpace(s[a - 1]))
    requires (forall k :: a <= k < e ==> !IsSpace(s[k])) && (e < |s| ==> IsSpace(s[e]))
    ensures WordsFrom(s, a) == [s[a..e]] + WordsFrom(s, e)
    ensures e < |s| ==> WordsFrom(s, e) == WordsFrom(s, e + 1)
  {
    EndIs(s, a, e);
    InsideAWord(s, a + 1, e);
    assert WordsFrom(s, a) == [s[a..e]] + WordsFrom(s, a + 1);
    hide End;
  }

  /** Splitting what was joined with blanks gives the words back, whatever stands before. */
  lemma {:induction false} SplitJoined(front: string, words: seq<string>)
    requires front == "" || IsSpace(front[|front| - 1])
    requires forall k :: 0 <= k < |words| ==> IsWord(words[k])
    ensures WordsFrom(front + Join(words), |front|) == words
    decreases |words|
  {
    hide WordsFrom, Join, IsSpace;
    JoinParts(words);
    if |words| == 1 {
      WordAfter(front, words[0], "");
      assert front + words[0] + "" == front + Join(words);
      NoMore(front + Join(words));
    } else if |words| > 1 {
      var rest := " " + Join(words[1..]);
      Blank();
      WordAfter(front, words[0], rest);
      assert front + words[0] + rest == front + Join(words) == (front + words[0] + " ") + Join(words[1..]);
      SplitJoined(front + words[0] + " ", words[1..]);
    } else {
      NoMore(front + Join(words));
    }
  }

  lemma Blank()
    ensures IsSpace(' ')
  {
  }

  lemma JoinParts(words: seq<string>)
    ensures words == [] ==> Join(words) == ""
    ensures |words| == 1 ==> Join(words) == words[0]
    ensures |words| > 1 ==> Join(words) == words[0] + (" " + Join(words[1..]))
  {
  }

  lemma WordAfter(front: string, w: string, rest: string)
    requires (front == "" || IsSpace(front[|front| - 1])) && IsWord(w) && (rest == "" || IsSpace(rest[0]))
    ensures var s := front + w + rest;
      && WordsFrom(s, |front|) == [w] + WordsFrom(s, |front| + |w|)
      && (rest != "" ==> WordsFrom(s, |front| + |w|) == WordsFrom(s, |front| + |w| + 1))
  {
    hide WordsFrom, IsSpace;
    var s, a, e := front + w + rest, |front|, |front| + |w|;
    assert s[a..e] == w;
    forall k | a <= k < e
      ensures !IsSpace(s[k])
    {
      assert s[k] == w[k - a];
    }
    OneWord(s, a, e);
  }

  lemma NoMore(s: string)
    ensures WordsFrom(s, |s|) == []
  {
  }

  lemma JoinRoundTrip(words: seq<string>)
    requires forall k :: 0 <= k < |words| ==> IsWord(words[k])
    ensures WordsFrom(Join(words), 0) == words
  {
    SplitJoined("", words);
    assert "" + Join(words) == Join(words);
  }

  lemma {:induction false} JoinHasNoEnd(words: seq<string>)
    requires forall k :: 0 <= k < |words| ==> IsWord(words[k])
    ensures NUL !in Join(words)
  {
    if |words| > 1 {
      JoinHasNoEnd(words[1..]);
    }
  }

  /** A client that types its words with one blank between them finds exactly these words behind argv,
      as terminated strings in the cut buffer. */
  lemma CommandRoundTrip(words: seq<string>, before: seq<char>, after: seq<char>, argv: seq<nat>)
    requires forall k :: 0 <= k < |words| ==> IsWord(words[k])
    requires |Join(words)| < |before| && before[..|Join(words)|] == Join(words) && before[|Join(words)|] == NUL
    requires Parsed(Join(words), before, after, argv)
    ensures HoldsLine(before, |Join(words)|)
    ensures |argv| == |words|
    ensures forall k :: 0 <= k < |words| ==> HoldsString(after, argv[k], words[k])
  {
    JoinRoundTrip(words);
    JoinHasNoEnd(words);
    WordsStand(Join(words), after);
  }
}
