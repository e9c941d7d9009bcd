/** Distinct elements and the pigeonhole arguments about them, and writing values into numbered slots. */
module Sequences {

  predicate Distinct<T(==)>(s: seq<T>) {
    forall i, j :: 0 <= i < j < |s| ==> s[i] != s[j]
  }

  lemma DistinctParts<T>(a: seq<T>, b: seq<T>)
    requires Distinct(a + b)
    ensures Distinct(a) && Distinct(b) && forall x :: x in a ==> x !in b
  {
    forall i, j | 0 <= i < j < |a|
      ensures a[i] != a[j]
    {
      assert (a + b)[i] == a[i] && (a + b)[j] == a[j];
    }
    forall i, j | 0 <= i < j < |b|
      ensures b[i] != b[j]
    {
      assert (a + b)[|a| + i] == b[i] && (a + b)[|a| + j] == b[j];
    }
    forall i, j | 0 <= i < |a| && 0 <= j < |b|
      ensures a[i] != b[j]
    {
      assert (a + b)[i] == a[i] && (a + b)[|a| + j] == b[j];
    }
  }

  lemma DistinctSnoc<T>(s: seq<T>, x: T)
    requires Distinct(s) && x !in s
    ensures Distinct(s + [x])
  {
  }

  /** Distinct numbers below n are at most n. */
  lemma {:induction false} AtMost(s: seq<nat>, n: nat)
    requires Distinct(s) && forall k :: 0 <= k < |s| ==> s[k] < n
    ensures |s| <= n
    decreases n
  {
    if s != [] {
      assert s[0] < n;
      if k :| 0 <= k < |s| && s[k] == n - 1 {
        var rest := s[..k] + s[k + 1..];
        assert forall j :: 0 <= j < |rest| ==> rest[j] == if j < k then s[j] else s[j + 1];
        AtMost(rest, n - 1);
      } else {
        AtMost(s, n - 1);
      }
    }
  }

  /** If they miss one of the numbers, they are fewer. */
  lemma Misses(s: seq<nat>, n: nat, v: nat)
    requires Distinct(s) && (forall k :: 0 <= k < |s| ==> s[k] < n) && v < n && v !in s
    ensures |s| < n
  {
    var t: seq<nat> := seq(|s|, k requires 0 <= k < |s| => if s[k] > v then s[k] - 1 else s[k]);
    assert forall k :: 0 <= k < |s| ==> s[k] in s;
    AtMost(t, n - 1);
  }

  /** So n distinct numbers below n are all of them. */
  lemma Onto(s: seq<nat>, n: nat)
    requires Distinct(s) && |s| == n && forall k :: 0 <= k < |s| ==> s[k] < n
    ensures forall v :: 0 <= v < n ==> v in s
  {
    forall v: nat | v < n && v !in s
      ensures false
    {
      Misses(s, n, v);
    }
  }

  /** To name every number below n takes n elements. */
  lemma {:induction false} Cover(s: seq<nat>, n: nat)
    requires forall v :: 0 <= v < n ==> v in s
    ensures |s| >= n
    decreases n
  {
    if n > 0 {
      assert n - 1 in s;
      var k :| 0 <= k < |s| && s[k] == n - 1;
      Cover(Without(s, k), n - 1);
    }
  }

  /** A sequence without one of its elements. */
  function Without(s: seq<nat>, k: nat): (rest: seq<nat>)
    requires k < |s|
    ensures |rest| == |s| - 1
    ensures forall v :: v in s && v != s[k] ==> v in rest
    ensures forall j :: 0 <= j < |s| && j != k ==> s[j] in rest
  {
    var rest := s[..k] + s[k + 1..];
    assert forall j :: 0 <= j < |s| && j != k ==> s[j] == rest[if j < k then j else j - 1];
    rest
  }

  /** So n numbers below n name all of them exactly if they are distinct. */
  lemma OntoIff(s: seq<nat>, n: nat)
    requires |s| == n && forall k :: 0 <= k < |s| ==> s[k] < n
    ensures Distinct(s) <==> forall v :: 0 <= v < n ==> v in s
  {
    if Distinct(s) {
      Onto(s, n);
    } else {
      var i, j :| 0 <= i < j < |s| && s[i] == s[j];
      if forall v :: 0 <= v < n ==> v in s {
        Cover(Without(s, j), n);
      }
    }
  }

  /** The elements are distinct exactly if each is new when it comes. */
  lemma DistinctIff<T>(s: seq<T>)
    ensures Distinct(s) <==> forall i :: 0 <= i < |s| ==> s[i] !in s[..i]
  {
    if forall i :: 0 <= i < |s| ==> s[i] !in s[..i] {
      forall i, j | 0 <= i < j < |s|
        ensures s[i] != s[j]
      {
        assert s[..j][i] == s[i];
      }
    }
  }

  /** Values written one after the other into numbered slots. */
  function Put<T>(raw: seq<T>, at: seq<nat>, what: seq<T>): (slots: seq<T>)
    requires |at| == |what| && forall k :: 0 <= k < |at| ==> at[k] < |raw|
    ensures |slots| == |raw|
  {
    if at == [] then raw
    else Put(raw, at[..|at| - 1], what[..|at| - 1])[at[|at| - 1] := what[|at| - 1]]
  }

  lemma {:induction false} PutFrom<T>(raw: seq<T>, at: seq<nat>, what: seq<T>, i: nat)
    requires |at| == |what| && (forall k :: 0 <= k < |at| ==> at[k] < |raw|) && i < |raw|
    ensures i in at ==> Put(raw, at, what)[i] in what
    ensures i !in at ==> Put(raw, at, what)[i] == raw[i]
  {
    if at != [] {
      var n := |at| - 1;
      PutFrom(raw, at[..n], what[..n], i);
      assert at == at[..n] + [at[n]] && what == what[..n] + [what[n]];
    }
  }

  /** The last of the values written into a slot stays. */
  lemma {:induction false} PutLast<T>(raw: seq<T>, at: seq<nat>, what: seq<T>, i: nat) returns (k: nat)
    requires |at| == |what| && (forall k :: 0 <= k < |at| ==> at[k] < |raw|) && i in at
    ensures k < |at| && at[k] == i && Put(raw, at, what)[i] == what[k]
    ensures forall j :: k < j < |at| ==> at[j] != i
  {
    var n := |at| - 1;
    if at[n] == i {
      k := n;
    } else {
      assert at == at[..n] + [at[n]];
      k := PutLast(raw, at[..n], what[..n], i);
    }
  }

  lemma {:induction false} PutDistinct<T>(raw: seq<T>, at: seq<nat>, what: seq<T>, k: nat)
    requires |at| == |what| && (forall k :: 0 <= k < |at| ==> at[k] < |raw|)
    requires Distinct(at) && k < |at|
    ensures Put(raw, at, what)[at[k]] == what[k]
  {
    var n := |at| - 1;
    if k < n {
      PutDistinct(raw, at[..n], what[..n], k);
    }
  }
}
