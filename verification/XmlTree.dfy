/** Searching the children of an XML element by name. */
module XmlTree {

  /** A child node: an element with its name, or something else (text, a comment). */
  datatype Node = Element(name: string, id: nat) | Other

  function Lower(c: char): char { if 'A' <= c <= 'Z' then c - 'A' + 'a' else c }

  /** Names are compared without regard to case. */
  predicate SameName(a: string, b: string) {
    |a| == |b| && forall k :: 0 <= k < |a| ==> Lower(a[k]) == Lower(b[k])
  }

  predicate Matches(n: Node, name: string) { n.Element? && SameName(n.name, name) }

  /** The elements of a name, in order. */
  function Named(children: seq<Node>, name: string): (found: seq<Node>)
    ensures |found| <= |children|
  {
    if children == [] then []
    else
      var last := children[|children| - 1];
      Named(children[..|children| - 1], name) + if Matches(last, name) then [last] else []
  }

  method FindNodeNumber(children: seq<Node>, name: string) returns (num: nat)
    ensures num == |Named(children, name)|
  {
    num := 0;
    for i := 0 to |children|
      invariant num == |Named(children[..i], name)|
    {
      assert children[..i + 1][..i] == children[..i];
      if Matches(children[i], name) {
        num := num + 1;
      }
    }
    assert children[..|children|] == children;
  }

  lemma {:induction false} NamedPrefix(children: seq<Node>, name: string, i: nat)
    requires i <= |children|
    ensures Named(children[..i], name) <= Named(children, name)
    decreases |children|
  {
    if i < |children| {
      NamedPrefix(children[..|children| - 1], name, i);
      assert children[..|children| - 1][..i] == children[..i];
    } else {
      assert children[..i] == children;
    }
  }

  /** The index-th element of a name; nothing beyond the last. */
  method FindSubnodeIndex(children: seq<Node>, name: string, index: nat) returns (found: bool, at: nat)
    ensures found <==> index < |Named(children, name)|
    ensures found ==> at < |children| && children[at] == Named(children, name)[index]
    ensures found ==> Matches(children[at], name) && |Named(children[..at], name)| == index
  {
    var i := 0;
    for k := 0 to |children|
      invariant i == |Named(children[..k], name)| <= index
    {
      assert children[..k + 1][..k] == children[..k];
      if Matches(children[k], name) {
        if i == index {
          NamedPrefix(children, name, k + 1);
          return true, k;
        }
        i := i + 1;
      }
    }
    assert children[..|children|] == children;
    return false, 0;
  }

  /** The upper-case and the lower-case form of one letter. */
  predicate IsPair(upper: char, lower: char) {
    'A' <= upper <= 'Z' && lower as int == upper as int + 32
  }

  /** Two names are the same exactly if they have the same length and differ at most in the case of letters of
      the alphabet; so the one the loader counts by and the one it searches by are the same. */
  lemma SameNameIff(a: string, b: string)
    ensures SameName(a, b) <==>
              |a| == |b| && forall k :: 0 <= k < |a| ==> a[k] == b[k] || IsPair(a[k], b[k]) || IsPair(b[k], a[k])
    ensures SameName("Slave", "slave")
  {
    assert SameName("Slave", "slave") by {
      hide IsPair;
    }
    if |a| == |b| {
      forall k | 0 <= k < |a|
        ensures Lower(a[k]) == Lower(b[k]) <==> a[k] == b[k] || IsPair(a[k], b[k]) || IsPair(b[k], a[k])
      {
        LowerAgrees(a[k], b[k]);
      }
    }
    hide Lower, IsPair;
  }

  lemma LowerAgrees(c: char, d: char)
    ensures Lower(c) == Lower(d) <==> c == d || IsPair(c, d) || IsPair(d, c)
  {
  }

  /** The slaves are counted by one spelling and looked up by another: every one that was counted is found. */
  lemma SlavesAreFound(children: seq<Node>)
    ensures Named(children, "Slave") == Named(children, "slave")
  {
    SameNameIff("Slave", "slave");
    SpellingsAgree(children, "Slave", "slave");
  }

  /** Searching by number cannot miss what was counted, even when the two calls spell the name in different
      cases. */
  lemma {:induction false} SpellingsAgree(children: seq<Node>, a: string, b: string)
    requires SameName(a, b)
    ensures Named(children, a) == Named(children, b)
  {
    if children != [] {
      SpellingsAgree(children[..|children| - 1], a, b);
    }
  }
}
