/** The lock-protected buffers between the console and the cyclic task: the console stages outputs in tx and
    reads from rx, and a cycle that gets the lock exchanges both with the domain. One master; outputs stand
    at the front of the domain. */
module DoubleBuffer {
  import opened Widths

  /** One write of the console: some bytes at an offset. */
  datatype Patch = Patch(offset: nat, bytes: seq<Byte>)

  predicate Inside(p: Patch, n: nat) { p.offset + |p.bytes| <= n }

  function Patched(image: seq<Byte>, p: Patch): (r: seq<Byte>)
    requires Inside(p, |image|)
    ensures |r| == |image|
  {
    image[..p.offset] + p.bytes + image[p.offset + |p.bytes|..]
  }

  /** A write sets its own bytes and leaves every other. */
  lemma PatchedAt(image: seq<Byte>, p: Patch, k: nat)
    requires Inside(p, |image|) && k < |image|
    ensures Patched(image, p)[k] ==
            if p.offset <= k < p.offset + |p.bytes| then p.bytes[k - p.offset] else image[k]
  {
  }

  predicate AllInside(ps: seq<Patch>, n: nat) {
    forall k :: 0 <= k < |ps| ==> Inside(ps[k], n)
  }

  /** An image with writes made in it one after the other. */
  function PatchedAll(image: seq<Byte>, ps: seq<Patch>): (r: seq<Byte>)
    requires AllInside(ps, |image|)
    ensures |r| == |image|
  {
    if ps == [] then image else Patched(PatchedAll(image, ps[..|ps| - 1]), ps[|ps| - 1])
  }

  datatype Buffers = Buffers(
    domain: seq<Byte>,
    rx: seq<Byte>,
    tx: seq<Byte>,
    isUpdate: bool,
    initialed: bool)

  /** rx is taken to have room for the whole domain. */
  predicate Sized(b: Buffers, n: nat) {
    |b.tx| == n <= |b.domain| == |b.rx|
  }

  datatype Event =
    | Tick(locked: bool, allOp: bool)   // locked: the console holds the lock, so the cycle skips the exchange
    | Set(patch: Patch)
    | Receive(inputs: seq<Byte>)        // the bus delivers the inputs

  predicate Admissible(e: Event, n: nat, size: nat)
    requires n <= size
  {
    match e
    case Tick(_, _) => true
    case Set(p) => Inside(p, n)
    case Receive(inputs) => |inputs| == size - n
  }

  function Exchanged(b: Buffers, n: nat, allOp: bool): (r: Buffers)
    requires Sized(b, n)
    ensures Sized(r, n)
  {
    var b1 := b.(rx := b.domain);
    if !b.initialed && allOp then b1.(tx := b.domain[..n], initialed := true)
    else if b.isUpdate then b1.(domain := b.tx + b.domain[n..], isUpdate := false)
    else b1
  }

  function Next(b: Buffers, n: nat, e: Event): (r: Buffers)
    requires Sized(b, n) && Admissible(e, n, |b.domain|)
    ensures Sized(r, n) && |r.domain| == |b.domain|
  {
    match e
    case Tick(locked, allOp) => if locked then b else Exchanged(b, n, allOp)
    case Set(p) => b.(tx := Patched(b.tx, p), isUpdate := true)
    case Receive(inputs) => b.(domain := b.domain[..n] + inputs)
  }

  // ----- histories -----

  /** What happened since the outputs were captured: the captured image, the writes staged since, and how
      many of them have reached the domain. */
  datatype History = History(captured: seq<Byte>, staged: seq<Patch>, delivered: nat)

  function NextHistory(b: Buffers, h: History, n: nat, e: Event): History
    requires Sized(b, n)
  {
    match e
    case Tick(locked, allOp) =>
      if locked then h
      else if !b.initialed && allOp then History(b.domain[..n], [], 0)
      else if b.isUpdate then h.(delivered := |h.staged|)
      else h
    case Set(p) => h.(staged := h.staged + [p])
    case Receive(_) => h
  }

  /** Once captured, tx is the captured image with every staged write, and the outputs in the domain are
      the captured image with the first of them, all of them unless an update is pending. */
  predicate Inv(b: Buffers, h: History, n: nat)
    requires Sized(b, n)
  {
    b.initialed ==>
      && |h.captured| == n && AllInside(h.staged, n)
      && h.delivered <= |h.staged|
      && b.tx == PatchedAll(h.captured, h.staged)
      && b.domain[..n] == PatchedAll(h.captured, h.staged[..h.delivered])
      && (!b.isUpdate ==> h.delivered == |h.staged|)
  }

  lemma StepKeepsInv(b: Buffers, h: History, n: nat, e: Event)
    requires Sized(b, n) && Admissible(e, n, |b.domain|) && Inv(b, h, n)
    ensures Inv(Next(b, n, e), NextHistory(b, h, n, e), n)
    ensures b.initialed ==>
              && Next(b, n, e).initialed
              && h.captured == NextHistory(b, h, n, e).captured
              && h.staged <= NextHistory(b, h, n, e).staged
              && h.delivered <= NextHistory(b, h, n, e).delivered
  {
    hide Patched;
    var b', h' := Next(b, n, e), NextHistory(b, h, n, e);
    if b'.initialed {
      match e {
        case Tick(locked, allOp) =>
          assert h'.staged[..|h'.staged|] == h'.staged;
          assert (b.tx + b.domain[n..])[..n] == b.tx;
        case Set(p) =>
          assert h'.staged[..|h.staged|] == h.staged;
          assert h'.staged[..h.delivered] == h.staged[..h.delivered];
        case Receive(inputs) =>
          assert b'.domain[..n] == b.domain[..n];
      }
    }
  }

  predicate AdmissibleRun(es: seq<Event>, n: nat, size: nat)
    requires n <= size
  {
    forall k :: 0 <= k < |es| ==> Admissible(es[k], n, size)
  }

  lemma RunTail(es: seq<Event>, n: nat, size: nat)
    requires n <= size && es != [] && AdmissibleRun(es, n, size)
    ensures Admissible(es[0], n, size) && AdmissibleRun(es[1..], n, size)
  {
  }

  function Run(b: Buffers, n: nat, es: seq<Event>): (r: Buffers)
    requires Sized(b, n) && AdmissibleRun(es, n, |b.domain|)
    ensures Sized(r, n) && |r.domain| == |b.domain|
    decreases |es|
  {
    if es == [] then b else Run(Next(b, n, es[0]), n, es[1..])
  }

  function RunHistory(b: Buffers, h: History, n: nat, es: seq<Event>): History
    requires Sized(b, n) && AdmissibleRun(es, n, |b.domain|)
    decreases |es|
  {
    if es == [] then h else RunHistory(Next(b, n, es[0]), NextHistory(b, h, n, es[0]), n, es[1..])
  }

  /** Over every interleaving of cycles that get the lock or not, writes and bus traffic: nothing staged
      after the capture is lost or reordered, and nothing else reaches the outputs. */
  lemma {:induction false} NothingIsLost(b: Buffers, h: History, n: nat, es: seq<Event>)
    requires Sized(b, n) && AdmissibleRun(es, n, |b.domain|) && Inv(b, h, n)
    ensures Inv(Run(b, n, es), RunHistory(b, h, n, es), n)
    ensures b.initialed ==>
              Run(b, n, es).initialed
              && h.captured == RunHistory(b, h, n, es).captured
              && h.staged <= RunHistory(b, h, n, es).staged
    decreases |es|
  {
    hide Inv, Next, NextHistory, Admissible;
    if es != [] {
      StepKeepsInv(b, h, n, es[0]);
      NothingIsLost(Next(b, n, es[0]), NextHistory(b, h, n, es[0]), n, es[1..]);
    }
  }

  function Sets(es: seq<Event>): seq<Patch> {
    if es == [] then [] else (if es[0].Set? then [es[0].patch] else []) + Sets(es[1..])
  }

  lemma StagedStep(b: Buffers, h: History, n: nat, e: Event)
    requires Sized(b, n) && Admissible(e, n, |b.domain|) && b.initialed
    ensures Next(b, n, e).initialed
    ensures NextHistory(b, h, n, e).staged == h.staged + if e.Set? then [e.patch] else []
    ensures NextHistory(b, h, n, e).captured == h.captured
  {
  }

  lemma {:induction false} AllAreStaged(b: Buffers, h: History, n: nat, es: seq<Event>)
    requires Sized(b, n) && AdmissibleRun(es, n, |b.domain|) && b.initialed
    ensures RunHistory(b, h, n, es).staged == h.staged + Sets(es)
    ensures RunHistory(b, h, n, es).captured == h.captured
    decreases |es|
  {
    if es != [] {
      RunTail(es, n, |b.domain|);
      hide AdmissibleRun, Admissible, Next, NextHistory;
      StagedStep(b, h, n, es[0]);
      AllAreStaged(Next(b, n, es[0]), NextHistory(b, h, n, es[0]), n, es[1..]);
      hide Sized;
      StagedTogether(h.staged, es);
      assert RunHistory(b, h, n, es) == RunHistory(Next(b, n, es[0]), NextHistory(b, h, n, es[0]), n, es[1..]);
    }
  }

  lemma StagedTogether(staged: seq<Patch>, es: seq<Event>)
    requires es != []
    ensures (staged + if es[0].Set? then [es[0].patch] else []) + Sets(es[1..]) == staged + Sets(es)
  {
  }

  lemma SetsInside(es: seq<Event>, n: nat, size: nat)
    requires n <= size && AdmissibleRun(es, n, size)
    ensures AllInside(Sets(es), n)
  {
    if es != [] {
      assert Admissible(es[0], n, size);
      SetsInside(es[1..], n, size);
    }
  }

  /** From the capturing cycle on: the outputs in the domain are the captured image with every write since,
      in order, in every state without a pending update, and the first cycle that gets the lock leaves no
      update pending. */
  lemma OutputsFollowSets(b: Buffers, n: nat, es: seq<Event>, allOp: bool)
    requires Sized(b, n) && AdmissibleRun(es, n, |b.domain|) && !b.initialed
    ensures var start := Exchanged(b, n, true);
      var image := b.domain[..n];
      var end := Run(start, n, es);
      && AllInside(Sets(es), n)
      && end.tx == PatchedAll(image, Sets(es))
      && (!end.isUpdate ==> end.domain[..n] == PatchedAll(image, Sets(es)))
      && Next(end, n, Tick(false, allOp)).domain[..n] == PatchedAll(image, Sets(es))
      && !Next(end, n, Tick(false, allOp)).isUpdate
  {
    hide Patched, PatchedAll, Run, RunHistory, AdmissibleRun;
    var start, h := Exchanged(b, n, true), History(b.domain[..n], [], 0);
    NoPatches(b.domain[..n]);
    assert h.staged[..0] == [];
    NothingIsLost(start, h, n, es);
    AllAreStaged(start, h, n, es);
    SetsInside(es, n, |b.domain|);
    var end, g := Run(start, n, es), RunHistory(start, h, n, es);
    assert g.staged == Sets(es);
    assert g.staged[..|g.staged|] == g.staged;
    assert end.isUpdate ==> (end.tx + end.domain[n..])[..n] == end.tx;
  }

  lemma NoPatches(image: seq<Byte>)
    ensures PatchedAll(image, []) == image
  {
  }

  // ----- what the console reads -----

  /** The number of events up to and including the last exchange. */
  function LastExchange(es: seq<Event>): (k: nat)
    ensures k <= |es|
  {
    if es == [] then 0
    else if es[|es| - 1].Tick? && !es[|es| - 1].locked then |es|
    else LastExchange(es[..|es| - 1])
  }

  lemma {:induction false} RunLast(b: Buffers, n: nat, es: seq<Event>)
    requires es != [] && Sized(b, n) && AdmissibleRun(es, n, |b.domain|)
    ensures Run(b, n, es) == Next(Run(b, n, es[..|es| - 1]), n, es[|es| - 1])
    decreases |es|
  {
    hide Next;
    if |es| > 1 {
      RunLast(Next(b, n, es[0]), n, es[1..]);
      assert es[1..][..|es| - 2] == es[..|es| - 1][1..];
    } else {
      assert es[..0] == [] && es[1..] == [];
    }
  }

  /** rx is always one whole picture of the domain: the one the last exchanging cycle found, inputs and
      outputs of the same moment, however long the lock has been busy since. */
  lemma {:induction false} ReadsOneSnapshot(b: Buffers, n: nat, es: seq<Event>)
    requires Sized(b, n) && AdmissibleRun(es, n, |b.domain|)
    ensures var k := LastExchange(es);
      Run(b, n, es).rx == if k == 0 then b.rx else Run(b, n, es[..k - 1]).domain
    decreases |es|
  {
    hide Patched, Admissible, Run;
    if es == [] {
      EmptyRun(b, n);
    } else {
      var before := es[..|es| - 1];
      RunLast(b, n, es);
      ReadsOneSnapshot(b, n, before);
      assert LastExchange(before) > 0 ==> before[..LastExchange(before) - 1] == es[..LastExchange(before) - 1];
    }
  }

  lemma EmptyRun(b: Buffers, n: nat)
    requires Sized(b, n)
    ensures Run(b, n, []) == b
  {
  }

  /** The inputs in the domain are always those the bus delivered last: neither a cycle nor a write of the
      console touches them. */
  lemma {:induction false} InputsAreTheBus(b: Buffers, n: nat, es: seq<Event>, k: nat)
    requires Sized(b, n) && AdmissibleRun(es, n, |b.domain|) && k <= |es|
    requires k > 0 ==> es[k - 1].Receive?
    requires forall j :: k <= j < |es| ==> !es[j].Receive?
    ensures Run(b, n, es).domain[n..] == if k == 0 then b.domain[n..] else es[k - 1].inputs
    decreases |es|
  {
    hide Patched, Run, Admissible;
    if es == [] {
      EmptyRun(b, n);
    } else {
      var front, e := es[..|es| - 1], es[|es| - 1];
      RunLast(b, n, es);
      var r := Run(b, n, front);
      InputsStep(r, n, e);
      if k < |es| {
        InputsAreTheBus(b, n, front, k);
      }
    }
  }

  lemma InputsStep(b: Buffers, n: nat, e: Event)
    requires Sized(b, n) && Admissible(e, n, |b.domain|)
    ensures Next(b, n, e).domain[n..] == if e.Receive? then e.inputs else b.domain[n..]
  {
    hide Patched;
    assert (b.tx + b.domain[n..])[n..] == b.domain[n..];
  }

  // ----- what is captured -----

  /** No cycle captures the outputs: none gets the lock while the master is operational. */
  predicate NoCapture(es: seq<Event>) {
    forall k :: 0 <= k < |es| ==> es[k] != Tick(false, true)
  }

  /** The writes that some exchange of these events has seen. */
  function Seen(es: seq<Event>): seq<Patch> {
    Sets(es[..LastExchange(es)])
  }

  /** Before the capture, a pending update is a write no exchange has seen, and the outputs in the domain
      are all of tx, as it was when the last seen write was delivered. */
  predicate Staging(b: Buffers, r: Buffers, n: nat, es: seq<Event>)
    requires Sized(b, n) && Sized(r, n)
  {
    && !r.initialed && AllInside(Sets(es), n) && AllInside(Seen(es), n)
    && r.tx == PatchedAll(b.tx, Sets(es))
    && (r.isUpdate <==> Sets(es) != Seen(es))
    && r.domain[..n] == if Seen(es) == [] then b.domain[..n] else PatchedAll(b.tx, Seen(es))
  }

  lemma {:induction false} SetsConcat(a: seq<Event>, b: seq<Event>)
    ensures Sets(a + b) == Sets(a) + Sets(b)
  {
    if a == [] {
      assert a + b == b;
    } else {
      var first := if a[0].Set? then [a[0].patch] else [];
      assert (a + b)[0] == a[0] && (a + b)[1..] == a[1..] + b;
      SetsConcat(a[1..], b);
      assert Sets(a + b) == first + Sets(a[1..] + b);
      assert Sets(a) == first + Sets(a[1..]);
    }
  }

  lemma SeenStep(es: seq<Event>, e: Event)
    ensures Sets(es + [e]) == Sets(es) + if e.Set? then [e.patch] else []
    ensures Seen(es + [e]) == if e.Tick? && !e.locked then Sets(es) else Seen(es)
  {
    SetsConcat(es, [e]);
    assert Sets([e]) == (if e.Set? then [e.patch] else []) + Sets([e][1..]);
    assert (es + [e])[..|es|] == es && (es + [e])[..|es| + 1] == es + [e];
    assert (es + [e])[..LastExchange(es)] == es[..LastExchange(es)];
  }

  lemma StagingStep(b: Buffers, r: Buffers, n: nat, es: seq<Event>, e: Event)
    requires Sized(b, n) && Sized(r, n) && Staging(b, r, n, es) && Admissible(e, n, |r.domain|)
    requires e != Tick(false, true) && |Seen(es)| <= |Sets(es)|
    ensures Staging(b, Next(r, n, e), n, es + [e]) && |Seen(es + [e])| <= |Sets(es + [e])|
  {
    hide Patched, Sets, LastExchange, Seen;
    SeenStep(es, e);
    assert Sets(es) + [] == Sets(es);
    if e.Set? {
      assert (Sets(es) + [e.patch])[..|Sets(es)|] == Sets(es);
    } else if e.Tick? && !e.locked {
      assert r.isUpdate ==> Next(r, n, e).domain[..n] == r.tx;
    } else if e.Receive? {
      assert Next(r, n, e).domain[..n] == r.domain[..n];
    }
  }

  lemma {:induction false} StagingKept(b: Buffers, n: nat, es: seq<Event>)
    requires Sized(b, n) && AdmissibleRun(es, n, |b.domain|) && NoCapture(es) && !b.initialed && !b.isUpdate
    ensures Staging(b, Run(b, n, es), n, es) && |Seen(es)| <= |Sets(es)|
    decreases |es|
  {
    hide Run, Staging, Next, Seen, Sets;
    if es == [] {
      StagingStart(b, n);
    } else {
      var front, e := es[..|es| - 1], es[|es| - 1];
      FrontOfRun(es, n, |b.domain|);
      hide AdmissibleRun, NoCapture, Admissible;
      RunLast(b, n, es);
      StagingKept(b, n, front);
      assert es == front + [e];
      StagingStep(b, Run(b, n, front), n, front, e);
    }
  }

  lemma StagingStart(b: Buffers, n: nat)
    requires Sized(b, n) && !b.initialed && !b.isUpdate
    ensures Staging(b, Run(b, n, []), n, []) && |Seen([])| <= |Sets([])|
  {
    NoPatches(b.tx);
  }

  lemma FrontOfRun(es: seq<Event>, n: nat, size: nat)
    requires n <= size && es != [] && AdmissibleRun(es, n, size) && NoCapture(es)
    ensures AdmissibleRun(es[..|es| - 1], n, size) && NoCapture(es[..|es| - 1])
    ensures Admissible(es[|es| - 1], n, size) && es[|es| - 1] != Tick(false, true)
  {
  }

  function Captured(b: Buffers, n: nat, es: seq<Event>): (image: seq<Byte>)
    requires Sized(b, n) && AdmissibleRun(es, n, |b.domain|)
    ensures |image| == n
  {
    Next(Run(b, n, es), n, Tick(false, true)).tx
  }

  /** What the capture starts from, over every run before it: the outputs in the domain as the last
      exchange that had something to deliver left them. If no exchange has seen a write, these are the
      outputs the domain had; otherwise they are all of tx with just the seen writes, and the bytes no
      write has set are what tx happened to hold. */
  lemma CaptureStartsOver(b: Buffers, n: nat, es: seq<Event>)
    requires Sized(b, n) && AdmissibleRun(es, n, |b.domain|) && NoCapture(es) && !b.initialed && !b.isUpdate
    ensures AllInside(Seen(es), n)
    ensures Captured(b, n, es) == if Seen(es) == [] then b.domain[..n] else PatchedAll(b.tx, Seen(es))
    ensures Next(Run(b, n, es), n, Tick(false, true)) == Exchanged(Run(b, n, es), n, true)
    ensures !Run(b, n, es).initialed && Exchanged(Run(b, n, es), n, true).initialed
  {
    StagingKept(b, n, es);
    hide Run, Seen, PatchedAll;
  }

  /** An update stays pending behind the capture exactly if a write was staged that no exchange has seen. */
  lemma CaptureKeepsPending(b: Buffers, n: nat, es: seq<Event>)
    requires Sized(b, n) && AdmissibleRun(es, n, |b.domain|) && NoCapture(es) && !b.initialed && !b.isUpdate
    ensures Exchanged(Run(b, n, es), n, true).isUpdate <==> Sets(es) != Seen(es)
  {
    StagingKept(b, n, es);
    hide Run, Seen, Sets, PatchedAll;
  }

  lemma LastExchangeAfter(a: seq<Event>, b: seq<Event>)
    ensures LastExchange(a + b) == if LastExchange(b) > 0 then |a| + LastExchange(b) else LastExchange(a)
    decreases |b|
  {
    if b == [] {
      assert a + b == a;
    } else {
      assert (a + b)[..|a + b| - 1] == a + b[..|b| - 1];
      LastExchangeAfter(a, b[..|b| - 1]);
    }
  }

  lemma SeenAfter(a: seq<Event>, b: seq<Event>)
    ensures Seen(a + b) == if LastExchange(b) > 0 then Sets(a) + Seen(b) else Seen(a)
  {
    LastExchangeAfter(a, b);
    var k := LastExchange(b);
    if k > 0 {
      assert (a + b)[..|a| + k] == a + b[..k];
      SetsConcat(a, b[..k]);
    } else {
      assert (a + b)[..LastExchange(a)] == a[..LastExchange(a)];
    }
  }

  /** A write staged before the capture survives it exactly if an exchange comes between the two. With such
      an exchange it is in its place among the captured writes; without one the capture is the same as if
      it had never been staged. */
  lemma EarlyWriteSurvivesIff(b: Buffers, n: nat, before: seq<Event>, p: Patch, after: seq<Event>)
    requires Sized(b, n) && !b.initialed && !b.isUpdate
    requires AdmissibleRun(before + [Set(p)] + after, n, |b.domain|) && NoCapture(before + [Set(p)] + after)
    requires AdmissibleRun(before + after, n, |b.domain|) && NoCapture(before + after)
    ensures AllInside(Sets(before) + [p] + Seen(after), n)
    ensures LastExchange(after) > 0 ==>
              Captured(b, n, before + [Set(p)] + after) == PatchedAll(b.tx, Sets(before) + [p] + Seen(after))
    ensures LastExchange(after) == 0 ==>
              Captured(b, n, before + [Set(p)] + after) == Captured(b, n, before + after)
  {
    hide Captured, PatchedAll, AdmissibleRun, NoCapture;
    var es := before + [Set(p)] + after;
    CaptureStartsOver(b, n, es);
    CaptureStartsOver(b, n, before + after);
    SeenAfter(before + [Set(p)], after);
    SeenAfter(before, after);
    SeenStep(before, Set(p));
    SetsInside(es, n, |b.domain|);
    SetsConcat(before + [Set(p)], after);
    SeenIsPrefix(after);
    hide Seen, Sets;
    assert Sets(before) + [p] + Seen(after) <= Sets(es);
  }

  lemma {:induction false} SeenIsPrefix(es: seq<Event>)
    ensures Seen(es) <= Sets(es)
    decreases |es|
  {
    var k := LastExchange(es);
    SetsConcat(es[..k], es[k..]);
    assert es[..k] + es[k..] == es;
  }

  lemma PatchShows(image: seq<Byte>, ps: seq<Patch>, p: Patch)
    requires AllInside(ps + [p], |image|)
    ensures PatchedAll(image, ps + [p])[p.offset..p.offset + |p.bytes|] == p.bytes
  {
    assert (ps + [p])[..|ps|] == ps && (ps + [p])[|ps|] == p;
    assert Inside(p, |image|);
  }

  /** The same for the bytes themselves, for a last write that says something new. */
  lemma EarlyBytesSurviveIff(b: Buffers, n: nat, before: seq<Event>, p: Patch, after: seq<Event>)
    requires Sized(b, n) && !b.initialed && !b.isUpdate && Inside(p, n) && Sets(after) == []
    requires AdmissibleRun(before + [Set(p)] + after, n, |b.domain|) && NoCapture(before + [Set(p)] + after)
    requires AdmissibleRun(before + after, n, |b.domain|) && NoCapture(before + after)
    requires Captured(b, n, before + after)[p.offset..p.offset + |p.bytes|] != p.bytes
    ensures Captured(b, n, before + [Set(p)] + after)[p.offset..p.offset + |p.bytes|] == p.bytes <==>
              LastExchange(after) > 0
  {
    EarlyWriteSurvivesIff(b, n, before, p, after);
    SeenIsPrefix(after);
    hide Captured, PatchedAll, AdmissibleRun, NoCapture, Seen;
    if LastExchange(after) > 0 {
      assert Sets(before) + [p] + Seen(after) == Sets(before) + [p];
      PatchShows(b.tx, Sets(before), p);
    }
  }

  // ----- the buffers themselves -----

  class DomainData {
    const domain: array<Byte>
    const rx: array<Byte>
    const tx: array<Byte>
    const txLen: nat
    var isUpdate: bool
    var initialed: bool

    ghost predicate Valid()
      reads this
    {
      && domain != rx && domain != tx && rx != tx
      && tx.Length == txLen <= domain.Length == rx.Length
    }

    function View(): Buffers
      reads this, domain, rx, tx
    {
      Buffers(domain[..], rx[..], tx[..], isUpdate, initialed)
    }

    constructor (domain: array<Byte>, rx: array<Byte>, tx: array<Byte>)
      requires domain != rx && domain != tx && rx != tx
      requires tx.Length <= domain.Length == rx.Length
      ensures Valid() && this.domain == domain && this.rx == rx && this.tx == tx && txLen == tx.Length
      ensures View() == Buffers(domain[..], rx[..], tx[..], false, false)
    {
      this.domain, this.rx, this.tx, txLen := domain, rx, tx, tx.Length;
      isUpdate, initialed := false, false;
    }

    /** The exchange of one cycle, if it gets the lock. */
    method UpdatePdos(locked: bool, allOp: bool)
      requires Valid()
      modifies this, domain, rx, tx
      ensures Valid() && View() == Next(old(View()), txLen, Tick(locked, allOp))
    {
      if !locked {
        MemCpy(rx, domain, domain.Length);
        assert rx[..] == old(domain[..]);
        if !initialed && allOp {
          MemCpy(tx, domain, txLen);
          assert tx[..] == old(domain[..txLen]);
          initialed := true;
        } else if isUpdate {
          MemCpy(domain, tx, txLen);
          assert domain[..] == old(tx[..]) + old(domain[txLen..]);
          isUpdate := false;
        }
      }
    }

    /** A console write, under the lock. */
    method PdoSet(offset: nat, bytes: seq<Byte>)
      requires Valid() && offset + |bytes| <= txLen
      modifies this, tx
      ensures Valid() && View() == Next(old(View()), txLen, Set(Patch(offset, bytes)))
    {
      ghost var before := tx[..];
      hide Patched;
      PatchNothing(before, offset);
      assert bytes[..0] == [];
      for k := 0 to |bytes|
        invariant tx[..] == Patched(before, Patch(offset, bytes[..k]))
        modifies tx
      {
        PatchGrows(before, offset, bytes, k);
        tx[offset + k] := bytes[k];
      }
      isUpdate := true;
      assert bytes[..|bytes|] == bytes;
    }

    /** A console read, under the lock. */
    method PdoGet(offset: nat, size: nat) returns (bytes: seq<Byte>)
      requires Valid() && offset + size <= rx.Length
      ensures bytes == View().rx[offset..offset + size]
    {
      bytes := rx[offset..offset + size];
    }
  }

  lemma PatchNothing(image: seq<Byte>, offset: nat)
    requires offset <= |image|
    ensures Patched(image, Patch(offset, [])) == image
  {
  }

  lemma PatchGrows(image: seq<Byte>, offset: nat, bytes: seq<Byte>, k: nat)
    requires offset + |bytes| <= |image| && k < |bytes|
    ensures Patched(image, Patch(offset, bytes[..k + 1])) ==
            Patched(image, Patch(offset, bytes[..k]))[offset + k := bytes[k]]
  {
  }

  method MemCpy(dst: array<Byte>, src: array<Byte>, len: nat)
    requires dst != src && len <= dst.Length && len <= src.Length
    modifies dst
    ensures dst[..] == old(src[..len]) + old(dst[len..])
  {
    for k := 0 to len
      invariant dst[..k] == src[..k] && dst[k..] == old(dst[k..])
    {
      dst[k] := src[k];
      assert dst[..k + 1] == dst[..k] + [dst[k]];
    }
    assert dst[..] == dst[..len] + dst[len..];
  }
}
