/** What the calls for one slave mean as a whole: its parameters, its tree if that is forced, the width of
    every call, and that no PDO is assigned before it is mapped. */
module SlaveMeaning {
  import opened SdoConfig
  import opened Sequences
  import opened Widths

  // ----- the parameters -----

  /** What a call of this many bits takes of a value. */
  function Low(value: nat, bits: int): nat {
    if bits == 8 then value % 0x100 else if bits == 16 then value % 0x1_0000 else value % TWO_32
  }

  predicate IsAt(o: Sdo, key: Key) { o.index == key.index && o.subindex == key.sub }

  /** Every object a parameter names holds the low bits of the last value given for it; the others stay. */
  ghost predicate ParametersSet(before: Dictionary, after: Dictionary, sdos: seq<Sdo>) {
    && (forall key: Key, k :: 0 <= k < |sdos| && IsAt(sdos[k], key)
                              && (forall m :: k < m < |sdos| ==> !IsAt(sdos[m], key)) ==>
          Holds(after, key, Low(sdos[k].value, sdos[k].lenbit)))
    && (forall key: Key :: (forall k :: 0 <= k < |sdos| ==> !IsAt(sdos[k], key)) ==> Same(before, after, key))
  }

  lemma SdoWriteIs(o: Sdo)
    requires KnownLength(o)
    ensures SdoWrite(o) == Write(o.lenbit, o.index, o.subindex, Low(o.value, o.lenbit))
  {
  }

  lemma {:induction false} SdoWritesAre(sdos: seq<Sdo>)
    requires AllKnown(sdos)
    ensures |SdoWrites(sdos)| == |sdos|
    ensures forall k :: 0 <= k < |sdos| ==> SdoWrites(sdos)[k] == SdoWrite(sdos[k])
  {
    hide SdoWrite;
    if sdos != [] {
      assert forall k :: 0 <= k < |sdos| - 1 ==> sdos[1..][k] == sdos[k + 1];
      SdoWritesAre(sdos[1..]);
    }
  }

  /** The last of the writes to a key decides. */
  lemma {:induction false} LastDecides(d: Dictionary, ws: seq<Write>, key: Key, k: nat)
    requires k < |ws| && Key(ws[k].index, ws[k].sub) == key
    requires forall m :: k < m < |ws| ==> Key(ws[m].index, ws[m].sub) != key
    ensures Holds(Replay(d, ws), key, ws[k].value)
  {
    if k < |ws| - 1 {
      LastDecides(d, ws[..|ws| - 1], key, k);
    }
  }

  lemma ParametersMeant(d: Dictionary, sdos: seq<Sdo>)
    requires AllKnown(sdos)
    ensures ParametersSet(d, Replay(d, SdoWrites(sdos)), sdos)
  {
    var ws := SdoWrites(sdos);
    SdoWritesAre(sdos);
    forall k | 0 <= k < |sdos|
      ensures ws[k] == Write(sdos[k].lenbit, sdos[k].index, sdos[k].subindex, Low(sdos[k].value, sdos[k].lenbit))
    {
      SdoWriteIs(sdos[k]);
    }
    hide Replay, SdoWrite, SdoWrites, Low;
    forall key: Key, k | 0 <= k < |sdos| && IsAt(sdos[k], key) && forall m :: k < m < |sdos| ==> !IsAt(sdos[m], key)
      ensures Holds(Replay(d, ws), key, Low(sdos[k].value, sdos[k].lenbit))
    {
      assert forall m :: k < m < |ws| ==> !IsAt(sdos[m], key);
      LastDecides(d, ws, key, k);
    }
    forall key: Key | forall k :: 0 <= k < |sdos| ==> !IsAt(sdos[k], key)
      ensures Same(d, Replay(d, ws), key)
    {
      assert forall k :: 0 <= k < |ws| ==> !IsAt(sdos[k], key);
      ReplayUntouched(d, ws, key);
    }
  }

  // ----- the slave -----

  ghost predicate TreeMeant(before: Dictionary, after: Dictionary, syncs: seq<Sync>) {
    && (forall j :: 0 <= j < |syncs| ==> AssignmentMeant(before, after, syncs[j]))
    && (forall j, k :: 0 <= j < |syncs| && 0 <= k < |syncs[j].pdos| ==> MappingMeant(before, after, syncs[j].pdos[k]))
    && (forall key: Key :: key.index !in Objects(syncs) ==> Same(before, after, key))
  }

  /** The calls of a slave in the order in which they take effect: first its parameters, then, exactly if the
      assignment is forced, its tree on top of them. */
  lemma SlaveMeansConfig(d: Dictionary, s: Slave, mid: Dictionary)
    requires AllKnown(s.sdos) && mid == Replay(d, SdoWrites(s.sdos))
    ensures ParametersSet(d, mid, s.sdos)
    ensures !s.forcePdoAssign ==> Replay(d, SlaveWrites(s)) == mid
    ensures s.forcePdoAssign && Proper(s.syncs) ==> TreeMeant(mid, Replay(d, SlaveWrites(s)), s.syncs)
  {
    ParametersMeant(d, s.sdos);
    SlaveWritesAre(s);
    hide SlaveWrites, AllKnown;
    hide Replay, ParametersSet, AssignmentMeant, MappingMeant, Objects, Proper, SdoWrites, SyncsWrites;
    if s.forcePdoAssign && Proper(s.syncs) {
      ReplayConcat(d, SdoWrites(s.sdos), SyncsWrites(s.syncs));
      ReplayMeansTree(mid, s.syncs);
    }
  }

  lemma SlaveWritesAre(s: Slave)
    requires AllKnown(s.sdos)
    ensures SlaveWrites(s) == if s.forcePdoAssign then SdoWrites(s.sdos) + SyncsWrites(s.syncs) else SdoWrites(s.sdos)
  {
    hide SdoWrites, SyncsWrites;
    assert SdoWrites(s.sdos) + [] == SdoWrites(s.sdos);
  }

  /** A length the master has no call for ends the configuration there: the parameters before it are set, those
      behind it are not, and the tree is not written, forced or not. */
  lemma UnknownLengthEnds(d: Dictionary, s: Slave, k: nat)
    requires k < |s.sdos| && AllKnown(s.sdos[..k]) && !KnownLength(s.sdos[k])
    ensures ParametersSet(d, Replay(d, SlaveWrites(s)), s.sdos[..k])
    ensures |SlaveWrites(s)| == k
  {
    UpToUnknown(s.sdos, k);
    SdoWritesAre(s.sdos[..k]);
    ParametersMeant(d, s.sdos[..k]);
    hide Replay, ParametersSet, SdoWrites, SyncsWrites;
    assert SdoWrites(s.sdos[..k]) + [] == SdoWrites(s.sdos[..k]);
  }

  lemma {:induction false} UpToUnknown(sdos: seq<Sdo>, k: nat)
    requires k < |sdos| && AllKnown(sdos[..k]) && !KnownLength(sdos[k])
    ensures SdoWrites(sdos) == SdoWrites(sdos[..k])
    decreases k
  {
    if k > 0 {
      assert sdos[..k][0] == sdos[0] && sdos[..k][1..] == sdos[1..][..k - 1];
      var rest := sdos[1..][..k - 1];
      assert forall m :: 0 <= m < |rest| ==> rest[m] == sdos[..k][m + 1];
      UpToUnknown(sdos[1..], k - 1);
    }
  }

  // ----- the widths -----

  /** The dictionary as the slave fills it, which takes of each value only as much as the call is wide. */
  function ReplayByWidth(d: Dictionary, ws: seq<Write>): Dictionary {
    if ws == [] then d
    else
      var w := ws[|ws| - 1];
      ReplayByWidth(d, ws[..|ws| - 1])[Key(w.index, w.sub) := Low(w.value, w.width)]
  }

  predicate Fits(w: Write) {
    (w.width == 8 || w.width == 16 || w.width == 32) && w.value == Low(w.value, w.width)
  }

  predicate AllFit(ws: seq<Write>) { forall k :: 0 <= k < |ws| ==> Fits(ws[k]) }

  lemma FitConcat(a: seq<Write>, b: seq<Write>)
    requires AllFit(a) && AllFit(b)
    ensures AllFit(a + b)
  {
    hide Fits;
  }

  lemma PdoFits(owner: Word, n: nat, p: Pdo)
    ensures AllFit(MappingWrites(p)) && AllFit(AssignmentWrites(owner, n, p))
  {
    EntryIndices(p.index, p.entries);
    hide EntryWrites, Pack;
  }

  lemma {:induction false} PdosFit(owner: Word, n: nat, pdos: seq<Pdo>)
    ensures AllFit(PdosWrites(owner, n, pdos))
  {
    hide MappingWrites, AssignmentWrites, Fits;
    if pdos != [] {
      var p := pdos[|pdos| - 1];
      PdosFit(owner, n, pdos[..|pdos| - 1]);
      PdoFits(owner, n, p);
      FitConcat(MappingWrites(p), AssignmentWrites(owner, n, p));
      FitConcat(PdosWrites(owner, n, pdos[..|pdos| - 1]), MappingWrites(p) + AssignmentWrites(owner, n, p));
    }
  }

  lemma {:induction false} SyncsFit(syncs: seq<Sync>)
    ensures AllFit(SyncsWrites(syncs))
  {
    if syncs != [] {
      var s := syncs[|syncs| - 1];
      SyncsFit(syncs[..|syncs| - 1]);
      PdosFit(s.index, |s.pdos|, s.pdos);
      hide PdosWrites, Fits;
      assert Fits(Write(8, s.index, 0, 0)) by { ZeroFits(s.index); }
      FitConcat(SyncsWrites(syncs[..|syncs| - 1]), SyncWrites(s));
    }
  }

  lemma ZeroFits(index: Word)
    ensures Fits(Write(8, index, 0, 0))
  {
  }

  lemma {:induction false} SdosFit(sdos: seq<Sdo>)
    ensures AllFit(SdoWrites(sdos))
  {
    if sdos != [] && KnownLength(sdos[0]) {
      SdosFit(sdos[1..]);
      hide SdoWrites;
      FitConcat([SdoWrite(sdos[0])], SdoWrites(sdos[1..]));
    }
  }

  /** No call is too narrow for its value: what the slave stores is what was written. */
  lemma WidthsCarry(d: Dictionary, s: Slave)
    ensures AllFit(SlaveWrites(s))
    ensures ReplayByWidth(d, SlaveWrites(s)) == Replay(d, SlaveWrites(s))
  {
    SdosFit(s.sdos);
    SyncsFit(s.syncs);
    hide Replay, ReplayByWidth, Fits, SdoWrites, SyncsWrites;
    if AllKnown(s.sdos) && s.forcePdoAssign {
      FitConcat(SdoWrites(s.sdos), SyncsWrites(s.syncs));
    }
    ReplayedWhole(d, SlaveWrites(s));
  }

  lemma {:induction false} ReplayedWhole(d: Dictionary, ws: seq<Write>)
    requires AllFit(ws)
    ensures ReplayByWidth(d, ws) == Replay(d, ws)
  {
    if ws != [] {
      ReplayedWhole(d, ws[..|ws| - 1]);
    }
  }

  /** The width of a call is that of the object it writes: 8 bits for a count, 16 for the PDOs of a sync
      manager, 32 for the entries of a PDO. */
  lemma WidthByObject(syncs: seq<Sync>, i: nat)
    requires Proper(syncs) && i < |SyncsWrites(syncs)|
    ensures var w := SyncsWrites(syncs)[i];
      && (w.sub == 0 ==> w.width == 8)
      && (forall j :: 0 <= j < |syncs| && w.index == syncs[j].index && w.sub != 0 ==> w.width == 16)
      && (forall j, k :: 0 <= j < |syncs| && 0 <= k < |syncs[j].pdos| ==>
            w.index == syncs[j].pdos[k].index && w.sub != 0 ==> w.width == 32)
  {
    var w := SyncsWrites(syncs)[i];
    hide SyncsWrites, Only, Distinct, Objects, ProperSubindices, OwnObjects, Proper;
    forall j | 0 <= j < |syncs| && w.index == syncs[j].index
      ensures w.width == if w.sub == 0 then 8 else 16
    {
      WidthOfSync(syncs, i, j);
    }
    forall j, k | 0 <= j < |syncs| && 0 <= k < |syncs[j].pdos| && w.index == syncs[j].pdos[k].index
      ensures w.width == if w.sub == 0 then 8 else 32
    {
      WidthOfPdo(syncs, i, j, k);
    }
    OwnedByTree(syncs, i);
    var j :| 0 <= j < |syncs| && w.index in OwnObjects(syncs[j]);
    OwnObject(syncs[j], w.index);
  }

  /** Every call is for an object of the tree. */
  lemma OwnedByTree(syncs: seq<Sync>, i: nat)
    requires Proper(syncs) && i < |SyncsWrites(syncs)|
    ensures exists j :: 0 <= j < |syncs| && SyncsWrites(syncs)[i].index in OwnObjects(syncs[j])
  {
    var index := SyncsWrites(syncs)[i].index;
    InOnly(SyncsWrites(syncs), i);
    hide SyncsWrites, Only, Distinct, Objects, OwnObjects;
    if index in Objects(syncs) {
      OwnedBySome(syncs, index);
    } else {
      OnlyNamed(syncs, index);
    }
  }

  lemma OwnObject(s: Sync, index: Word)
    requires index in OwnObjects(s)
    ensures index == s.index || exists k :: 0 <= k < |s.pdos| && index == s.pdos[k].index
  {
    var h :| 0 <= h < |OwnObjects(s)| && OwnObjects(s)[h] == index;
    assert h > 0 ==> index == s.pdos[h - 1].index;
  }

  lemma WidthOfSync(syncs: seq<Sync>, i: nat, j: nat)
    requires Proper(syncs) && i < |SyncsWrites(syncs)| && j < |syncs|
    requires SyncsWrites(syncs)[i].index == syncs[j].index
    ensures SyncsWrites(syncs)[i].width == if SyncsWrites(syncs)[i].sub == 0 then 8 else 16
  {
    InOnly(SyncsWrites(syncs), i);
    OnlyOfSync(syncs, j);
    SyncWidths(syncs[j]);
    hide SyncsWrites, Only, SyncObject, Distinct, Objects;
  }

  lemma WidthOfPdo(syncs: seq<Sync>, i: nat, j: nat, k: nat)
    requires Proper(syncs) && i < |SyncsWrites(syncs)| && j < |syncs| && k < |syncs[j].pdos|
    requires SyncsWrites(syncs)[i].index == syncs[j].pdos[k].index
    ensures SyncsWrites(syncs)[i].width == if SyncsWrites(syncs)[i].sub == 0 then 8 else 32
  {
    InOnly(SyncsWrites(syncs), i);
    OnlyOfPdo(syncs, j, k);
    MappingWidths(syncs[j].pdos[k]);
    hide SyncsWrites, Only, MappingWrites, Distinct, Objects;
  }

  lemma {:induction false} InOnly(ws: seq<Write>, i: nat)
    requires i < |ws|
    ensures ws[i] in Only(ws, ws[i].index)
  {
    if i < |ws| - 1 {
      InOnly(ws[..|ws| - 1], i);
    }
  }

  lemma {:induction false} OwnedBySome(syncs: seq<Sync>, index: Word)
    requires index in Objects(syncs)
    ensures exists j :: 0 <= j < |syncs| && index in OwnObjects(syncs[j])
  {
    var before, s := syncs[..|syncs| - 1], syncs[|syncs| - 1];
    if index in Objects(before) {
      OwnedBySome(before, index);
      var j :| 0 <= j < |before| && index in OwnObjects(before[j]);
      assert before[j] == syncs[j];
    }
  }

  lemma MappingWidths(p: Pdo)
    requires ProperSubindices(EntryAts(p.entries))
    ensures forall w :: w in MappingWrites(p) ==> w.width == if w.sub == 0 then 8 else 32
  {
    EntryIndices(p.index, p.entries);
    hide Pack, EntryWrites;
    assert forall k :: 0 <= k < |p.entries| ==> p.entries[k].at == EntryAts(p.entries)[k];
  }

  lemma SyncWidths(s: Sync)
    requires ProperSubindices(PdoAts(s.pdos))
    ensures forall w :: w in SyncObject(s) ==> w.width == if w.sub == 0 then 8 else 16
  {
    AssignmentWidths(s.index, |s.pdos|, s.pdos);
    assert forall k :: 0 <= k < |s.pdos| ==> s.pdos[k].at == PdoAts(s.pdos)[k];
  }

  lemma {:induction false} AssignmentWidths(owner: Word, n: nat, pdos: seq<Pdo>)
    requires forall k :: 0 <= k < |pdos| ==> pdos[k].at != 0
    ensures forall w :: w in Assignments(owner, n, pdos) ==> w.width == if w.sub == 0 then 8 else 16
  {
    if pdos != [] {
      AssignmentWidths(owner, n, pdos[..|pdos| - 1]);
    }
  }

  // ----- mapped before it is assigned -----

  /** The place of the assignment of PDO p: by then its mapping has been written, whole. */
  ghost predicate AssignedAt(ws: seq<Write>, owner: Word, p: Pdo, i: nat) {
    i < |ws| && ws[i] == Write(16, owner, p.at, p.index) && Only(ws[..i], p.index) == MappingWrites(p)
  }

  lemma Earlier(a: seq<Write>, b: seq<Write>, owner: Word, p: Pdo, i: nat)
    requires AssignedAt(a, owner, p, i)
    ensures AssignedAt(a + b, owner, p, i)
  {
    assert (a + b)[..i] == a[..i] && (a + b)[i] == a[i];
  }

  lemma Later(a: seq<Write>, b: seq<Write>, owner: Word, p: Pdo, i: nat)
    requires AssignedAt(b, owner, p, i) && Only(a, p.index) == []
    ensures AssignedAt(a + b, owner, p, |a| + i)
  {
    hide Only, MappingWrites;
    assert (a + b)[..|a| + i] == a + b[..i] && (a + b)[|a| + i] == b[i];
    OnlyConcat(a, b[..i], p.index);
  }

  lemma AssignedInPdo(owner: Word, n: nat, p: Pdo)
    requires p.entries != []
    ensures AssignedAt(MappingWrites(p) + AssignmentWrites(owner, n, p), owner, p, |MappingWrites(p)|)
  {
    OnlyMapping(p, p.index);
    hide MappingWrites, Only;
    var m := MappingWrites(p);
    assert (m + AssignmentWrites(owner, n, p))[..|m|] == m;
  }

  lemma {:induction false} AssignedInPdos(owner: Word, n: nat, pdos: seq<Pdo>, k: nat) returns (i: nat)
    requires k < |pdos| && pdos[k].entries != [] && Distinct(Indices(pdos)) && pdos[k].index != owner
    ensures AssignedAt(PdosWrites(owner, n, pdos), owner, pdos[k], i)
  {
    hide MappingWrites, AssignmentWrites, Only, AssignedAt;
    var before, p := pdos[..|pdos| - 1], pdos[|pdos| - 1];
    var a, b := PdosWrites(owner, n, before), MappingWrites(p) + AssignmentWrites(owner, n, p);
    assert Indices(pdos) == Indices(before) + [p.index];
    DistinctParts(Indices(before), [p.index]);
    if k == |pdos| - 1 {
      AssignedInPdo(owner, n, p);
      OnlyPdos(owner, n, before, p.index);
      Later(a, b, owner, p, |MappingWrites(p)|);
      i := |a| + |MappingWrites(p)|;
    } else {
      i := AssignedInPdos(owner, n, before, k);
      Earlier(a, b, owner, pdos[k], i);
    }
  }

  lemma AssignedInSync(s: Sync, k: nat) returns (i: nat)
    requires k < |s.pdos| && s.pdos[k].entries != [] && Distinct(OwnObjects(s))
    ensures AssignedAt(SyncWrites(s), s.index, s.pdos[k], i)
  {
    hide PdosWrites, Only, AssignedAt;
    DistinctParts([s.index], Indices(s.pdos));
    assert s.index in [s.index] && Indices(s.pdos)[k] == s.pdos[k].index;
    i := AssignedInPdos(s.index, |s.pdos|, s.pdos, k);
    var first := [Write(8, s.index, 0, 0)];
    OnlyOther(first, s.pdos[k].index);
    Later(first, PdosWrites(s.index, |s.pdos|, s.pdos), s.index, s.pdos[k], i);
    i := i + 1;
  }

  lemma {:induction false} AssignedInTree(syncs: seq<Sync>, j: nat, k: nat) returns (i: nat)
    requires Distinct(Objects(syncs)) && j < |syncs| && k < |syncs[j].pdos| && syncs[j].pdos[k].entries != []
    ensures AssignedAt(SyncsWrites(syncs), syncs[j].index, syncs[j].pdos[k], i)
  {
    hide SyncWrites, Only, Distinct, AssignedAt;
    var before, s, p := syncs[..|syncs| - 1], syncs[|syncs| - 1], syncs[j].pdos[k];
    DistinctParts(Objects(before), OwnObjects(s));
    if j == |syncs| - 1 {
      i := AssignedInSync(s, k);
      assert OwnObjects(s)[k + 1] == p.index;
      OnlyNamed(before, p.index);
      Later(SyncsWrites(before), SyncWrites(s), s.index, p, i);
      i := |SyncsWrites(before)| + i;
    } else {
      i := AssignedInTree(before, j, k);
      Earlier(SyncsWrites(before), SyncWrites(s), syncs[j].index, p, i);
    }
  }

  /** A PDO with entries is assigned by one of the calls, and at that point its mapping is already as it is
      meant, so that no sync manager is ever given a PDO that is not mapped yet. */
  lemma MappedBeforeAssigned(d: Dictionary, syncs: seq<Sync>, j: nat, k: nat)
    requires Proper(syncs) && j < |syncs| && k < |syncs[j].pdos| && syncs[j].pdos[k].entries != []
    ensures var ws, p := SyncsWrites(syncs), syncs[j].pdos[k];
      exists i :: 0 <= i < |ws| && ws[i] == Write(16, syncs[j].index, p.at, p.index)
                  && MappingMeant(d, Replay(d, ws[..i]), p)
  {
    var i := AssignedInTree(syncs, j, k);
    MappingIsMeant(d, SyncsWrites(syncs)[..i], syncs[j].pdos[k]);
    hide SyncsWrites, MappingMeant, Replay, Only, MappingWrites;
    assert AssignedAt(SyncsWrites(syncs), syncs[j].index, syncs[j].pdos[k], i);
  }
}
