/** The configuration of one slave as a small compiler: its tree of sync managers, PDOs and mapped entries
    becomes a flat list of writes to the slave's object dictionary (CiA 301 V4.2, section 7.5.2.36). */
module SdoConfig {
  import opened Sequences
  import opened Widths

  /** An entry is mapped at a subindex of its PDO, and names an object by index, subindex and length. */
  datatype Entry = Entry(at: Byte, index: Word, subindex: Byte, bits: Byte)

  datatype Pdo = Pdo(index: Word, at: Byte, entries: seq<Entry>)

  datatype Sync = Sync(index: Word, pdos: seq<Pdo>)

  datatype Sdo = Sdo(index: Word, subindex: Byte, value: Long, lenbit: int)

  datatype Slave = Slave(sdos: seq<Sdo>, forcePdoAssign: bool, syncs: seq<Sync>)

  datatype Write = Write(width: nat, index: Word, sub: Byte, value: Long)

  // ----- the object dictionary -----

  datatype Key = Key(index: Word, sub: Byte)

  type Dictionary = map<Key, Long>

  /** Later writes win. */
  function Replay(d: Dictionary, ws: seq<Write>): Dictionary {
    if ws == [] then d
    else
      var w := ws[|ws| - 1];
      Replay(d, ws[..|ws| - 1])[Key(w.index, w.sub) := w.value]
  }

  // ----- the writes -----

  function Pack(e: Entry): Long { e.index * 0x1_0000 + e.subindex * 0x100 + e.bits }

  /** How a slave reads a mapping word back. */
  function Unpack(at: Byte, v: Long): Entry {
    Entry(at, v / 0x1_0000, v / 0x100 % 0x100, v % 0x100)
  }

  lemma PackRoundTrip(e: Entry)
    ensures Unpack(e.at, Pack(e)) == e
  {
    var high := e.index * 0x100 + e.subindex;
    assert Pack(e) == high * 0x100 + e.bits;
    assert Pack(e) / 0x100 == high && Pack(e) % 0x100 == e.bits;
    assert high / 0x100 == e.index && high % 0x100 == e.subindex;
  }

  /** The layout of a mapping word: the index in its upper half, then the subindex, then the length in bits. The
      controlword, object 6040h with 16 bits, is mapped as 60400010h. */
  lemma MappingWordIs(e: Entry)
    ensures Pack(e) / 0x1_0000 == e.index && Pack(e) / 0x100 % 0x100 == e.subindex && Pack(e) % 0x100 == e.bits
    ensures Pack(Entry(1, 0x6040, 0, 16)) == 0x6040_0010
  {
    var high := e.index * 0x100 + e.subindex;
    assert Pack(e) == high * 0x100 + e.bits;
    assert Pack(e) / 0x100 == high && Pack(e) % 0x100 == e.bits;
    assert high / 0x100 == e.index && high % 0x100 == e.subindex;
  }

  lemma UnpackRoundTrip(at: Byte, v: Long)
    ensures Pack(Unpack(at, v)) == v
  {
    var high := v / 0x100;
    assert v == high * 0x100 + v % 0x100;
    assert high == high / 0x100 * 0x100 + high % 0x100;
  }

  function EntryWrites(index: Word, entries: seq<Entry>): seq<Write> {
    if entries == [] then []
    else
      var e := entries[|entries| - 1];
      EntryWrites(index, entries[..|entries| - 1]) + [Write(32, index, e.at, Pack(e))]
  }

  /** The mapping of one PDO: shut, filled, opened with its count. */
  function MappingWrites(p: Pdo): seq<Write> {
    if p.entries == [] then []
    else [Write(8, p.index, 0, 0)] + EntryWrites(p.index, p.entries) + [Write(8, p.index, 0, |p.entries| % 0x100)]
  }

  /** Its assignment to a sync manager of n PDOs: only a PDO with entries is entered, but the count is
      written for every one. */
  function AssignmentWrites(index: Word, n: nat, p: Pdo): seq<Write> {
    (if p.entries == [] then [] else [Write(16, index, p.at, p.index)]) + [Write(8, index, 0, n % 0x100)]
  }

  function PdosWrites(index: Word, n: nat, pdos: seq<Pdo>): seq<Write> {
    if pdos == [] then []
    else
      var p := pdos[|pdos| - 1];
      PdosWrites(index, n, pdos[..|pdos| - 1]) + (MappingWrites(p) + AssignmentWrites(index, n, p))
  }

  function SyncWrites(s: Sync): seq<Write> {
    if s.pdos == [] then [] else [Write(8, s.index, 0, 0)] + PdosWrites(s.index, |s.pdos|, s.pdos)
  }

  function SyncsWrites(syncs: seq<Sync>): seq<Write> {
    if syncs == [] then [] else SyncsWrites(syncs[..|syncs| - 1]) + SyncWrites(syncs[|syncs| - 1])
  }

  predicate KnownLength(o: Sdo) { o.lenbit == 8 || o.lenbit == 16 || o.lenbit == 32 }

  function SdoWrite(o: Sdo): Write
    requires KnownLength(o)
  {
    if o.lenbit == 8 then Write(8, o.index, o.subindex, o.value % 0x100)
    else if o.lenbit == 16 then Write(16, o.index, o.subindex, o.value % 0x1_0000)
    else Write(32, o.index, o.subindex, o.value)
  }

  /** The parameters, up to the first of a length the master has no call for. */
  function SdoWrites(sdos: seq<Sdo>): seq<Write> {
    if sdos == [] || !KnownLength(sdos[0]) then [] else [SdoWrite(sdos[0])] + SdoWrites(sdos[1..])
  }

  predicate AllKnown(sdos: seq<Sdo>) {
    forall k :: 0 <= k < |sdos| ==> KnownLength(sdos[k])
  }

  function SlaveWrites(s: Slave): seq<Write> {
    SdoWrites(s.sdos) + if AllKnown(s.sdos) && s.forcePdoAssign then SyncsWrites(s.syncs) else []
  }

  // ----- looking at one object -----

  function Only(ws: seq<Write>, index: Word): (os: seq<Write>)
    ensures |os| <= |ws| && forall k :: 0 <= k < |os| ==> os[k].index == index
  {
    if ws == [] then []
    else
      Only(ws[..|ws| - 1], index) + if ws[|ws| - 1].index == index then [ws[|ws| - 1]] else []
  }

  lemma {:induction false} OnlyConcat(a: seq<Write>, b: seq<Write>, index: Word)
    ensures Only(a + b, index) == Only(a, index) + Only(b, index)
  {
    if b == [] {
      assert a + b == a;
    } else {
      OnlyConcat(a, b[..|b| - 1], index);
      assert (a + b)[..|a + b| - 1] == a + b[..|b| - 1];
    }
  }

  lemma {:induction false} OnlySame(ws: seq<Write>, index: Word)
    requires forall k :: 0 <= k < |ws| ==> ws[k].index == index
    ensures Only(ws, index) == ws
  {
    if ws != [] {
      OnlySame(ws[..|ws| - 1], index);
    }
  }

  lemma {:induction false} OnlyOther(ws: seq<Write>, index: Word)
    requires forall k :: 0 <= k < |ws| ==> ws[k].index != index
    ensures Only(ws, index) == []
  {
    if ws != [] {
      OnlyOther(ws[..|ws| - 1], index);
    }
  }

  /** What a key holds in the end is decided by the writes to its object. */
  lemma {:induction false} ReplayOnly(d: Dictionary, ws: seq<Write>, k: Key)
    ensures k in Replay(d, ws) <==> k in Replay(d, Only(ws, k.index))
    ensures k in Replay(d, ws) ==> Replay(d, ws)[k] == Replay(d, Only(ws, k.index))[k]
  {
    if ws != [] {
      var before, w := ws[..|ws| - 1], ws[|ws| - 1];
      ReplayOnly(d, before, k);
      if w.index == k.index {
        ReplayLast(d, Only(before, k.index), w);
      } else {
        assert Only(ws, k.index) == Only(before, k.index);
      }
    }
  }

  lemma {:induction false} ReplayConcat(d: Dictionary, a: seq<Write>, b: seq<Write>)
    ensures Replay(d, a + b) == Replay(Replay(d, a), b)
  {
    if b == [] {
      assert a + b == a;
    } else {
      ReplayConcat(d, a, b[..|b| - 1]);
      assert (a + b)[..|a + b| - 1] == a + b[..|b| - 1];
    }
  }

  lemma ReplayLast(d: Dictionary, a: seq<Write>, w: Write)
    ensures Replay(d, a + [w]) == Replay(d, a)[Key(w.index, w.sub) := w.value]
  {
    assert (a + [w])[..|a|] == a;
  }

  /** A key no write names keeps what it had. */
  lemma {:induction false} ReplayUntouched(d: Dictionary, ws: seq<Write>, k: Key)
    requires forall j :: 0 <= j < |ws| ==> Key(ws[j].index, ws[j].sub) != k
    ensures k in Replay(d, ws) <==> k in d
    ensures k in d ==> Replay(d, ws)[k] == d[k]
  {
    if ws != [] {
      ReplayUntouched(d, ws[..|ws| - 1], k);
    }
  }

  // ----- which writes reach which object -----

  function Indices(pdos: seq<Pdo>): (own: seq<Word>)
    ensures |own| == |pdos| && forall k :: 0 <= k < |pdos| ==> own[k] == pdos[k].index
  {
    seq(|pdos|, k requires 0 <= k < |pdos| => pdos[k].index)
  }

  /** The objects of one sync manager and its PDOs. */
  function OwnObjects(s: Sync): seq<Word> { [s.index] + Indices(s.pdos) }

  /** The objects a configuration writes. */
  function Objects(syncs: seq<Sync>): seq<Word> {
    if syncs == [] then []
    else
      Objects(syncs[..|syncs| - 1]) + OwnObjects(syncs[|syncs| - 1])
  }

  lemma {:induction false} EntryIndices(index: Word, entries: seq<Entry>)
    ensures |EntryWrites(index, entries)| == |entries|
    ensures forall k :: 0 <= k < |entries| ==>
              EntryWrites(index, entries)[k] == Write(32, index, entries[k].at, Pack(entries[k]))
  {
    hide Pack;
    if entries != [] {
      EntryIndices(index, entries[..|entries| - 1]);
    }
  }

  lemma OnlyMapping(p: Pdo, index: Word)
    ensures Only(MappingWrites(p), index) == if index == p.index then MappingWrites(p) else []
  {
    EntryIndices(p.index, p.entries);
    hide Pack, EntryWrites;
    if index == p.index {
      OnlySame(MappingWrites(p), index);
    } else {
      OnlyOther(MappingWrites(p), index);
    }
  }

  lemma OnlyAssignment(owner: Word, n: nat, p: Pdo, index: Word)
    ensures Only(AssignmentWrites(owner, n, p), index) == if index == owner then AssignmentWrites(owner, n, p) else []
  {
    if index == owner {
      OnlySame(AssignmentWrites(owner, n, p), index);
    } else {
      OnlyOther(AssignmentWrites(owner, n, p), index);
    }
  }

  /** What a list of PDOs does to the object of its own sync manager. */
  function Assignments(owner: Word, n: nat, pdos: seq<Pdo>): seq<Write> {
    if pdos == [] then []
    else Assignments(owner, n, pdos[..|pdos| - 1]) + AssignmentWrites(owner, n, pdos[|pdos| - 1])
  }

  lemma OnlyPdo(owner: Word, n: nat, p: Pdo, index: Word)
    ensures Only(MappingWrites(p) + AssignmentWrites(owner, n, p), index) ==
            (if index == p.index then MappingWrites(p) else [])
            + (if index == owner then AssignmentWrites(owner, n, p) else [])
  {
    OnlyConcat(MappingWrites(p), AssignmentWrites(owner, n, p), index);
    OnlyMapping(p, index);
    OnlyAssignment(owner, n, p, index);
    hide MappingWrites, AssignmentWrites, Only;
  }

  lemma {:induction false} OnlyPdos(owner: Word, n: nat, pdos: seq<Pdo>, index: Word)
    requires index !in Indices(pdos)
    ensures Only(PdosWrites(owner, n, pdos), index) == if index == owner then Assignments(owner, n, pdos) else []
  {
    hide MappingWrites, AssignmentWrites, Only;
    if pdos != [] {
      var before, p := pdos[..|pdos| - 1], pdos[|pdos| - 1];
      assert Indices(pdos) == Indices(before) + [p.index];
      OnlyPdos(owner, n, before, index);
      OnlyConcat(PdosWrites(owner, n, before), MappingWrites(p) + AssignmentWrites(owner, n, p), index);
      OnlyPdo(owner, n, p, index);
    } else {
      OnlySame([], index);
    }
  }

  lemma {:induction false} OnlyPdoAt(owner: Word, n: nat, pdos: seq<Pdo>, k: nat)
    requires k < |pdos| && Distinct(Indices(pdos)) && pdos[k].index != owner
    ensures Only(PdosWrites(owner, n, pdos), pdos[k].index) == MappingWrites(pdos[k])
  {
    hide MappingWrites, AssignmentWrites, Only;
    var before, p, index := pdos[..|pdos| - 1], pdos[|pdos| - 1], pdos[k].index;
    assert Indices(pdos) == Indices(before) + [p.index];
    DistinctParts(Indices(before), [p.index]);
    OnlyConcat(PdosWrites(owner, n, before), MappingWrites(p) + AssignmentWrites(owner, n, p), index);
    OnlyPdo(owner, n, p, index);
    if k == |pdos| - 1 {
      OnlyPdos(owner, n, before, index);
    } else {
      assert Indices(before)[k] == index;
      OnlyPdoAt(owner, n, before, k);
    }
  }

  function SyncObject(s: Sync): seq<Write> {
    if s.pdos == [] then [] else [Write(8, s.index, 0, 0)] + Assignments(s.index, |s.pdos|, s.pdos)
  }

  lemma OnlySyncSplit(s: Sync, index: Word)
    requires s.pdos != []
    ensures Only(SyncWrites(s), index) ==
            (if index == s.index then [Write(8, s.index, 0, 0)] else [])
            + Only(PdosWrites(s.index, |s.pdos|, s.pdos), index)
  {
    var first := [Write(8, s.index, 0, 0)];
    OnlyConcat(first, PdosWrites(s.index, |s.pdos|, s.pdos), index);
    if index == s.index {
      OnlySame(first, index);
    } else {
      OnlyOther(first, index);
    }
  }

  lemma OnlySync(s: Sync, index: Word)
    requires Distinct(OwnObjects(s))
    ensures index !in OwnObjects(s) ==> Only(SyncWrites(s), index) == []
    ensures index == s.index ==> Only(SyncWrites(s), index) == SyncObject(s)
    ensures forall k :: 0 <= k < |s.pdos| && s.pdos[k].index == index ==>
              Only(SyncWrites(s), index) == MappingWrites(s.pdos[k])
  {
    DistinctParts([s.index], Indices(s.pdos));
    assert s.index in [s.index];
    if s.pdos == [] {
      OnlySame([], index);
    } else {
      OnlySyncSplit(s, index);
      hide MappingWrites, Assignments, PdosWrites, Only, SyncWrites, Distinct;
      if index !in Indices(s.pdos) {
        OnlyPdos(s.index, |s.pdos|, s.pdos, index);
      }
      forall k | 0 <= k < |s.pdos| && s.pdos[k].index == index
        ensures Only(SyncWrites(s), index) == MappingWrites(s.pdos[k])
      {
        assert Indices(s.pdos)[k] == index;
        OnlyPdoAt(s.index, |s.pdos|, s.pdos, k);
      }
    }
  }

  lemma {:induction false} OnlyNamed(syncs: seq<Sync>, index: Word)
    requires Distinct(Objects(syncs)) && index !in Objects(syncs)
    ensures Only(SyncsWrites(syncs), index) == []
  {
    if syncs != [] {
      var before, s := syncs[..|syncs| - 1], syncs[|syncs| - 1];
      DistinctParts(Objects(before), OwnObjects(s));
      assert index !in Objects(before) && index !in OwnObjects(s);
      OnlyNamed(before, index);
      OnlySync(s, index);
      hide Only, Distinct, SyncWrites;
      OnlyConcat(SyncsWrites(before), SyncWrites(s), index);
    }
  }

  /** With every object named once, each is written by its own part of the tree and by nothing else. */
  lemma {:induction false} OnlyOwn(syncs: seq<Sync>, j: nat, index: Word)
    requires Distinct(Objects(syncs)) && j < |syncs| && index in OwnObjects(syncs[j])
    ensures Distinct(OwnObjects(syncs[j])) && index in Objects(syncs)
    ensures Only(SyncsWrites(syncs), index) == Only(SyncWrites(syncs[j]), index)
  {
    var before, s := syncs[..|syncs| - 1], syncs[|syncs| - 1];
    DistinctParts(Objects(before), OwnObjects(s));
    OnlyConcat(SyncsWrites(before), SyncWrites(s), index);
    if j == |syncs| - 1 {
      OnlyNamed(before, index);
    } else {
      OnlyOwn(before, j, index);
      OnlySync(s, index);
    }
    hide Only, Distinct, SyncWrites;
  }

  lemma OnlyOfSync(syncs: seq<Sync>, j: nat)
    requires Distinct(Objects(syncs)) && j < |syncs|
    ensures syncs[j].index in Objects(syncs)
    ensures Only(SyncsWrites(syncs), syncs[j].index) == SyncObject(syncs[j])
  {
    hide Only, Distinct, Objects, SyncWrites, SyncObject, SyncsWrites;
    assert OwnObjects(syncs[j])[0] == syncs[j].index;
    OnlyOwn(syncs, j, syncs[j].index);
    OnlySync(syncs[j], syncs[j].index);
  }

  lemma OnlyOfPdo(syncs: seq<Sync>, j: nat, k: nat)
    requires Distinct(Objects(syncs)) && j < |syncs| && k < |syncs[j].pdos|
    ensures syncs[j].pdos[k].index in Objects(syncs)
    ensures Only(SyncsWrites(syncs), syncs[j].pdos[k].index) == MappingWrites(syncs[j].pdos[k])
  {
    hide Only, Distinct, Objects, SyncWrites, SyncsWrites, MappingWrites;
    assert OwnObjects(syncs[j])[k + 1] == syncs[j].pdos[k].index;
    OnlyOwn(syncs, j, syncs[j].pdos[k].index);
    OnlySync(syncs[j], syncs[j].pdos[k].index);
  }

  // ----- what the objects then say -----

  predicate ProperSubindices(ats: seq<Byte>) {
    Distinct(ats) && 0 !in ats
  }

  /** The subindices at which entries are mapped, or PDOs assigned. */
  function Ats<T>(s: seq<T>, at: T -> Byte): (ats: seq<Byte>)
    ensures |ats| == |s| && forall k :: 0 <= k < |s| ==> ats[k] == at(s[k])
  {
    seq(|s|, k requires 0 <= k < |s| => at(s[k]))
  }

  function EntryAts(entries: seq<Entry>): seq<Byte> { Ats(entries, (e: Entry) => e.at) }

  function PdoAts(pdos: seq<Pdo>): seq<Byte> { Ats(pdos, (p: Pdo) => p.at) }

  /** Distinct subindices other than 0 are at most 255, so the count byte holds their number. */
  lemma CountFits(ats: seq<Byte>)
    requires ProperSubindices(ats)
    ensures |ats| < 0x100
  {
    Misses(ats, 0x100, 0);
  }

  lemma {:induction false} EntriesReplayed(d: Dictionary, index: Word, entries: seq<Entry>)
    requires ProperSubindices(EntryAts(entries))
    ensures var r := Replay(d, EntryWrites(index, entries));
      forall k :: 0 <= k < |entries| ==>
        Key(index, entries[k].at) in r && r[Key(index, entries[k].at)] == Pack(entries[k])
  {
    hide Pack;
    if entries != [] {
      var before, e := entries[..|entries| - 1], entries[|entries| - 1];
      assert EntryAts(entries) == EntryAts(before) + [e.at];
      DistinctParts(EntryAts(before), [e.at]);
      EntriesReplayed(d, index, before);
      ReplayLast(d, EntryWrites(index, before), Write(32, index, e.at, Pack(e)));
      assert forall k :: 0 <= k < |before| ==> entries[k].at == EntryAts(before)[k] != e.at;
    }
  }

  /** A PDO's object after its own writes. */
  lemma MappingReplayed(d: Dictionary, p: Pdo)
    requires p.entries != [] && ProperSubindices(EntryAts(p.entries))
    ensures var r := Replay(d, MappingWrites(p));
      && Key(p.index, 0) in r && r[Key(p.index, 0)] == |p.entries|
      && forall k :: 0 <= k < |p.entries| ==>
           Key(p.index, p.entries[k].at) in r && r[Key(p.index, p.entries[k].at)] == Pack(p.entries[k])
  {
    hide Pack;
    var shut, fill, count := [Write(8, p.index, 0, 0)], EntryWrites(p.index, p.entries), |p.entries| % 0x100;
    CountFits(EntryAts(p.entries));
    ReplayConcat(d, shut, fill);
    EntriesReplayed(Replay(d, shut), p.index, p.entries);
    ReplayLast(d, shut + fill, Write(8, p.index, 0, count));
    assert forall k :: 0 <= k < |p.entries| ==> p.entries[k].at == EntryAts(p.entries)[k] && p.entries[k].at != 0;
  }

  lemma {:induction false} AssignmentsReplayed(d: Dictionary, owner: Word, n: nat, pdos: seq<Pdo>)
    requires ProperSubindices(PdoAts(pdos))
    ensures var r := Replay(d, Assignments(owner, n, pdos));
      && (pdos != [] ==> Key(owner, 0) in r && r[Key(owner, 0)] == n % 0x100)
      && forall k :: 0 <= k < |pdos| && pdos[k].entries != [] ==>
           Key(owner, pdos[k].at) in r && r[Key(owner, pdos[k].at)] == pdos[k].index
  {
    hide Replay, Distinct, AssignmentWrites;
    if pdos != [] {
      var before, p := pdos[..|pdos| - 1], pdos[|pdos| - 1];
      assert PdoAts(pdos) == PdoAts(before) + [p.at];
      DistinctParts(PdoAts(before), [p.at]);
      AssignmentsReplayed(d, owner, n, before);
      var ws := Assignments(owner, n, before);
      AssignmentReplayed(d, ws, owner, n, p);
      assert p.at in PdoAts(pdos);
      assert forall k :: 0 <= k < |before| ==> pdos[k].at == PdoAts(before)[k] != p.at && pdos[k] == before[k];
    }
  }

  /** One assignment step. */
  lemma AssignmentReplayed(d: Dictionary, ws: seq<Write>, owner: Word, n: nat, p: Pdo)
    ensures Replay(d, ws + AssignmentWrites(owner, n, p)) ==
            (if p.entries == [] then Replay(d, ws) else Replay(d, ws)[Key(owner, p.at) := p.index])
            [Key(owner, 0) := n % 0x100]
  {
    var assign := if p.entries == [] then [] else [Write(16, owner, p.at, p.index)];
    var count := Write(8, owner, 0, n % 0x100);
    assert ws + AssignmentWrites(owner, n, p) == (ws + assign) + [count];
    ReplayLast(d, ws + assign, count);
    if p.entries != [] {
      ReplayLast(d, ws, assign[0]);
    } else {
      assert ws + assign == ws;
    }
  }

  lemma SyncReplayed(d: Dictionary, s: Sync)
    requires s.pdos != [] && ProperSubindices(PdoAts(s.pdos))
    ensures var r := Replay(d, SyncObject(s));
      && Key(s.index, 0) in r && r[Key(s.index, 0)] == |s.pdos|
      && forall k :: 0 <= k < |s.pdos| && s.pdos[k].entries != [] ==>
           Key(s.index, s.pdos[k].at) in r && r[Key(s.index, s.pdos[k].at)] == s.pdos[k].index
  {
    var shut := [Write(8, s.index, 0, 0)];
    CountFits(PdoAts(s.pdos));
    ReplayConcat(d, shut, Assignments(s.index, |s.pdos|, s.pdos));
    AssignmentsReplayed(Replay(d, shut), s.index, |s.pdos|, s.pdos);
  }

  /** Every object is named once, and within an object every subindex is used once and none is 0. */
  predicate Proper(syncs: seq<Sync>) {
    && Distinct(Objects(syncs))
    && forall j :: 0 <= j < |syncs| ==>
         && ProperSubindices(PdoAts(syncs[j].pdos))
         && forall k :: 0 <= k < |syncs[j].pdos| ==> ProperSubindices(EntryAts(syncs[j].pdos[k].entries))
  }

  predicate Holds(d: Dictionary, k: Key, v: int) { k in d && d[k] == v }

  /** The PDO's object lists its entries, or, if it has none, is what it was. */
  predicate MappingMeant(before: Dictionary, after: Dictionary, p: Pdo) {
    if p.entries == [] then forall sub: Byte :: Same(before, after, Key(p.index, sub))
    else
      && Holds(after, Key(p.index, 0), |p.entries|)
      && (forall k :: 0 <= k < |p.entries| ==> Holds(after, Key(p.index, p.entries[k].at), Pack(p.entries[k])))
      && forall sub: Byte :: sub != 0 && sub !in EntryAts(p.entries) ==> Same(before, after, Key(p.index, sub))
  }

  predicate Listed(pdos: seq<Pdo>, sub: Byte) {
    exists k :: 0 <= k < |pdos| && pdos[k].entries != [] && pdos[k].at == sub
  }

  /** The sync manager's object counts all its PDOs and lists those that have entries. */
  predicate AssignmentMeant(before: Dictionary, after: Dictionary, s: Sync) {
    if s.pdos == [] then forall sub: Byte :: Same(before, after, Key(s.index, sub))
    else
      && Holds(after, Key(s.index, 0), |s.pdos|)
      && (forall k :: 0 <= k < |s.pdos| && s.pdos[k].entries != [] ==>
            Holds(after, Key(s.index, s.pdos[k].at), s.pdos[k].index))
      && forall sub: Byte :: sub != 0 && !Listed(s.pdos, sub) ==> Same(before, after, Key(s.index, sub))
  }

  predicate Same(before: Dictionary, after: Dictionary, k: Key) {
    (k in before <==> k in after) && (k in before ==> before[k] == after[k])
  }

  lemma {:induction false} AssignmentKeys(owner: Word, n: nat, pdos: seq<Pdo>)
    ensures forall j :: 0 <= j < |Assignments(owner, n, pdos)| ==>
              var w := Assignments(owner, n, pdos)[j];
              w.index == owner
              && (w.sub == 0 || Listed(pdos, w.sub))
  {
    if pdos != [] {
      AssignmentKeys(owner, n, pdos[..|pdos| - 1]);
      var ws := Assignments(owner, n, pdos[..|pdos| - 1]);
      forall j | 0 <= j < |Assignments(owner, n, pdos)|
        ensures var w := Assignments(owner, n, pdos)[j];
                w.index == owner
                && (w.sub == 0 || Listed(pdos, w.sub))
      {
        var w := Assignments(owner, n, pdos)[j];
        if j < |ws| {
          assert w == ws[j];
          if w.sub != 0 {
            var k :| 0 <= k < |pdos| - 1 && pdos[..|pdos| - 1][k].entries != [] && pdos[..|pdos| - 1][k].at == w.sub;
            assert pdos[k].at == w.sub;
          }
        } else {
          assert w.sub == 0 || w.sub == pdos[|pdos| - 1].at;
        }
      }
    }
  }

  lemma MappingIsMeant(d: Dictionary, ws: seq<Write>, p: Pdo)
    requires Only(ws, p.index) == MappingWrites(p) && ProperSubindices(EntryAts(p.entries))
    ensures MappingMeant(d, Replay(d, ws), p)
  {
    var own, after := MappingWrites(p), Replay(d, ws);
    forall sub: Byte
      ensures Same(Replay(d, own), after, Key(p.index, sub))
    {
      ReplayOnly(d, ws, Key(p.index, sub));
    }
    if p.entries != [] {
      MappingReplayed(d, p);
    }
    EntryIndices(p.index, p.entries);
    hide Pack, Replay;
    forall sub: Byte | p.entries == [] || (sub != 0 && sub !in EntryAts(p.entries))
      ensures Same(d, after, Key(p.index, sub))
    {
      assert forall k :: 0 <= k < |p.entries| ==> EntryAts(p.entries)[k] == p.entries[k].at;
      ReplayUntouched(d, own, Key(p.index, sub));
      assert Same(Replay(d, own), after, Key(p.index, sub));
    }
    if p.entries != [] {
      assert Same(Replay(d, own), after, Key(p.index, 0));
      assert forall k :: 0 <= k < |p.entries| ==> Same(Replay(d, own), after, Key(p.index, p.entries[k].at));
    }
  }

  lemma AssignmentIsMeant(d: Dictionary, ws: seq<Write>, s: Sync)
    requires Only(ws, s.index) == SyncObject(s) && ProperSubindices(PdoAts(s.pdos))
    ensures AssignmentMeant(d, Replay(d, ws), s)
  {
    var own, after := SyncObject(s), Replay(d, ws);
    forall sub: Byte
      ensures Same(Replay(d, own), after, Key(s.index, sub))
    {
      ReplayOnly(d, ws, Key(s.index, sub));
    }
    if s.pdos != [] {
      SyncReplayed(d, s);
    }
    AssignmentKeys(s.index, |s.pdos|, s.pdos);
    hide Replay, Assignments;
    forall sub: Byte | s.pdos == [] || (sub != 0 && !Listed(s.pdos, sub))
      ensures Same(d, after, Key(s.index, sub))
    {
      ReplayUntouched(d, own, Key(s.index, sub));
      assert Same(Replay(d, own), after, Key(s.index, sub));
    }
    if s.pdos != [] {
      assert Same(Replay(d, own), after, Key(s.index, 0));
      assert forall k :: 0 <= k < |s.pdos| ==> Same(Replay(d, own), after, Key(s.index, s.pdos[k].at));
    }
  }

  /** The list means the tree: whatever the dictionary held, replaying the writes leaves every sync manager
      and every PDO as configured and every other object alone. */
  lemma ReplayMeansTree(d: Dictionary, syncs: seq<Sync>)
    requires Proper(syncs)
    ensures var after := Replay(d, SyncsWrites(syncs));
      && (forall j :: 0 <= j < |syncs| ==> AssignmentMeant(d, after, syncs[j]))
      && (forall j, k :: 0 <= j < |syncs| && 0 <= k < |syncs[j].pdos| ==> MappingMeant(d, after, syncs[j].pdos[k]))
      && (forall key: Key :: key.index !in Objects(syncs) ==> Same(d, after, key))
  {
    hide MappingMeant, AssignmentMeant;
    var ws := SyncsWrites(syncs);
    forall j | 0 <= j < |syncs|
      ensures AssignmentMeant(d, Replay(d, ws), syncs[j])
    {
      OnlyOfSync(syncs, j);
      AssignmentIsMeant(d, ws, syncs[j]);
    }
    forall j, k | 0 <= j < |syncs| && 0 <= k < |syncs[j].pdos|
      ensures MappingMeant(d, Replay(d, ws), syncs[j].pdos[k])
    {
      OnlyOfPdo(syncs, j, k);
      MappingIsMeant(d, ws, syncs[j].pdos[k]);
    }
    forall key: Key | key.index !in Objects(syncs)
      ensures Same(d, Replay(d, ws), key)
    {
      OnlyNamed(syncs, key.index);
      ReplayOnly(d, ws, key);
    }
  }

  // ----- written while closed -----

  /** The subindices of an object from 1 up are only written while its count says 0. */
  predicate Closed(d: Dictionary, ws: seq<Write>, index: Word) {
    forall k :: 0 <= k < |ws| && ws[k].index == index && ws[k].sub != 0 ==>
      Holds(Replay(d, ws[..k]), Key(index, 0), 0)
  }

  lemma ClosedStep(d: Dictionary, a: seq<Write>, w: Write, index: Word)
    ensures Closed(d, a + [w], index) <==>
              Closed(d, a, index) && (w.index == index && w.sub != 0 ==> Holds(Replay(d, a), Key(index, 0), 0))
  {
    hide Replay;
    var ws := a + [w];
    assert ws[..|a|] == a && ws[|a|] == w;
    assert forall k :: 0 <= k < |a| ==> ws[k] == a[k] && ws[..k] == a[..k];
  }

  lemma {:induction false} ClosedOnly(d: Dictionary, ws: seq<Write>, index: Word)
    ensures Closed(d, ws, index) <==> Closed(d, Only(ws, index), index)
  {
    if ws != [] {
      var a, w := ws[..|ws| - 1], ws[|ws| - 1];
      ClosedOnly(d, a, index);
      ReplayOnly(d, a, Key(index, 0));
      assert ws == a + [w];
      ClosedStep(d, a, w, index);
      ClosedStep(d, Only(a, index), w, index);
      hide Closed, Replay;
      assert w.index == index ==> Only(ws, index) == Only(a, index) + [w];
      assert w.index != index ==> Only(ws, index) == Only(a, index);
    }
  }

  lemma {:induction false} EntriesClosed(d: Dictionary, index: Word, entries: seq<Entry>)
    requires 0 !in EntryAts(entries)
    ensures var ws := [Write(8, index, 0, 0)] + EntryWrites(index, entries);
      Closed(d, ws, index) && Holds(Replay(d, ws), Key(index, 0), 0)
  {
    hide Pack, Closed, Replay;
    var shut := Write(8, index, 0, 0);
    if entries == [] {
      assert [shut] + EntryWrites(index, entries) == [] + [shut];
      ClosedStep(d, [], shut, index);
      ReplayLast(d, [], shut);
      ClosedEmpty(d, index);
    } else {
      var before, e := entries[..|entries| - 1], entries[|entries| - 1];
      EntryAtsSplit(entries);
      hide EntryAts;
      EntriesClosed(d, index, before);
      var ws, w := [shut] + EntryWrites(index, before), Write(32, index, e.at, Pack(e));
      assert [shut] + EntryWrites(index, entries) == ws + [w];
      hide EntryWrites;
      ClosedStep(d, ws, w, index);
      ReplayLast(d, ws, w);
    }
  }

  lemma EntryAtsSplit(entries: seq<Entry>)
    requires entries != []
    ensures EntryAts(entries) == EntryAts(entries[..|entries| - 1]) + [entries[|entries| - 1].at]
  {
  }

  lemma ClosedEmpty(d: Dictionary, index: Word)
    ensures Closed(d, [], index)
  {
  }

  /** Every mapping entry of every PDO is written while that PDO is shut. */
  lemma MappingsAreClosed(d: Dictionary, syncs: seq<Sync>, j: nat, k: nat)
    requires Proper(syncs) && j < |syncs| && k < |syncs[j].pdos|
    ensures Closed(d, SyncsWrites(syncs), syncs[j].pdos[k].index)
  {
    var p := syncs[j].pdos[k];
    OnlyOfPdo(syncs, j, k);
    ClosedOnly(d, SyncsWrites(syncs), p.index);
    if p.entries == [] {
      ClosedEmpty(d, p.index);
    } else {
      EntriesClosed(d, p.index, p.entries);
      ClosedStep(d, [Write(8, p.index, 0, 0)] + EntryWrites(p.index, p.entries),
                 Write(8, p.index, 0, |p.entries| % 0x100), p.index);
    }
  }

  /** Behind the first PDO there are only empty ones. */
  predicate OnlyFirstHasEntries(pdos: seq<Pdo>) {
    forall k :: 1 <= k < |pdos| ==> pdos[k].entries == []
  }

  /** One assignment step leaves the count open. */
  lemma AssignmentOpens(d: Dictionary, ws: seq<Write>, owner: Word, n: nat, p: Pdo)
    requires p.at != 0 && n < 0x100
    ensures var done := ws + AssignmentWrites(owner, n, p);
      && (Closed(d, done, owner) <==>
            Closed(d, ws, owner) && (p.entries != [] ==> Holds(Replay(d, ws), Key(owner, 0), 0)))
      && Holds(Replay(d, done), Key(owner, 0), n)
  {
    hide Closed, Replay;
    var assign, count := Write(16, owner, p.at, p.index), Write(8, owner, 0, n);
    if p.entries == [] {
      assert AssignmentWrites(owner, n, p) == [count];
      ClosedStep(d, ws, count, owner);
      ReplayLast(d, ws, count);
    } else {
      assert ws + AssignmentWrites(owner, n, p) == (ws + [assign]) + [count];
      ClosedStep(d, ws, assign, owner);
      ClosedStep(d, ws + [assign], count, owner);
      ReplayLast(d, ws + [assign], count);
    }
  }

  lemma {:induction false} AssignmentsOpen(d: Dictionary, owner: Word, n: nat, pdos: seq<Pdo>)
    requires 0 !in PdoAts(pdos) && 0 < n < 0x100
    ensures var ws := [Write(8, owner, 0, 0)] + Assignments(owner, n, pdos);
      && (Closed(d, ws, owner) <==> OnlyFirstHasEntries(pdos))
      && Holds(Replay(d, ws), Key(owner, 0), if pdos == [] then 0 else n)
  {
    hide Closed, Replay, AssignmentWrites;
    var shut := Write(8, owner, 0, 0);
    if pdos == [] {
      assert [shut] + Assignments(owner, n, pdos) == [] + [shut];
      ClosedStep(d, [], shut, owner);
      ReplayLast(d, [], shut);
      ClosedEmpty(d, owner);
    } else {
      var before, p := pdos[..|pdos| - 1], pdos[|pdos| - 1];
      assert PdoAts(pdos) == PdoAts(before) + [p.at];
      AssignmentsOpen(d, owner, n, before);
      assert OnlyFirstHasEntries(pdos) <==> OnlyFirstHasEntries(before) && (before != [] ==> p.entries == []);
      hide OnlyFirstHasEntries;
      var ws := [shut] + Assignments(owner, n, before);
      assert [shut] + Assignments(owner, n, pdos) == ws + AssignmentWrites(owner, n, p);
      AssignmentOpens(d, ws, owner, n, p);
    }
  }

  /** A sync manager is not always treated so: its count is opened again inside the loop over its PDOs, and
      its list is written while shut exactly when no PDO but the first has entries. */
  lemma AssignmentsClosedIff(d: Dictionary, syncs: seq<Sync>, j: nat)
    requires Proper(syncs) && j < |syncs|
    ensures Closed(d, SyncsWrites(syncs), syncs[j].index) <==>
              forall k :: 1 <= k < |syncs[j].pdos| ==> syncs[j].pdos[k].entries == []
  {
    hide Closed, Replay, SyncsWrites, Objects, Distinct;
    var s := syncs[j];
    OnlyOfSync(syncs, j);
    ClosedOnly(d, SyncsWrites(syncs), s.index);
    if s.pdos == [] {
      ClosedEmpty(d, s.index);
    } else {
      CountFits(PdoAts(s.pdos));
      AssignmentsOpen(d, s.index, |s.pdos|, s.pdos);
    }
  }

  // ----- reading a mapping back -----

  /** What a slave makes of a PDO's object: as many entries as subindex 0 says, from subindex 1 on. */
  function ReadMapping(d: Dictionary, index: Word): seq<Entry>
    requires Key(index, 0) in d && d[Key(index, 0)] < 0x100
    requires forall k :: 1 <= k <= d[Key(index, 0)] ==> Key(index, k) in d
  {
    seq(d[Key(index, 0)], k requires 0 <= k < d[Key(index, 0)] => Unpack(k + 1, d[Key(index, k + 1)]))
  }

  /** When the subindices simply count, a slave that follows the writes maps the configured entries. */
  lemma MappingRoundTrip(d: Dictionary, syncs: seq<Sync>, j: nat, k: nat)
    requires Proper(syncs) && j < |syncs| && k < |syncs[j].pdos| && syncs[j].pdos[k].entries != []
    requires forall h :: 0 <= h < |syncs[j].pdos[k].entries| ==> syncs[j].pdos[k].entries[h].at == h + 1
    ensures var p := syncs[j].pdos[k];
      var after := Replay(d, SyncsWrites(syncs));
      && Key(p.index, 0) in after && after[Key(p.index, 0)] == |p.entries| < 0x100
      && (forall h :: 1 <= h <= |p.entries| ==> Key(p.index, h) in after)
      && ReadMapping(after, p.index) == p.entries
  {
    var p, after := syncs[j].pdos[k], Replay(d, SyncsWrites(syncs));
    ReplayMeansTree(d, syncs);
    assert MappingMeant(d, after, p);
    CountFits(EntryAts(p.entries));
    hide Replay, Proper, Pack, Unpack;
    forall h | 1 <= h <= |p.entries|
      ensures Key(p.index, h) in after && Unpack(h, after[Key(p.index, h)]) == p.entries[h - 1]
    {
      assert p.entries[h - 1].at == h;
      PackRoundTrip(p.entries[h - 1]);
    }
  }
}
