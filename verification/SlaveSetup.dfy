/** The loops that send one slave's configuration to the master, call by call, and stop at the first call
    that is refused. */
module SlaveSetup {
  import opened SdoConfig
  import opened Widths

  /** A stretch of calls went out: all of it, or as far as the first refused call. */
  ghost predicate Sent(before: seq<Write>, want: seq<Write>, after: seq<Write>, accepted: nat, ret: int) {
    || (ret == 0 && after == before + want && |after| <= accepted)
    || (ret == -1 && |after| == accepted && before <= after && after < before + want)
  }

  lemma SentThen(a: seq<Write>, w: seq<Write>, b: seq<Write>, v: seq<Write>, c: seq<Write>, accepted: nat, ret: int)
    requires Sent(a, w, b, accepted, 0) && Sent(b, v, c, accepted, ret)
    ensures Sent(a, w + v, c, accepted, ret)
  {
    assert a + (w + v) == (a + w) + v;
  }

  lemma RefusedEarly(a: seq<Write>, w: seq<Write>, b: seq<Write>, v: seq<Write>, accepted: nat)
    requires Sent(a, w, b, accepted, -1) && w <= v
    ensures Sent(a, v, b, accepted, -1)
  {
    assert a + w <= a + v;
  }

  /** How it went is decided by the number of calls alone. */
  lemma SentIff(before: seq<Write>, want: seq<Write>, after: seq<Write>, accepted: nat, ret: int)
    requires |before| <= accepted && Sent(before, want, after, accepted, ret)
    ensures ret == 0 <==> |before + want| <= accepted
    ensures after == if |before + want| <= accepted then before + want else (before + want)[..accepted]
  {
  }

  lemma {:induction false} EntriesPrefix(index: Word, entries: seq<Entry>, h: nat)
    requires h <= |entries|
    ensures EntryWrites(index, entries[..h]) <= EntryWrites(index, entries)
    decreases |entries|
  {
    hide Pack;
    if h < |entries| {
      EntriesPrefix(index, entries[..|entries| - 1], h);
      assert entries[..|entries| - 1][..h] == entries[..h];
    } else {
      assert entries[..h] == entries;
    }
  }

  lemma {:induction false} PdosPrefix(owner: Word, n: nat, pdos: seq<Pdo>, k: nat)
    requires k <= |pdos|
    ensures PdosWrites(owner, n, pdos[..k]) <= PdosWrites(owner, n, pdos)
    decreases |pdos|
  {
    hide MappingWrites, AssignmentWrites;
    if k < |pdos| {
      PdosPrefix(owner, n, pdos[..|pdos| - 1], k);
      assert pdos[..|pdos| - 1][..k] == pdos[..k];
    } else {
      assert pdos[..k] == pdos;
    }
  }

  lemma {:induction false} SyncsPrefix(syncs: seq<Sync>, j: nat)
    requires j <= |syncs|
    ensures SyncsWrites(syncs[..j]) <= SyncsWrites(syncs)
    decreases |syncs|
  {
    hide SyncWrites;
    if j < |syncs| {
      SyncsPrefix(syncs[..|syncs| - 1], j);
      assert syncs[..|syncs| - 1][..j] == syncs[..j];
    } else {
      assert syncs[..j] == syncs;
    }
  }

  lemma {:induction false} SdosSplit(sdos: seq<Sdo>, j: nat)
    requires j < |sdos| && AllKnown(sdos[..j])
    ensures |SdoWrites(sdos[..j])| == j
    ensures KnownLength(sdos[j]) ==> SdoWrites(sdos[..j + 1]) == SdoWrites(sdos[..j]) + [SdoWrite(sdos[j])]
    ensures KnownLength(sdos[j]) ==> SdoWrites(sdos[..j + 1]) <= SdoWrites(sdos)
    ensures !KnownLength(sdos[j]) ==> SdoWrites(sdos) == SdoWrites(sdos[..j])
    decreases j
  {
    hide SdoWrite;
    if j > 0 {
      assert sdos[..j][0] == sdos[0] && KnownLength(sdos[0]);
      assert sdos[..j][1..] == sdos[1..][..j - 1] && sdos[..j + 1][1..] == sdos[1..][..j];
      var rest := sdos[..j][1..];
      assert forall k :: 0 <= k < |rest| ==> rest[k] == sdos[..j][k + 1];
      SdosSplit(sdos[1..], j - 1);
    } else {
      assert sdos[..1][1..] == [];
    }
  }

  /** The connection to the master for one slave. The master takes a number of calls and refuses the next. */
  class Requests {
    var sent: seq<Write>
    const accepted: nat

    constructor (accepted: nat)
      ensures sent == [] && this.accepted == accepted
    {
      sent := [];
      this.accepted := accepted;
    }

    method ConfigSdo(w: Write) returns (ret: int)
      requires |sent| <= accepted
      modifies this
      ensures Sent(old(sent), [w], sent, accepted, ret)
    {
      if |sent| == accepted {
        return -1;
      }
      sent := sent + [w];
      ret := 0;
    }

    method ConfigMapping(p: Pdo) returns (ret: int)
      requires |sent| <= accepted
      modifies this
      ensures Sent(old(sent), MappingWrites(p), sent, accepted, ret)
    {
      hide Pack, EntryWrites, Sent;
      if |p.entries| == 0 {
        NothingSent(sent, accepted);
        return 0;
      }
      ghost var start, shut := sent, [Write(8, p.index, 0, 0)];
      ret := ConfigSdo(Write(8, p.index, 0, 0));
      if ret != 0 {
        AfterRefusal(start, shut, sent, accepted, ret);
        RefusedEarly(start, shut, sent, MappingWrites(p), accepted);
        return -1;
      }
      ghost var entries := EntryWrites(p.index, p.entries);
      NoEntries(p.index, p.entries);
      assert shut + [] == shut;
      for h := 0 to |p.entries|
        invariant Sent(start, shut + EntryWrites(p.index, p.entries[..h]), sent, accepted, 0)
      {
        ghost var now, done := sent, shut + EntryWrites(p.index, p.entries[..h]);
        AfterSuccess(start, done, now, accepted);
        var w := Write(32, p.index, p.entries[h].at, Pack(p.entries[h]));
        ret := ConfigSdo(w);
        SentThen(start, done, now, [w], sent, accepted, ret);
        NextEntry(p.index, p.entries, h);
        assert done + [w] == shut + EntryWrites(p.index, p.entries[..h + 1]);
        if ret != 0 {
          AfterRefusal(now, [w], sent, accepted, ret);
          EntriesPrefix(p.index, p.entries, h + 1);
          RefusedEarly(start, done + [w], sent, MappingWrites(p), accepted);
          return -1;
        }
      }
      assert p.entries[..|p.entries|] == p.entries;
      ghost var now := sent;
      AfterSuccess(start, shut + entries, now, accepted);
      var count := Write(8, p.index, 0, |p.entries| % 0x100);
      ret := ConfigSdo(count);
      SentThen(start, shut + entries, now, [count], sent, accepted, ret);
    }

    method ConfigSync(s: Sync) returns (ret: int)
      requires |sent| <= accepted
      modifies this
      ensures Sent(old(sent), SyncWrites(s), sent, accepted, ret)
    {
      hide MappingWrites, PdosWrites, Sent;
      if |s.pdos| == 0 {
        NothingSent(sent, accepted);
        return 0;
      }
      ghost var start, shut, n := sent, [Write(8, s.index, 0, 0)], |s.pdos|;
      ret := ConfigSdo(Write(8, s.index, 0, 0));
      if ret != 0 {
        AfterRefusal(start, shut, sent, accepted, ret);
        RefusedEarly(start, shut, sent, SyncWrites(s), accepted);
        return -1;
      }
      NoPdos(s.index, n, s.pdos);
      assert shut + [] == shut;
      for k := 0 to |s.pdos|
        invariant Sent(start, shut + PdosWrites(s.index, n, s.pdos[..k]), sent, accepted, 0)
      {
        ghost var now, done := sent, shut + PdosWrites(s.index, n, s.pdos[..k]);
        AfterSuccess(start, done, now, accepted);
        ret := ConfigPdo(s, s.pdos[k]);
        ghost var ws := MappingWrites(s.pdos[k]) + AssignmentWrites(s.index, n, s.pdos[k]);
        SentThen(start, done, now, ws, sent, accepted, ret);
        NextPdo(s.index, n, s.pdos, k);
        assert done + ws == shut + PdosWrites(s.index, n, s.pdos[..k + 1]);
        if ret != 0 {
          AfterRefusal(now, ws, sent, accepted, ret);
          PdosPrefix(s.index, n, s.pdos, k + 1);
          RefusedEarly(start, done + ws, sent, SyncWrites(s), accepted);
          return -1;
        }
      }
      assert s.pdos[..|s.pdos|] == s.pdos;
      ret := 0;
    }

    /** The body of the loop over the PDOs of a sync manager. */
    method ConfigPdo(s: Sync, p: Pdo) returns (ret: int)
      requires |sent| <= accepted
      modifies this
      ensures Sent(old(sent), MappingWrites(p) + AssignmentWrites(s.index, |s.pdos|, p), sent, accepted, ret)
    {
      hide MappingWrites, Sent;
      ghost var start, mapping := sent, MappingWrites(p);
      ghost var all := mapping + AssignmentWrites(s.index, |s.pdos|, p);
      ret := ConfigMapping(p);
      if ret != 0 {
        AfterRefusal(start, mapping, sent, accepted, ret);
        RefusedEarly(start, mapping, sent, all, accepted);
        return -1;
      }
      AfterSuccess(start, mapping, sent, accepted);
      ghost var done := mapping;
      if |p.entries| != 0 {
        ghost var now := sent;
        var w := Write(16, s.index, p.at, p.index);
        ret := ConfigSdo(w);
        done := mapping + [w];
        SentThen(start, mapping, now, [w], sent, accepted, ret);
        if ret != 0 {
          AfterRefusal(now, [w], sent, accepted, ret);
          RefusedEarly(start, done, sent, all, accepted);
          return -1;
        }
        AfterSuccess(start, done, sent, accepted);
      }
      ghost var now := sent;
      var count := Write(8, s.index, 0, |s.pdos| % 0x100);
      ret := ConfigSdo(count);
      SentThen(start, done, now, [count], sent, accepted, ret);
      assert done + [count] == all;
    }

    /** The parameters of the slave, and its PDO assignment if that is forced. */
    method ConfigSlave(s: Slave) returns (ret: int)
      requires sent == []
      modifies this
      ensures ret == 0 <==> AllKnown(s.sdos) && |SlaveWrites(s)| <= accepted
      ensures ret == 0 || ret == -1
      ensures sent == if |SlaveWrites(s)| <= accepted then SlaveWrites(s) else SlaveWrites(s)[..accepted]
    {
      hide SyncWrites, SyncsWrites, SdoWrites, SdoWrite, KnownLength, Sent;
      ghost var want := SlaveWrites(s);
      NoWrites(s.sdos, s.syncs);
      assert s.sdos[..0] == [] && s.syncs[..0] == [];
      NothingSent(sent, accepted);
      for j := 0 to |s.sdos|
        invariant AllKnown(s.sdos[..j])
        invariant Sent([], SdoWrites(s.sdos[..j]), sent, accepted, 0)
      {
        ghost var now, done := sent, SdoWrites(s.sdos[..j]);
        AfterSuccess([], done, now, accepted);
        SdosSplit(s.sdos, j);
        var o := s.sdos[j];
        ret := -1;
        if !(o.lenbit == 8 || o.lenbit == 16 || o.lenbit == 32) {
          assert !KnownLength(o) by { LengthIsKnown(o); }
          assert done <= want && !AllKnown(s.sdos);
          assert want == done;
          assert [] + done == done;
          return -1;
        }
        LengthIsKnown(o);
        ret := ConfigSdo(SdoWrite(o));
        SentThen([], done, now, [SdoWrite(o)], sent, accepted, ret);
        if ret != 0 {
          AfterRefusal(now, [SdoWrite(o)], sent, accepted, ret);
          RefusedEarly([], SdoWrites(s.sdos[..j + 1]), sent, want, accepted);
          SentIff([], want, sent, accepted, -1);
          assert [] + want == want;
          return -1;
        }
        assert forall k :: 0 <= k < j ==> s.sdos[..j][k] == s.sdos[k];
      }
      assert s.sdos[..|s.sdos|] == s.sdos;
      ghost var start, sdos := sent, SdoWrites(s.sdos);
      assert [] + want == want;
      if s.forcePdoAssign {
        assert sdos + [] == sdos;
        for j := 0 to |s.syncs|
          invariant Sent([], sdos + SyncsWrites(s.syncs[..j]), sent, accepted, 0)
        {
          ghost var now, done := sent, sdos + SyncsWrites(s.syncs[..j]);
          AfterSuccess([], done, now, accepted);
          ret := ConfigSync(s.syncs[j]);
          SentThen([], done, now, SyncWrites(s.syncs[j]), sent, accepted, ret);
          NextSync(s.syncs, j);
          assert done + SyncWrites(s.syncs[j]) == sdos + SyncsWrites(s.syncs[..j + 1]);
          if ret != 0 {
            AfterRefusal(now, SyncWrites(s.syncs[j]), sent, accepted, ret);
            SyncsPrefix(s.syncs, j + 1);
            RefusedEarly([], done + SyncWrites(s.syncs[j]), sent, want, accepted);
            SentIff([], want, sent, accepted, -1);
            return -1;
          }
        }
        assert s.syncs[..|s.syncs|] == s.syncs;
      } else {
        assert sdos + [] == sdos;
      }
      SentIff([], want, sent, accepted, 0);
      ret := 0;
    }
  }

  // ----- one step of each list -----

  lemma LengthIsKnown(o: Sdo)
    ensures KnownLength(o) <==> o.lenbit == 8 || o.lenbit == 16 || o.lenbit == 32
  {
  }

  lemma NothingSent(before: seq<Write>, accepted: nat)
    requires |before| <= accepted
    ensures Sent(before, [], before, accepted, 0)
  {
  }

  lemma AfterSuccess(before: seq<Write>, want: seq<Write>, after: seq<Write>, accepted: nat)
    requires Sent(before, want, after, accepted, 0)
    ensures after == before + want && |after| <= accepted
  {
  }

  lemma AfterRefusal(before: seq<Write>, want: seq<Write>, after: seq<Write>, accepted: nat, ret: int)
    requires Sent(before, want, after, accepted, ret) && ret != 0
    ensures ret == -1
  {
  }

  lemma NoEntries(index: Word, entries: seq<Entry>)
    ensures EntryWrites(index, entries[..0]) == []
  {
  }

  lemma NoPdos(owner: Word, n: nat, pdos: seq<Pdo>)
    ensures PdosWrites(owner, n, pdos[..0]) == []
  {
  }

  lemma NoWrites(sdos: seq<Sdo>, syncs: seq<Sync>)
    ensures SdoWrites(sdos[..0]) == [] && SyncsWrites(syncs[..0]) == []
  {
  }

  lemma NextEntry(index: Word, entries: seq<Entry>, h: nat)
    requires h < |entries|
    ensures EntryWrites(index, entries[..h + 1]) ==
            EntryWrites(index, entries[..h]) + [Write(32, index, entries[h].at, Pack(entries[h]))]
  {
    assert entries[..h + 1][..h] == entries[..h];
  }

  lemma NextPdo(owner: Word, n: nat, pdos: seq<Pdo>, k: nat)
    requires k < |pdos|
    ensures PdosWrites(owner, n, pdos[..k + 1]) ==
            PdosWrites(owner, n, pdos[..k]) + (MappingWrites(pdos[k]) + AssignmentWrites(owner, n, pdos[k]))
  {
    assert pdos[..k + 1][..k] == pdos[..k];
  }

  lemma NextSync(syncs: seq<Sync>, j: nat)
    requires j < |syncs|
    ensures SyncsWrites(syncs[..j + 1]) == SyncsWrites(syncs[..j]) + SyncWrites(syncs[j])
  {
    assert syncs[..j + 1][..j] == syncs[..j];
  }
}
