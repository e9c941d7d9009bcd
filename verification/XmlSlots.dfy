/** Filling the slave and axle tables from the configuration: each element names its own slot, and an
    occupied slot is refused. Negative numbers stand for what is missing in an element. */
module XmlSlots {
  import opened Ds402
  import opened Sequences
  import opened Widths

  // ----- slaves -----

  /** A slave element: its numbers, and whether the rest of it is in order. */
  datatype SlaveNode = SlaveNode(position: int, vendor: int, product: int, alias: int, restOk: bool)

  datatype Slave = Slave(position: Word, vendor: Long, product: Long, alias: Word)

  predicate Complete(n: SlaveNode) {
    n.position >= 0 && n.vendor >= 0 && n.product >= 0 && n.alias >= 0 && n.restOk
  }

  function SlotOf(n: SlaveNode): (slot: Word) { n.position % 0x1_0000 }

  function SlaveOf(n: SlaveNode): Slave {
    Slave(SlotOf(n), n.vendor % TWO_32, n.product % TWO_32, n.alias % 0x1_0000)
  }

  function SlaveSlots(nodes: seq<SlaveNode>): (slots: seq<nat>)
    ensures |slots| == |nodes| && forall k :: 0 <= k < |nodes| ==> slots[k] == SlotOf(nodes[k])
  {
    seq(|nodes|, k requires 0 <= k < |nodes| => SlotOf(nodes[k]))
  }

  function Slaves(nodes: seq<SlaveNode>): (slaves: seq<Slave>)
    ensures |slaves| == |nodes| && forall k :: 0 <= k < |nodes| ==> slaves[k] == SlaveOf(nodes[k])
  {
    seq(|nodes|, k requires 0 <= k < |nodes| => SlaveOf(nodes[k]))
  }

  /** The program does not check that a position is below the number of slaves; here it is assumed. */
  predicate SlavesInRange(nodes: seq<SlaveNode>) {
    forall k :: 0 <= k < |nodes| ==> SlotOf(nodes[k]) < |nodes|
  }

  /** The table after the first i elements. */
  function SlaveTable(raw: seq<Slave>, nodes: seq<SlaveNode>, i: nat): (table: seq<Slave>)
    requires SlavesInRange(nodes) && |raw| == |nodes| && i <= |nodes|
    ensures |table| == |raw|
  {
    Put(raw, SlaveSlots(nodes)[..i], Slaves(nodes)[..i])
  }

  predicate SlaveFits(raw: seq<Slave>, nodes: seq<SlaveNode>, i: nat)
    requires SlavesInRange(nodes) && |raw| == |nodes| && i < |nodes|
  {
    Complete(nodes[i]) && SlaveTable(raw, nodes, i)[SlotOf(nodes[i])].vendor == 0
  }

  /** The table starts with vendor numbers 0; what else it starts with is arbitrary. */
  method XmlCreateNewSlaves(nodes: seq<SlaveNode>, slaves: array<Slave>) returns (ret: int)
    requires SlavesInRange(nodes) && slaves.Length == |nodes|
    modifies slaves
    ensures ret == 0 || ret == -1
    ensures ret == 0 <==> nodes != [] && forall i :: 0 <= i < |nodes| ==> SlaveFits(old(slaves[..]), nodes, i)
    ensures ret == 0 ==> slaves[..] == SlaveTable(old(slaves[..]), nodes, |nodes|)
  {
    hide Put, Complete;
    ghost var raw := slaves[..];
    if |nodes| == 0 {
      return -1;
    }
    NothingPut(raw, nodes);
    for i := 0 to |nodes|
      invariant slaves[..] == SlaveTable(raw, nodes, i)
      invariant forall j :: 0 <= j < i ==> SlaveFits(raw, nodes, j)
    {
      var n := nodes[i];
      CompleteIff(n);
      if n.position < 0 {
        assert !SlaveFits(raw, nodes, i);
        return -1;
      }
      var slot := SlotOf(n);
      if slaves[slot].vendor != 0 {
        assert !SlaveFits(raw, nodes, i);
        return -1;
      }
      if n.vendor < 0 || n.product < 0 || n.alias < 0 || !n.restOk {
        assert !SlaveFits(raw, nodes, i);
        return -1;
      }
      slaves[slot] := SlaveOf(n);
      SlavePut(raw, nodes, i);
    }
    ret := 0;
  }

  lemma CompleteIff(n: SlaveNode)
    ensures Complete(n) <==> n.position >= 0 && n.vendor >= 0 && n.product >= 0 && n.alias >= 0 && n.restOk
  {
  }

  lemma NothingPut(raw: seq<Slave>, nodes: seq<SlaveNode>)
    requires SlavesInRange(nodes) && |raw| == |nodes|
    ensures SlaveTable(raw, nodes, 0) == raw
  {
  }

  lemma SlavePut(raw: seq<Slave>, nodes: seq<SlaveNode>, i: nat)
    requires SlavesInRange(nodes) && |raw| == |nodes| && i < |nodes|
    ensures SlaveTable(raw, nodes, i + 1) == SlaveTable(raw, nodes, i)[SlotOf(nodes[i]) := SlaveOf(nodes[i])]
  {
    assert SlaveSlots(nodes)[..i + 1][..i] == SlaveSlots(nodes)[..i];
    assert Slaves(nodes)[..i + 1][..i] == Slaves(nodes)[..i];
  }

  predicate NumbersTell(nodes: seq<SlaveNode>) {
    forall k :: 0 <= k < |nodes| ==> nodes[k].vendor % TWO_32 != 0
  }

  /** Of the elements for one position, all but the last have the vendor number 0. */
  predicate OnlyZerosRepeat(nodes: seq<SlaveNode>) {
    forall i, j :: 0 <= i < j < |nodes| && SlotOf(nodes[i]) == SlotOf(nodes[j]) ==>
      nodes[i].vendor % TWO_32 == 0
  }

  predicate SlotFree(raw: seq<Slave>, nodes: seq<SlaveNode>, i: nat)
    requires SlavesInRange(nodes) && |raw| == |nodes| && i < |nodes|
  {
    SlaveTable(raw, nodes, i)[SlotOf(nodes[i])].vendor == 0
  }

  /** Who came last into a slot decides whether it looks free. */
  lemma FreeFromLast(raw: seq<Slave>, nodes: seq<SlaveNode>, i: nat) returns (k: nat)
    requires SlavesInRange(nodes) && |raw| == |nodes| && i < |nodes|
    requires forall i :: 0 <= i < |raw| ==> raw[i].vendor == 0
    ensures k <= i && forall j :: k < j < i ==> SlotOf(nodes[j]) != SlotOf(nodes[i])
    ensures k == i ==> SlotFree(raw, nodes, i) && forall j :: 0 <= j < i ==> SlotOf(nodes[j]) != SlotOf(nodes[i])
    ensures k < i ==> SlotOf(nodes[k]) == SlotOf(nodes[i])
    ensures k < i ==> (SlotFree(raw, nodes, i) <==> nodes[k].vendor % TWO_32 == 0)
  {
    var at, what := SlaveSlots(nodes), Slaves(nodes);
    hide Put;
    assert forall j :: 0 <= j < i ==> at[..i][j] == SlotOf(nodes[j]);
    if at[i] in at[..i] {
      k := PutLast(raw, at[..i], what[..i], at[i]);
    } else {
      PutFrom(raw, at[..i], what[..i], at[i]);
      k := i;
      assert forall j :: 0 <= j < i ==> at[..i][j] in at[..i];
    }
  }

  /** If all slots looked free, a repeated position goes back to an element with vendor number 0. */
  lemma {:induction false} RepeatsAreZero(raw: seq<Slave>, nodes: seq<SlaveNode>, i: nat, j: nat)
    requires SlavesInRange(nodes) && |raw| == |nodes| && i < j < |nodes|
    requires forall i :: 0 <= i < |raw| ==> raw[i].vendor == 0
    requires forall k :: 0 <= k < |nodes| ==> SlotFree(raw, nodes, k)
    requires SlotOf(nodes[i]) == SlotOf(nodes[j])
    ensures nodes[i].vendor % TWO_32 == 0
    decreases j
  {
    hide SlotFree;
    var k := FreeFromLast(raw, nodes, j);
    if i < k {
      RepeatsAreZero(raw, nodes, i, k);
    }
  }

  /** The loading accepts exactly complete elements of which, for each position, all but the last have the
      vendor number 0. */
  lemma SlavesAcceptedIff(raw: seq<Slave>, nodes: seq<SlaveNode>)
    requires SlavesInRange(nodes) && |raw| == |nodes|
    requires forall i :: 0 <= i < |raw| ==> raw[i].vendor == 0
    ensures (forall i :: 0 <= i < |nodes| ==> SlaveFits(raw, nodes, i)) <==>
            (forall i :: 0 <= i < |nodes| ==> Complete(nodes[i])) && OnlyZerosRepeat(nodes)
  {
    hide Complete, SlaveTable;
    if forall i :: 0 <= i < |nodes| ==> SlaveFits(raw, nodes, i) {
      forall i | 0 <= i < |nodes|
        ensures Complete(nodes[i]) && SlotFree(raw, nodes, i)
      {
        assert SlaveFits(raw, nodes, i);
      }
      forall i, j | 0 <= i < j < |nodes| && SlotOf(nodes[i]) == SlotOf(nodes[j])
        ensures nodes[i].vendor % TWO_32 == 0
      {
        RepeatsAreZero(raw, nodes, i, j);
      }
    }
    if (forall i :: 0 <= i < |nodes| ==> Complete(nodes[i])) && OnlyZerosRepeat(nodes) {
      forall i | 0 <= i < |nodes|
        ensures SlaveFits(raw, nodes, i)
      {
        var k := FreeFromLast(raw, nodes, i);
        assert SlotFree(raw, nodes, i);
      }
    }
  }

  /** A list that is accepted fills every slot exactly if its positions are distinct: each repetition that
      the vendor number 0 lets pass leaves a slot as it came. */
  lemma FilledIffDistinct(raw: seq<Slave>, nodes: seq<SlaveNode>)
    requires SlavesInRange(nodes) && |raw| == |nodes|
    ensures (forall i :: 0 <= i < |nodes| ==> i in SlaveSlots(nodes)) <==> Distinct(SlaveSlots(nodes))
    ensures forall i :: 0 <= i < |nodes| && i !in SlaveSlots(nodes) ==>
              SlaveTable(raw, nodes, |nodes|)[i] == raw[i]
  {
    var at, what := SlaveSlots(nodes), Slaves(nodes);
    assert at[..|nodes|] == at && what[..|nodes|] == what;
    OntoIff(at, |nodes|);
    hide Put, Distinct;
    forall i: nat | i < |nodes| && i !in at
      ensures SlaveTable(raw, nodes, |nodes|)[i] == raw[i]
    {
      PutFrom(raw, at, what, i);
    }
  }

  /** With vendor numbers that are not 0, these are the complete elements with distinct positions. */
  lemma SlavesDistinctIff(raw: seq<Slave>, nodes: seq<SlaveNode>)
    requires SlavesInRange(nodes) && |raw| == |nodes| && NumbersTell(nodes)
    requires forall i :: 0 <= i < |raw| ==> raw[i].vendor == 0
    ensures (forall i :: 0 <= i < |nodes| ==> SlaveFits(raw, nodes, i)) <==>
            (forall i :: 0 <= i < |nodes| ==> Complete(nodes[i])) && Distinct(SlaveSlots(nodes))
  {
    SlavesAcceptedIff(raw, nodes);
    hide SlaveFits, Complete;
    var at := SlaveSlots(nodes);
    assert OnlyZerosRepeat(nodes) <==> forall i, j :: 0 <= i < j < |at| ==> at[i] != at[j];
  }

  /** The slot has everything the element says, each number in its width. */
  predicate SlaveTells(n: SlaveNode, s: Slave) {
    && s.position == n.position % 0x1_0000 && s.alias == n.alias % 0x1_0000
    && s.vendor == n.vendor % TWO_32 && s.product == n.product % TWO_32
  }

  /** Then the table is a permutation of the elements: slot i belongs to the one element of position i, and
      holds what that element says. */
  lemma SlavesArePermutation(raw: seq<Slave>, nodes: seq<SlaveNode>)
    requires SlavesInRange(nodes) && |raw| == |nodes| && Distinct(SlaveSlots(nodes))
    ensures forall k :: 0 <= k < |nodes| ==>
              SlaveTable(raw, nodes, |nodes|)[SlotOf(nodes[k])] == SlaveOf(nodes[k])
    ensures forall i :: 0 <= i < |nodes| ==> i in SlaveSlots(nodes)
    ensures forall i :: 0 <= i < |nodes| ==>
              var slave := SlaveTable(raw, nodes, |nodes|)[i];
              && slave.position == i
              && exists k :: 0 <= k < |nodes| && nodes[k].position % 0x1_0000 == i && SlaveTells(nodes[k], slave)
  {
    var at, what, table := SlaveSlots(nodes), Slaves(nodes), SlaveTable(raw, nodes, |nodes|);
    assert at[..|nodes|] == at && what[..|nodes|] == what;
    forall k | 0 <= k < |nodes|
      ensures table[SlotOf(nodes[k])] == SlaveOf(nodes[k])
    {
      PutDistinct(raw, at, what, k);
    }
    Onto(at, |nodes|);
    hide Put, Distinct;
    forall i: nat | i < |nodes|
      ensures table[i].position == i
      ensures exists k :: 0 <= k < |nodes| && nodes[k].position % 0x1_0000 == i && SlaveTells(nodes[k], table[i])
    {
      assert i in at;
      var k :| 0 <= k < |nodes| && at[k] == i;
      assert table[SlotOf(nodes[k])] == SlaveOf(nodes[k]);
      assert SlaveTells(nodes[k], table[i]);
    }
  }

  /** An instance: two elements with the vendor number 0 for one position are accepted, and the other slot
      stays as it came. */
  lemma ZeroVendorOverwrites(raw: seq<Slave>, position: nat)
    requires |raw| == 2 && position < 2 && forall i :: 0 <= i < |raw| ==> raw[i].vendor == 0
    ensures var n := SlaveNode(position, 0, 7, 0, true);
      var nodes := [n, n];
      && SlavesInRange(nodes)
      && (forall i :: 0 <= i < |nodes| ==> SlaveFits(raw, nodes, i))
      && SlaveTable(raw, nodes, 2)[1 - position] == raw[1 - position]
  {
    var n := SlaveNode(position, 0, 7, 0, true);
    var nodes := [n, n];
    NothingPut(raw, nodes);
    SlavePut(raw, nodes, 0);
    SlavePut(raw, nodes, 1);
  }

  /** The first slave at a position. */
  method GetNsSlave(slaves: seq<Slave>, position: Word) returns (found: bool, i: nat)
    ensures found ==> i < |slaves| && slaves[i].position == position
    ensures found ==> forall j :: 0 <= j < i ==> slaves[j].position != position
    ensures !found ==> forall j :: 0 <= j < |slaves| ==> slaves[j].position != position
  {
    i := 0;
    while i < |slaves|
      invariant i <= |slaves| && forall j :: 0 <= j < i ==> slaves[j].position != position
    {
      if slaves[i].position == position {
        return true, i;
      }
      i := i + 1;
    }
    return false, 0;
  }

  // ----- axles -----

  datatype Reg = Reg(index: int, subindex: int)

  /** The mode is its text, empty if there is none. */
  datatype AxleNode = AxleNode(master: int, slave: int, axle: int, offset: int, mode: string, regs: seq<Reg>)

  /** A registration as the axle keeps it. */
  datatype RegPdo = RegPdo(index: Word, subindex: nat)

  datatype AxleSlot =
    | Free
    | Axle(index: nat, master: nat, slave: nat, offset: Long, mode: nat, regs: seq<RegPdo>)

  // ----- the mode of operation -----

  function Letter(s: string, i: nat): char { if i < |s| then s[i] else '\0' }

  function ModeOf(s: string): nat {
    var a, b, c := Letter(s, 0), Letter(s, 1), Letter(s, 2);
    if a == 'p' && b == 'p' then OP_MODE_PP
    else if a == 'v' && b == 'l' then OP_MODE_VL
    else if a == 'p' && b == 'v' then OP_MODE_PV
    else if a == 'h' && b == 'm' then OP_MODE_HM
    else if a == 'i' && b == 'p' then OP_MODE_IP
    else if a == 'c' && c == 'p' then OP_MODE_CSP
    else if a == 'c' && c == 'v' then OP_MODE_CSV
    else if a == 'c' && b == 't' then OP_MODE_CST
    else 0
  }

  /** Every abbreviation of the profile gets its mode but one: cyclic synchronous torque, which is only taken
      for what begins with "ct" and has neither "p" nor "v" behind, so that "cst" is no mode at all. */
  lemma AbbreviationsTell(s: string)
    ensures ModeOf("pp") == OP_MODE_PP && ModeOf("vl") == OP_MODE_VL && ModeOf("pv") == OP_MODE_PV
    ensures ModeOf("hm") == OP_MODE_HM && ModeOf("ip") == OP_MODE_IP
    ensures ModeOf("csp") == OP_MODE_CSP && ModeOf("csv") == OP_MODE_CSV && ModeOf("cst") == ModeOf("") == 0
    ensures ModeOf(s) == OP_MODE_CST <==> "ct" <= s && (|s| > 2 ==> s[2] != 'p' && s[2] != 'v')
    ensures ModeOf(s) == OP_MODE_CSP <==> |s| > 2 && s[0] == 'c' && s[2] == 'p'
  {
    if |s| >= 2 && s[0] == 'c' && s[1] == 't' {
      assert s[..2] == "ct";
    }
  }

  predicate RegComplete(r: Reg) { r.index >= 0 && r.subindex >= 0 }

  predicate AllRegs(regs: seq<Reg>) {
    forall k :: 0 <= k < |regs| ==> RegComplete(regs[k])
  }

  function RegOf(r: Reg): RegPdo { RegPdo(r.index % 0x1_0000, r.subindex % 0x100) }

  function Regs(regs: seq<Reg>): seq<RegPdo> {
    seq(|regs|, k requires 0 <= k < |regs| => RegOf(regs[k]))
  }

  function AxleIndex(n: AxleNode): (i: Long) { n.axle % TWO_32 }

  function MasterIndex(n: AxleNode): (i: Long) { n.master % TWO_32 }

  /** Where a slave of a position is first found; the number of slaves if nowhere. */
  function FirstAt(slaves: seq<Slave>, position: Word): (i: nat)
    ensures i <= |slaves|
    ensures i < |slaves| ==> slaves[i].position == position
    ensures forall j :: 0 <= j < i ==> slaves[j].position != position
  {
    if slaves == [] || slaves[0].position == position then 0
    else
      var i := FirstAt(slaves[1..], position);
      assert forall j :: 0 <= j < i ==> slaves[j + 1] == slaves[1..][j];
      assert forall j :: 1 <= j < i + 1 ==> slaves[j] == slaves[1..][j - 1];
      i + 1
  }

  /** What an element must be for its axle to be taken, apart from its slot being free. */
  predicate AxleComplete(n: AxleNode, masters: seq<seq<Slave>>, count: nat) {
    && n.master >= 0 && n.slave >= 0 && n.axle >= 0
    && AxleIndex(n) <= count
    && MasterIndex(n) < |masters|
    && FirstAt(masters[MasterIndex(n)], n.slave % 0x1_0000) < |masters[MasterIndex(n)]|
    && n.regs != [] && AllRegs(n.regs)
  }

  /** In terms of the element and the masters: all its numbers are there, its index is no more than the number
      of axles, its master exists and has a slave at the position it names, and it has registrations, each
      with both its numbers. */
  lemma AxleCompleteIff(n: AxleNode, masters: seq<seq<Slave>>, count: nat)
    ensures AxleComplete(n, masters, count) <==>
              && n.master >= 0 && n.slave >= 0 && n.axle >= 0
              && n.axle % TWO_32 <= count
              && n.master % TWO_32 < |masters|
              && (exists i :: 0 <= i < |masters[n.master % TWO_32]|
                              && masters[n.master % TWO_32][i].position == n.slave % 0x1_0000)
              && |n.regs| > 0
              && forall k :: 0 <= k < |n.regs| ==> n.regs[k].index >= 0 && n.regs[k].subindex >= 0
  {
    if n.master % TWO_32 < |masters| {
      var slaves, position := masters[n.master % TWO_32], n.slave % 0x1_0000;
      var first := FirstAt(slaves, position);
      if i :| 0 <= i < |slaves| && slaves[i].position == position {
        assert first <= i;
      }
    }
    hide FirstAt;
  }

  function AxleOf(n: AxleNode, masters: seq<seq<Slave>>): AxleSlot {
    if MasterIndex(n) < |masters| then
      Axle(AxleIndex(n), MasterIndex(n), FirstAt(masters[MasterIndex(n)], n.slave % 0x1_0000),
           if n.offset < 0 then 0 else n.offset % TWO_32, ModeOf(n.mode), Regs(n.regs))
    else Free
  }

  function AxleSlots(nodes: seq<AxleNode>): (slots: seq<nat>)
    ensures |slots| == |nodes| && forall k :: 0 <= k < |nodes| ==> slots[k] == AxleIndex(nodes[k])
  {
    seq(|nodes|, k requires 0 <= k < |nodes| => AxleIndex(nodes[k]))
  }

  /** The program lets an index equal to the number of axles pass its check; here it is assumed away. */
  predicate NoneJustOutside(nodes: seq<AxleNode>) {
    forall k :: 0 <= k < |nodes| ==> AxleIndex(nodes[k]) != |nodes|
  }

  predicate AxlesComplete(nodes: seq<AxleNode>, masters: seq<seq<Slave>>) {
    forall k :: 0 <= k < |nodes| ==> AxleComplete(nodes[k], masters, |nodes|)
  }

  method XmlConfigRegs(regs: seq<Reg>) returns (ok: bool, infos: seq<RegPdo>)
    ensures ok <==> AllRegs(regs)
    ensures ok ==> infos == Regs(regs)
  {
    infos := [];
    for j := 0 to |regs|
      invariant |infos| == j
      invariant forall k :: 0 <= k < j ==> RegComplete(regs[k]) && infos[k] == RegOf(regs[k])
    {
      if regs[j].index < 0 || regs[j].subindex < 0 {
        return false, [];
      }
      infos := infos + [RegPdo(regs[j].index % 0x1_0000, regs[j].subindex % 0x100)];
    }
    ok := true;
  }

  /** One element: it is taken exactly if it is complete and its slot is free. */
  method XmlConfigAxle(n: AxleNode, masters: seq<seq<Slave>>, axles: array<AxleSlot>) returns (ret: int)
    requires AxleIndex(n) != axles.Length
    modifies axles
    ensures ret == 0 || ret == -1
    ensures ret == 0 <==> AxleComplete(n, masters, axles.Length) && old(axles[..])[AxleIndex(n)] == Free
    ensures ret == 0 ==> axles[..] == old(axles[..])[AxleIndex(n) := AxleOf(n, masters)]
  {
    hide AllRegs, Regs, ModeOf;
    if n.master < 0 || n.slave < 0 || n.axle < 0 {
      return -1;
    }
    var index, master := AxleIndex(n), MasterIndex(n);
    if index > axles.Length {
      return -1;
    }
    if master >= |masters| {
      return -1;
    }
    var found, slave := GetNsSlave(masters[master], n.slave % 0x1_0000);
    assert found <==> FirstAt(masters[master], n.slave % 0x1_0000) < |masters[master]|;
    if !found {
      return -1;
    }
    if axles[index] != Free {
      return -1;
    }
    var offset: Long := if n.offset < 0 then 0 else n.offset % TWO_32;
    if |n.regs| == 0 {
      return -1;
    }
    var ok, regs := XmlConfigRegs(n.regs);
    if !ok {
      return -1;
    }
    axles[index] := Axle(index, master, slave, offset, ModeOf(n.mode), regs);
    ret := 0;
  }

  /** The first i elements are complete, have different indices, and fill just their own slots. */
  ghost predicate Placed(table: seq<AxleSlot>, nodes: seq<AxleNode>, masters: seq<seq<Slave>>, i: nat) {
    && i <= |nodes| == |table|
    && (forall j :: 0 <= j < i ==> AxleComplete(nodes[j], masters, |nodes|) && AxleIndex(nodes[j]) < |nodes|)
    && Distinct(AxleSlots(nodes)[..i])
    && (forall j :: 0 <= j < i ==> table[AxleIndex(nodes[j])] == AxleOf(nodes[j], masters))
    && forall s :: 0 <= s < |table| ==> (table[s] == Free <==> s !in AxleSlots(nodes)[..i])
  }

  lemma PlacedStep(table: seq<AxleSlot>, nodes: seq<AxleNode>, masters: seq<seq<Slave>>, i: nat)
    requires i < |nodes| && Placed(table, nodes, masters, i) && AxleIndex(nodes[i]) < |nodes|
    requires AxleComplete(nodes[i], masters, |nodes|) && table[AxleIndex(nodes[i])] == Free
    ensures Placed(table[AxleIndex(nodes[i]) := AxleOf(nodes[i], masters)], nodes, masters, i + 1)
  {
    var at, x := AxleSlots(nodes), AxleIndex(nodes[i]);
    Completed(nodes[i], masters, |nodes|);
    hide AxleComplete, AxleOf, AxleIndex;
    assert at[..i + 1] == at[..i] + [x];
    assert x !in at[..i];
    DistinctSnoc(at[..i], x);
    NotBefore(nodes, i);
    hide Distinct, AxleSlots;
    FilledStep(table, at[..i], x, AxleOf(nodes[i], masters));
  }

  lemma NotBefore(nodes: seq<AxleNode>, i: nat)
    requires i < |nodes| && AxleIndex(nodes[i]) !in AxleSlots(nodes)[..i]
    ensures forall j :: 0 <= j < i ==> AxleIndex(nodes[j]) != AxleIndex(nodes[i])
  {
    assert forall j :: 0 <= j < i ==> AxleSlots(nodes)[..i][j] == AxleIndex(nodes[j]);
  }

  /** Filling one more slot. */
  lemma FilledStep(table: seq<AxleSlot>, filled: seq<nat>, x: nat, a: AxleSlot)
    requires x < |table| && a != Free
    requires forall s :: 0 <= s < |table| ==> (table[s] == Free <==> s !in filled)
    ensures forall s :: 0 <= s < |table| ==> (table[x := a][s] == Free <==> s !in filled + [x])
  {
  }

  lemma PlacedBlocks(table: seq<AxleSlot>, nodes: seq<AxleNode>, masters: seq<seq<Slave>>, i: nat)
    requires i < |nodes| && Placed(table, nodes, masters, i) && AxleIndex(nodes[i]) < |nodes|
    requires table[AxleIndex(nodes[i])] != Free
    ensures !Distinct(AxleSlots(nodes))
  {
    var at := AxleSlots(nodes);
    DistinctIff(at);
    hide Distinct;
    assert at[i] in at[..i];
  }

  /** Loading the axles. It succeeds exactly for complete elements with distinct indices, and then the slot
      of each index holds what its element says. */
  method XmlConfigAxles(nodes: seq<AxleNode>, masters: seq<seq<Slave>>, axles: array<AxleSlot>) returns (ret: int)
    requires NoneJustOutside(nodes) && axles.Length == |nodes|
    requires forall i :: 0 <= i < axles.Length ==> axles[i].Free?
    modifies axles
    ensures ret == 0 || ret == -1
    ensures ret == 0 <==> nodes != [] && AxlesComplete(nodes, masters) && Distinct(AxleSlots(nodes))
    ensures ret == 0 ==> forall k :: 0 <= k < |nodes| ==>
              AxleIndex(nodes[k]) < axles.Length && axles[AxleIndex(nodes[k])] == AxleOf(nodes[k], masters)
  {
    hide AxleOf, AxleComplete, Placed, AxleIndex;
    if |nodes| == 0 {
      return -1;
    }
    NonePlaced(axles[..], nodes, masters);
    for i := 0 to |nodes|
      invariant Placed(axles[..], nodes, masters, i)
    {
      ghost var table := axles[..];
      var done := XmlConfigAxle(nodes[i], masters, axles);
      if done != 0 {
        if AxleComplete(nodes[i], masters, |nodes|) {
          Completed(nodes[i], masters, |nodes|);
          PlacedBlocks(table, nodes, masters, i);
        }
        return -1;
      }
      Completed(nodes[i], masters, |nodes|);
      PlacedStep(table, nodes, masters, i);
    }
    AllPlaced(axles[..], nodes, masters);
    ret := 0;
  }

  lemma NonePlaced(table: seq<AxleSlot>, nodes: seq<AxleNode>, masters: seq<seq<Slave>>)
    requires |table| == |nodes| && forall s :: 0 <= s < |table| ==> table[s] == Free
    ensures Placed(table, nodes, masters, 0)
  {
  }

  lemma AllPlaced(table: seq<AxleSlot>, nodes: seq<AxleNode>, masters: seq<seq<Slave>>)
    requires Placed(table, nodes, masters, |nodes|)
    ensures AxlesComplete(nodes, masters) && Distinct(AxleSlots(nodes)) && |table| == |nodes|
    ensures forall k :: 0 <= k < |nodes| ==>
              AxleIndex(nodes[k]) < |table| && table[AxleIndex(nodes[k])] == AxleOf(nodes[k], masters)
  {
    hide AxleComplete, AxleOf;
    assert AxleSlots(nodes)[..|nodes|] == AxleSlots(nodes);
  }

  lemma Completed(n: AxleNode, masters: seq<seq<Slave>>, count: nat)
    requires AxleComplete(n, masters, count)
    ensures AxleIndex(n) <= count && AxleOf(n, masters).Axle?
  {
  }

  /** The slot has everything the element says: the master, the first slave at the named position, the
      offset, 0 if none is given, the mode, and the registrations in order. */
  predicate Tells(n: AxleNode, masters: seq<seq<Slave>>, a: AxleSlot)
    requires a.Axle? && a.master < |masters| && a.slave < |masters[a.master]|
  {
    && a.master == MasterIndex(n)
    && masters[a.master][a.slave].position == n.slave % 0x1_0000
    && (forall j :: 0 <= j < a.slave ==> masters[a.master][j].position != n.slave % 0x1_0000)
    && a.offset == (if n.offset < 0 then 0 else n.offset % TWO_32)
    && a.mode == ModeOf(n.mode)
    && |a.regs| == |n.regs|
    && forall j :: 0 <= j < |n.regs| ==>
         a.regs[j].index == n.regs[j].index % 0x1_0000 && a.regs[j].subindex == n.regs[j].subindex % 0x100
  }

  /** After a successful loading every axle slot is filled exactly once: slot i belongs to the one element
      of index i, and refers to a slave that exists and stands at the position the element names. */
  lemma AxlesArePermutation(nodes: seq<AxleNode>, masters: seq<seq<Slave>>, table: seq<AxleSlot>)
    requires NoneJustOutside(nodes) && |table| == |nodes|
    requires AxlesComplete(nodes, masters) && Distinct(AxleSlots(nodes))
    requires forall k :: 0 <= k < |nodes| ==>
               AxleIndex(nodes[k]) < |table| && table[AxleIndex(nodes[k])] == AxleOf(nodes[k], masters)
    ensures forall i :: 0 <= i < |table| ==>
              && table[i].Axle? && table[i].index == i && table[i].regs != []
              && table[i].master < |masters| && table[i].slave < |masters[table[i].master]|
              && exists k :: 0 <= k < |nodes| && AxleIndex(nodes[k]) == i && Tells(nodes[k], masters, table[i])
    ensures forall j, k :: 0 <= j < k < |nodes| ==> AxleIndex(nodes[j]) != AxleIndex(nodes[k])
  {
    var at := AxleSlots(nodes);
    Onto(at, |nodes|);
    forall i: nat | i < |table|
      ensures exists k :: 0 <= k < |nodes| && at[k] == i && table[i] == AxleOf(nodes[k], masters)
    {
      assert i in at;
      var k :| 0 <= k < |nodes| && at[k] == i;
      assert table[AxleIndex(nodes[k])] == AxleOf(nodes[k], masters);
    }
    forall j, k | 0 <= j < k < |nodes|
      ensures AxleIndex(nodes[j]) != AxleIndex(nodes[k])
    {
      assert at[j] != at[k];
    }
  }

  /** When both tables load, each axle of master m at position p refers to slave p of that master. */
  lemma SlaveIsAtItsPosition(raw: seq<Slave>, nodes: seq<SlaveNode>, position: Word)
    requires SlavesInRange(nodes) && |raw| == |nodes| && Distinct(SlaveSlots(nodes))
    ensures FirstAt(SlaveTable(raw, nodes, |nodes|), position) == if position < |nodes| then position else |nodes|
  {
    SlavesArePermutation(raw, nodes);
    hide SlaveTable;
    var table := SlaveTable(raw, nodes, |nodes|);
    var i := FirstAt(table, position);
    assert position < |nodes| ==> table[position].position == position;
    assert i < |nodes| ==> table[i].position == i;
  }
}
