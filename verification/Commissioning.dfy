/**
  Commissioning a bus of unconfigured nodes: scan, assign the next node-id to the node found, let it
  adopt the id on its reset, return everyone to waiting, and repeat (core/src/lss.rs).
 */
module Commissioning {
  import opened Bytes
  import opened Lss
  import opened Fastscan

  /** The nodes in the configuration state reset and adopt their pending node-id. */
  function ResetConfigured(bus: Bus): (bus': Bus)
    ensures |bus'| == |bus|
    ensures forall i :: 0 <= i < |bus| ==>
              bus'[i] == if bus[i].state == Configuration then AdoptPending(bus[i]) else bus[i]
  {
    seq(|bus|, i requires 0 <= i < |bus| =>
      if bus[i].state == Configuration then AdoptPending(bus[i]) else bus[i])
  }

  /** Assign node-id `id` to whoever a scan left in the configuration state. */
  function Assign(bus: Bus, id: byte): Bus {
    Broadcast(ResetConfigured(Broadcast(bus, EncodeConfigureNodeId(id))), EncodeSwitchGlobal(false))
  }

  /** Assign node-ids from `id` upwards until a scan finds nobody; also the addresses found, in order. */
  function Commission(bus: Bus, id: byte): (Bus, seq<LssAddress>)
    requires 1 <= id <= 128
    decreases 128 - (id as int)
  {
    var (m, scanned) := Scan(NEW_MASTER, bus);
    if id > 127 || !m.found then (bus, [])
    else
      NextIdDescends(id);
      var (bus', found) := Commission(Assign(scanned, id), id + 1);
      (bus', [m.id] + found)
  }

  lemma NextIdDescends(id: byte)
    requires 1 <= id <= 127
    ensures 1 <= id + 1 <= 128 && (id + 1) as int == id as int + 1 && id as int <= 127
  {
  }

  // --- One round ------------------------------------------------------------

  ghost predicate AllWaiting(bus: Bus) {
    forall i :: 0 <= i < |bus| ==> bus[i].state == Waiting
  }

  /** The nodes still without a node-id. */
  ghost function Unconfigured(bus: Bus): set<nat> {
    set i: nat | i < |bus| && bus[i].nodeId == UNCONFIGURED_NODE_ID
  }

  lemma UnconfiguredParticipate(bus: Bus)
    requires AllWaiting(bus)
    ensures forall i :: i in Unconfigured(bus) ==> 0 <= i < |bus| && Participates(bus[i])
  {
  }

  ghost predicate DistinctAddresses(bus: Bus) {
    forall i, j :: i in Unconfigured(bus) && j in Unconfigured(bus) && bus[i].address == bus[j].address ==> i == j
  }

  /** The same node apart from its scan cursor and its selective-switch progress. */
  predicate SameNode(a: Slave, b: Slave) {
    a.address == b.address && a.nodeId == b.nodeId && a.pendingNodeId == b.pendingNodeId && a.state == b.state
  }

  lemma AssignEffect(bus: Bus, id: byte)
    requires 1 <= id <= 127
    ensures |Assign(bus, id)| == |bus|
    ensures forall i :: 0 <= i < |bus| ==>
              Assign(bus, id)[i] ==
                if bus[i].state == Configuration
                then bus[i].(nodeId := id, pendingNodeId := id, state := Waiting, selective := 0)
                else bus[i].(selective := 0)
  {
    var configured := Broadcast(bus, EncodeConfigureNodeId(id));
    forall i | 0 <= i < |bus|
      ensures configured[i] == if bus[i].state == Configuration then bus[i].(pendingNodeId := id) else bus[i]
    {
    }
    forall i | 0 <= i < |bus|
      ensures Assign(bus, id)[i] == ResetConfigured(configured)[i].(selective := 0, state := Waiting)
    {
    }
  }

  /** One round configures the unconfigured node with the smallest address, and only that node. */
  lemma RoundEffect(bus: Bus, id: byte, w: nat, scanned: Bus)
    requires 1 <= id <= 127 && AllWaiting(bus) && DistinctAddresses(bus)
    requires IsSmallest(bus, w) && ScanOutcome(bus, scanned, bus[w].address)
    ensures
      var bus' := Assign(scanned, id);
      && |bus'| == |bus|
      && bus'[w].address == bus[w].address && bus'[w].nodeId == bus'[w].pendingNodeId == id
      && AllWaiting(bus')
      && forall i :: 0 <= i < |bus| && i != w ==> SameNode(bus'[i], bus[i])
  {
    AssignEffect(scanned, id);
    hide Assign, AddressLess;
    assert w in Unconfigured(bus);
    forall i | 0 <= i < |bus| && i != w
      ensures SameNode(Assign(scanned, id)[i], bus[i])
    {
      if Participates(bus[i]) {
        assert i in Unconfigured(bus);
      }
    }
  }

  lemma RoundShrinks(bus: Bus, bus': Bus, w: nat, id: byte)
    requires 1 <= id <= 127
    requires w in Unconfigured(bus) && |bus'| == |bus| && bus'[w].nodeId == id
    requires forall i :: 0 <= i < |bus| && i != w ==> SameNode(bus'[i], bus[i])
    requires DistinctAddresses(bus)
    ensures Unconfigured(bus') == Unconfigured(bus) - {w}
    ensures |Unconfigured(bus')| == |Unconfigured(bus)| - 1
    ensures DistinctAddresses(bus')
  {
    assert id != UNCONFIGURED_NODE_ID;
  }

  // --- The whole run --------------------------------------------------------

  ghost predicate Ascending(found: seq<LssAddress>) {
    forall j, k :: 0 <= j < k < |found| ==> AddressLess(found[j], found[k])
  }

  ghost predicate AllFoundExist(bus: Bus, found: seq<LssAddress>) {
    forall a :: a in found ==> exists i :: i in Unconfigured(bus) && bus[i].address == a
  }

  ghost predicate AllAreFound(bus: Bus, found: seq<LssAddress>) {
    forall i :: i in Unconfigured(bus) ==> bus[i].address in found
  }

  ghost predicate IdsFollow(bus: Bus, bus': Bus, found: seq<LssAddress>, first: int)
    requires |bus'| == |bus|
  {
    forall i, j :: i in Unconfigured(bus) && 0 <= j < |found| && found[j] == bus[i].address ==>
      bus'[i].address == found[j] && bus'[i].nodeId as int == first + j
  }

  /** `found[j]` is the address of an unconfigured node, which ends up with node-id `first + j`. */
  ghost predicate Numbered(bus: Bus, bus': Bus, found: seq<LssAddress>, first: int) {
    && |bus'| == |bus|
    && AllFoundExist(bus, found)
    && AllAreFound(bus, found)
    && IdsFollow(bus, bus', found, first)
    && (forall i :: 0 <= i < |bus| && i !in Unconfigured(bus) ==> SameNode(bus'[i], bus[i]))
  }

  /** What a round that configures slave `w` with id `first` leaves behind. */
  ghost predicate RoundOutcome(bus: Bus, bus1: Bus, w: nat, first: int) {
    && w in Unconfigured(bus) && |bus1| == |bus|
    && bus1[w].address == bus[w].address && bus1[w].nodeId as int == first
    && Unconfigured(bus1) == Unconfigured(bus) - {w}
    && forall i :: 0 <= i < |bus| && i != w ==> SameNode(bus1[i], bus[i])
  }

  lemma ExtendFound(bus: Bus, bus1: Bus, w: nat, found: seq<LssAddress>, first: int)
    requires RoundOutcome(bus, bus1, w, first) && AllFoundExist(bus1, found)
    ensures AllFoundExist(bus, [bus[w].address] + found)
  {
    forall a | a in [bus[w].address] + found
      ensures exists i :: i in Unconfigured(bus) && bus[i].address == a
    {
      if a == bus[w].address {
        assert w in Unconfigured(bus);
      } else {
        var i :| i in Unconfigured(bus1) && bus1[i].address == a;
        assert i in Unconfigured(bus) && bus[i].address == a;
      }
    }
  }

  lemma ExtendIds(bus: Bus, bus1: Bus, bus': Bus, w: nat, found: seq<LssAddress>, first: int)
    requires RoundOutcome(bus, bus1, w, first) && DistinctAddresses(bus)
    requires Numbered(bus1, bus', found, first + 1)
    ensures IdsFollow(bus, bus', [bus[w].address] + found, first)
  {
    var all := [bus[w].address] + found;
    forall i, j | i in Unconfigured(bus) && 0 <= j < |all| && all[j] == bus[i].address
      ensures bus'[i].address == all[j] && bus'[i].nodeId as int == first + j
    {
      if j == 0 {
        assert i == w && w !in Unconfigured(bus1);
      } else {
        assert found[j - 1] in found;
        var other :| other in Unconfigured(bus1) && bus1[other].address == found[j - 1];
        assert other in Unconfigured(bus) && bus[other].address == bus[i].address;
        assert other == i;
      }
    }
  }

  lemma ExtendNumbered(bus: Bus, bus1: Bus, bus': Bus, w: nat, found: seq<LssAddress>, first: int)
    requires RoundOutcome(bus, bus1, w, first) && DistinctAddresses(bus)
    requires Numbered(bus1, bus', found, first + 1)
    ensures Numbered(bus, bus', [bus[w].address] + found, first)
  {
    ExtendFound(bus, bus1, w, found, first);
    ExtendIds(bus, bus1, bus', w, found, first);
    forall i | i in Unconfigured(bus)
      ensures bus[i].address in [bus[w].address] + found
    {
      if i != w {
        assert i in Unconfigured(bus1) && bus1[i].address in found;
      }
    }
    assert AllAreFound(bus, [bus[w].address] + found);
  }

  lemma SmallestFirst(bus: Bus, bus1: Bus, bus': Bus, w: nat, found: seq<LssAddress>, first: int)
    requires IsSmallest(bus, w) && AllWaiting(bus) && DistinctAddresses(bus) && |bus1| == |bus|
    requires Unconfigured(bus1) == Unconfigured(bus) - {w}
    requires forall i :: 0 <= i < |bus| && i != w ==> SameNode(bus1[i], bus[i])
    requires Numbered(bus1, bus', found, first) && Ascending(found)
    ensures Ascending([bus[w].address] + found)
  {
    hide AddressLess;
    var all := [bus[w].address] + found;
    forall j, k | 0 <= j < k < |all|
      ensures AddressLess(all[j], all[k])
    {
      if j == 0 {
        assert found[k - 1] in found;
        var i :| i in Unconfigured(bus1) && bus1[i].address == found[k - 1];
        assert i in Unconfigured(bus) && bus[i].address == all[k];
        assert Participates(bus[i]);
        AddressOrderTotal(bus[w].address, bus[i].address);
      } else {
        assert AddressLess(found[j - 1], found[k - 1]);
      }
    }
  }

  /** A round of scan and assignment leaves a smaller bus of the same kind to commission. */
  lemma RoundDone(bus: Bus, id: byte, w: nat, scanned: Bus)
    requires 1 <= id <= 127 && AllWaiting(bus) && DistinctAddresses(bus)
    requires IsSmallest(bus, w) && ScanOutcome(bus, scanned, bus[w].address)
    ensures
      var bus1 := Assign(scanned, id);
      && RoundOutcome(bus, bus1, w, id as int)
      && AllWaiting(bus1) && DistinctAddresses(bus1)
      && |Unconfigured(bus1)| == |Unconfigured(bus)| - 1
  {
    hide Assign, AddressLess, ScanOutcome;
    RoundEffect(bus, id, w, scanned);
    assert w in Unconfigured(bus);
    RoundShrinks(bus, Assign(scanned, id), w, id);
  }

  /** The rest of the run, with this round in front of it. */
  lemma RestExtends(bus: Bus, bus1: Bus, bus': Bus, w: nat, found: seq<LssAddress>, first: int)
    requires IsSmallest(bus, w) && AllWaiting(bus) && DistinctAddresses(bus)
    requires RoundOutcome(bus, bus1, w, first)
    requires Numbered(bus1, bus', found, first + 1) && Ascending(found)
    ensures Numbered(bus, bus', [bus[w].address] + found, first) && Ascending([bus[w].address] + found)
  {
    hide AddressLess, IsSmallest, Numbered, Ascending;
    ExtendNumbered(bus, bus1, bus', w, found, first);
    SmallestFirst(bus, bus1, bus', w, found, first + 1);
  }

  lemma {:induction false} CommissionFrom(bus: Bus, id: byte)
    requires 1 <= id <= 128 && AllWaiting(bus) && DistinctAddresses(bus)
    requires id as int - 1 + |Unconfigured(bus)| <= 127
    ensures
      var (bus', found) := Commission(bus, id);
      && Numbered(bus, bus', found, id as int)
      && Ascending(found)
      && |found| == |Unconfigured(bus)|
      && AllWaiting(bus') && Unconfigured(bus') == {}
    decreases 128 - (id as int)
  {
    hide Scan, AddressLess, Assign;
    FastscanFindsSmallest(bus);
    UnconfiguredParticipate(bus);
    var (m, scanned) := Scan(NEW_MASTER, bus);
    if m.found {
      var w: nat :| IsSmallest(bus, w) && bus[w].address == m.id;
      assert w in Unconfigured(bus);
      hide SameNode, Numbered, IsSmallest, DistinctAddresses, ScanOutcome, Ascending, RoundOutcome;
      IdInRange(id, |Unconfigured(bus)|);
      NextIdDescends(id);
      RoundDone(bus, id, w, scanned);
      var bus1 := Assign(scanned, id);
      CommissionFrom(bus1, id + 1);
      var (bus', found) := Commission(bus1, id + 1);
      RestExtends(bus, bus1, bus', w, found, id as int);
    } else {
      assert Unconfigured(bus) == {};
    }
  }

  lemma IdInRange(id: byte, count: nat)
    requires 1 <= id <= 128 && count >= 1 && id as int - 1 + count <= 127
    ensures id <= 127
  {
  }

  /**
    Commissioning a bus on which every node waits, the unconfigured ones have distinct addresses and
    there are at most 127 of them: the addresses found are exactly theirs, in ascending order; the
    node with the j-th smallest address gets node-id j; every other node is left alone; and one more
    scan finds nobody.
   */
  lemma CommissioningNumbersByAddress(bus: Bus)
    requires AllWaiting(bus) && DistinctAddresses(bus) && |Unconfigured(bus)| <= 127
    ensures
      var (bus', found) := Commission(bus, 1);
      && Numbered(bus, bus', found, 1)
      && Ascending(found)
      && |found| == |Unconfigured(bus)|
      && !Scan(NEW_MASTER, bus').0.found
  {
    CommissionFrom(bus, 1);
    var bus' := Commission(bus, 1).0;
    FastscanFindsSmallest(bus');
    forall i: nat | i < |bus'|
      ensures !Participates(bus'[i])
    {
      assert i !in Unconfigured(bus');
    }
  }
}
