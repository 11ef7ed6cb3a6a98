/**
  Process data from node to node (core/src/node.rs, core/src/pdo.rs): which frames a node sends, and
  what a frame does to the node that receives it.
 */
module NodePdo {
  import opened Wrappers
  import opened Bytes
  import opened Datatypes
  import opened ObjectDictionaries
  import opened Nmt
  import opened Pdo
  import opened PdoConfig
  import opened PdoTransport
  import opened Nodes
  import S = SdoServers
  import L = Lss

  // --- What is sent ---------------------------------------------------------

  /** An entry of whole bytes whose object is there, readable, of a fixed size and exactly that wide. */
  predicate Mappable(e: MappingEntry, od: Dict) {
    && e.bitLength as int > 0 && e.bitLength as int % 8 == 0
    && e.address in od && od[e.address].access != Wo
    && var size := od[e.address].value.Type().FixedSize();
    size.Some? && 8 * size.value == e.bitLength as int
  }

  lemma FieldIff(e: MappingEntry, od: Dict)
    ensures Field(e, od).Ok? <==> Mappable(e, od)
    ensures Field(e, od).Ok? ==> Field(e, od).value == od[e.address].value.Encoded()
  {
    hide Value.Encoded;
    if e.address in od {
      SizeOfFixed(od[e.address].value);
    }
  }

  lemma SizeOfFixed(v: Value)
    ensures v.Type().FixedSize().Some? ==> v.Size() == v.Type().FixedSize().value
  {
  }

  lemma {:induction false} PackedIff(entries: seq<MappingEntry>, od: Dict)
    ensures Packed(entries, od).Ok? <==> forall k :: 0 <= k < |entries| ==> Mappable(entries[k], od)
  {
    hide Mappable, Field;
    if entries != [] {
      var n := |entries| - 1;
      PackedIff(entries[..n], od);
      FieldIff(entries[n], od);
      if Packed(entries, od).Ok? {
        forall k | 0 <= k < |entries| ensures Mappable(entries[k], od) {
          if k < n {
            assert entries[..n][k] == entries[k];
          }
        }
      }
    }
  }

  /** The values of the mapped objects, one after the other. */
  function Concatenated(entries: seq<MappingEntry>, od: Dict): seq<byte>
    requires forall k :: 0 <= k < |entries| ==> entries[k].address in od
  {
    if entries == [] then []
    else
      var n := |entries| - 1;
      Concatenated(entries[..n], od) + od[entries[n].address].value.Encoded()
  }

  lemma {:induction false} PackedIsConcatenated(entries: seq<MappingEntry>, od: Dict)
    requires forall k :: 0 <= k < |entries| ==> Mappable(entries[k], od) && entries[k].address in od
    ensures Packed(entries, od) == Ok(Concatenated(entries, od))
  {
    if entries != [] {
      var n := |entries| - 1;
      PackedIsConcatenated(entries[..n], od);
      FieldIff(entries[n], od);
    }
    hide Field;
  }

  /**
    A transmit PDO yields a frame exactly when its mapping is not empty and every mapped object can
    be packed. The frame goes out under the slot's COB-ID and holds the objects' values in order.
   */
  lemma TpdoSends(slot: TpdoSlot, od: Dict)
    ensures TpdoFrame(slot, od).Some? <==>
            slot.mapping != [] && forall k :: 0 <= k < |slot.mapping| ==> Mappable(slot.mapping[k], od)
    ensures TpdoFrame(slot, od).Some? ==>
              && TpdoFrame(slot, od).value.cobId == slot.cobId
              && (forall k :: 0 <= k < |slot.mapping| ==> slot.mapping[k].address in od)
              && TpdoFrame(slot, od).value.data == Concatenated(slot.mapping, od)
  {
    PackedIff(slot.mapping, od);
    hide Packed, Concatenated;
    if TpdoFrame(slot, od).Some? {
      MappableIsThere(slot.mapping, od);
      PackedIsConcatenated(slot.mapping, od);
    }
    hide Mappable;
  }

  lemma MappableIsThere(entries: seq<MappingEntry>, od: Dict)
    requires forall k :: 0 <= k < |entries| ==> Mappable(entries[k], od)
    ensures forall k :: 0 <= k < |entries| ==> entries[k].address in od
  {
  }

  /** The transmission types that SYNC triggers: bytes 0 to 240, and the cyclic type. */
  predicate OnSync(t: TransmissionType) {
    t.ToByte() as int <= 240 || t.SynchronousCyclic?
  }

  lemma OnSyncIff(t: TransmissionType)
    ensures t.IsSynchronous() <==> OnSync(t)
  {
  }

  /** What each slot contributes in answer to a SYNC. */
  function SyncParts(tpdos: seq<TpdoSlot>, od: Dict): (parts: seq<Option<TxFrame>>)
    ensures |parts| == |tpdos|
  {
    seq(|tpdos|, i requires 0 <= i < |tpdos| =>
      if OnSync(tpdos[i].transmission) then TpdoFrame(tpdos[i], od) else None)
  }

  lemma {:induction false} SyncFramesPresent(tpdos: seq<TpdoSlot>, od: Dict)
    ensures SyncFrames(tpdos, od) == Present(SyncParts(tpdos, od))
  {
    hide TpdoFrame;
    if tpdos != [] {
      var n := |tpdos| - 1;
      SyncFramesPresent(tpdos[..n], od);
      OnSyncIff(tpdos[n].transmission);
      assert SyncParts(tpdos, od)[..n] == SyncParts(tpdos[..n], od);
    }
  }

  /** SYNC sends the frames of the synchronous slots that yield one, in slot order, and no others. */
  lemma SyncSends(tpdos: seq<TpdoSlot>, od: Dict) returns (places: seq<nat>)
    ensures InOrder(SyncParts(tpdos, od), SyncFrames(tpdos, od), places)
  {
    hide SyncFrames, SyncParts, Present, InOrder;
    SyncFramesPresent(tpdos, od);
    places := PresentInOrder(SyncParts(tpdos, od));
  }

  // --- What is received -----------------------------------------------------

  /** Receive PDO m is the first that listens on this identifier. */
  predicate Listens(rpdos: seq<RpdoSlot>, m: nat, cobId: bv16) {
    m < |rpdos| && rpdos[m].cobId == cobId && forall n :: 0 <= n < m ==> rpdos[n].cobId != cobId
  }

  lemma {:induction false} FirstListens(rpdos: seq<RpdoSlot>, m: nat, cobId: bv16)
    requires Listens(rpdos, m, cobId)
    ensures SlotFor(rpdos, cobId) == Some(rpdos[m])
  {
    if m > 0 {
      assert rpdos[0].cobId != cobId;
      assert forall n :: 0 <= n < m - 1 ==> rpdos[1..][n] == rpdos[n + 1];
      FirstListens(rpdos[1..], m - 1, cobId);
    }
  }

  /** Not NMT, not LSS, not this node's SDO requests. */
  predicate CarriesProcessData(nodeId: byte, cobId: bv16) {
    cobId as int != 0x000 && cobId as int != 0x7E5 && cobId as int != 0x600 + nodeId as int
  }

  lemma DataIdentifier(nodeId: byte, cobId: bv16)
    requires CarriesProcessData(nodeId, cobId)
    ensures cobId != NMT_COMMAND_COB_ID && cobId != LSS_MASTER_COB_ID && cobId != SdoRequestCobId(nodeId)
  {
    RequestNumber(nodeId);
  }

  lemma RequestNumber(nodeId: byte)
    ensures SdoRequestCobId(nodeId) as int == 0x600 + nodeId as int
  {
  }

  /** A configured node that exchanges process data. */
  predicate Exchanges(d: Device) {
    d.Valid() && d.nmt.Operational? && !(d.lss.Some? && d.lss.value.nodeId == 0xFF)
  }

  lemma DataDispatched(d: Device, m: nat, cobId: bv16, data: seq<byte>)
    requires Exchanges(d) && Listens(d.rpdos, m, cobId) && CarriesProcessData(d.nodeId, cobId)
    ensures TotalBits(d.rpdos[m].mapping) <= 8 * |data| ==>
              FrameStep(d, cobId, data) == (d.(od := Unpacked(d.rpdos[m].mapping, d.od, data).od), None)
    ensures TotalBits(d.rpdos[m].mapping) > 8 * |data| ==> FrameStep(d, cobId, data) == (d, None)
  {
    hide Unpacked, SdoRequestCobId, SlotFor, TotalBits;
    FirstListens(d.rpdos, m, cobId);
    DataIdentifier(d.nodeId, cobId);
  }

  /**
    Any frame on an identifier the node listens to: too short a frame changes nothing. Otherwise the
    first n fields are in the dictionary and nothing else has changed, where n stops short only at the
    first entry that cannot be applied.
   */
  lemma ProcessDataApplied(d: Device, m: nat, cobId: bv16, data: seq<byte>) returns (n: nat)
    requires Exchanges(d) && Listens(d.rpdos, m, cobId) && CarriesProcessData(d.nodeId, cobId)
    ensures var (next, tx) := FrameStep(d, cobId, data);
            var mapping := d.rpdos[m].mapping;
            && tx.None? && next == d.(od := next.od) && n <= |mapping|
            && (TotalBits(mapping) > 8 * |data| ==> next.od == d.od)
            && (TotalBits(mapping) <= 8 * |data| ==>
                  && (forall k :: 0 <= k < n ==> Takes(mapping[k], d.od).Ok?)
                  && (n < |mapping| ==> Takes(mapping[n], d.od).Err?)
                  && HoldsFields(mapping, n, d.od, data, next.od))
  {
    hide Unpacked, Takes, HoldsFields, FrameStep, TotalBits;
    DataDispatched(d, m, cobId, data);
    n := 0;
    if TotalBits(d.rpdos[m].mapping) <= 8 * |data| {
      n := UnpackAppliesPrefix(d.rpdos[m].mapping, d.od, data);
    }
  }

  /**
    Process data from one operational node to another: a frame that a transmit PDO yields reaches a
    node whose first receive PDO on that identifier has the same mapping, and writable objects of the
    same types. Every mapped object then has the sender's value, and nothing else has changed.
   */
  lemma ProcessDataArrives(sender: Device, i: nat, receiver: Device, m: nat)
    requires sender.nmt.Operational? && i < |sender.tpdos| && TpdoFrame(sender.tpdos[i], sender.od).Some?
    requires var tx := TpdoFrame(sender.tpdos[i], sender.od).value;
             && Exchanges(receiver) && Listens(receiver.rpdos, m, tx.cobId)
             && CarriesProcessData(receiver.nodeId, tx.cobId)
             && receiver.rpdos[m].mapping == sender.tpdos[i].mapping
    requires Receives(sender.tpdos[i].mapping, sender.od, receiver.od)
    ensures var tx := TpdoFrame(sender.tpdos[i], sender.od).value;
            var (next, answer) := FrameStep(receiver, tx.cobId, tx.data);
            && answer.None? && next == receiver.(od := next.od) && next.od.Keys == receiver.od.Keys
            && var mapping := sender.tpdos[i].mapping;
            forall x :: x in receiver.od ==>
              next.od[x] == if exists k :: 0 <= k < |mapping| && mapping[k].address == x
                            then receiver.od[x].(value := sender.od[x].value) else receiver.od[x]
  {
    var slot := sender.tpdos[i];
    var tx := TpdoFrame(slot, sender.od).value;
    PackedLength(slot.mapping, sender.od);
    PdoCarriesValues(slot.mapping, sender.od, receiver.od);
    DataDispatched(receiver, m, tx.cobId, tx.data);
    hide Unpacked, Packed, FrameStep, TotalBits, Listens, CarriesProcessData, Receives;
  }

  /** While it is not operational a node ignores process data. */
  lemma ProcessDataIgnored(d: Device, cobId: bv16, data: seq<byte>)
    requires d.Valid() && !d.nmt.Operational? && CarriesProcessData(d.nodeId, cobId)
    ensures FrameStep(d, cobId, data) == (d, None)
  {
    hide SdoRequestCobId;
    DataIdentifier(d.nodeId, cobId);
  }
}
