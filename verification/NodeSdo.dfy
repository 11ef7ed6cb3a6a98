/**
  An SDO client and a node on one bus (core/src/node.rs, core/src/sdo/client.rs): whole transactions
  through the node's frame dispatch, with other traffic in between.
 */
module NodeSdo {
  import opened Wrappers
  import opened Bytes
  import opened Datatypes
  import opened ObjectDictionaries
  import opened Nmt
  import opened Pdo
  import opened PdoConfig
  import opened Nodes
  import opened NodeGating
  import opened SdoCodec
  import opened SdoTransactions
  import L = Lss
  import S = SdoServers
  import C = SdoClients
  import T = PdoTransport
  import R = SdoRoundTrip

  /** A frame on the bus that is not part of the transaction. */
  datatype Other = Other(cobId: bv16, data: seq<byte>)

  /** An NMT command that does not concern this node. */
  predicate ForAnother(nodeId: byte, data: seq<byte>) {
    |data| >= 2 && DecodeCommand(data[0], data[1]).Some? ==> data[1] != BROADCAST && data[1] != nodeId
  }

  predicate Unmapped(rpdos: seq<RpdoSlot>, cobId: bv16, addr: Address) {
    SlotFor(rpdos, cobId).Some? ==>
      var mapping := SlotFor(rpdos, cobId).value.mapping;
      !T.Mapped(mapping, |mapping|, addr)
  }

  /**
    Traffic that may come between: LSS, NMT commands for other nodes, process data that is not
    mapped to the object, frames of other nodes.
   */
  predicate Harmless(nodeId: byte, rpdos: seq<RpdoSlot>, addr: Address, f: Other) {
    && f.cobId != SdoRequestCobId(nodeId)
    && (f.cobId == NMT_COMMAND_COB_ID ==> ForAnother(nodeId, f.data))
    && Unmapped(rpdos, f.cobId, addr)
  }

  /** A configured node that serves SDO. */
  predicate Serves(d: Device) {
    d.Valid() && MayServe(d) && IsNodeId(d.nodeId)
  }

  /** The same node as far as SDO is concerned. */
  predicate SameService(d: Device, next: Device) {
    && Serves(next) && next.nodeId == d.nodeId && next.rpdos == d.rpdos && next.server == d.server
  }

  lemma PdoKeepsUnmapped(d: Device, cobId: bv16, data: seq<byte>, addr: Address)
    requires d.Valid() && addr in d.od && Unmapped(d.rpdos, cobId, addr)
    ensures var next := RpdoFrameStep(d, cobId, data);
            && next == d.(od := next.od) && addr in next.od && next.od[addr] == d.od[addr]
  {
    hide Unpacked, T.Takes;
    if d.nmt.Operational? && SlotFor(d.rpdos, cobId).Some? {
      var mapping := SlotFor(d.rpdos, cobId).value.mapping;
      if TotalBytes(mapping) <= |data| {
        var n := T.UnpackAppliesPrefix(mapping, d.od, data);
        UnmappedBefore(mapping, n, addr);
      }
    }
  }

  lemma UnmappedBefore(mapping: Mapping, n: nat, addr: Address)
    requires n <= |mapping| && !T.Mapped(mapping, |mapping|, addr)
    ensures !T.Mapped(mapping, n, addr)
  {
  }

  lemma RequestCobIdIsOwn(nodeId: byte)
    requires IsNodeId(nodeId)
    ensures SdoRequestCobId(nodeId) != LSS_MASTER_COB_ID && SdoRequestCobId(nodeId) != NMT_COMMAND_COB_ID
  {
  }

  lemma OtherKeepsObject(d: Device, f: Other, addr: Address)
    requires Serves(d) && addr in d.od && Harmless(d.nodeId, d.rpdos, addr, f)
    ensures var next := FrameStep(d, f.cobId, f.data).0;
            addr in next.od && next.od[addr] == d.od[addr]
  {
    hide SdoRequestCobId, L.SlaveStep, Padded, Unmapped, RpdoFrameStep;
    if f.cobId != LSS_MASTER_COB_ID && f.cobId != NMT_COMMAND_COB_ID {
      PdoKeepsUnmapped(d, f.cobId, f.data, addr);
    }
  }

  lemma OtherKeepsService(d: Device, f: Other)
    requires Serves(d)
    requires f.cobId != SdoRequestCobId(d.nodeId) && (f.cobId == NMT_COMMAND_COB_ID ==> ForAnother(d.nodeId, f.data))
    ensures SameService(d, FrameStep(d, f.cobId, f.data).0)
  {
    FrameGated(d, f.cobId, f.data);
    hide SdoRequestCobId, L.SlaveStep, Padded, SlotFor, Unpacked, TotalBytes, Preserves, IsNodeId;
  }

  /** A request reaches the SDO server and its response comes back under the node's id. */
  lemma RequestServed(d: Device, request: Frame)
    requires Serves(d)
    ensures var (next, tx) := FrameStep(d, SdoRequestCobId(d.nodeId), request);
            var o := S.ServerStep(d.server, d.od, request);
            && next == d.(server := o.server, od := o.od)
            && tx == if o.resp.Some? then Some(TxFrame(SdoResponseCobId(d.nodeId), o.resp.value)) else None
  {
    hide SdoRequestCobId, SdoResponseCobId, S.ServerStep, LssFrameStep, NmtFrameStep, RpdoFrameStep, IsNodeId;
    RequestCobIdIsOwn(d.nodeId);
    assert Padded(request) == request;
  }

  // --- The bus --------------------------------------------------------------

  datatype Bus = Bus(client: C.State, node: Device, request: Option<Frame>, event: Option<C.Event>) {
    predicate Valid() {
      client.Valid() && node.Valid()
    }
  }

  function Heard(d: Device, f: Other): (next: Device)
    requires d.Valid()
    ensures next.Valid()
  {
    FrameGated(d, f.cobId, f.data);
    FrameStep(d, f.cobId, f.data).0
  }

  function HeardAll(d: Device, fs: seq<Other>): (next: Device)
    requires d.Valid()
    ensures next.Valid()
  {
    if fs == [] then d else Heard(HeardAll(d, fs[..|fs| - 1]), fs[|fs| - 1])
  }

  /** The client's request goes to the node, and the node's answer, if it is one, to the client. */
  function Exchange(b: Bus): (next: Bus)
    requires b.Valid()
    ensures next.Valid()
  {
    if b.request.None? then b
    else
      FrameGated(b.node, SdoRequestCobId(b.node.nodeId), b.request.value);
      var (node, tx) := FrameStep(b.node, SdoRequestCobId(b.node.nodeId), b.request.value);
      if tx.None? || |tx.value.data| != 8 then b.(node := node, request := None)
      else
        var turn := C.ClientStep(b.client, tx.value.data);
        Bus(turn.state, node, if turn.event.Send? then Some(turn.event.frame) else None, Some(turn.event))
  }

  /** Each round is some other traffic and then an exchange. */
  function Run(b: Bus, rounds: seq<seq<Other>>): (end: Bus)
    requires b.Valid()
    ensures end.Valid()
  {
    if rounds == [] then b
    else
      var before := Run(b, rounds[..|rounds| - 1]);
      Exchange(before.(node := HeardAll(before.node, rounds[|rounds| - 1])))
  }

  ghost predicate AllHarmless(nodeId: byte, rpdos: seq<RpdoSlot>, addr: Address, fs: seq<Other>) {
    forall i :: 0 <= i < |fs| ==> Harmless(nodeId, rpdos, addr, fs[i])
  }

  ghost predicate RoundsHarmless(nodeId: byte, rpdos: seq<RpdoSlot>, addr: Address, rounds: seq<seq<Other>>) {
    forall i :: 0 <= i < |rounds| ==> AllHarmless(nodeId, rpdos, addr, rounds[i])
  }

  lemma {:induction false} HeardKeepsService(d: Device, fs: seq<Other>, addr: Address)
    requires Serves(d) && AllHarmless(d.nodeId, d.rpdos, addr, fs)
    ensures SameService(d, HeardAll(d, fs))
  {
    if fs != [] {
      var n := |fs| - 1;
      HeardKeepsService(d, fs[..n], addr);
      assert Harmless(d.nodeId, d.rpdos, addr, fs[n]);
      OtherKeepsService(HeardAll(d, fs[..n]), fs[n]);
      hide FrameStep, SdoRequestCobId, ForAnother;
    }
  }

  lemma {:induction false} HeardKeepsObject(d: Device, fs: seq<Other>, addr: Address)
    requires Serves(d) && addr in d.od && AllHarmless(d.nodeId, d.rpdos, addr, fs)
    ensures addr in HeardAll(d, fs).od && HeardAll(d, fs).od[addr] == d.od[addr]
  {
    if fs != [] {
      var n := |fs| - 1;
      HeardKeepsObject(d, fs[..n], addr);
      HeardKeepsService(d, fs[..n], addr);
      assert Harmless(d.nodeId, d.rpdos, addr, fs[n]);
      OtherKeepsObject(HeardAll(d, fs[..n]), fs[n], addr);
      hide FrameStep, Harmless, Serves;
    }
  }

  // --- A transaction through the node ---------------------------------------

  /** The client awaits reply k and the node's server is ready for request k. */
  ghost predicate Waiting(t: Transaction, k: nat, b: Bus) {
    && k < t.Exchanges()
    && b.client == t.ClientAt(k) && b.request == Some(t.Request(k))
    && Serves(b.node)
    && ServerAt(t, b.node.od, k, b.node.server, b.node.od) && Serving(t, k, b.node.server)
  }

  ghost predicate Completed(t: Transaction, b: Bus) {
    && b.event == Some(C.Complete(t.Result())) && b.request.None? && b.client.Idle?
    && Serves(b.node)
    && t.addr in b.node.od && b.node.od[t.addr].value == t.value
  }

  /** What the run so far has done to the node: one object apart, nothing that no frame was mapped to. */
  ghost predicate Kept(d: Device, now: Device, addr: Address, rounds: seq<seq<Other>>) {
    && now.nodeId == d.nodeId && now.rpdos == d.rpdos
    && forall x :: x in d.od && x != addr && RoundsHarmless(d.nodeId, d.rpdos, x, rounds) ==>
         x in now.od && now.od[x] == d.od[x]
  }

  lemma StillWaiting(t: Transaction, k: nat, b: Bus, fs: seq<Other>)
    requires b.Valid() && Waiting(t, k, b) && AllHarmless(b.node.nodeId, b.node.rpdos, t.addr, fs)
    ensures Waiting(t, k, b.(node := HeardAll(b.node, fs)))
  {
    HeardKeepsService(b.node, fs, t.addr);
    HeardKeepsObject(b.node, fs, t.addr);
    hide Transaction.Request, Transaction.ClientAt, Transaction.TransferAt, HeardAll, Harmless, Serves;
  }

  lemma RequestAnswered(t: Transaction, k: nat, b: Bus)
    requires b.Valid() && Waiting(t, k, b)
    ensures var next := Exchange(b);
            var o := S.ServerStep(b.node.server, b.node.od, t.Request(k));
            && next.node == b.node.(server := o.server, od := o.od)
            && (if k + 1 < t.Exchanges() then Waiting(t, k + 1, next) else Completed(t, next))
            && o.od == t.DictAt(b.node.od, k + 1)
  {
    hide S.ServerStep, C.ClientStep, FrameStep, Transaction.Request, Transaction.Reply, Transaction.ClientAt, Serving,
      SdoRequestCobId, SdoResponseCobId, Transaction.TransferAt;
    RequestServed(b.node, t.Request(k));
    ServerAdvances(t, b.node.od, k, b.node.server, b.node.od);
    ClientAdvances(t, k);
  }

  lemma RoundKeepsObject(t: Transaction, k: nat, b: Bus, fs: seq<Other>, x: Address)
    requires b.Valid() && Waiting(t, k, b) && AllHarmless(b.node.nodeId, b.node.rpdos, t.addr, fs)
    requires x in b.node.od && x != t.addr && AllHarmless(b.node.nodeId, b.node.rpdos, x, fs)
    ensures var next := Exchange(b.(node := HeardAll(b.node, fs)));
            x in next.node.od && next.node.od[x] == b.node.od[x]
  {
    hide Exchange, Waiting, HeardAll, Transaction.Exchanges;
    StillWaiting(t, k, b, fs);
    assert Serves(b.node) by { WaitingServes(t, k, b); }
    HeardKeepsObject(b.node, fs, x);
    RequestAnswered(t, k, b.(node := HeardAll(b.node, fs)));
    assert t.addr in HeardAll(b.node, fs).od by { WaitingServes(t, k, b.(node := HeardAll(b.node, fs))); }
  }

  lemma WaitingServes(t: Transaction, k: nat, b: Bus)
    requires b.Valid() && Waiting(t, k, b)
    ensures k < t.Exchanges() && Serves(b.node) && t.addr in b.node.od
  {
    hide Serves, MayServe;
  }

  lemma RoundDone(t: Transaction, k: nat, b: Bus, fs: seq<Other>)
    requires b.Valid() && Waiting(t, k, b) && AllHarmless(b.node.nodeId, b.node.rpdos, t.addr, fs)
    ensures var next := Exchange(b.(node := HeardAll(b.node, fs)));
            && next.node.nodeId == b.node.nodeId && next.node.rpdos == b.node.rpdos
            && if k + 1 < t.Exchanges() then Waiting(t, k + 1, next) else Completed(t, next)
  {
    hide Exchange, Waiting, HeardAll, Completed, Transaction.Exchanges;
    StillWaiting(t, k, b, fs);
    WaitingServes(t, k, b);
    HeardKeepsService(b.node, fs, t.addr);
    RequestAnswered(t, k, b.(node := HeardAll(b.node, fs)));
  }

  lemma {:induction false} RunWaits(t: Transaction, b: Bus, rounds: seq<seq<Other>>)
    requires b.Valid() && Waiting(t, 0, b) && |rounds| <= t.Exchanges()
    requires RoundsHarmless(b.node.nodeId, b.node.rpdos, t.addr, rounds)
    ensures var end := Run(b, rounds);
            && Kept(b.node, end.node, t.addr, rounds)
            && if |rounds| < t.Exchanges() then Waiting(t, |rounds|, end) else Completed(t, end)
  {
    hide Exchange, Waiting, HeardAll, Completed, AllHarmless, Transaction.Exchanges;
    WaitingServes(t, 0, b);
    if rounds != [] {
      var n := |rounds| - 1;
      RunWaits(t, b, rounds[..n]);
      var before := Run(b, rounds[..n]);
      assert AllHarmless(b.node.nodeId, b.node.rpdos, t.addr, rounds[n]);
      RoundDone(t, n, before, rounds[n]);
      forall x | x in b.node.od && x != t.addr && RoundsHarmless(b.node.nodeId, b.node.rpdos, x, rounds)
        ensures x in Run(b, rounds).node.od && Run(b, rounds).node.od[x] == b.node.od[x]
      {
        assert RoundsHarmless(b.node.nodeId, b.node.rpdos, x, rounds[..n]);
        assert AllHarmless(b.node.nodeId, b.node.rpdos, x, rounds[n]);
        RoundKeepsObject(t, n, before, rounds[n], x);
      }
    }
  }

  function Writing(d: Device, addr: Address, v: Value): Bus {
    Bus(C.WriteState(v), d, Some(C.WriteRequest(addr, v)), None)
  }

  function Reading(d: Device, addr: Address, dataType: DataType): Bus {
    Bus(C.UploadInit(dataType), d, Some(EncodeUploadRequest(addr)), None)
  }

  function Started(t: Transaction, d: Device): Bus {
    if t.write then Writing(d, t.addr, t.value) else Reading(d, t.addr, t.value.Type())
  }

  lemma StartedWaits(t: Transaction, d: Device)
    requires Serves(d) && t.Allowed(d.od)
    ensures Waiting(t, 0, Started(t, d))
  {
    hide C.WriteRequest, C.WriteState, EncodeUploadRequest, IsNodeId;
  }

  /** A transaction with a serving node, whatever harmless traffic comes between its exchanges. */
  lemma NodeTransactionCompletes(t: Transaction, d: Device, rounds: seq<seq<Other>>)
    requires Serves(d) && t.Allowed(d.od) && |rounds| == R.ExchangesFor(t.value.Size())
    requires RoundsHarmless(d.nodeId, d.rpdos, t.addr, rounds)
    ensures var end := Run(Started(t, d), rounds);
            Completed(t, end) && Kept(d, end.node, t.addr, rounds)
  {
    t.value.EncodedLength();
    assert |rounds| == t.Exchanges();
    StartedWaits(t, d);
    hide Waiting, Completed, Kept, Run, Started, RoundsHarmless, Transaction.Exchanges, Serves;
    assert Started(t, d).node == d && Started(t, d).Valid() by { StartedNode(t, d); }
    RunWaits(t, Started(t, d), rounds);
  }

  lemma StartedNode(t: Transaction, d: Device)
    requires Serves(d)
    ensures Started(t, d).node == d && Started(t, d).Valid()
  {
    hide C.WriteRequest, EncodeUploadRequest;
  }

  lemma {:induction false} HeardPreserves(d: Device, fs: seq<Other>)
    requires d.Valid()
    ensures Preserves(d.od, HeardAll(d, fs).od)
  {
    hide FrameStep, Preserves;
    if fs == [] {
      PreservesSelf(d.od);
    } else {
      var before := HeardAll(d, fs[..|fs| - 1]);
      HeardPreserves(d, fs[..|fs| - 1]);
      FrameGated(before, fs[|fs| - 1].cobId, fs[|fs| - 1].data);
      PreservesTransitive(d.od, before.od, HeardAll(d, fs).od);
    }
  }

  lemma PreservesSelf(od: Dict)
    ensures Preserves(od, od)
  {
  }

  lemma ExchangePreserves(b: Bus)
    requires b.Valid()
    ensures Preserves(b.node.od, Exchange(b).node.od)
  {
    hide FrameStep, Preserves, C.ClientStep, SdoRequestCobId;
    PreservesSelf(b.node.od);
    if b.request.Some? {
      FrameGated(b.node, SdoRequestCobId(b.node.nodeId), b.request.value);
    }
  }

  lemma {:induction false} RunPreservesObjects(b: Bus, rounds: seq<seq<Other>>)
    requires b.Valid()
    ensures Preserves(b.node.od, Run(b, rounds).node.od)
  {
    hide Exchange, Preserves, HeardAll;
    if rounds == [] {
      PreservesSelf(b.node.od);
    } else {
      var before := Run(b, rounds[..|rounds| - 1]);
      var heard := before.(node := HeardAll(before.node, rounds[|rounds| - 1]));
      RunPreservesObjects(b, rounds[..|rounds| - 1]);
      HeardPreserves(before.node, rounds[|rounds| - 1]);
      ExchangePreserves(heard);
      PreservesTransitive(b.node.od, before.node.od, heard.node.od);
      PreservesTransitive(b.node.od, heard.node.od, Exchange(heard).node.od);
    }
  }

  /** The traffic before, between and after two transactions. */
  datatype Traffic = Traffic(during: seq<seq<Other>>, between: seq<Other>, after: seq<seq<Other>>)

  ghost predicate TrafficHarmless(nodeId: byte, rpdos: seq<RpdoSlot>, x: Address, traffic: Traffic) {
    && RoundsHarmless(nodeId, rpdos, x, traffic.during)
    && AllHarmless(nodeId, rpdos, x, traffic.between)
    && RoundsHarmless(nodeId, rpdos, x, traffic.after)
  }

  /** The node after a write and what came after it: ready for a read of the written value. */
  lemma WriteThenOthers(d: Device, addr: Address, v: Value, during: seq<seq<Other>>, between: seq<Other>)
    requires Serves(d) && addr in d.od && d.od[addr].access.Rw? && d.od[addr].value.Type() == v.Type()
    requires |during| == R.ExchangesFor(v.Size())
    requires RoundsHarmless(d.nodeId, d.rpdos, addr, during) && AllHarmless(d.nodeId, d.rpdos, addr, between)
    ensures Writing(d, addr, v).Valid()
    ensures var written := Run(Writing(d, addr, v), during);
            var node := HeardAll(written.node, between);
            && written.event == Some(C.Complete(None)) && Kept(d, written.node, addr, during)
            && SameService(written.node, node) && Serves(written.node)
            && addr in node.od && node.od[addr] == d.od[addr].(value := v)
  {
    hide Run, Serves, RoundsHarmless, AllHarmless, R.ExchangesFor, HeardAll, Exchange, C.WriteState, C.WriteRequest;
    var t := Transaction(true, addr, v);
    NodeTransactionCompletes(t, d, during);
    StartedNode(t, d);
    var written := Run(Writing(d, addr, v), during);
    RunPreservesObjects(Writing(d, addr, v), during);
    HeardKeepsService(written.node, between, addr);
    HeardKeepsObject(written.node, between, addr);
  }

  /**
    A write and then a read through a serving node, with LSS, process data and NMT commands for
    other nodes in between: both complete in their number of exchanges, and the read returns the
    value written.
   */
  lemma NodeRoundTrip(d: Device, addr: Address, v: Value, traffic: Traffic)
    requires Serves(d) && addr in d.od && d.od[addr].access.Rw? && d.od[addr].value.Type() == v.Type()
    requires |traffic.during| == |traffic.after| == R.ExchangesFor(v.Size())
    requires TrafficHarmless(d.nodeId, d.rpdos, addr, traffic)
    ensures Writing(d, addr, v).Valid()
    ensures var written := Run(Writing(d, addr, v), traffic.during);
            var node := HeardAll(written.node, traffic.between);
            var read := Run(Reading(node, addr, v.Type()), traffic.after);
            && written.event == Some(C.Complete(None)) && read.event == Some(C.Complete(Some(v)))
            && addr in read.node.od && read.node.od[addr] == d.od[addr].(value := v)
  {
    hide Run, Serves, RoundsHarmless, AllHarmless, R.ExchangesFor, HeardAll, C.WriteState, C.WriteRequest;
    WriteThenOthers(d, addr, v, traffic.during, traffic.between);
    var node := HeardAll(Run(Writing(d, addr, v), traffic.during).node, traffic.between);
    var t := Transaction(false, addr, v);
    NodeTransactionCompletes(t, node, traffic.after);
    RunPreservesObjects(Reading(node, addr, v.Type()), traffic.after);
  }

  /** Such a round trip changes no object but the one written and those process data is mapped to. */
  lemma NodeRoundTripLeavesOthers(d: Device, addr: Address, v: Value, traffic: Traffic, x: Address)
    requires Serves(d) && addr in d.od && d.od[addr].access.Rw? && d.od[addr].value.Type() == v.Type()
    requires |traffic.during| == |traffic.after| == R.ExchangesFor(v.Size())
    requires TrafficHarmless(d.nodeId, d.rpdos, addr, traffic)
    requires x in d.od && x != addr && TrafficHarmless(d.nodeId, d.rpdos, x, traffic)
    ensures Writing(d, addr, v).Valid()
    ensures var written := Run(Writing(d, addr, v), traffic.during);
            var node := HeardAll(written.node, traffic.between);
            var read := Run(Reading(node, addr, v.Type()), traffic.after);
            x in read.node.od && read.node.od[x] == d.od[x]
  {
    hide Run, Serves, RoundsHarmless, AllHarmless, R.ExchangesFor, HeardAll, C.WriteState, C.WriteRequest;
    WriteThenOthers(d, addr, v, traffic.during, traffic.between);
    var written := Run(Writing(d, addr, v), traffic.during).node;
    HeardKeepsObject(written, traffic.between, x);
    NodeTransactionCompletes(Transaction(false, addr, v), HeardAll(written, traffic.between), traffic.after);
  }

  // --- One write ------------------------------------------------------------

  /** The node after a client has written one value. */
  function AfterWrite(d: Device, addr: Address, v: Value, rounds: seq<seq<Other>>): (next: Device)
    requires d.Valid()
    ensures next.Valid()
  {
    Run(Writing(d, addr, v), rounds).node
  }

  /** A write stores its value and changes nothing that no process data is mapped to. */
  lemma WriteStores(d: Device, addr: Address, v: Value, rounds: seq<seq<Other>>)
    requires Serves(d) && addr in d.od && d.od[addr].access.IsWritable() && d.od[addr].value.Type() == v.Type()
    requires |rounds| == R.ExchangesFor(v.Size()) && RoundsHarmless(d.nodeId, d.rpdos, addr, rounds)
    ensures var next := AfterWrite(d, addr, v, rounds);
            && Serves(next) && Preserves(d.od, next.od) && Kept(d, next, addr, rounds)
            && addr in next.od && next.od[addr] == d.od[addr].(value := v)
  {
    hide Run, Serves, R.ExchangesFor, C.WriteState, C.WriteRequest, RoundsHarmless;
    NodeTransactionCompletes(Transaction(true, addr, v), d, rounds);
    StartedNode(Transaction(true, addr, v), d);
    RunPreservesObjects(Writing(d, addr, v), rounds);
  }

  function Quiet(n: nat): seq<seq<Other>> {
    seq(n, _ => [])
  }

  lemma QuietIsHarmless(nodeId: byte, rpdos: seq<RpdoSlot>, x: Address, n: nat)
    ensures RoundsHarmless(nodeId, rpdos, x, Quiet(n))
  {
  }

  /** Over a quiet bus a write stores the value and does nothing else to the dictionary. */
  lemma QuietWriteStores(d: Device, addr: Address, v: Value)
    requires Serves(d) && addr in d.od && d.od[addr].access.IsWritable() && d.od[addr].value.Type() == v.Type()
    ensures var next := AfterWrite(d, addr, v, Quiet(R.ExchangesFor(v.Size())));
            next.od == Stored(d.od, addr, v) && Serves(next) && next.nodeId == d.nodeId && next.rpdos == d.rpdos
  {
    hide AfterWrite, MayServe, R.ExchangesFor, RoundsHarmless;
    var rounds := Quiet(R.ExchangesFor(v.Size()));
    QuietIsHarmless(d.nodeId, d.rpdos, addr, |rounds|);
    WriteStores(d, addr, v, rounds);
    var next := AfterWrite(d, addr, v, rounds);
    forall x | x in d.od ensures next.od[x] == Stored(d.od, addr, v)[x] {
      QuietIsHarmless(d.nodeId, d.rpdos, x, |rounds|);
    }
  }
}
