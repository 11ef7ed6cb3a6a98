/**
  A device node (core/src/node.rs): frame dispatch over an object dictionary, an SDO server, an NMT
  state machine, an optional LSS slave and the configured PDOs. `Device` is a node's whole state;
  each method is proved against a function on it.
 */
module Nodes {
  import opened Wrappers
  import opened Bytes
  import opened Datatypes
  import opened ObjectDictionaries
  import opened Nmt
  import opened Pdo
  import opened PdoConfig
  import opened Records
  import opened ErrorField
  import L = Lss
  import S = SdoServers

  const LSS_MASTER_COB_ID: bv16 := 0x7E5
  const LSS_SLAVE_COB_ID: bv16 := 0x7E4
  const EMCY_COB_BASE: bv16 := 0x080

  function SdoRequestCobId(node: byte): bv16 {
    0x600 + (node as bv16)
  }

  function SdoResponseCobId(node: byte): bv16 {
    0x580 + (node as bv16)
  }

  type Payload = d: seq<byte> | |d| <= 8 witness []

  datatype TxFrame = TxFrame(cobId: bv16, data: Payload)

  datatype Device = Device(
    nodeId: byte,
    od: Dict,
    server: S.Server,
    serverNode: byte,
    nmt: NmtState,
    rpdos: seq<RpdoSlot>,
    tpdos: seq<TpdoSlot>,
    lss: Option<L.Slave>,
    guardToggle: bool,
    errors: ErrorState)
  {
    /** The SDO server runs, and listens on the node's own id. */
    predicate Valid() {
      server.Valid() && serverNode == nodeId
    }

    /** LSS is enabled and no node-id has been assigned: only LSS is served. */
    predicate Unconfigured() {
      lss.Some? && lss.value.nodeId == L.UNCONFIGURED_NODE_ID
    }
  }

  // --- Frames ---------------------------------------------------------------

  function Padded(data: Payload): Frame {
    data + Zeroes(8 - |data|)
  }

  function LssFrameStep(d: Device, data: seq<byte>): (Device, Option<TxFrame>) {
    if d.lss.None? || |data| > 8 then (d, None)
    else
      var (slave, resp) := L.SlaveStep(d.lss.value, Padded(data));
      (d.(lss := Some(slave)), if resp.Some? then Some(TxFrame(LSS_SLAVE_COB_ID, resp.value)) else None)
  }

  function NmtFrameStep(d: Device, data: seq<byte>): Device {
    if |data| < 2 then d
    else
      match DecodeCommand(data[0], data[1])
      case None => d
      case Some((command, target)) =>
        if target == BROADCAST || target == d.nodeId then d.(nmt := AppliedTo(d.nmt, command)) else d
  }

  function SdoFrameStep(d: Device, data: seq<byte>): (Device, Option<TxFrame>)
    requires d.Valid()
  {
    if !(d.nmt.PreOperational? || d.nmt.Operational?) || |data| > 8 then (d, None)
    else
      var o := S.ServerStep(d.server, d.od, Padded(data));
      (d.(server := o.server, od := o.od),
       if o.resp.Some? then Some(TxFrame(SdoResponseCobId(d.serverNode), o.resp.value)) else None)
  }

  /** The first receive PDO that listens on this COB-ID. */
  function SlotFor(rpdos: seq<RpdoSlot>, cobId: bv16): Option<RpdoSlot> {
    if rpdos == [] then None
    else if rpdos[0].cobId == cobId then Some(rpdos[0])
    else SlotFor(rpdos[1..], cobId)
  }

  function RpdoFrameStep(d: Device, cobId: bv16, data: seq<byte>): Device {
    if !d.nmt.Operational? then d
    else
      match SlotFor(d.rpdos, cobId)
      case None => d
      case Some(slot) =>
        if |data| < TotalBytes(slot.mapping) then d else d.(od := Unpacked(slot.mapping, d.od, data).od)
  }

  function FrameStep(d: Device, cobId: bv16, data: seq<byte>): (Device, Option<TxFrame>)
    requires d.Valid()
  {
    if cobId == LSS_MASTER_COB_ID then LssFrameStep(d, data)
    else if d.Unconfigured() then (d, None)
    else if cobId == NMT_COMMAND_COB_ID then (NmtFrameStep(d, data), None)
    else if cobId == SdoRequestCobId(d.serverNode) then SdoFrameStep(d, data)
    else (RpdoFrameStep(d, cobId, data), None)
  }

  // --- Node-id, PDOs and errors ---------------------------------------------

  function Renumbered(d: Device, nodeId: byte): Device {
    d.(nodeId := nodeId, server := S.NEW_SERVER, serverNode := nodeId)
  }

  /** Adopt the node-id assigned over LSS, if there is a valid one. */
  function LssAdopted(d: Device): (Device, Option<byte>) {
    if d.lss.None? || !IsNodeId(d.lss.value.pendingNodeId) then (d, None)
    else
      var id := d.lss.value.pendingNodeId;
      (Renumbered(d, id).(lss := Some(L.AdoptPending(d.lss.value))), Some(id))
  }

  function PdosConfigured(d: Device): Device {
    d.(rpdos := ConfiguredRpdos(d.od), tpdos := ConfiguredTpdos(d.od))
  }

  function ErrorsRecorded(d: Device, e: ErrorEvent): Device {
    var errors := ErrorStep(d.errors, e);
    d.(errors := errors, od := Mirrored(d.od, errors.register, errors.history))
  }

  function EmergencyFrame(node: byte, code: bv16, register: byte, info: seq<byte>): TxFrame
    requires |info| == 5
  {
    TxFrame(EMCY_COB_BASE + (node as bv16), Le16(code) + [register] + info)
  }

  /** The frame of one transmit PDO, unless its mapping is empty or cannot be packed. */
  function TpdoFrame(slot: TpdoSlot, od: Dict): Option<TxFrame> {
    if slot.mapping == [] then None
    else
      match Packed(slot.mapping, od)
      case Err(_) => None
      case Ok(bytes) =>
        PackedLength(slot.mapping, od);
        Some(TxFrame(slot.cobId, bytes))
  }

  /** The frames to send on SYNC, from the first n transmit PDOs. */
  function SyncFrames(tpdos: seq<TpdoSlot>, od: Dict): seq<TxFrame> {
    if tpdos == [] then []
    else
      var before, slot := SyncFrames(tpdos[..|tpdos| - 1], od), tpdos[|tpdos| - 1];
      if slot.transmission.IsSynchronous() && TpdoFrame(slot, od).Some?
      then before + [TpdoFrame(slot, od).value] else before
  }

  lemma SyncFramesNext(tpdos: seq<TpdoSlot>, od: Dict, i: nat)
    requires i < |tpdos|
    ensures SyncFrames(tpdos[..i + 1], od) ==
            SyncFrames(tpdos[..i], od) +
            if tpdos[i].transmission.IsSynchronous() && TpdoFrame(tpdos[i], od).Some?
            then [TpdoFrame(tpdos[i], od).value] else []
  {
    assert tpdos[..i + 1][..i] == tpdos[..i];
    hide TpdoFrame;
  }

  // --- The node object ------------------------------------------------------

  class Node {
    var nodeId: byte
    const od: ObjectDictionary
    var sdo: S.SdoServer
    const nmt: NmtStateMachine
    var rpdos: seq<RpdoSlot>
    var tpdos: seq<TpdoSlot>
    var lss: Option<L.LssSlave>
    var guardToggle: bool
    var errorRegister: byte
    const errorHistory: array<bv32>
    var errorCount: nat

    ghost function Parts(): set<object>
      reads this
    {
      {this, od, sdo, nmt, errorHistory} + if lss.Some? then {lss.value} else {}
    }

    ghost predicate Valid()
      reads this, Parts()
    {
      && od.Valid() && sdo.View().Valid() && sdo.node == nodeId
      && |rpdos| <= MAX_PDOS && |tpdos| <= MAX_PDOS
      && errorHistory.Length == MAX_ERROR_HISTORY && errorCount <= MAX_ERROR_HISTORY
    }

    ghost function View(): Device
      requires Valid()
      reads this, Parts()
    {
      Device(nodeId, od.entries, sdo.View(), sdo.node, nmt.state, rpdos, tpdos,
             if lss.Some? then Some(lss.value.View()) else None,
             guardToggle, ErrorState(errorRegister, errorHistory[..errorCount]))
    }

    constructor (nodeId: byte, od: ObjectDictionary)
      requires od.Valid()
      ensures Valid() && fresh(Parts() - {od}) && this.od == od
      ensures View() ==
              Device(nodeId, od.entries, S.NEW_SERVER, nodeId, Initialising, [], [], None, false, ErrorState(0, []))
    {
      this.nodeId, this.od := nodeId, od;
      sdo := new S.SdoServer(nodeId);
      nmt := new NmtStateMachine();
      rpdos, tpdos, lss := [], [], None;
      guardToggle, errorRegister, errorCount := false, 0, 0;
      errorHistory := new bv32[MAX_ERROR_HISTORY];
    }

    method EnableLss(address: L.LssAddress)
      requires Valid()
      modifies this
      ensures Valid() && fresh(Parts() - old(Parts()))
      ensures View() == old(View()).(lss := Some(L.NewSlave(address, nodeId)))
    {
      var slave := new L.LssSlave(address, nodeId);
      lss := Some(slave);
    }

    method EnableLssUnconfigured(address: L.LssAddress)
      requires Valid()
      modifies this
      ensures Valid() && fresh(Parts() - old(Parts()))
      ensures View() == old(View()).(lss := Some(L.NewSlave(address, L.UNCONFIGURED_NODE_ID)))
    {
      var slave := new L.LssSlave(address, L.UNCONFIGURED_NODE_ID);
      lss := Some(slave);
    }

    predicate LssUnconfigured()
      reads this, if lss.Some? then {lss.value} else {}
    {
      lss.Some? && lss.value.nodeId == L.UNCONFIGURED_NODE_ID
    }

    method SetNodeId(nodeId: byte)
      requires Valid()
      modifies this
      ensures Valid() && fresh(Parts() - old(Parts())) && lss == old(lss)
      ensures View() == Renumbered(old(View()), nodeId)
    {
      this.nodeId := nodeId;
      sdo := new S.SdoServer(nodeId);
    }

    method ApplyLssNodeId() returns (adopted: Option<byte>)
      requires Valid()
      modifies this, Parts()
      ensures Valid() && fresh(Parts() - old(Parts()))
      ensures (View(), adopted) == LssAdopted(old(View()))
    {
      if lss.None? || !IsNodeId(lss.value.pendingNodeId) {
        return None;
      }
      adopted := Some(lss.value.pendingNodeId);
      SetNodeId(lss.value.pendingNodeId);
      lss.value.Adopt();
    }

    method Boot() returns (tx: TxFrame)
      requires Valid()
      modifies this, nmt
      ensures Valid() && Parts() == old(Parts())
      ensures View() == old(View()).(nmt := Booted(old(nmt.state)), guardToggle := false)
      ensures tx == TxFrame(HEARTBEAT_COB_BASE + (nodeId as bv16), [0x00])
    {
      nmt.Boot();
      guardToggle := false;
      tx := TxFrame(HEARTBEAT_COB_BASE + (nodeId as bv16), [0x00]);
    }

    method NodeGuardResponse() returns (tx: TxFrame)
      requires Valid()
      modifies this
      ensures Valid() && Parts() == old(Parts())
      ensures View() == old(View()).(guardToggle := !old(guardToggle))
      ensures tx == TxFrame(HEARTBEAT_COB_BASE + (nodeId as bv16), [EncodeNodeGuard(nmt.state, old(guardToggle))])
    {
      tx := TxFrame(HEARTBEAT_COB_BASE + (nodeId as bv16), [EncodeNodeGuard(nmt.state, guardToggle)]);
      guardToggle := !guardToggle;
    }

    // --- PDO configuration ----

    method AddRpdo(cobId: bv16, mapping: Mapping) returns (r: Result<Unit>)
      requires Valid()
      modifies this
      ensures Valid() && Parts() == old(Parts())
      ensures r == if old(|rpdos|) < MAX_PDOS then Ok(Unit) else Err(MappingFull)
      ensures View() == if r.Ok? then old(View()).(rpdos := old(rpdos) + [RpdoSlot(cobId, mapping)]) else old(View())
    {
      if |rpdos| >= MAX_PDOS {
        return Err(MappingFull);
      }
      rpdos := rpdos + [RpdoSlot(cobId, mapping)];
      return Ok(Unit);
    }

    method AddTpdo(cobId: bv16, mapping: Mapping, transmission: TransmissionType) returns (r: Result<Unit>)
      requires Valid()
      modifies this
      ensures Valid() && Parts() == old(Parts())
      ensures r == if old(|tpdos|) < MAX_PDOS then Ok(Unit) else Err(MappingFull)
      ensures View() == if r.Ok? then old(View()).(tpdos := old(tpdos) + [TpdoSlot(cobId, mapping, transmission)])
                        else old(View())
    {
      if |tpdos| >= MAX_PDOS {
        return Err(MappingFull);
      }
      tpdos := tpdos + [TpdoSlot(cobId, mapping, transmission)];
      return Ok(Unit);
    }

    method ConfigurePdosFromOd()
      requires Valid()
      modifies this
      ensures Valid() && Parts() == old(Parts())
      ensures View() == PdosConfigured(old(View()))
    {
      rpdos, tpdos := BuildPdos(od);
    }

    // --- Errors ----

    method RaiseEmergency(code: bv16, bits: byte, info: seq<byte>) returns (tx: TxFrame)
      requires Valid() && |info| == 5
      modifies this, od, errorHistory
      ensures Valid() && Parts() == old(Parts())
      ensures View() == ErrorsRecorded(old(View()), Raise(code, bits))
      ensures tx == EmergencyFrame(nodeId, code, errorRegister, info)
    {
      errorRegister := errorRegister | (bits | GENERIC);
      RecordError(code);
      MirrorErrorObjects();
      tx := EmergencyFrame(nodeId, code, errorRegister, info);
    }

    method ClearErrors() returns (tx: TxFrame)
      requires Valid()
      modifies this, od
      ensures Valid() && Parts() == old(Parts())
      ensures View() == ErrorsRecorded(old(View()), Clear)
      ensures tx == EmergencyFrame(nodeId, 0, 0, [0, 0, 0, 0, 0])
    {
      errorRegister := 0;
      errorCount := 0;
      MirrorErrorObjects();
      tx := EmergencyFrame(nodeId, 0, 0, [0, 0, 0, 0, 0]);
    }

    /** Record a code in front, dropping the oldest when the field is full. */
    method RecordError(code: bv16)
      requires Valid()
      modifies this, errorHistory
      ensures Valid() && Parts() == old(Parts())
      ensures View() ==
              old(View()).(errors := ErrorState(errorRegister, Recorded(old(errorHistory[..errorCount]), code)))
      ensures errorRegister == old(errorRegister)
    {
      if errorCount == MAX_ERROR_HISTORY {
        errorCount := errorCount - 1;
      }
      PushFront(errorHistory, errorCount, CodeWord(code));
      errorCount := errorCount + 1;
      hide CodeWord;
    }

    method MirrorErrorObjects()
      requires Valid()
      modifies od
      ensures Valid() && Parts() == old(Parts())
      ensures View() == old(View()).(od := Mirrored(old(od.entries), errorRegister, errorHistory[..errorCount]))
    {
      ghost var history := errorHistory[..errorCount];
      var _ := od.Set(ERROR_REGISTER, Unsigned8(errorRegister));
      var _ := od.Set(Sub(ERROR_FIELD_INDEX, 0), Unsigned8(errorCount as byte));
      ghost var before := od.entries;
      for i := 0 to errorCount
        invariant od.Valid()
        invariant od.entries == StoreWords(before, ERROR_FIELD_INDEX, history, i)
      {
        var _ := od.Set(Sub(ERROR_FIELD_INDEX, i + 1), Unsigned32(errorHistory[i]));
        hide SetTo, Sub;
      }
      hide SetTo, Sub, StoreWords;
    }

    // --- Process data ----

    method TransmitPdo(slot: TpdoSlot) returns (tx: Option<TxFrame>)
      ensures tx == TpdoFrame(slot, od.entries)
    {
      if slot.mapping == [] {
        return None;
      }
      var buf := new byte[8];
      var len := Pack(slot.mapping, od, buf);
      if len.Err? {
        return None;
      }
      assert buf[..len.value] == Packed(slot.mapping, od.entries).value;
      return Some(TxFrame(slot.cobId, buf[..len.value]));
    }

    /** One transmit PDO on demand. */
    method Tpdo(index: nat) returns (tx: Option<TxFrame>)
      ensures tx == if nmt.state.Operational? && index < |tpdos| then TpdoFrame(tpdos[index], od.entries) else None
    {
      if !nmt.state.Operational? || index >= |tpdos| {
        return None;
      }
      tx := TransmitPdo(tpdos[index]);
    }

    /** The synchronous transmit PDOs, in answer to a SYNC. */
    method SyncTpdos() returns (frames: seq<TxFrame>)
      ensures frames == if nmt.state.Operational? then SyncFrames(tpdos, od.entries) else []
    {
      frames := [];
      if !nmt.state.Operational? {
        return;
      }
      for i := 0 to |tpdos|
        invariant frames == SyncFrames(tpdos[..i], od.entries)
      {
        hide TpdoFrame, SyncFrames;
        SyncFramesNext(tpdos, od.entries, i);
        if tpdos[i].transmission.IsSynchronous() {
          var frame := TransmitPdo(tpdos[i]);
          if frame.Some? {
            frames := frames + [frame.value];
          }
        }
      }
      assert tpdos[..|tpdos|] == tpdos;
    }

    // --- Incoming frames ----

    method OnFrame(cobId: bv16, data: seq<byte>) returns (tx: Option<TxFrame>)
      requires Valid()
      modifies Parts()
      ensures Valid() && Parts() == old(Parts())
      ensures (View(), tx) == FrameStep(old(View()), cobId, data)
    {
      hide LssFrameStep, NmtFrameStep, SdoFrameStep, RpdoFrameStep, SdoRequestCobId;
      if cobId == LSS_MASTER_COB_ID {
        tx := OnLss(data);
      } else if LssUnconfigured() {
        tx := None;
      } else if cobId == NMT_COMMAND_COB_ID {
        OnNmt(data);
        tx := None;
      } else if cobId == SdoRequestCobId(sdo.node) {
        tx := OnSdo(data);
      } else {
        OnRpdo(cobId, data);
        tx := None;
      }
    }

    method OnLss(data: seq<byte>) returns (tx: Option<TxFrame>)
      requires Valid()
      modifies if lss.Some? then {lss.value} else {}
      ensures Valid() && Parts() == old(Parts())
      ensures (View(), tx) == LssFrameStep(old(View()), data)
    {
      hide L.SlaveStep, Padded;
      if lss.None? || |data| > 8 {
        return None;
      }
      var resp := lss.value.Handle(Padded(data));
      return if resp.Some? then Some(TxFrame(LSS_SLAVE_COB_ID, resp.value)) else None;
    }

    method OnNmt(data: seq<byte>)
      requires Valid()
      modifies nmt
      ensures Valid() && Parts() == old(Parts())
      ensures View() == NmtFrameStep(old(View()), data)
    {
      hide DecodeCommand, AppliedTo;
      if |data| < 2 {
        return;
      }
      var decoded := DecodeCommand(data[0], data[1]);
      if decoded.Some? {
        var (command, target) := decoded.value;
        if target == BROADCAST || target == nodeId {
          nmt.Apply(command);
        }
      }
    }

    method OnSdo(data: seq<byte>) returns (tx: Option<TxFrame>)
      requires Valid()
      modifies sdo, od
      ensures Valid() && Parts() == old(Parts())
      ensures (View(), tx) == SdoFrameStep(old(View()), data)
    {
      hide S.ServerStep, Padded, SdoResponseCobId;
      if !(nmt.state.PreOperational? || nmt.state.Operational?) || |data| > 8 {
        return None;
      }
      var resp := sdo.Handle(od, Padded(data));
      return if resp.Some? then Some(TxFrame(SdoResponseCobId(sdo.node), resp.value)) else None;
    }

    method OnRpdo(cobId: bv16, data: seq<byte>)
      requires Valid()
      modifies od
      ensures Valid() && Parts() == old(Parts())
      ensures View() == RpdoFrameStep(old(View()), cobId, data)
    {
      if !nmt.state.Operational? {
        return;
      }
      var i := 0;
      while i < |rpdos| && rpdos[i].cobId != cobId
        invariant i <= |rpdos| && SlotFor(rpdos, cobId) == SlotFor(rpdos[i..], cobId)
      {
        i := i + 1;
      }
      if i < |rpdos| {
        var _ := Unpack(rpdos[i].mapping, od, data);
      }
      hide TotalBytes;
    }
  }
}
