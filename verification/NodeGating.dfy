/**
  What a node lets through (core/src/node.rs): over every run, its NMT and LSS states decide which
  frames may reach the dictionary and where replies go.
 */
module NodeGating {
  import opened Wrappers
  import opened Bytes
  import opened ObjectDictionaries
  import opened Nmt
  import opened Pdo
  import opened PdoConfig
  import opened Nodes
  import L = Lss
  import S = SdoServers
  import R = SdoServerRuns
  import T = PdoTransport

  datatype Event =
    | Receive(cobId: bv16, data: seq<byte>)
    | BootUp
    | AdoptLssNodeId
    | ConfigurePdos

  function Handled(d: Device, e: Event): (Device, Option<TxFrame>)
    requires d.Valid()
  {
    match e
    case Receive(cobId, data) => FrameStep(d, cobId, data)
    case BootUp => (d.(nmt := Booted(d.nmt), guardToggle := false), None)
    case AdoptLssNodeId => (LssAdopted(d).0, None)
    case ConfigurePdos => (PdosConfigured(d), None)
  }

  /** Serving on a configured node that is at least pre-operational. */
  predicate MayServe(d: Device) {
    !d.Unconfigured() && (d.nmt.PreOperational? || d.nmt.Operational?)
  }

  /** What a frame may do to a node and where its reply may go. */
  ghost predicate Gated(d: Device, cobId: bv16, next: Device, tx: Option<TxFrame>) {
    && next.Valid() && next.nodeId == d.nodeId
    && Preserves(d.od, next.od)
    && (tx.Some? ==> tx.value.cobId == LSS_SLAVE_COB_ID || tx.value.cobId == SdoResponseCobId(d.nodeId))
    && (!MayServe(d) ==> next.od == d.od && (tx.Some? ==> tx.value.cobId == LSS_SLAVE_COB_ID))
    && (next.od != d.od ==>
          || cobId == SdoRequestCobId(d.nodeId)
          || (d.nmt.Operational? && SlotFor(d.rpdos, cobId).Some?))
    && (next.Unconfigured() <==> d.Unconfigured())
    && (d.Unconfigured() || d.nmt.Initialising? ==> next.nmt == d.nmt)
  }

  lemma LssFrameGated(d: Device, data: seq<byte>)
    requires d.Valid()
    ensures var (next, tx) := LssFrameStep(d, data); Gated(d, LSS_MASTER_COB_ID, next, tx)
  {
    if d.lss.Some? && |data| <= 8 {
      SlaveKeepsNodeId(d.lss.value, Padded(data));
    }
    hide L.SlaveStep, SdoResponseCobId, SdoRequestCobId, Padded;
  }

  lemma SlaveKeepsNodeId(s: L.Slave, req: Frame)
    ensures L.SlaveStep(s, req).0.nodeId == s.nodeId
  {
    hide L.FrameU32, L.U32At, L.CommandFrame, L.CommandFrame1;
  }

  lemma SdoFrameGated(d: Device, data: seq<byte>)
    requires d.Valid() && !d.Unconfigured()
    ensures var (next, tx) := SdoFrameStep(d, data); Gated(d, SdoRequestCobId(d.serverNode), next, tx)
  {
    if (d.nmt.PreOperational? || d.nmt.Operational?) && |data| <= 8 {
      R.StepSafe(d.server, d.od, Padded(data));
    }
    hide S.ServerStep, SdoResponseCobId, SdoRequestCobId, Padded;
  }

  lemma RpdoFrameGated(d: Device, cobId: bv16, data: seq<byte>)
    requires d.Valid() && !d.Unconfigured()
    ensures Gated(d, cobId, RpdoFrameStep(d, cobId, data), None)
  {
    if d.nmt.Operational? && SlotFor(d.rpdos, cobId).Some? {
      var mapping := SlotFor(d.rpdos, cobId).value.mapping;
      if TotalBytes(mapping) <= |data| {
        var _ := T.UnpackAppliesPrefix(mapping, d.od, data);
      }
    }
    hide SdoResponseCobId, SdoRequestCobId, SlotFor, Unpacked, T.HoldsFields, T.Takes;
  }

  /** Every frame, in every state of the node. */
  lemma FrameGated(d: Device, cobId: bv16, data: seq<byte>)
    requires d.Valid()
    ensures var (next, tx) := FrameStep(d, cobId, data); Gated(d, cobId, next, tx)
  {
    hide LssFrameStep, SdoFrameStep, RpdoFrameStep, SdoRequestCobId, SdoResponseCobId, DecodeCommand;
    if cobId == LSS_MASTER_COB_ID {
      LssFrameGated(d, data);
    } else if d.Unconfigured() || cobId == NMT_COMMAND_COB_ID {
    } else if cobId == SdoRequestCobId(d.serverNode) {
      SdoFrameGated(d, data);
    } else {
      RpdoFrameGated(d, cobId, data);
    }
  }

  function Run(d: Device, events: seq<Event>): Device
    requires d.Valid()
    ensures Run(d, events).Valid()
  {
    if events == [] then d
    else
      var before, e := Run(d, events[..|events| - 1]), events[|events| - 1];
      if e.Receive? then FrameGated(before, e.cobId, e.data); Handled(before, e).0
      else Handled(before, e).0
  }

  /** Over any run the dictionary keeps its objects, their types, rights and read-only values. */
  lemma {:induction false} RunPreserves(d: Device, events: seq<Event>)
    requires d.Valid()
    ensures Preserves(d.od, Run(d, events).od)
  {
    if events != [] {
      var before, e := Run(d, events[..|events| - 1]), events[|events| - 1];
      RunPreserves(d, events[..|events| - 1]);
      if e.Receive? {
        FrameGated(before, e.cobId, e.data);
        PreservesTransitive(d.od, before.od, Run(d, events).od);
      }
      hide FrameStep, Preserves, ConfiguredRpdos, ConfiguredTpdos;
    }
  }

  /**
    At every point of every run: a node that may not serve neither changes its dictionary nor replies
    outside LSS; otherwise only SDO requests and, when operational, configured PDOs reach the
    dictionary, and replies carry the node's current id.
   */
  lemma RunGated(d: Device, events: seq<Event>, cobId: bv16, data: seq<byte>)
    requires d.Valid()
    ensures var now := Run(d, events);
            var (next, tx) := FrameStep(now, cobId, data);
            Gated(now, cobId, next, tx) && Preserves(d.od, next.od)
  {
    var now := Run(d, events);
    RunPreserves(d, events);
    FrameGated(now, cobId, data);
    PreservesTransitive(d.od, now.od, FrameStep(now, cobId, data).0.od);
    hide FrameStep, Preserves, Run;
  }

  predicate OnlyFrames(events: seq<Event>) {
    forall i :: 0 <= i < |events| ==> events[i].Receive?
  }

  /** Frames alone never wake a node that is unconfigured or still initialising. */
  lemma {:induction false} FramesDoNotWake(d: Device, events: seq<Event>)
    requires d.Valid() && OnlyFrames(events) && (d.Unconfigured() || d.nmt.Initialising?)
    ensures var now := Run(d, events);
            now.od == d.od && now.nmt == d.nmt && now.nodeId == d.nodeId && (now.Unconfigured() <==> d.Unconfigured())
  {
    if events != [] {
      var before, e := Run(d, events[..|events| - 1]), events[|events| - 1];
      FramesDoNotWake(d, events[..|events| - 1]);
      FrameGated(before, e.cobId, e.data);
      hide FrameStep, Preserves;
    }
  }

  /**
    Adopting over LSS succeeds exactly when a device id from 1 to 127 is pending. The node is then
    configured, answers SDO on 0x580 plus that id, and its dictionary is untouched; otherwise
    nothing at all changes.
   */
  lemma AdoptionConfigures(d: Device)
    requires d.Valid()
    ensures var (next, id) := LssAdopted(d);
            && (id.Some? <==> d.lss.Some? && IsNodeId(d.lss.value.pendingNodeId))
            && (id.None? ==> next == d)
            && (id.Some? ==>
                  && next.Valid() && next.nodeId == id.value == d.lss.value.pendingNodeId && !next.Unconfigured()
                  && next.od == d.od && next.nmt == d.nmt
                  && forall data :: SdoFrameStep(next, data).1.Some? ==>
                       SdoFrameStep(next, data).1.value.cobId == SdoResponseCobId(id.value))
  {
    if d.lss.Some? && IsNodeId(d.lss.value.pendingNodeId) {
      DeviceIdIsAssigned(d.lss.value.pendingNodeId);
    }
    hide SdoResponseCobId, IsNodeId, S.ServerStep, Padded;
  }

  lemma DeviceIdIsAssigned(id: byte)
    requires IsNodeId(id)
    ensures id != L.UNCONFIGURED_NODE_ID
  {
  }

  /**
    LSS confirms the assignment of 0xFF like any other, but a node never adopts it: whatever id was
    pending, the node-id it had stays.
   */
  lemma UnconfiguredIdConfirmedNotAdopted(d: Device)
    requires d.lss.Some? && d.lss.value.state == L.Configuration
    ensures var (slave, resp) := L.SlaveStep(d.lss.value, L.EncodeConfigureNodeId(L.UNCONFIGURED_NODE_ID));
            && resp == Some(L.CommandFrame1(L.CS_CONFIGURE_NODE_ID, 0))
            && slave == d.lss.value.(pendingNodeId := L.UNCONFIGURED_NODE_ID)
            && LssAdopted(d.(lss := Some(slave))) == (d.(lss := Some(slave)), None)
  {
  }
}
