/**
  Layer Setting Services (core/src/lss.rs): the master's frames, the Fastscan master and the
  node-side state machine. Each class method is proved against a function on plain state values;
  Fastscan.dfy, Commissioning.dfy and Selective.dfy reason about those functions.
 */
module Lss {
  import opened Wrappers
  import opened Bytes
  import opened IdentityBits

  const UNCONFIGURED_NODE_ID: byte := 0xFF

  const CS_SWITCH_GLOBAL: byte := 0x04
  const CS_CONFIGURE_NODE_ID: byte := 0x11
  const CS_STORE_CONFIGURATION: byte := 0x17
  const CS_SWITCH_SELECTIVE_VENDOR: byte := 0x40
  const CS_SWITCH_SELECTIVE_PRODUCT: byte := 0x41
  const CS_SWITCH_SELECTIVE_REVISION: byte := 0x42
  const CS_SWITCH_SELECTIVE_SERIAL: byte := 0x43
  const CS_SWITCH_SELECTIVE_RESPONSE: byte := 0x44
  const CS_IDENTIFY_SLAVE: byte := 0x4F
  const CS_FASTSCAN: byte := 0x51
  const CS_INQUIRE_VENDOR: byte := 0x5A
  const CS_INQUIRE_PRODUCT: byte := 0x5B
  const CS_INQUIRE_REVISION: byte := 0x5C
  const CS_INQUIRE_SERIAL: byte := 0x5D
  const CS_INQUIRE_NODE_ID: byte := 0x5E

  const MODE_WAITING: byte := 0
  const MODE_CONFIGURATION: byte := 1
  const FASTSCAN_INIT: byte := 32

  datatype LssAddress = LssAddress(vendorId: bv32, productCode: bv32, revisionNumber: bv32, serialNumber: bv32)

  datatype LssState = Waiting | Configuration

  // --- Frames ---------------------------------------------------------------

  function CommandFrame(cs: byte): Frame {
    [cs, 0, 0, 0, 0, 0, 0, 0]
  }

  function CommandFrame1(cs: byte, arg: byte): Frame {
    [cs, arg, 0, 0, 0, 0, 0, 0]
  }

  function FrameU32(cs: byte, value: bv32): Frame {
    var v := Le32(value);
    [cs, v[0], v[1], v[2], v[3], 0, 0, 0]
  }

  function U32At(f: Frame): bv32 {
    FromLe32(f[1], f[2], f[3], f[4])
  }

  function EncodeSwitchGlobal(configuration: bool): Frame {
    CommandFrame1(CS_SWITCH_GLOBAL, if configuration then MODE_CONFIGURATION else MODE_WAITING)
  }

  function EncodeSwitchSelective(a: LssAddress): (frames: seq<Frame>)
    ensures |frames| == 4
  {
    [FrameU32(CS_SWITCH_SELECTIVE_VENDOR, a.vendorId),
     FrameU32(CS_SWITCH_SELECTIVE_PRODUCT, a.productCode),
     FrameU32(CS_SWITCH_SELECTIVE_REVISION, a.revisionNumber),
     FrameU32(CS_SWITCH_SELECTIVE_SERIAL, a.serialNumber)]
  }

  function EncodeConfigureNodeId(nodeId: byte): Frame {
    CommandFrame1(CS_CONFIGURE_NODE_ID, nodeId)
  }

  function EncodeFastscan(idNumber: bv32, bitCheck: byte, lssSub: byte, lssNext: byte): Frame {
    var v := Le32(idNumber);
    [CS_FASTSCAN, v[0], v[1], v[2], v[3], bitCheck, lssSub, lssNext]
  }

  predicate IsIdentifySlaveResponse(response: Frame) {
    response[0] == CS_IDENTIFY_SLAVE
  }

  predicate IsSwitchSelectiveResponse(response: Frame) {
    response[0] == CS_SWITCH_SELECTIVE_RESPONSE
  }

  lemma FrameU32RoundTrip(cs: byte, value: bv32)
    ensures U32At(FrameU32(cs, value)) == value
  {
    Le32RoundTrip(value);
  }

  lemma FastscanFrameFields(idNumber: bv32, bitCheck: byte, lssSub: byte, lssNext: byte)
    ensures
      var f := EncodeFastscan(idNumber, bitCheck, lssSub, lssNext);
      f[0] == CS_FASTSCAN && U32At(f) == idNumber && f[5] == bitCheck && f[6] == lssSub && f[7] == lssNext
  {
    Le32RoundTrip(idNumber);
  }

  // --- The node-side state machine ------------------------------------------

  datatype Slave = Slave(
    address: LssAddress,
    nodeId: byte,
    pendingNodeId: byte,
    state: LssState,
    selective: byte,
    fsSub: byte)

  function NewSlave(address: LssAddress, nodeId: byte): Slave {
    Slave(address, nodeId, nodeId, Waiting, 0, 0)
  }

  function Identity(a: LssAddress, sub: byte): bv32 {
    if sub == 0 then a.vendorId
    else if sub == 1 then a.productCode
    else if sub == 2 then a.revisionNumber
    else a.serialNumber
  }

  /** Fastscan concerns only unconfigured nodes that are still waiting. */
  predicate Participates(s: Slave) {
    s.nodeId == UNCONFIGURED_NODE_ID && s.state == Waiting
  }

  function FastscanStep(s: Slave, req: Frame): (Slave, Option<Frame>) {
    if !Participates(s) then (s, None)
    else if req[5] >= FASTSCAN_INIT then (s.(fsSub := 0), Some(CommandFrame(CS_IDENTIFY_SLAVE)))
    else if req[6] != s.fsSub then (s, None)
    else if !TopBitsAgree(U32At(req), Identity(s.address, req[6]), req[5]) then (s, None)
    else if req[5] == 0 && req[7] != req[6] then
      (if req[6] >= 3 then s.(state := Configuration) else s.(fsSub := req[7]),
       Some(CommandFrame(CS_IDENTIFY_SLAVE)))
    else (s, Some(CommandFrame(CS_IDENTIFY_SLAVE)))
  }

  predicate IsValidNodeId(id: byte) {
    1 <= id <= 127 || id == UNCONFIGURED_NODE_ID
  }

  function SlaveStep(s: Slave, req: Frame): (Slave, Option<Frame>) {
    var cs := req[0];
    if cs == CS_SWITCH_GLOBAL then
      (s.(selective := 0, state := if req[1] == MODE_CONFIGURATION then Configuration else Waiting), None)
    else if cs == CS_SWITCH_SELECTIVE_VENDOR then
      (s.(selective := if U32At(req) == s.address.vendorId then 1 else 0), None)
    else if cs == CS_SWITCH_SELECTIVE_PRODUCT then
      (s.(selective := if s.selective == 1 && U32At(req) == s.address.productCode then 2 else 0), None)
    else if cs == CS_SWITCH_SELECTIVE_REVISION then
      (s.(selective := if s.selective == 2 && U32At(req) == s.address.revisionNumber then 3 else 0), None)
    else if cs == CS_SWITCH_SELECTIVE_SERIAL then
      if s.selective == 3 && U32At(req) == s.address.serialNumber then
        (s.(selective := 0, state := Configuration), Some(CommandFrame(CS_SWITCH_SELECTIVE_RESPONSE)))
      else (s.(selective := 0), None)
    else if cs == CS_FASTSCAN then FastscanStep(s, req)
    else if s.state != Configuration then (s, None)
    else if cs == CS_CONFIGURE_NODE_ID then
      if IsValidNodeId(req[1]) then (s.(pendingNodeId := req[1]), Some(CommandFrame1(CS_CONFIGURE_NODE_ID, 0)))
      else (s, Some(CommandFrame1(CS_CONFIGURE_NODE_ID, 1)))
    else if cs == CS_STORE_CONFIGURATION then (s, Some(CommandFrame(CS_STORE_CONFIGURATION)))
    else if cs == CS_INQUIRE_NODE_ID then (s, Some(CommandFrame1(CS_INQUIRE_NODE_ID, s.nodeId)))
    else if cs == CS_INQUIRE_VENDOR then (s, Some(FrameU32(CS_INQUIRE_VENDOR, s.address.vendorId)))
    else if cs == CS_INQUIRE_PRODUCT then (s, Some(FrameU32(CS_INQUIRE_PRODUCT, s.address.productCode)))
    else if cs == CS_INQUIRE_REVISION then (s, Some(FrameU32(CS_INQUIRE_REVISION, s.address.revisionNumber)))
    else if cs == CS_INQUIRE_SERIAL then (s, Some(FrameU32(CS_INQUIRE_SERIAL, s.address.serialNumber)))
    else (s, None)
  }

  function AdoptPending(s: Slave): Slave {
    s.(nodeId := s.pendingNodeId)
  }

  class LssSlave {
    const address: LssAddress
    var nodeId: byte
    var pendingNodeId: byte
    var state: LssState
    var selective: byte
    var fsSub: byte

    function View(): Slave
      reads this
    {
      Slave(address, nodeId, pendingNodeId, state, selective, fsSub)
    }

    constructor (address: LssAddress, nodeId: byte)
      ensures View() == NewSlave(address, nodeId)
    {
      this.address, this.nodeId, this.pendingNodeId := address, nodeId, nodeId;
      this.state, this.selective, this.fsSub := Waiting, 0, 0;
    }

    method HandleFastscan(req: Frame) returns (resp: Option<Frame>)
      modifies this
      ensures (View(), resp) == FastscanStep(old(View()), req)
    {
      if nodeId != UNCONFIGURED_NODE_ID || state != Waiting {
        return None;
      }
      var idNumber := U32At(req);
      var bitCheck, lssSub, lssNext := req[5], req[6], req[7];
      if bitCheck >= FASTSCAN_INIT {
        fsSub := 0;
        return Some(CommandFrame(CS_IDENTIFY_SLAVE));
      }
      if lssSub != fsSub {
        return None;
      }
      if !TopBitsAgree(idNumber, Identity(address, lssSub), bitCheck) {
        return None;
      }
      if bitCheck == 0 && lssNext != lssSub {
        if lssSub >= 3 {
          state := Configuration;
        } else {
          fsSub := lssNext;
        }
      }
      return Some(CommandFrame(CS_IDENTIFY_SLAVE));
    }

    method Adopt()
      modifies this
      ensures View() == AdoptPending(old(View()))
    {
      nodeId := pendingNodeId;
    }

    method Handle(req: Frame) returns (resp: Option<Frame>)
      modifies this
      ensures (View(), resp) == SlaveStep(old(View()), req)
    {
      var configuring := state == Configuration;
      var cs := req[0];
      if cs == CS_SWITCH_GLOBAL {
        selective := 0;
        state := if req[1] == MODE_CONFIGURATION then Configuration else Waiting;
        return None;
      } else if cs == CS_SWITCH_SELECTIVE_VENDOR {
        selective := if U32At(req) == address.vendorId then 1 else 0;
        return None;
      } else if cs == CS_SWITCH_SELECTIVE_PRODUCT {
        selective := if selective == 1 && U32At(req) == address.productCode then 2 else 0;
        return None;
      } else if cs == CS_SWITCH_SELECTIVE_REVISION {
        selective := if selective == 2 && U32At(req) == address.revisionNumber then 3 else 0;
        return None;
      } else if cs == CS_SWITCH_SELECTIVE_SERIAL {
        if selective == 3 && U32At(req) == address.serialNumber {
          selective := 0;
          state := Configuration;
          return Some(CommandFrame(CS_SWITCH_SELECTIVE_RESPONSE));
        }
        selective := 0;
        return None;
      } else if cs == CS_FASTSCAN {
        resp := HandleFastscan(req);
      } else if configuring {
        resp := Configure(req);
      } else {
        return None;
      }
    }

    /** The services a node offers only while in the configuration state. */
    method Configure(req: Frame) returns (resp: Option<Frame>)
      requires state == Configuration
      requires req[0] != CS_SWITCH_GLOBAL && req[0] != CS_FASTSCAN
      requires req[0] < CS_SWITCH_SELECTIVE_VENDOR || CS_SWITCH_SELECTIVE_SERIAL < req[0]
      modifies this
      ensures (View(), resp) == SlaveStep(old(View()), req)
    {
      var cs := req[0];
      if cs == CS_CONFIGURE_NODE_ID {
        var id := req[1];
        var error: byte := 1;
        if 1 <= id <= 127 || id == UNCONFIGURED_NODE_ID {
          pendingNodeId := id;
          error := 0;
        }
        return Some(CommandFrame1(CS_CONFIGURE_NODE_ID, error));
      } else if cs == CS_STORE_CONFIGURATION {
        return Some(CommandFrame(CS_STORE_CONFIGURATION));
      } else if cs == CS_INQUIRE_NODE_ID {
        return Some(CommandFrame1(CS_INQUIRE_NODE_ID, nodeId));
      } else if cs == CS_INQUIRE_VENDOR {
        return Some(FrameU32(CS_INQUIRE_VENDOR, address.vendorId));
      } else if cs == CS_INQUIRE_PRODUCT {
        return Some(FrameU32(CS_INQUIRE_PRODUCT, address.productCode));
      } else if cs == CS_INQUIRE_REVISION {
        return Some(FrameU32(CS_INQUIRE_REVISION, address.revisionNumber));
      } else if cs == CS_INQUIRE_SERIAL {
        return Some(FrameU32(CS_INQUIRE_SERIAL, address.serialNumber));
      } else {
        return None;
      }
    }
  }

  // --- The Fastscan master --------------------------------------------------

  /** The master's state; its four partial identity values are held as one partial address. */
  datatype Master = Master(id: LssAddress, sub: byte, bit: byte, found: bool) {
    predicate Valid() {
      && sub <= 4
      && (bit <= 31 || bit == BIT_PROBE || bit == BIT_CONFIRM)
      && (bit == BIT_PROBE ==> sub == 0 || sub == 4)
    }

    predicate IsComplete() {
      sub > 3
    }

    /**
      What reporting an answer demands: a missing answer to a bit check is recorded in an identity
      value that must exist, and the count of confirmed values must not overflow.
     */
    predicate Accepts(responded: bool) {
      && (bit <= 31 || bit == BIT_PROBE || bit == BIT_CONFIRM)
      && (bit == BIT_CONFIRM ==> sub < 255)
      && (bit <= 31 && !responded ==> sub <= 3)
    }
  }

  const NEW_MASTER := Master(LssAddress(0, 0, 0, 0), 0, BIT_PROBE, false)

  function WithIdentity(a: LssAddress, sub: byte, v: bv32): LssAddress {
    if sub == 0 then a.(vendorId := v)
    else if sub == 1 then a.(productCode := v)
    else if sub == 2 then a.(revisionNumber := v)
    else a.(serialNumber := v)
  }

  function RequestOf(m: Master): Option<Frame> {
    if m.sub > 3 then None
    else if m.bit == BIT_PROBE then Some(EncodeFastscan(0, FASTSCAN_INIT, 0, 0))
    else if m.bit == BIT_CONFIRM then Some(EncodeFastscan(Identity(m.id, m.sub), 0, m.sub, (m.sub + 1) & 3))
    else Some(EncodeFastscan(Identity(m.id, m.sub), m.bit, m.sub, m.sub))
  }

  function MasterStep(m: Master, responded: bool): (m': Master)
    requires m.Accepts(responded)
    ensures m.Valid() && m.sub <= 3 ==> m'.Valid()
  {
    if m.bit == BIT_PROBE then
      if responded then m.(found := true, bit := 31) else m.(sub := 4)
    else if m.bit == BIT_CONFIRM then
      m.(sub := m.sub + 1, bit := 31)
    else if responded then
      m.(bit := m.bit - 1)
    else
      m.(id := WithIdentity(m.id, m.sub, Identity(m.id, m.sub) | BitMask(m.bit)), bit := m.bit - 1)
  }

  /** The array index of an identity value: `sub as usize` for the four values in use. */
  function SubIndex(sub: byte): (i: nat)
    requires sub <= 3
    ensures i < 4
  {
    if sub == 0 then 0 else if sub == 1 then 1 else if sub == 2 then 2 else 3
  }

  class FastscanMaster {
    const id: array<bv32>
    var sub: byte
    var bit: byte
    var found: bool

    ghost predicate Valid()
      reads this
    {
      id.Length == 4
    }

    function View(): Master
      requires Valid()
      reads this, id
    {
      Master(LssAddress(id[0], id[1], id[2], id[3]), sub, bit, found)
    }

    constructor ()
      ensures Valid() && View() == NEW_MASTER && fresh(id)
    {
      id := new bv32[4](_ => 0);
      sub, bit, found := 0, BIT_PROBE, false;
    }

    method NextRequest() returns (req: Option<Frame>)
      requires Valid()
      ensures req == RequestOf(View())
    {
      if sub > 3 {
        return None;
      }
      var idx := SubIndex(sub);
      if bit == BIT_PROBE {
        return Some(EncodeFastscan(0, FASTSCAN_INIT, 0, 0));
      } else if bit == BIT_CONFIRM {
        return Some(EncodeFastscan(id[idx], 0, sub, (sub + 1) & 3));
      } else {
        return Some(EncodeFastscan(id[idx], bit, sub, sub));
      }
    }

    method OnResponse(responded: bool)
      requires Valid() && View().Accepts(responded)
      modifies this, id
      ensures View() == MasterStep(old(View()), responded)
    {
      if bit == BIT_PROBE {
        if responded {
          found := true;
          bit := 31;
        } else {
          sub := 4;
        }
      } else if bit == BIT_CONFIRM {
        sub := sub + 1;
        bit := 31;
      } else {
        if !responded {
          id[SubIndex(sub)] := id[SubIndex(sub)] | BitMask(bit);
        }
        bit := bit - 1;
      }
    }
  }
}
