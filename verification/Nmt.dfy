/** Network management: node-control commands and the node's state (core/src/nmt.rs). */
module Nmt {
  import opened Wrappers
  import opened Bytes

  const NMT_COMMAND_COB_ID: bv16 := 0x000
  const HEARTBEAT_COB_BASE: bv16 := 0x700
  const BROADCAST: byte := 0

  datatype NmtState = Initialising | Stopped | Operational | PreOperational {
    function Wire(): byte {
      match this
      case Initialising => 0x00
      case Stopped => 0x04
      case Operational => 0x05
      case PreOperational => 0x7F
    }
  }

  /** The state a heartbeat byte reports; bit 7 is the node-guarding toggle. */
  function FromWire(b: byte): Option<NmtState> {
    var state := b & 0x7F;
    if state == 0x00 then Some(Initialising)
    else if state == 0x04 then Some(Stopped)
    else if state == 0x05 then Some(Operational)
    else if state == 0x7F then Some(PreOperational)
    else None
  }

  function EncodeNodeGuard(state: NmtState, toggle: bool): byte {
    (if toggle then 0x80 else 0x00) | state.Wire()
  }

  function DecodeNodeGuard(b: byte): Option<(bool, NmtState)> {
    match FromWire(b)
    case None => None
    case Some(state) => Some((b & 0x80 != 0, state))
  }

  lemma NodeGuardRoundTrip(state: NmtState, toggle: bool)
    ensures DecodeNodeGuard(EncodeNodeGuard(state, toggle)) == Some((toggle, state))
    ensures FromWire(state.Wire()) == Some(state)
  {
    match state
    case Initialising => assert FromWire(EncodeNodeGuard(Initialising, toggle)) == Some(Initialising);
    case Stopped => assert FromWire(EncodeNodeGuard(Stopped, toggle)) == Some(Stopped);
    case Operational => assert FromWire(EncodeNodeGuard(Operational, toggle)) == Some(Operational);
    case PreOperational => assert FromWire(EncodeNodeGuard(PreOperational, toggle)) == Some(PreOperational);
  }

  datatype NmtCommand = StartRemoteNode | StopRemoteNode | EnterPreOperational | ResetNode | ResetCommunication {
    function Wire(): byte {
      match this
      case StartRemoteNode => 0x01
      case StopRemoteNode => 0x02
      case EnterPreOperational => 0x80
      case ResetNode => 0x81
      case ResetCommunication => 0x82
    }
  }

  function CommandFromByte(b: byte): Option<NmtCommand> {
    if b == 0x01 then Some(StartRemoteNode)
    else if b == 0x02 then Some(StopRemoteNode)
    else if b == 0x80 then Some(EnterPreOperational)
    else if b == 0x81 then Some(ResetNode)
    else if b == 0x82 then Some(ResetCommunication)
    else None
  }

  predicate IsNodeId(id: byte) {
    1 <= id <= 127
  }

  /** The command and its target; a target above 127 makes the frame invalid. */
  function DecodeCommand(command: byte, target: byte): Option<(NmtCommand, byte)> {
    match CommandFromByte(command)
    case None => None
    case Some(c) => if target == BROADCAST || IsNodeId(target) then Some((c, target)) else None
  }

  function Booted(state: NmtState): NmtState {
    if state.Initialising? then PreOperational else state
  }

  function AppliedTo(state: NmtState, command: NmtCommand): NmtState {
    if command.ResetNode? || command.ResetCommunication? then Initialising
    else if state.Initialising? then Initialising
    else if command.StartRemoteNode? then Operational
    else if command.StopRemoteNode? then Stopped
    else PreOperational
  }

  class NmtStateMachine {
    var state: NmtState

    constructor ()
      ensures state == Initialising
    {
      state := Initialising;
    }

    method Boot()
      modifies this
      ensures state == Booted(old(state))
    {
      if state.Initialising? {
        state := PreOperational;
      }
    }

    method Apply(command: NmtCommand)
      modifies this
      ensures state == AppliedTo(old(state), command)
    {
      state := match (state, command)
        case (_, ResetNode) => Initialising
        case (_, ResetCommunication) => Initialising
        case (Initialising, _) => Initialising
        case (_, StartRemoteNode) => Operational
        case (_, StopRemoteNode) => Stopped
        case (_, EnterPreOperational) => PreOperational;
    }
  }
}
