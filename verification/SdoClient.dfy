/**
  The SDO client (core/src/sdo/client.rs). `ClientStep` and its parts say what one response does to
  the client; the class methods are proved against them.
 */
module SdoClients {
  import opened Wrappers
  import opened Bytes
  import opened Datatypes
  import opened ObjectDictionaries
  import opened SdoCodec
  import opened SegmentSize

  datatype State =
    | Idle
    | DownloadExpedited
    | DownloadInit(data: ByteString)
    | DownloadSeg(data: ByteString, pos: nat, lastToggle: bool)
    | UploadInit(dataType: DataType)
    | UploadSeg(dataType: DataType, buf: ByteString, toggle: bool)
  {
    predicate Valid() {
      DownloadSeg? ==> pos <= |data|
    }
  }

  datatype Event = Send(frame: Frame) | Complete(value: Option<Value>) | Aborted(code: bv32)

  /** The client after a response, and what it reports. */
  datatype Turn = Turn(state: State, event: Event)

  // --- Starting a transaction -----------------------------------------------

  function Expedites(value: Value): bool {
    1 <= value.Size() <= 4
  }

  function WriteState(value: Value): State {
    value.EncodedLength();
    if Expedites(value) then DownloadExpedited else DownloadInit(value.Encoded())
  }

  function WriteRequest(addr: Address, value: Value): Frame {
    value.EncodedLength();
    if Expedites(value) then EncodeDownloadExpedited(addr, value).value
    else EncodeDownloadInitiateSegmented(addr, value.Size() as bv32)
  }

  // --- Reacting to a response -----------------------------------------------

  function SegmentTurn(data: ByteString, pos: nat, toggle: bool): Turn
    requires pos <= |data|
  {
    var n := Take(|data|, pos);
    var last := |data| - pos <= SEGMENT_DATA_MAX;
    Turn(DownloadSeg(data, pos + n, toggle), Send(EncodeDataSegment(data[pos..pos + n], toggle, last).value))
  }

  function AcknowledgedTurn(data: ByteString, pos: nat, lastToggle: bool, resp: Frame): Turn
    requires pos <= |data|
  {
    match DecodeDownloadSegmentResponse(resp)
    case Err(_) => Turn(Idle, Aborted(ABORT_GENERAL))
    case Ok(t) =>
      if t != lastToggle then Turn(Idle, Aborted(ABORT_TOGGLE))
      else if pos >= |data| then Turn(Idle, Complete(None))
      else SegmentTurn(data, pos, !lastToggle)
  }

  function UploadInitTurn(dataType: DataType, resp: Frame): Turn {
    match DecodeUploadExpeditedResponse(resp, dataType)
    case Ok((_, value)) => Turn(Idle, Complete(Some(value)))
    case Err(_) =>
      if DecodeUploadInitiateSegmentedResponse(resp).Ok?
      then Turn(UploadSeg(dataType, [], false), Send(EncodeUploadSegmentRequest(false)))
      else Turn(Idle, Aborted(ABORT_GENERAL))
  }

  function UploadSegTurn(dataType: DataType, buf: ByteString, toggle: bool, resp: Frame): Turn {
    match DecodeDataSegment(resp)
    case Err(_) => Turn(Idle, Aborted(ABORT_GENERAL))
    case Ok(seg) =>
      if seg.toggle != toggle then Turn(Idle, Aborted(ABORT_TOGGLE))
      else if |buf| + |seg.data| > MAX_STRING_LEN then Turn(Idle, Aborted(ABORT_GENERAL))
      else if !seg.last then
        Turn(UploadSeg(dataType, buf + seg.data, !toggle), Send(EncodeUploadSegmentRequest(!toggle)))
      else
        match DecodeLe(dataType, buf + seg.data)
        case Ok(value) => Turn(Idle, Complete(Some(value)))
        case Err(_) => Turn(Idle, Aborted(ABORT_GENERAL))
  }

  /** An abort frame ends any transaction; everything else depends on what is awaited. */
  function ClientStep(state: State, resp: Frame): (t: Turn)
    requires state.Valid()
    ensures t.state.Valid()
    ensures t.event.Send? <==> !t.state.Idle?
  {
    if resp[0] == CS_ABORT then Turn(Idle, Aborted(WordOf(resp)))
    else
      match state
      case Idle => Turn(Idle, Aborted(ABORT_GENERAL))
      case DownloadExpedited =>
        Turn(Idle, if DecodeDownloadResponse(resp).Ok? then Complete(None) else Aborted(ABORT_GENERAL))
      case DownloadInit(data) =>
        if DecodeDownloadResponse(resp).Err? then Turn(Idle, Aborted(ABORT_GENERAL))
        else SegmentTurn(data, 0, false)
      case DownloadSeg(data, pos, lastToggle) => AcknowledgedTurn(data, pos, lastToggle, resp)
      case UploadInit(dataType) => UploadInitTurn(dataType, resp)
      case UploadSeg(dataType, buf, toggle) => UploadSegTurn(dataType, buf, toggle, resp)
  }

  // --- The client object ----------------------------------------------------

  class SdoClient {
    const node: byte
    var state: State

    constructor (node: byte)
      ensures state == Idle && this.node == node
    {
      this.node, this.state := node, Idle;
    }

    predicate IsBusy()
      reads this
    {
      !state.Idle?
    }

    method Read(addr: Address, dataType: DataType) returns (request: Frame)
      modifies this
      ensures state == UploadInit(dataType) && request == EncodeUploadRequest(addr)
    {
      state := UploadInit(dataType);
      request := EncodeUploadRequest(addr);
    }

    method Write(addr: Address, value: Value) returns (request: Frame)
      modifies this
      ensures state == WriteState(value) && request == WriteRequest(addr, value)
    {
      hide ExpeditedCommand, AddressedFrame;
      value.EncodedLength();
      var size := value.Size();
      if 1 <= size <= 4 {
        state := DownloadExpedited;
        return EncodeDownloadExpedited(addr, value).value;
      }
      state := DownloadInit(value.Encoded());
      return EncodeDownloadInitiateSegmented(addr, size as bv32);
    }

    method OnResponse(resp: Frame) returns (event: Event)
      requires state.Valid()
      modifies this
      ensures Turn(state, event) == ClientStep(old(state), resp)
      ensures state.Valid()
    {
      hide UploadInitTurn, UploadSegTurn, AcknowledgedTurn;
      var abort := DecodeAbort(resp);
      var was := state;
      state := Idle;
      if abort.Ok? {
        return Aborted(abort.value.1);
      }
      match was
      case Idle =>
        event := Aborted(ABORT_GENERAL);
      case DownloadExpedited =>
        event := if DecodeDownloadResponse(resp).Ok? then Complete(None) else Aborted(ABORT_GENERAL);
      case DownloadInit(data) =>
        if DecodeDownloadResponse(resp).Err? {
          return Aborted(ABORT_GENERAL);
        }
        event := SendDownloadSegment(data, 0, false);
      case DownloadSeg(data, pos, lastToggle) =>
        event := OnDownloadSeg(resp, data, pos, lastToggle);
      case UploadInit(dataType) =>
        event := OnUploadInit(resp, dataType);
      case UploadSeg(dataType, buf, toggle) =>
        event := OnUploadSeg(resp, dataType, buf, toggle);
    }

    method OnDownloadSeg(resp: Frame, data: ByteString, pos: nat, lastToggle: bool) returns (event: Event)
      requires state == Idle && pos <= |data|
      modifies this
      ensures Turn(state, event) == AcknowledgedTurn(data, pos, lastToggle, resp)
    {
      hide DecodeDownloadSegmentResponse;
      var ack := DecodeDownloadSegmentResponse(resp);
      if ack.Err? {
        return Aborted(ABORT_GENERAL);
      }
      if ack.value != lastToggle {
        return Aborted(ABORT_TOGGLE);
      }
      if pos >= |data| {
        return Complete(None);
      }
      event := SendDownloadSegment(data, pos, !lastToggle);
    }

    /** Emit the next segment and await its acknowledgement. */
    method SendDownloadSegment(data: ByteString, pos: nat, toggle: bool) returns (event: Event)
      requires pos <= |data|
      modifies this
      ensures Turn(state, event) == SegmentTurn(data, pos, toggle)
    {
      hide SegmentCommand;
      var remaining := |data| - pos;
      var n := if remaining < SEGMENT_DATA_MAX then remaining else SEGMENT_DATA_MAX;
      var last := remaining <= SEGMENT_DATA_MAX;
      var frame := EncodeDataSegment(data[pos..pos + n], toggle, last).value;
      state := DownloadSeg(data, pos + n, toggle);
      return Send(frame);
    }

    method OnUploadInit(resp: Frame, dataType: DataType) returns (event: Event)
      requires state == Idle
      modifies this
      ensures Turn(state, event) == UploadInitTurn(dataType, resp)
    {
      hide DecodeUploadExpeditedResponse, DecodeUploadInitiateSegmentedResponse;
      var expedited := DecodeUploadExpeditedResponse(resp, dataType);
      if expedited.Ok? {
        return Complete(Some(expedited.value.1));
      }
      if DecodeUploadInitiateSegmentedResponse(resp).Ok? {
        state := UploadSeg(dataType, [], false);
        return Send(EncodeUploadSegmentRequest(false));
      }
      return Aborted(ABORT_GENERAL);
    }

    method OnUploadSeg(resp: Frame, dataType: DataType, buf: ByteString, toggle: bool) returns (event: Event)
      requires state == Idle
      modifies this
      ensures Turn(state, event) == UploadSegTurn(dataType, buf, toggle, resp)
    {
      hide DecodeDataSegment, DecodeLe;
      var decoded := DecodeDataSegment(resp);
      if decoded.Err? {
        return Aborted(ABORT_GENERAL);
      }
      var seg := decoded.value;
      if seg.toggle != toggle {
        return Aborted(ABORT_TOGGLE);
      }
      if |buf| + |seg.data| > MAX_STRING_LEN {
        return Aborted(ABORT_GENERAL);
      }
      var all := buf + seg.data;
      if seg.last {
        var value := DecodeLe(dataType, all);
        return if value.Ok? then Complete(Some(value.value)) else Aborted(ABORT_GENERAL);
      }
      state := UploadSeg(dataType, all, !toggle);
      return Send(EncodeUploadSegmentRequest(!toggle));
    }
  }
}
