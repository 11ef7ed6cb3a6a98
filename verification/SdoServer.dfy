/**
  The SDO server (core/src/sdo/server.rs). `ServerStep` and its parts say what one request does to
  the server and the dictionary; the class methods are proved against them.
 */
module SdoServers {
  import opened Wrappers
  import opened Bytes
  import opened Datatypes
  import opened ObjectDictionaries
  import opened SdoCodec
  import opened SegmentSize

  /** A segmented transfer in progress; `data` and `buf` are the used part of the source's buffers. */
  datatype Transfer =
    | Upload(addr: Address, data: seq<byte>, pos: nat, toggle: bool)
    | Download(addr: Address, dataType: DataType, buf: seq<byte>, declared: nat, toggle: bool)
  {
    predicate Valid() {
      match this
      case Upload(_, data, pos, _) => pos <= |data| <= MAX_STRING_LEN
      case Download(_, _, buf, declared, _) => |buf| <= MAX_STRING_LEN && declared <= MAX_STRING_LEN
    }
  }

  datatype Server = Server(transfer: Option<Transfer>, lastWrite: Option<Address>) {
    predicate Valid() {
      transfer.Some? ==> transfer.value.Valid()
    }
  }

  const NEW_SERVER := Server(None, None)

  /** The server and the dictionary after a request, and the response to send. */
  datatype Outcome = Outcome(server: Server, od: Dict, resp: Option<Frame>)

  function Refuse(s: Server, od: Dict, addr: Address, code: bv32): Outcome {
    Outcome(s, od, Some(EncodeAbort(addr, code)))
  }

  const NO_ADDRESS := Address(0, 0)

  /** Store a value received inline. */
  function Store(s: Server, od: Dict, addr: Address, value: Value): (o: Outcome)
    ensures s.Valid() ==> o.server.Valid()
  {
    match WriteResult(od, addr, value)
    case Ok(_) => Outcome(s.(lastWrite := Some(addr)), Written(od, addr, value), Some(EncodeDownloadResponse(addr)))
    case Err(ReadOnly) => Refuse(s, od, addr, ABORT_WRITE_OF_READ_ONLY)
    case Err(TypeMismatch) => Refuse(s, od, addr, ABORT_LENGTH_HIGH)
    case Err(_) => Refuse(s, od, addr, ABORT_GENERAL)
  }

  /** The data length of an expedited download, indicated or implied by the object's type. */
  function ExpeditedLength(command: byte, dataType: DataType): nat {
    if command & SIZE_INDICATED != 0 then IndicatedLength(command)
    else if dataType.FixedSize().Some? then dataType.FixedSize().value
    else 0
  }

  function DownloadExpedited(s: Server, od: Dict, req: Frame, addr: Address, dataType: DataType): (o: Outcome)
    ensures s.Valid() ==> o.server.Valid()
  {
    var len := ExpeditedLength(req[0], dataType);
    if len > 4 then Refuse(s, od, addr, ABORT_LENGTH_HIGH)
    else if dataType.FixedSize().Some? && len != dataType.FixedSize().value then Refuse(s, od, addr, ABORT_LENGTH_HIGH)
    else
      match DecodeLe(dataType, req[4..4 + len])
      case Err(_) => Refuse(s, od, addr, ABORT_GENERAL)
      case Ok(value) => Store(s, od, addr, value)
  }

  predicate SizeAccepted(dataType: DataType, size: bv32) {
    match dataType.FixedSize()
    case Some(fixed) => size as int == fixed
    case None => size as int <= MAX_STRING_LEN
  }

  function DownloadSegmented(s: Server, od: Dict, req: Frame, addr: Address, dataType: DataType): (o: Outcome)
    ensures s.Valid() ==> o.server.Valid()
  {
    match DecodeDownloadInitiateSegmented(req)
    case Err(_) => Refuse(s, od, addr, ABORT_COMMAND_INVALID)
    case Ok((_, size)) =>
      if !SizeAccepted(dataType, size) then Refuse(s, od, addr, ABORT_LENGTH_HIGH)
      else Outcome(s.(transfer := Some(Download(addr, dataType, [], size as int, false))), od,
                   Some(EncodeDownloadResponse(addr)))
  }

  function DownloadInitiate(s: Server, od: Dict, req: Frame): (o: Outcome)
    ensures s.Valid() ==> o.server.Valid()
  {
    var addr := AddressOf(req);
    if addr !in od then Refuse(s, od, addr, ABORT_OBJECT_DOES_NOT_EXIST)
    else if !od[addr].access.IsWritable() then Refuse(s, od, addr, ABORT_WRITE_OF_READ_ONLY)
    else if req[0] & EXPEDITED != 0 then DownloadExpedited(s, od, req, addr, od[addr].value.Type())
    else DownloadSegmented(s, od, req, addr, od[addr].value.Type())
  }

  function UploadInitiate(s: Server, od: Dict, req: Frame): (o: Outcome)
    ensures s.Valid() ==> o.server.Valid()
  {
    var addr := AddressOf(req);
    match ReadValue(od, addr)
    case Err(ObjectNotFound) => Refuse(s, od, addr, ABORT_OBJECT_DOES_NOT_EXIST)
    case Err(WriteOnly) => Refuse(s, od, addr, ABORT_READ_OF_WRITE_ONLY)
    case Err(_) => Refuse(s, od, addr, ABORT_GENERAL)
    case Ok(value) =>
      value.EncodedLength();
      if 1 <= value.Size() <= 4 then
        Outcome(s, od, Some(EncodeUploadExpeditedResponse(addr, value).value))
      else
        Outcome(s.(transfer := Some(Upload(addr, value.Encoded(), 0, false))), od,
                Some(EncodeUploadInitiateSegmentedResponse(addr, value.Size() as bv32)))
  }

  function UploadSegment(s: Server, od: Dict, req: Frame): (o: Outcome)
    requires s.Valid()
    ensures o.server.Valid()
  {
    var idle := s.(transfer := None);
    match s.transfer
    case Some(Upload(addr, data, pos, toggle)) =>
      if (req[0] & TOGGLE != 0) != toggle then Refuse(idle, od, addr, ABORT_TOGGLE)
      else
        var n := Take(|data|, pos);
        var last := |data| - pos <= SEGMENT_DATA_MAX;
        var seg := EncodeDataSegment(data[pos..pos + n], toggle, last).value;
        Outcome(if last then idle else s.(transfer := Some(Upload(addr, data, pos + n, !toggle))), od, Some(seg))
    case _ => Refuse(idle, od, NO_ADDRESS, ABORT_COMMAND_INVALID)
  }

  /** Decode and store a completely received value. */
  function Commit(s: Server, od: Dict, addr: Address, dataType: DataType, bytes: seq<byte>, ack: Frame): (o: Outcome)
    ensures s.Valid() ==> o.server.Valid()
  {
    match DecodeLe(dataType, bytes)
    case Err(_) => Refuse(s, od, addr, ABORT_GENERAL)
    case Ok(value) =>
      match WriteResult(od, addr, value)
      case Ok(_) => Outcome(s.(lastWrite := Some(addr)), Written(od, addr, value), Some(ack))
      case Err(ReadOnly) => Refuse(s, od, addr, ABORT_WRITE_OF_READ_ONLY)
      case Err(_) => Refuse(s, od, addr, ABORT_GENERAL)
  }

  function DownloadSegment(s: Server, od: Dict, req: Frame): (o: Outcome)
    ensures s.Valid() ==> o.server.Valid()
  {
    var idle := s.(transfer := None);
    match DecodeDataSegment(req)
    case Err(_) => Refuse(s, od, NO_ADDRESS, ABORT_COMMAND_INVALID)
    case Ok(seg) =>
      match s.transfer
      case Some(Download(addr, dataType, buf, declared, toggle)) =>
        if seg.toggle != toggle then Refuse(idle, od, addr, ABORT_TOGGLE)
        else if |buf| + |seg.data| > MAX_STRING_LEN then Refuse(idle, od, addr, ABORT_LENGTH_HIGH)
        else
          var all := buf + seg.data;
          var ack := EncodeDownloadSegmentResponse(seg.toggle);
          if !seg.last then
            Outcome(s.(transfer := Some(Download(addr, dataType, all, declared, !toggle))), od, Some(ack))
          else if |all| != declared then Refuse(idle, od, addr, ABORT_LENGTH_LOW)
          else Commit(idle, od, addr, dataType, all, ack)
      case _ => Refuse(idle, od, NO_ADDRESS, ABORT_COMMAND_INVALID)
  }

  function ServerStep(s: Server, od: Dict, req: Frame): (o: Outcome)
    requires s.Valid()
    ensures o.server.Valid()
  {
    var cs := Specifier(req);
    if cs == CCS_DOWNLOAD_INITIATE then DownloadInitiate(s, od, req)
    else if cs == CCS_UPLOAD_INITIATE then UploadInitiate(s, od, req)
    else if cs == CCS_DOWNLOAD_SEGMENT then DownloadSegment(s, od, req)
    else if cs == CCS_UPLOAD_SEGMENT then UploadSegment(s, od, req)
    else if cs == CS_ABORT then Outcome(s.(transfer := None), od, None)
    else Refuse(s, od, AddressOf(req), ABORT_COMMAND_INVALID)
  }

  // --- The server object ----------------------------------------------------

  class SdoServer {
    const node: byte
    var transfer: Option<Transfer>
    var lastWrite: Option<Address>

    function View(): Server
      reads this
    {
      Server(transfer, lastWrite)
    }

    constructor (node: byte)
      ensures View() == NEW_SERVER && this.node == node
    {
      this.node, this.transfer, this.lastWrite := node, None, None;
    }

    /** Report the object most recently written, once. */
    method TakeWrite() returns (written: Option<Address>)
      modifies this
      ensures written == old(lastWrite) && View() == old(View()).(lastWrite := None)
    {
      written := lastWrite;
      lastWrite := None;
    }

    method Handle(od: ObjectDictionary, req: Frame) returns (resp: Option<Frame>)
      requires View().Valid() && od.Valid()
      modifies this, od
      ensures od.Valid()
      ensures Outcome(View(), od.entries, resp) == ServerStep(old(View()), old(od.entries), req)
    {
      hide DownloadInitiate, UploadInitiate, DownloadSegment, UploadSegment;
      var cs := Specifier(req);
      if cs == CCS_DOWNLOAD_INITIATE {
        resp := OnDownloadInitiate(od, req);
      } else if cs == CCS_UPLOAD_INITIATE {
        resp := OnUploadInitiate(od, req);
      } else if cs == CCS_DOWNLOAD_SEGMENT {
        resp := OnDownloadSegment(od, req);
      } else if cs == CCS_UPLOAD_SEGMENT {
        resp := OnUploadSegment(od, req);
      } else if cs == CS_ABORT {
        transfer := None;
        resp := None;
      } else {
        resp := Some(EncodeAbort(AddressOf(req), ABORT_COMMAND_INVALID));
      }
    }

    method OnDownloadInitiate(od: ObjectDictionary, req: Frame) returns (resp: Option<Frame>)
      requires od.Valid()
      modifies this, od
      ensures od.Valid()
      ensures Outcome(View(), od.entries, resp) == DownloadInitiate(old(View()), old(od.entries), req)
    {
      hide EncodeAbort, AddressOf, DownloadExpedited, DownloadSegmented;
      var addr := AddressOf(req);
      if addr !in od.entries {
        return Some(EncodeAbort(addr, ABORT_OBJECT_DOES_NOT_EXIST));
      }
      var entry := od.entries[addr];
      if !entry.access.IsWritable() {
        return Some(EncodeAbort(addr, ABORT_WRITE_OF_READ_ONLY));
      }
      if req[0] & EXPEDITED != 0 {
        resp := OnDownloadExpedited(od, req, addr, entry.value.Type());
      } else {
        resp := OnDownloadSegmented(od, req, addr, entry.value.Type());
      }
    }

    method OnDownloadExpedited(od: ObjectDictionary, req: Frame, addr: Address, dataType: DataType)
      returns (resp: Option<Frame>)
      requires od.Valid()
      modifies this, od
      ensures od.Valid()
      ensures Outcome(View(), od.entries, resp) ==
              DownloadExpedited(old(View()), old(od.entries), req, addr, dataType)
    {
      hide EncodeAbort, EncodeDownloadResponse, DecodeLe, IndicatedLength;
      var len := 0;
      if req[0] & SIZE_INDICATED != 0 {
        len := IndicatedLength(req[0]);
      } else if dataType.FixedSize().Some? {
        len := dataType.FixedSize().value;
      }
      if len > 4 {
        return Some(EncodeAbort(addr, ABORT_LENGTH_HIGH));
      }
      if dataType.FixedSize().Some? && len != dataType.FixedSize().value {
        return Some(EncodeAbort(addr, ABORT_LENGTH_HIGH));
      }
      var value := DecodeLe(dataType, req[4..4 + len]);
      if value.Err? {
        return Some(EncodeAbort(addr, ABORT_GENERAL));
      }
      resp := WriteValue(od, addr, value.value);
    }

    method WriteValue(od: ObjectDictionary, addr: Address, value: Value) returns (resp: Option<Frame>)
      requires od.Valid()
      modifies this, od
      ensures od.Valid()
      ensures Outcome(View(), od.entries, resp) == Store(old(View()), old(od.entries), addr, value)
    {
      hide EncodeAbort, EncodeDownloadResponse, Stored;
      var r := od.Write(addr, value);
      if r.Ok? {
        lastWrite := Some(addr);
        return Some(EncodeDownloadResponse(addr));
      } else if r.error == ReadOnly {
        return Some(EncodeAbort(addr, ABORT_WRITE_OF_READ_ONLY));
      } else if r.error == TypeMismatch {
        return Some(EncodeAbort(addr, ABORT_LENGTH_HIGH));
      }
      return Some(EncodeAbort(addr, ABORT_GENERAL));
    }

    method OnDownloadSegmented(od: ObjectDictionary, req: Frame, addr: Address, dataType: DataType)
      returns (resp: Option<Frame>)
      modifies this
      ensures Outcome(View(), od.entries, resp) ==
              DownloadSegmented(old(View()), old(od.entries), req, addr, dataType)
    {
      hide EncodeAbort, EncodeDownloadResponse, DecodeDownloadInitiateSegmented, SizeAccepted;
      var initiate := DecodeDownloadInitiateSegmented(req);
      if initiate.Err? {
        return Some(EncodeAbort(addr, ABORT_COMMAND_INVALID));
      }
      var size := initiate.value.1;
      if !SizeAccepted(dataType, size) {
        return Some(EncodeAbort(addr, ABORT_LENGTH_HIGH));
      }
      transfer := Some(Download(addr, dataType, [], size as int, false));
      return Some(EncodeDownloadResponse(addr));
    }

    method OnUploadInitiate(od: ObjectDictionary, req: Frame) returns (resp: Option<Frame>)
      modifies this
      ensures Outcome(View(), od.entries, resp) == UploadInitiate(old(View()), old(od.entries), req)
    {
      hide EncodeAbort, AddressOf, EncodeUploadInitiateSegmentedResponse, ExpeditedCommand, AddressedFrame;
      var addr := AddressOf(req);
      var r := od.Read(addr);
      if r.Err? {
        return Some(EncodeAbort(addr, if r.error == ObjectNotFound then ABORT_OBJECT_DOES_NOT_EXIST
                                      else if r.error == WriteOnly then ABORT_READ_OF_WRITE_ONLY
                                      else ABORT_GENERAL));
      }
      var value := r.value;
      var size := value.Size();
      value.EncodedLength();
      if 1 <= size <= 4 {
        return Some(EncodeUploadExpeditedResponse(addr, value).value);
      }
      transfer := Some(Upload(addr, value.Encoded(), 0, false));
      return Some(EncodeUploadInitiateSegmentedResponse(addr, size as bv32));
    }

    method OnUploadSegment(od: ObjectDictionary, req: Frame) returns (resp: Option<Frame>)
      requires View().Valid()
      modifies this
      ensures Outcome(View(), od.entries, resp) == UploadSegment(old(View()), old(od.entries), req)
    {
      hide EncodeAbort, SegmentCommand;
      var wantToggle := req[0] & TOGGLE != 0;
      var taken := transfer;
      transfer := None;
      match taken
      case Some(Upload(addr, data, pos, toggle)) =>
        if wantToggle != toggle {
          return Some(EncodeAbort(addr, ABORT_TOGGLE));
        }
        var remaining := |data| - pos;
        var n := if remaining < SEGMENT_DATA_MAX then remaining else SEGMENT_DATA_MAX;
        var last := remaining <= SEGMENT_DATA_MAX;
        var seg := EncodeDataSegment(data[pos..pos + n], toggle, last).value;
        if !last {
          transfer := Some(Upload(addr, data, pos + n, !toggle));
        }
        return Some(seg);
      case _ =>
        return Some(EncodeAbort(NO_ADDRESS, ABORT_COMMAND_INVALID));
    }

    method OnDownloadSegment(od: ObjectDictionary, req: Frame) returns (resp: Option<Frame>)
      requires od.Valid()
      modifies this, od
      ensures od.Valid()
      ensures Outcome(View(), od.entries, resp) == DownloadSegment(old(View()), old(od.entries), req)
    {
      hide EncodeAbort, DecodeDataSegment, Commit, EncodeDownloadSegmentResponse;
      var decoded := DecodeDataSegment(req);
      if decoded.Err? {
        return Some(EncodeAbort(NO_ADDRESS, ABORT_COMMAND_INVALID));
      }
      var seg := decoded.value;
      var taken := transfer;
      transfer := None;
      match taken
      case Some(Download(addr, dataType, buf, declared, toggle)) =>
        if seg.toggle != toggle {
          return Some(EncodeAbort(addr, ABORT_TOGGLE));
        }
        if |buf| + |seg.data| > MAX_STRING_LEN {
          return Some(EncodeAbort(addr, ABORT_LENGTH_HIGH));
        }
        var all := buf + seg.data;
        var ack := EncodeDownloadSegmentResponse(seg.toggle);
        if !seg.last {
          transfer := Some(Download(addr, dataType, all, declared, !toggle));
          return Some(ack);
        }
        if |all| != declared {
          return Some(EncodeAbort(addr, ABORT_LENGTH_LOW));
        }
        resp := CommitValue(od, addr, dataType, all, ack);
      case _ =>
        return Some(EncodeAbort(NO_ADDRESS, ABORT_COMMAND_INVALID));
    }

    method CommitValue(od: ObjectDictionary, addr: Address, dataType: DataType, bytes: seq<byte>, ack: Frame)
      returns (resp: Option<Frame>)
      requires od.Valid()
      modifies this, od
      ensures od.Valid()
      ensures Outcome(View(), od.entries, resp) ==
              Commit(old(View()), old(od.entries), addr, dataType, bytes, ack)
    {
      hide EncodeAbort, DecodeLe, Stored;
      var value := DecodeLe(dataType, bytes);
      if value.Err? {
        return Some(EncodeAbort(addr, ABORT_GENERAL));
      }
      var r := od.Write(addr, value.value);
      if r.Ok? {
        lastWrite := Some(addr);
        return Some(ack);
      } else if r.error == ReadOnly {
        return Some(EncodeAbort(addr, ABORT_WRITE_OF_READ_ONLY));
      }
      return Some(EncodeAbort(addr, ABORT_GENERAL));
    }
  }
}
