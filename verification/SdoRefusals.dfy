/**
  Which abort code refuses what (core/src/sdo/server.rs, core/src/sdo/client.rs), by the bytes of the
  request and the contents of the dictionary, and what a client whose request is refused reports.
 */
module SdoRefusals {
  import opened Wrappers
  import opened Bytes
  import opened Datatypes
  import opened ObjectDictionaries
  import opened SdoCodec
  import opened SegmentSize
  import opened SdoServers
  import R = SdoRoundTrip
  import C = SdoClients

  predicate Aborts(o: Outcome, addr: Address, code: bv32) {
    && o.resp.Some? && o.resp.value[0] == 0x80
    && AddressOf(o.resp.value) == addr && WordOf(o.resp.value) == code
  }

  predicate Accepts(o: Outcome) {
    o.resp.Some? && o.resp.value[0] != 0x80
  }

  lemma AbortReads(addr: Address, code: bv32)
    ensures var p := EncodeAbort(addr, code);
            p[0] == 0x80 && AddressOf(p) == addr && WordOf(p) == code
  {
    hide AddressedFrame, AddressOf, WordOf, Le32;
    AddressedRoundTrip(0x80, addr, Le32(code));
    WordRoundTrip(0x80, addr, code);
  }

  lemma RefusalReads(s: Server, od: Dict, addr: Address, code: bv32)
    ensures Aborts(Refuse(s, od, addr, code), addr, code)
  {
    hide EncodeAbort;
    AbortReads(addr, code);
  }

  lemma AcknowledgementReads(addr: Address)
    ensures EncodeDownloadResponse(addr)[0] != 0x80
  {
  }

  // --- Uploads --------------------------------------------------------------

  /** An upload is refused when the object is absent or write-only, and only then. */
  lemma UploadRefusals(s: Server, od: Dict, req: Frame)
    requires s.Valid() && req[0] & 0xE0 == 0x40
    ensures var o, addr := ServerStep(s, od, req), AddressOf(req);
            && (if addr !in od then Aborts(o, addr, 0x0602_0000) && o.server == s
                else if od[addr].access == Wo then Aborts(o, addr, 0x0601_0001) && o.server == s
                else Accepts(o))
            && o.od == od
  {
    hide AddressOf, Aborts, Accepts, UploadInitiate, DownloadInitiate, DownloadSegment, UploadSegment;
    InitiateRefusals(s, od, req);
  }

  lemma InitiateRefusals(s: Server, od: Dict, req: Frame)
    ensures var o, addr := UploadInitiate(s, od, req), AddressOf(req);
            && (if addr !in od then Aborts(o, addr, 0x0602_0000) && o.server == s
                else if od[addr].access == Wo then Aborts(o, addr, 0x0601_0001) && o.server == s
                else Accepts(o))
            && o.od == od
  {
    hide AddressOf, Aborts, EncodeAbort, Value.Encoded, Value.Size, ExpeditedCommand, EncodeUploadExpeditedResponse,
      EncodeUploadInitiateSegmentedResponse;
    var addr := AddressOf(req);
    RefusalReads(s, od, addr, 0x0602_0000);
    RefusalReads(s, od, addr, 0x0601_0001);
    if addr in od {
      UploadAnswers(addr, od[addr].value);
    }
  }

  lemma UploadAnswers(addr: Address, v: Value)
    ensures v.Size() <= MAX_STRING_LEN
    ensures EncodeUploadInitiateSegmentedResponse(addr, v.Size() as bv32)[0] != 0x80
    ensures 1 <= v.Size() <= 4 ==>
              EncodeUploadExpeditedResponse(addr, v).Ok? && EncodeUploadExpeditedResponse(addr, v).value[0] != 0x80
  {
    v.EncodedLength();
    if 1 <= v.Size() <= 4 {
      ExpeditedRoundTrip(0x40, addr, v);
    }
    hide Value.Size, Value.Encoded, EncodeExpedited, AddressOf, IndicatedLength;
  }

  /** A poll is refused when no upload is in progress or its toggle is wrong, and that ends any transfer. */
  lemma PollRefusals(s: Server, od: Dict, req: Frame)
    requires s.Valid() && req[0] & 0xE0 == 0x60
    ensures var o := ServerStep(s, od, req);
            && (if s.transfer.None? || s.transfer.value.Download? then
                  Aborts(o, Address(0, 0), 0x0504_0001) && o.server == s.(transfer := None)
                else if (req[0] & 0x10 != 0) != s.transfer.value.toggle then
                  Aborts(o, s.transfer.value.addr, 0x0503_0000) && o.server == s.(transfer := None)
                else Accepts(o))
            && o.od == od
  {
    hide Aborts, EncodeAbort, EncodeDataSegment;
    var idle := s.(transfer := None);
    RefusalReads(idle, od, Address(0, 0), 0x0504_0001);
    if s.transfer.Some? && s.transfer.value.Upload? {
      var t := s.transfer.value;
      RefusalReads(idle, od, t.addr, 0x0503_0000);
      var n := Take(|t.data|, t.pos);
      DataSegmentReads(t.data[t.pos..t.pos + n], t.toggle, |t.data| - t.pos <= 7);
    }
  }

  lemma DataSegmentReads(data: seq<byte>, toggle: bool, last: bool)
    requires |data| <= 7
    ensures EncodeDataSegment(data, toggle, last).Ok? && EncodeDataSegment(data, toggle, last).value[0] != 0x80
  {
    SegmentBits(|data|, toggle, last);
    hide SegmentCommand, SegmentLength;
  }

  // --- Downloads ------------------------------------------------------------

  /** The data length an inline download states, or that the object's type implies. */
  function InlineLength(command: byte, t: DataType): int {
    if command & 0x01 != 0 then 4 - ((command >> 2) & 0x03) as int
    else match t.FixedSize()
         case Some(n) => n
         case None => 0
  }

  predicate WrongLength(t: DataType, len: int) {
    match t.FixedSize()
    case Some(n) => len != n
    case None => len > MAX_STRING_LEN
  }

  /**
    A download is refused when the object is absent, read-only or of another length, or when a
    segmented one does not state its size; and only then. A refusal leaves the server as it was.
   */
  lemma DownloadRefusals(s: Server, od: Dict, req: Frame)
    requires s.Valid() && req[0] & 0xE0 == 0x20
    ensures var o, addr := ServerStep(s, od, req), AddressOf(req);
            if addr !in od then Aborts(o, addr, 0x0602_0000) && o.server == s && o.od == od
            else if od[addr].access == Ro || od[addr].access == Const then
              Aborts(o, addr, 0x0601_0002) && o.server == s && o.od == od
            else
              var t := od[addr].value.Type();
              if req[0] & 0x02 != 0 then
                if InlineLength(req[0], t) > 4 || WrongLength(t, InlineLength(req[0], t)) then
                  Aborts(o, addr, 0x0607_0012) && o.server == s && o.od == od
                else Accepts(o)
              else if req[0] & 0x01 == 0 then Aborts(o, addr, 0x0504_0001) && o.server == s && o.od == od
              else if WrongLength(t, WordOf(req) as int) then
                Aborts(o, addr, 0x0607_0012) && o.server == s && o.od == od
              else Accepts(o) && o.od == od
  {
    hide AddressOf, Aborts, EncodeAbort, DownloadExpedited, DownloadSegmented, InlineLength, WrongLength, Accepts;
    var addr := AddressOf(req);
    RefusalReads(s, od, addr, 0x0602_0000);
    RefusalReads(s, od, addr, 0x0601_0002);
    if addr in od && (od[addr].access == Wo || od[addr].access == Rw) {
      if req[0] & 0x02 != 0 {
        InlineRefusals(s, od, req, addr);
      } else {
        SegmentedRefusals(s, od, req, addr, od[addr].value.Type());
      }
    }
  }

  lemma InlineRefusals(s: Server, od: Dict, req: Frame, addr: Address)
    requires addr in od && (od[addr].access == Wo || od[addr].access == Rw)
    ensures var t := od[addr].value.Type();
            var o := DownloadExpedited(s, od, req, addr, t);
            if InlineLength(req[0], t) > 4 || WrongLength(t, InlineLength(req[0], t)) then
              Aborts(o, addr, 0x0607_0012) && o.server == s && o.od == od
            else Accepts(o)
  {
    hide Aborts, EncodeAbort, EncodeDownloadResponse, DecodeLe, DataType.FixedSize, Value.Type;
    var t := od[addr].value.Type();
    RefusalReads(s, od, addr, 0x0607_0012);
    AcknowledgementReads(addr);
    InlineLengthIs(req[0], t);
    var len := ExpeditedLength(req[0], t);
    if len <= 4 {
      DecodedShape(t, req[4..4 + len]);
    }
  }

  lemma InlineLengthIs(command: byte, t: DataType)
    ensures InlineLength(command, t) == ExpeditedLength(command, t) >= 0
  {
    UnusedAtMostThree(command);
  }

  lemma SegmentedRefusals(s: Server, od: Dict, req: Frame, addr: Address, t: DataType)
    requires req[0] & 0xE0 == 0x20 && req[0] & 0x02 == 0
    ensures var o := DownloadSegmented(s, od, req, addr, t);
            && o.od == od
            && if req[0] & 0x01 == 0 then Aborts(o, addr, 0x0504_0001) && o.server == s
               else if WrongLength(t, WordOf(req) as int) then Aborts(o, addr, 0x0607_0012) && o.server == s
               else Accepts(o)
  {
    hide Aborts, EncodeAbort, EncodeDownloadResponse, WordOf, AddressOf, DecodeDownloadInitiateSegmented, SizeAccepted,
      WrongLength;
    RefusalReads(s, od, addr, 0x0504_0001);
    RefusalReads(s, od, addr, 0x0607_0012);
    AcknowledgementReads(addr);
    InitiateSays(req);
    SizeRefused(t, WordOf(req));
  }

  lemma InitiateSays(req: Frame)
    requires req[0] & 0xE0 == 0x20 && req[0] & 0x02 == 0
    ensures DecodeDownloadInitiateSegmented(req) ==
            if req[0] & 0x01 == 0 then Err(UnexpectedCommand) else Ok((AddressOf(req), WordOf(req)))
  {
    hide AddressOf, WordOf;
  }

  lemma SizeRefused(t: DataType, size: bv32)
    ensures SizeAccepted(t, size) <==> !WrongLength(t, size as int)
  {
    hide DataType.FixedSize;
  }

  /** What a segment's command byte says. */
  lemma SegmentSays(req: Frame)
    requires req[0] & 0xE0 == 0x00
    ensures 0 <= ((req[0] >> 1) & 0x07) as int <= 7
    ensures DecodeDataSegment(req) ==
            Ok(Segment(req[0] & 0x10 != 0, req[0] & 0x01 != 0, req[1..8 - ((req[0] >> 1) & 0x07) as int]))
  {
    UnusedAtMostSeven(req[0]);
  }

  /** Why a completely received value cannot be stored. */
  function CommitRefusal(od: Dict, addr: Address, t: DataType, bytes: seq<byte>): Option<bv32> {
    if t.FixedSize().Some? && |bytes| != t.FixedSize().value then Some(0x0800_0000)
    else if addr !in od then Some(0x0800_0000)
    else if od[addr].access == Ro || od[addr].access == Const then Some(0x0601_0002)
    else if od[addr].value.Type() != t then Some(0x0800_0000)
    else None
  }

  /**
    A segment is refused when no download is in progress, its toggle is wrong, it does not fit, or it
    is the last and the length is not the declared one or the value cannot be stored; and only then. A
    refusal ends any transfer and stores nothing.
   */
  lemma SegmentRefusals(s: Server, od: Dict, req: Frame)
    requires s.Valid() && req[0] & 0xE0 == 0x00
    ensures 0 <= ((req[0] >> 1) & 0x07) as int <= 7
    ensures var o, n, last := ServerStep(s, od, req), 7 - ((req[0] >> 1) & 0x07) as int, req[0] & 0x01 != 0;
            if s.transfer.None? || s.transfer.value.Upload? then
              Aborts(o, Address(0, 0), 0x0504_0001) && o.server == s.(transfer := None) && o.od == od
            else
              var d := s.transfer.value;
              var stored := CommitRefusal(od, d.addr, d.dataType, d.buf + req[1..1 + n]);
              if (req[0] & 0x10 != 0) != d.toggle then
                Aborts(o, d.addr, 0x0503_0000) && o.server == s.(transfer := None) && o.od == od
              else if |d.buf| + n > MAX_STRING_LEN then
                Aborts(o, d.addr, 0x0607_0012) && o.server == s.(transfer := None) && o.od == od
              else if last && |d.buf| + n != d.declared then
                Aborts(o, d.addr, 0x0607_0013) && o.server == s.(transfer := None) && o.od == od
              else if last && stored.Some? then
                Aborts(o, d.addr, stored.value) && o.server == s.(transfer := None) && o.od == od
              else Accepts(o)
  {
    hide Aborts, EncodeAbort, DecodeDataSegment, Commit, CommitRefusal, EncodeDownloadSegmentResponse;
    SegmentSays(req);
    var n := 7 - ((req[0] >> 1) & 0x07) as int;
    var idle := s.(transfer := None);
    RefusalReads(idle, od, Address(0, 0), 0x0504_0001);
    AckReads(req[0] & 0x10 != 0);
    if s.transfer.Some? && s.transfer.value.Download? {
      var d := s.transfer.value;
      RefusalReads(idle, od, d.addr, 0x0503_0000);
      RefusalReads(idle, od, d.addr, 0x0607_0012);
      RefusalReads(idle, od, d.addr, 0x0607_0013);
      CommitRefusals(idle, od, d.addr, d.dataType, d.buf + req[1..1 + n],
                     EncodeDownloadSegmentResponse(req[0] & 0x10 != 0));
    }
  }

  lemma AckReads(toggle: bool)
    ensures EncodeDownloadSegmentResponse(toggle)[0] != 0x80
  {
  }

  lemma CommitRefusals(s: Server, od: Dict, addr: Address, t: DataType, bytes: seq<byte>, ack: Frame)
    requires ack[0] != 0x80
    ensures var o := Commit(s, od, addr, t, bytes, ack);
            |bytes| <= MAX_STRING_LEN ==>
              match CommitRefusal(od, addr, t, bytes)
              case Some(code) => Aborts(o, addr, code) && o.server == s && o.od == od
              case None => Accepts(o)
  {
    hide Aborts, EncodeAbort, DecodeLe, Value.Type, DataType.FixedSize;
    DecodedShape(t, bytes);
    RefusalReads(s, od, addr, 0x0800_0000);
    RefusalReads(s, od, addr, 0x0601_0002);
  }

  // --- Everything else ------------------------------------------------------

  /** A client abort ends any transfer and is not answered; unknown commands are refused. */
  lemma OtherRequests(s: Server, od: Dict, req: Frame)
    requires s.Valid() && req[0] & 0xE0 in {0x80, 0xA0, 0xC0, 0xE0}
    ensures var o := ServerStep(s, od, req);
            if req[0] & 0xE0 == 0x80 then o == Outcome(s.(transfer := None), od, None)
            else Aborts(o, AddressOf(req), 0x0504_0001) && o.server == s && o.od == od
  {
    hide Aborts, EncodeAbort, AddressOf;
    RefusalReads(s, od, AddressOf(req), 0x0504_0001);
  }

  // --- The client -----------------------------------------------------------

  /** An abort from the server ends any transaction, and the client reports its code. */
  lemma ClientReports(state: C.State, addr: Address, code: bv32)
    requires state.Valid()
    ensures C.ClientStep(state, EncodeAbort(addr, code)) == C.Turn(C.Idle, C.Aborted(code))
  {
    hide EncodeAbort, WordOf, C.UploadInitTurn, C.UploadSegTurn, C.AcknowledgedTurn, C.SegmentTurn;
    AbortReads(addr, code);
  }

  /** The segment the client awaits, but with the wrong toggle. */
  predicate WrongToggle(state: C.State, resp: Frame) {
    || (state.DownloadSeg? && resp[0] & 0xE0 == 0x20 && (resp[0] & 0x10 != 0) != state.lastToggle)
    || (state.UploadSeg? && resp[0] & 0xE0 == 0x00 && (resp[0] & 0x10 != 0) != state.toggle)
  }

  /** What the client itself aborts with: 0x05030000 for a wrong toggle, 0x08000000 for all else. */
  lemma ClientAborts(state: C.State, resp: Frame)
    requires state.Valid() && resp[0] != 0x80 && C.ClientStep(state, resp).event.Aborted?
    ensures C.ClientStep(state, resp) ==
            C.Turn(C.Idle, C.Aborted(if WrongToggle(state, resp) then 0x0503_0000 else 0x0800_0000))
  {
    hide DecodeLe, SegmentLength, EncodeDataSegment, AddressOf, IndicatedLength, WordOf;
  }

  /** A wrong toggle always ends the transaction. */
  lemma WrongToggleAborts(state: C.State, resp: Frame)
    requires state.Valid() && WrongToggle(state, resp)
    ensures C.ClientStep(state, resp).event.Aborted?
  {
    hide DecodeLe, SegmentLength, EncodeDataSegment, WordOf;
  }

  // --- A refused transaction ------------------------------------------------

  /** How a transaction looks after its first exchange was refused. */
  ghost predicate EndsRefused(end: R.Bus, od: Dict, code: bv32) {
    && end.event == Some(C.Aborted(code)) && end.request.None? && end.client.Idle?
    && end.od == od
  }

  lemma RefusedExchange(b: R.Bus, addr: Address, code: bv32)
    requires b.Valid() && b.request.Some?
    requires var o := ServerStep(b.server, b.od, b.request.value);
             Aborts(o, addr, code) && o.od == b.od
    ensures EndsRefused(R.Run(b, 1), b.od, code)
  {
    hide ServerStep, WordOf, AddressOf, C.UploadInitTurn, C.UploadSegTurn, C.AcknowledgedTurn, C.SegmentTurn;
    assert R.Run(b, 0) == b;
  }

  /** A client that reads what is not there, or must not be read, is told so after one exchange. */
  lemma ReadRefused(s: Server, od: Dict, addr: Address, t: DataType)
    requires s.Valid()
    ensures var end := R.Run(R.Reading(s, od, addr, t), 1);
            && (addr !in od ==> EndsRefused(end, od, 0x0602_0000))
            && (addr in od && od[addr].access == Wo ==> EndsRefused(end, od, 0x0601_0001))
  {
    hide ServerStep, AddressOf, AddressedFrame, Aborts, EndsRefused, R.Run;
    var b := R.Reading(s, od, addr, t);
    AddressedRoundTrip(0x40, addr, Zeroes(4));
    UploadRefusals(s, od, b.request.value);
    if addr !in od {
      RefusedExchange(b, addr, 0x0602_0000);
    } else if od[addr].access == Wo {
      RefusedExchange(b, addr, 0x0601_0001);
    }
  }

  /** What a write request says about itself. */
  lemma WriteRequestSays(addr: Address, v: Value, t: DataType)
    ensures var req := C.WriteRequest(addr, v);
            && req[0] & 0xE0 == 0x20 && AddressOf(req) == addr
            && (if 1 <= v.Size() <= 4 then req[0] & 0x02 != 0 && InlineLength(req[0], t) == v.Size()
                else req[0] & 0x02 == 0 && req[0] & 0x01 != 0 && WordOf(req) as int == v.Size())
  {
    v.EncodedLength();
    hide AddressOf, AddressedFrame, WordOf, Value.Encoded, Value.Size, IndicatedLength, EncodeExpedited;
    if 1 <= v.Size() <= 4 {
      ExpeditedRoundTrip(0x20, addr, v);
      IndicatedIs(C.WriteRequest(addr, v)[0], t);
    } else {
      LengthRoundTrip(v.Size());
      AddressedRoundTrip(0x21, addr, Le32(v.Size() as bv32));
      WordRoundTrip(0x21, addr, v.Size() as bv32);
    }
  }

  lemma IndicatedIs(command: byte, t: DataType)
    ensures command & 0x01 != 0 ==> InlineLength(command, t) == IndicatedLength(command)
  {
    UnusedAtMostThree(command);
  }

  /**
    A client that writes what is not there, must not be written or has another length is told so
    after one exchange; any other write gets past its first request.
   */
  lemma WriteRefused(s: Server, od: Dict, addr: Address, v: Value)
    requires s.Valid()
    ensures var b := R.Writing(s, od, addr, v);
            var end := R.Run(b, 1);
            if addr !in od then EndsRefused(end, od, 0x0602_0000)
            else if od[addr].access == Ro || od[addr].access == Const then EndsRefused(end, od, 0x0601_0002)
            else if WrongLength(od[addr].value.Type(), v.Size()) then EndsRefused(end, od, 0x0607_0012)
            else Accepts(ServerStep(s, od, C.WriteRequest(addr, v)))
  {
    hide ServerStep, AddressOf, WordOf, Aborts, Accepts, EndsRefused, R.Run, C.WriteRequest, InlineLength, WrongLength,
      Value.Size, Value.Type;
    v.EncodedLength();
    var b := R.Writing(s, od, addr, v);
    WriteRequestSays(addr, v, BooleanType);
    DownloadRefusals(s, od, b.request.value);
    if addr !in od {
      RefusedExchange(b, addr, 0x0602_0000);
    } else {
      WriteRequestSays(addr, v, od[addr].value.Type());
      if od[addr].access == Ro || od[addr].access == Const {
        RefusedExchange(b, addr, 0x0601_0002);
      } else if WrongLength(od[addr].value.Type(), v.Size()) {
        RefusedExchange(b, addr, 0x0607_0012);
      }
    }
  }
}
