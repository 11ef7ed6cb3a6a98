/**
  One SDO transaction, seen from both ends: the k-th request and reply of a write or a read, the
  client that awaits that reply and the server that has carried out the requests before it.
 */
module SdoTransactions {
  import opened Wrappers
  import opened Bytes
  import opened Datatypes
  import opened ObjectDictionaries
  import opened SdoCodec
  import S = SdoServers
  import C = SdoClients

  datatype Transaction = Transaction(write: bool, addr: Address, value: Value) {
    function Data(): ByteString {
      value.EncodedLength();
      value.Encoded()
    }

    predicate Segmented() {
      !C.Expedites(value)
    }

    /** How many segments carry the data; no data still takes one. */
    function Segments(): nat {
      if |Data()| == 0 then 1 else (|Data()| + 6) / 7
    }

    function Exchanges(): nat {
      if Segmented() then 1 + Segments() else 1
    }

    function Offset(i: nat): (n: nat)
      ensures n <= |Data()|
    {
      if 7 * i < |Data()| then 7 * i else |Data()|
    }

    function SegmentFrame(i: nat): Frame
      requires i < Segments()
    {
      EncodeDataSegment(Data()[Offset(i)..Offset(i + 1)], i % 2 == 1, i + 1 == Segments()).value
    }

    function Request(k: nat): Frame
      requires k < Exchanges()
    {
      if write then if k == 0 then C.WriteRequest(addr, value) else SegmentFrame(k - 1)
      else if k == 0 then EncodeUploadRequest(addr) else EncodeUploadSegmentRequest((k - 1) % 2 == 1)
    }

    function Reply(k: nat): Frame
      requires k < Exchanges()
    {
      if write then if k == 0 then EncodeDownloadResponse(addr) else EncodeDownloadSegmentResponse((k - 1) % 2 == 1)
      else if k > 0 then SegmentFrame(k - 1)
      else if Segmented() then EncodeUploadInitiateSegmentedResponse(addr, |Data()| as bv32)
      else EncodeUploadExpeditedResponse(addr, value).value
    }

    /** The client that has sent request k and awaits reply k. */
    function ClientAt(k: nat): C.State
      requires k < Exchanges()
    {
      if write then
        if k == 0 then C.WriteState(value) else C.DownloadSeg(Data(), Offset(k), (k - 1) % 2 == 1)
      else
        if k == 0 then C.UploadInit(value.Type())
        else C.UploadSeg(value.Type(), Data()[..Offset(k - 1)], (k - 1) % 2 == 1)
    }

    /** What the last reply tells the client. */
    function Result(): Option<Value> {
      if write then None else Some(value)
    }

    /** The segmented transfer the server holds after j of the transaction's requests. */
    function TransferAt(j: nat): S.Transfer
      requires j >= 1
    {
      if write then S.Download(addr, value.Type(), Data()[..Offset(j - 1)], |Data()|, (j - 1) % 2 == 1)
      else S.Upload(addr, Data(), Offset(j - 1), (j - 1) % 2 == 1)
    }

    /** The dictionary allows the transaction; for a read it also holds the value read. */
    predicate Allowed(od: Dict) {
      && addr in od
      && (write ==> od[addr].access.IsWritable() && od[addr].value.Type() == value.Type())
      && (!write ==> od[addr].access.IsReadable() && od[addr].value == value)
    }

    /** The dictionary once j requests are carried out: a write takes effect with the last one. */
    function DictAt(od: Dict, j: nat): Dict
      requires addr in od
    {
      if write && j == Exchanges() then Stored(od, addr, value) else od
    }

    lemma SegmentBounds(i: nat)
      requires i < Segments()
      ensures Offset(i) == 7 * i <= |Data()| && |Data()| - Offset(i) >= Offset(i + 1) - Offset(i) >= 0
      ensures i + 1 == Segments() <==> |Data()| - Offset(i) <= 7
      ensures Offset(i + 1) - Offset(i) == if |Data()| - Offset(i) < 7 then |Data()| - Offset(i) else 7
      ensures i + 1 == Segments() ==> Offset(i + 1) == |Data()|
      ensures i + 1 < Segments() ==> Offset(i + 1) < |Data()|
    {
    }

    lemma TransferValid(j: nat)
      requires j >= 1
      ensures TransferAt(j).Valid()
    {
    }

    lemma SegmentCarries(i: nat)
      requires i < Segments()
      ensures DecodeDataSegment(SegmentFrame(i)) ==
              Ok(Segment(i % 2 == 1, i + 1 == Segments(), Data()[Offset(i)..Offset(i + 1)]))
      ensures Specifier(SegmentFrame(i)) == CCS_DOWNLOAD_SEGMENT
      ensures Data()[..Offset(i)] + Data()[Offset(i)..Offset(i + 1)] == Data()[..Offset(i + 1)]
    {
      SegmentBounds(i);
      DataSegmentRoundTrip(Data()[Offset(i)..Offset(i + 1)], i % 2 == 1, i + 1 == Segments());
    }
  }

  // --- The server carries out a request -------------------------------------

  lemma WriteInline(t: Transaction, s: S.Server, od: Dict)
    requires s.Valid() && t.write && !t.Segmented() && t.Allowed(od)
    ensures S.ServerStep(s, od, t.Request(0)) ==
            S.Outcome(s.(lastWrite := Some(t.addr)), Stored(od, t.addr, t.value), Some(t.Reply(0)))
  {
    ExpeditedRoundTrip(CCS_DOWNLOAD_INITIATE, t.addr, t.value);
    DecodeEncode(t.value);
    FixedSizeIsSize(t.value);
    hide EncodeExpedited, AddressOf, IndicatedLength, DecodeLe, EncodeDownloadResponse;
  }

  lemma FixedSizeIsSize(v: Value)
    ensures v.Type().FixedSize().Some? ==> v.Size() == v.Type().FixedSize().value
  {
  }

  lemma WriteStarts(t: Transaction, s: S.Server, od: Dict)
    requires s.Valid() && t.write && t.Segmented() && t.Allowed(od)
    ensures S.ServerStep(s, od, t.Request(0)) ==
            S.Outcome(s.(transfer := Some(t.TransferAt(1))), od, Some(t.Reply(0)))
  {
    hide AddressedFrame, AddressOf, WordOf, EncodeDownloadResponse;
    t.value.EncodedLength();
    FixedSizeIsSize(t.value);
    var size := t.value.Size() as bv32;
    LengthRoundTrip(t.value.Size());
    AddressedRoundTrip(CCS_DOWNLOAD_INITIATE | SIZE_INDICATED, t.addr, Le32(size));
    WordRoundTrip(CCS_DOWNLOAD_INITIATE | SIZE_INDICATED, t.addr, size);
  }

  lemma WriteContinues(t: Transaction, s: S.Server, od: Dict, i: nat)
    requires s.Valid() && t.write && t.Segmented() && t.Allowed(od)
    requires i < t.Segments() && s.transfer == Some(t.TransferAt(i + 1))
    ensures var o := S.ServerStep(s, od, t.Request(i + 1));
            && o.resp == Some(t.Reply(i + 1)) && o.od == t.DictAt(od, i + 2)
            && o.server.transfer == if i + 1 < t.Segments() then Some(t.TransferAt(i + 2)) else None
  {
    hide S.ServerStep, DecodeDataSegment, DecodeLe, EncodeDownloadSegmentResponse, EncodeDataSegment;
    var req := t.SegmentFrame(i);
    var o := S.ServerStep(s, od, req);
    t.SegmentBounds(i);
    t.SegmentCarries(i);
    SegmentDispatched(s, od, req);
    if i + 1 < t.Segments() {
      assert o.server.transfer == Some(t.TransferAt(i + 2));
    } else {
      DecodeEncode(t.value);
      assert t.Data()[..t.Offset(i + 1)] == t.value.Encoded();
    }
  }

  lemma SegmentDispatched(s: S.Server, od: Dict, req: Frame)
    requires s.Valid() && Specifier(req) == CCS_DOWNLOAD_SEGMENT
    ensures S.ServerStep(s, od, req) == S.DownloadSegment(s, od, req)
  {
    hide S.DownloadSegment;
  }

  lemma ReadAnswered(t: Transaction, s: S.Server, od: Dict)
    requires s.Valid() && !t.write && t.Allowed(od)
    ensures S.ServerStep(s, od, t.Request(0)) ==
            S.Outcome(if t.Segmented() then s.(transfer := Some(t.TransferAt(1))) else s, od, Some(t.Reply(0)))
  {
    hide AddressedFrame, AddressOf, EncodeUploadInitiateSegmentedResponse, EncodeUploadExpeditedResponse;
    t.value.EncodedLength();
    AddressedRoundTrip(CCS_UPLOAD_INITIATE, t.addr, Zeroes(4));
  }

  lemma ReadContinues(t: Transaction, s: S.Server, od: Dict, i: nat)
    requires s.Valid() && !t.write && t.Segmented() && t.Allowed(od)
    requires i < t.Segments() && s.transfer == Some(t.TransferAt(i + 1))
    ensures var o := S.ServerStep(s, od, t.Request(i + 1));
            && o.resp == Some(t.Reply(i + 1)) && o.od == od
            && o.server.transfer == if i + 1 < t.Segments() then Some(t.TransferAt(i + 2)) else None
  {
    var toggle := i % 2 == 1;
    hide SegmentFrame, EncodeDataSegment, S.ServerStep;
    t.SegmentBounds(i);
    ToggleFrame(CCS_UPLOAD_SEGMENT, toggle);
    PollDispatched(s, od, t.Request(i + 1));
  }

  lemma PollDispatched(s: S.Server, od: Dict, req: Frame)
    requires s.Valid() && Specifier(req) == CCS_UPLOAD_SEGMENT
    ensures S.ServerStep(s, od, req) == S.UploadSegment(s, od, req)
  {
    hide S.UploadSegment;
  }

  // --- The server receives a request again ----------------------------------

  /** A segment that repeats an earlier toggle, or meets no transfer, ends the transfer. */
  lemma SegmentRefused(t: Transaction, s: S.Server, od: Dict, i: nat)
    requires s.Valid() && t.Segmented() && i < t.Segments()
    requires s.transfer.Some? ==> exists j :: 1 <= j && s.transfer == Some(t.TransferAt(j)) && (j - 1) % 2 != i % 2
    ensures var o := S.ServerStep(s, od, t.Request(i + 1));
            o.resp.Some? && IsAbort(o.resp.value) && o.od == od && o.server.transfer.None?
  {
    if t.write {
      t.SegmentCarries(i);
      hide DecodeDataSegment, EncodeDataSegment;
    } else {
      ToggleFrame(CCS_UPLOAD_SEGMENT, i % 2 == 1);
      hide SegmentFrame;
    }
  }

  // --- Where the server stands ----------------------------------------------

  /**
    The server has carried out the first j requests, starting from the dictionary `od`. Past the
    initiate, a repeated segment may have made it drop the transfer.
   */
  predicate ServerAt(t: Transaction, od: Dict, j: nat, s: S.Server, now: Dict) {
    && s.Valid() && t.Allowed(od) && j <= t.Exchanges()
    && now == t.DictAt(od, j)
    && (t.Segmented() && j >= 1 && j < t.Exchanges() ==>
          s.transfer == Some(t.TransferAt(j)) || (j >= 2 && s.transfer.None?))
    && (t.Segmented() && j == t.Exchanges() ==> s.transfer.None?)
  }

  predicate Serving(t: Transaction, j: nat, s: S.Server) {
    t.Segmented() && 1 <= j < t.Exchanges() ==> s.transfer == Some(t.TransferAt(j))
  }

  lemma InitiateServed(t: Transaction, od: Dict, s: S.Server, now: Dict)
    requires ServerAt(t, od, 0, s, now)
    ensures var o := S.ServerStep(s, now, t.Request(0));
            o.resp == Some(t.Reply(0)) && ServerAt(t, od, 1, o.server, o.od) && Serving(t, 1, o.server)
  {
    t.TransferValid(1);
    hide S.ServerStep, Transaction.Request, Transaction.Reply, Transaction.TransferAt;
    if !t.write {
      ReadAnswered(t, s, now);
    } else if t.Segmented() {
      WriteStarts(t, s, now);
    } else {
      WriteInline(t, s, now);
    }
  }

  lemma SegmentServed(t: Transaction, od: Dict, j: nat, s: S.Server, now: Dict)
    requires ServerAt(t, od, j, s, now) && Serving(t, j, s) && 0 < j < t.Exchanges()
    ensures var o := S.ServerStep(s, now, t.Request(j));
            o.resp == Some(t.Reply(j)) && ServerAt(t, od, j + 1, o.server, o.od) && Serving(t, j + 1, o.server)
  {
    hide S.ServerStep, Transaction.Request, Transaction.Reply, Transaction.TransferAt;
    t.TransferValid(j + 1);
    if t.write {
      WriteContinues(t, s, now, j - 1);
    } else {
      ReadContinues(t, s, now, j - 1);
    }
  }

  lemma ServerAdvances(t: Transaction, od: Dict, j: nat, s: S.Server, now: Dict)
    requires ServerAt(t, od, j, s, now) && Serving(t, j, s) && j < t.Exchanges()
    ensures var o := S.ServerStep(s, now, t.Request(j));
            o.resp == Some(t.Reply(j)) && ServerAt(t, od, j + 1, o.server, o.od) && Serving(t, j + 1, o.server)
  {
    if j == 0 {
      InitiateServed(t, od, s, now);
    } else {
      SegmentServed(t, od, j, s, now);
    }
    hide ServerAt, Serving, S.ServerStep, Transaction.Request, Transaction.Reply, Transaction.TransferAt;
  }

  lemma ServerRefuses(t: Transaction, od: Dict, j: nat, s: S.Server, now: Dict)
    requires ServerAt(t, od, j, s, now) && !Serving(t, j, s) && j < t.Exchanges()
    ensures var o := S.ServerStep(s, now, t.Request(j));
            o.resp.Some? && IsAbort(o.resp.value) && ServerAt(t, od, j, o.server, o.od)
  {
    hide S.ServerStep, Transaction.Request, Transaction.TransferAt;
    SegmentRefused(t, s, now, j - 1);
  }

  lemma ServerRepeats(t: Transaction, od: Dict, j: nat, s: S.Server, now: Dict)
    requires ServerAt(t, od, j, s, now) && j >= 1
    ensures var o := S.ServerStep(s, now, t.Request(j - 1));
            && o.resp.Some? && (IsAbort(o.resp.value) || o.resp.value == t.Reply(j - 1))
            && ServerAt(t, od, j, o.server, o.od)
  {
    hide S.ServerStep, Transaction.Request, Transaction.Reply, Transaction.TransferAt;
    if j > 1 {
      SegmentRefused(t, s, now, j - 2);
    } else if !t.write {
      ReadAnswered(t, s, now);
    } else if t.Segmented() {
      WriteStarts(t, s, now);
    } else {
      WriteInline(t, s, now);
    }
  }

  // --- The client receives a reply ------------------------------------------

  lemma ClientStarts(t: Transaction, k: nat)
    requires t.write && t.Segmented() && k + 1 < t.Exchanges()
    ensures C.SegmentTurn(t.Data(), t.Offset(k), k % 2 == 1) == C.Turn(t.ClientAt(k + 1), C.Send(t.Request(k + 1)))
  {
    t.SegmentBounds(k);
    hide EncodeDataSegment;
  }

  lemma WriterStarts(t: Transaction)
    requires t.write
    ensures C.ClientStep(t.ClientAt(0), t.Reply(0)) ==
            if t.Segmented() then C.Turn(t.ClientAt(1), C.Send(t.Request(1))) else C.Turn(C.Idle, C.Complete(None))
  {
    hide EncodeDownloadResponse, DecodeDownloadResponse, C.SegmentTurn, Transaction.Request, Value.Encoded, Value.Size;
    DownloadResponseReads(t.addr);
    if t.Segmented() {
      ClientStarts(t, 0);
    }
  }

  lemma DownloadResponseReads(addr: Address)
    ensures DecodeDownloadResponse(EncodeDownloadResponse(addr)).Ok? && EncodeDownloadResponse(addr)[0] != CS_ABORT
  {
    AddressedRoundTrip(SCS_DOWNLOAD_INITIATE, addr, Zeroes(4));
    hide AddressedFrame, AddressOf;
  }

  lemma WriterContinues(t: Transaction, k: nat)
    requires t.write && 0 < k < t.Exchanges()
    ensures C.ClientStep(t.ClientAt(k), t.Reply(k)) ==
            if k + 1 < t.Exchanges() then C.Turn(t.ClientAt(k + 1), C.Send(t.Request(k + 1)))
            else C.Turn(C.Idle, C.Complete(None))
  {
    hide SegmentFrame, C.SegmentTurn, Transaction.SegmentFrame, AddressOf, Le16, Le32;
    t.SegmentBounds(k - 1);
    ToggleFrame(SCS_DOWNLOAD_SEGMENT, (k - 1) % 2 == 1);
    if k + 1 < t.Exchanges() {
      ClientStarts(t, k);
    }
  }

  lemma ReaderStarts(t: Transaction)
    requires !t.write
    ensures C.ClientStep(t.ClientAt(0), t.Reply(0)) ==
            if t.Segmented() then C.Turn(t.ClientAt(1), C.Send(t.Request(1)))
            else C.Turn(C.Idle, C.Complete(Some(t.value)))
  {
    if t.Segmented() {
      AddressedRoundTrip(SCS_UPLOAD_INITIATE | SIZE_INDICATED, t.addr, Le32(|t.Data()| as bv32));
      hide AddressedFrame, AddressOf;
    } else {
      ExpeditedRoundTrip(SCS_UPLOAD_INITIATE, t.addr, t.value);
      DecodeEncode(t.value);
      FixedSizeIsSize(t.value);
      hide EncodeExpedited, AddressOf, IndicatedLength, DecodeLe;
    }
  }

  lemma ReaderAdvances(t: Transaction, k: nat)
    requires !t.write && 0 < k < t.Exchanges()
    ensures C.ClientStep(t.ClientAt(k), t.Reply(k)) ==
            if k + 1 < t.Exchanges() then C.Turn(t.ClientAt(k + 1), C.Send(t.Request(k + 1)))
            else C.Turn(C.Idle, C.Complete(Some(t.value)))
  {
    hide DecodeDataSegment, DecodeLe, EncodeDataSegment, SegmentFrame, C.ClientStep, C.UploadSegTurn;
    var data := t.Data();
    t.SegmentBounds(k - 1);
    t.SegmentCarries(k - 1);
    DataSegmentDispatched(t.ClientAt(k), t.Reply(k));
    SegmentReceived(t.ClientAt(k), t.Reply(k), k + 1 == t.Exchanges(), data[t.Offset(k - 1)..t.Offset(k)]);
    DecodeEncode(t.value);
    assert data[..t.Offset(k)] == data[..t.Offset(k - 1)] + data[t.Offset(k - 1)..t.Offset(k)];
    assert k + 1 == t.Exchanges() ==> data[..t.Offset(k)] == data;
  }

  lemma SegmentReceived(state: C.State, resp: Frame, last: bool, data: seq<byte>)
    requires state.UploadSeg? && |state.buf| + |data| <= MAX_STRING_LEN
    requires DecodeDataSegment(resp) == Ok(Segment(state.toggle, last, data))
    ensures !last ==>
              C.UploadSegTurn(state.dataType, state.buf, state.toggle, resp) ==
              C.Turn(C.UploadSeg(state.dataType, state.buf + data, !state.toggle),
                     C.Send(EncodeUploadSegmentRequest(!state.toggle)))
    ensures last && DecodeLe(state.dataType, state.buf + data).Ok? ==>
              C.UploadSegTurn(state.dataType, state.buf, state.toggle, resp) ==
              C.Turn(C.Idle, C.Complete(Some(DecodeLe(state.dataType, state.buf + data).value)))
  {
    hide DecodeDataSegment, DecodeLe;
  }

  lemma DataSegmentDispatched(state: C.State, resp: Frame)
    requires state.UploadSeg? && Specifier(resp) == CCS_DOWNLOAD_SEGMENT
    ensures C.ClientStep(state, resp) == C.UploadSegTurn(state.dataType, state.buf, state.toggle, resp)
  {
    hide C.UploadSegTurn;
  }

  lemma ClientAdvances(t: Transaction, k: nat)
    requires k < t.Exchanges()
    ensures C.ClientStep(t.ClientAt(k), t.Reply(k)) ==
            if k + 1 < t.Exchanges() then C.Turn(t.ClientAt(k + 1), C.Send(t.Request(k + 1)))
            else C.Turn(C.Idle, C.Complete(t.Result()))
  {
    hide C.ClientStep, Transaction.Request, Transaction.Reply, Transaction.ClientAt;
    if t.write && k == 0 {
      WriterStarts(t);
    } else if t.write {
      WriterContinues(t, k);
    } else if k == 0 {
      ReaderStarts(t);
    } else {
      ReaderAdvances(t, k);
    }
  }

  lemma WriterRejects(t: Transaction, k: nat)
    requires t.write && 0 < k < t.Exchanges()
    ensures var turn := C.ClientStep(t.ClientAt(k), t.Reply(k - 1));
            turn.state.Idle? && turn.event.Aborted?
  {
    if k > 1 {
      ToggleFrame(SCS_DOWNLOAD_SEGMENT, (k - 2) % 2 == 1);
      hide SegmentFrame;
    } else {
      AddressedRoundTrip(SCS_DOWNLOAD_INITIATE, t.addr, Zeroes(4));
      hide AddressedFrame, AddressOf;
    }
  }

  lemma ReaderRejects(t: Transaction, k: nat)
    requires !t.write && 0 < k < t.Exchanges()
    ensures var turn := C.ClientStep(t.ClientAt(k), t.Reply(k - 1));
            turn.state.Idle? && turn.event.Aborted?
  {
    if k > 1 {
      t.SegmentCarries(k - 2);
      DataSegmentDispatched(t.ClientAt(k), t.Reply(k - 1));
      hide DecodeDataSegment, EncodeDataSegment, SegmentFrame, C.ClientStep;
    } else {
      ReaderRejectsInitiate(t);
    }
  }

  lemma ReaderRejectsInitiate(t: Transaction)
    requires !t.write && t.Segmented()
    ensures var turn := C.ClientStep(t.ClientAt(1), t.Reply(0));
            turn.state.Idle? && turn.event.Aborted?
  {
    AddressedRoundTrip(SCS_UPLOAD_INITIATE | SIZE_INDICATED, t.addr, Le32(|t.Data()| as bv32));
    hide AddressedFrame, AddressOf;
  }

  /** A reply the client has already consumed ends the transaction. */
  lemma ClientRejects(t: Transaction, k: nat)
    requires 0 < k < t.Exchanges()
    ensures var turn := C.ClientStep(t.ClientAt(k), t.Reply(k - 1));
            turn.state.Idle? && turn.event.Aborted?
  {
    hide C.ClientStep, Transaction.Reply, Transaction.ClientAt;
    if t.write {
      WriterRejects(t, k);
    } else {
      ReaderRejects(t, k);
    }
  }
}
