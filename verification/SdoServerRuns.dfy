/**
  The SDO server under arbitrary requests (core/src/sdo/server.rs): what no sequence of eight-byte
  frames can break, and what a download on the wire must look like before anything is stored.
 */
module SdoServerRuns {
  import opened Wrappers
  import opened Bytes
  import opened Datatypes
  import opened ObjectDictionaries
  import opened SdoCodec
  import opened SdoServers

  /** What travelled on the bus: a request and the response to it, if any. */
  datatype Exchange = Exchange(req: Frame, resp: Option<Frame>) {
    predicate Accepted() {
      resp.Some? && !IsAbort(resp.value)
    }
  }

  datatype Run = Run(server: Server, od: Dict, history: seq<Exchange>)

  /** Exchanging one more request with the server. */
  function Next(run: Run, req: Frame): (next: Run)
    requires run.server.Valid()
    ensures next.server.Valid()
  {
    var o := ServerStep(run.server, run.od, req);
    Run(o.server, o.od, run.history + [Exchange(req, o.resp)])
  }

  function RunOf(od: Dict, reqs: seq<Frame>): (run: Run)
    ensures run.server.Valid()
  {
    if reqs == [] then Run(NEW_SERVER, od, [])
    else Next(RunOf(od, reqs[..|reqs| - 1]), reqs[|reqs| - 1])
  }

  // --- What one request may change ------------------------------------------

  ghost predicate Stores(od: Dict, o: Outcome, addr: Address, value: Value) {
    && WriteResult(od, addr, value).Ok?
    && o.od == Stored(od, addr, value)
    && o.server.lastWrite == Some(addr)
    && o.resp.Some? && !IsAbort(o.resp.value)
  }

  ghost predicate StoresOneOrNothing(s: Server, od: Dict, o: Outcome) {
    || (o.od == od && o.server.lastWrite == s.lastWrite)
    || exists addr: Address, value: Value :: Stores(od, o, addr, value)
  }

  lemma StoreEffect(s: Server, od: Dict, addr: Address, value: Value)
    ensures StoresOneOrNothing(s, od, Store(s, od, addr, value)) && Store(s, od, addr, value).resp.Some?
  {
    if WriteResult(od, addr, value).Ok? {
      assert Stores(od, Store(s, od, addr, value), addr, value);
    }
  }

  lemma CommitEffect(s: Server, od: Dict, addr: Address, dataType: DataType, bytes: seq<byte>, ack: Frame)
    requires !IsAbort(ack)
    ensures var o := Commit(s, od, addr, dataType, bytes, ack);
            StoresOneOrNothing(s, od, o) && o.resp.Some?
  {
    var value := DecodeLe(dataType, bytes);
    hide DecodeLe;
    if value.Ok? && WriteResult(od, addr, value.value).Ok? {
      assert Stores(od, Commit(s, od, addr, dataType, bytes, ack), addr, value.value);
    }
  }

  lemma AckIsNoAbort(toggle: bool)
    ensures !IsAbort(EncodeDownloadSegmentResponse(toggle))
  {
    ToggleFrame(SCS_DOWNLOAD_SEGMENT, toggle);
  }

  lemma DownloadInitiateEffect(s: Server, od: Dict, req: Frame)
    ensures StoresOneOrNothing(s, od, DownloadInitiate(s, od, req)) && DownloadInitiate(s, od, req).resp.Some?
  {
    hide EncodeAbort, EncodeDownloadResponse, DecodeLe, Store, AddressOf, StoresOneOrNothing;
    var addr := AddressOf(req);
    if addr in od && od[addr].access.IsWritable() && req[0] & EXPEDITED != 0 {
      ExpeditedEffect(s, od, req, addr, od[addr].value.Type());
    } else {
      NothingStored(s, od, DownloadInitiate(s, od, req));
    }
  }

  lemma NothingStored(s: Server, od: Dict, o: Outcome)
    requires o.od == od && o.server.lastWrite == s.lastWrite
    ensures StoresOneOrNothing(s, od, o)
  {
  }

  lemma ExpeditedEffect(s: Server, od: Dict, req: Frame, addr: Address, dataType: DataType)
    ensures var o := DownloadExpedited(s, od, req, addr, dataType);
            StoresOneOrNothing(s, od, o) && o.resp.Some?
  {
    hide EncodeAbort, EncodeDownloadResponse, DecodeLe, Store;
    var len := ExpeditedLength(req[0], dataType);
    if len <= 4 && DecodeLe(dataType, req[4..4 + len]).Ok? {
      StoreEffect(s, od, addr, DecodeLe(dataType, req[4..4 + len]).value);
    }
  }

  lemma DownloadSegmentEffect(s: Server, od: Dict, req: Frame)
    ensures StoresOneOrNothing(s, od, DownloadSegment(s, od, req)) && DownloadSegment(s, od, req).resp.Some?
  {
    hide EncodeAbort, EncodeDownloadSegmentResponse, DecodeDataSegment, Commit;
    var seg := DecodeDataSegment(req);
    if seg.Ok? && s.transfer.Some? && s.transfer.value.Download? {
      var d := s.transfer.value;
      var ack := EncodeDownloadSegmentResponse(seg.value.toggle);
      AckIsNoAbort(seg.value.toggle);
      CommitEffect(s.(transfer := None), od, d.addr, d.dataType, d.buf + seg.value.data, ack);
    }
  }

  lemma StepEffect(s: Server, od: Dict, req: Frame)
    requires s.Valid()
    ensures StoresOneOrNothing(s, od, ServerStep(s, od, req))
    ensures ServerStep(s, od, req).resp.None? <==> Specifier(req) == CS_ABORT
  {
    DownloadInitiateEffect(s, od, req);
    DownloadSegmentEffect(s, od, req);
    hide DownloadInitiate, DownloadSegment, EncodeAbort, EncodeUploadInitiateSegmentedResponse, ExpeditedCommand,
      AddressedFrame;
  }

  /** One request: rights, types and read-only values stay, and a refused request changes nothing. */
  lemma StepSafe(s: Server, od: Dict, req: Frame)
    requires s.Valid()
    ensures var o := ServerStep(s, od, req);
            && Preserves(od, o.od)
            && (exists addr :: SameExcept(od, o.od, addr))
            && (o.resp.Some? && IsAbort(o.resp.value) ==> o.od == od)
            && (o.od != od ==> o.server.lastWrite.Some? && SameExcept(od, o.od, o.server.lastWrite.value))
  {
    StepEffect(s, od, req);
    var o := ServerStep(s, od, req);
    hide ServerStep, IsAbort;
    if addr: Address, value: Value :| Stores(od, o, addr, value) {
      WrittenPreserves(od, addr, value);
      assert SameExcept(od, o.od, addr);
    } else {
      assert SameExcept(od, o.od, NO_ADDRESS);
    }
  }

  /**
    No sequence of frames, however malformed, changes which objects exist, their types, their access
    rights or the value of an object the bus may not write.
   */
  lemma {:induction false} RunSafe(od: Dict, reqs: seq<Frame>)
    ensures var run := RunOf(od, reqs);
            && Preserves(od, run.od) && |run.history| == |reqs|
            && forall i :: 0 <= i < |reqs| ==>
                 && run.history[i].req == reqs[i]
                 && (run.history[i].resp.None? <==> Specifier(reqs[i]) == CS_ABORT)
  {
    if reqs != [] {
      var before := RunOf(od, reqs[..|reqs| - 1]);
      RunSafe(od, reqs[..|reqs| - 1]);
      StepSafe(before.server, before.od, reqs[|reqs| - 1]);
      StepEffect(before.server, before.od, reqs[|reqs| - 1]);
      hide ServerStep;
      PreservesTransitive(od, before.od, RunOf(od, reqs).od);
    }
  }

  // --- A download as the bus shows it ---------------------------------------

  predicate StartsDownload(e: Exchange) {
    e.Accepted() && Specifier(e.req) == CCS_DOWNLOAD_INITIATE && e.req[0] & EXPEDITED == 0
  }

  predicate ContinuesDownload(e: Exchange) {
    e.Accepted() && Specifier(e.req) == CCS_DOWNLOAD_SEGMENT
  }

  /** The latest accepted segmented initiate and the segments accepted since then. */
  datatype Observed = Observed(addr: Address, size: nat, segments: seq<Segment>)

  function SegmentOf(req: Frame): Segment
    requires Specifier(req) == CCS_DOWNLOAD_SEGMENT
  {
    DecodeDataSegment(req).value
  }

  function Observe(history: seq<Exchange>): Option<Observed> {
    if history == [] then None
    else
      var earlier := Observe(history[..|history| - 1]);
      var e := history[|history| - 1];
      if StartsDownload(e) then Some(Observed(AddressOf(e.req), WordOf(e.req) as int, []))
      else if ContinuesDownload(e) && earlier.Some?
      then Some(earlier.value.(segments := earlier.value.segments + [SegmentOf(e.req)]))
      else earlier
  }

  function Joined(segments: seq<Segment>): seq<byte> {
    if segments == [] then [] else Joined(segments[..|segments| - 1]) + segments[|segments| - 1].data
  }

  ghost predicate Alternates(segments: seq<Segment>) {
    forall i :: 0 <= i < |segments| ==> segments[i].toggle == (i % 2 == 1)
  }

  ghost predicate OnlyEndIsLast(segments: seq<Segment>) {
    forall i :: 0 <= i < |segments| ==> (segments[i].last ==> i == |segments| - 1)
  }

  /** The server's transfer is what the bus showed. */
  ghost predicate Tracks(seen: Option<Observed>, d: Transfer, od: Dict)
    requires d.Download?
  {
    && seen.Some? && seen.value.addr == d.addr && seen.value.size == d.declared
    && Joined(seen.value.segments) == d.buf
    && Alternates(seen.value.segments) && d.toggle == (|seen.value.segments| % 2 == 1)
    && (forall i :: 0 <= i < |seen.value.segments| ==> !seen.value.segments[i].last)
    && TransferOwner(d, od)
  }

  /** The object a download is for can take a value of the declared length. */
  ghost predicate TransferOwner(d: Transfer, od: Dict)
    requires d.Download?
  {
    && d.addr in od && od[d.addr].access.IsWritable() && od[d.addr].value.Type() == d.dataType
    && (d.dataType.FixedSize().Some? ==> d.declared == d.dataType.FixedSize().value)
  }

  ghost predicate Tracking(run: Run) {
    run.server.transfer.Some? && run.server.transfer.value.Download? ==>
      Tracks(Observe(run.history), run.server.transfer.value, run.od)
  }

  lemma PreservesTracks(seen: Option<Observed>, d: Transfer, before: Dict, after: Dict)
    requires d.Download? && Tracks(seen, d, before) && Preserves(before, after)
    ensures Tracks(seen, d, after)
  {
  }

  /** An initiate starts a download exactly when it is accepted as one; otherwise it leaves the transfer alone. */
  lemma InitiateTransfer(s: Server, od: Dict, req: Frame)
    requires Specifier(req) == CCS_DOWNLOAD_INITIATE
    ensures var o := DownloadInitiate(s, od, req);
            var addr, size := AddressOf(req), WordOf(req) as int;
            if StartsDownload(Exchange(req, o.resp)) then
              && addr in od && od[addr].access.IsWritable() && SizeAccepted(od[addr].value.Type(), WordOf(req))
              && o == Outcome(s.(transfer := Some(Download(addr, od[addr].value.Type(), [], size, false))), od,
                              Some(EncodeDownloadResponse(addr)))
            else o.server.transfer == s.transfer
  {
    hide AddressOf, WordOf, SizeAccepted, DownloadExpedited, Le16, Le32;
    var addr := AddressOf(req);
    if addr in od {
      ExpeditedKeepsTransfer(s, od, req, addr, od[addr].value.Type());
    }
  }

  lemma ExpeditedKeepsTransfer(s: Server, od: Dict, req: Frame, addr: Address, dataType: DataType)
    ensures DownloadExpedited(s, od, req, addr, dataType).server.transfer == s.transfer
  {
    hide DecodeLe, EncodeAbort, EncodeDownloadResponse;
  }

  /** The server takes a segment up. */
  ghost predicate Extends(d: Transfer, seg: Segment)
    requires d.Download?
  {
    && seg.toggle == d.toggle && |d.buf| + |seg.data| <= MAX_STRING_LEN
    && (seg.last ==> |d.buf + seg.data| == d.declared)
  }

  /** A segment is accepted exactly when it fits the transfer; if refused, the transfer is over. */
  lemma SegmentTransfer(s: Server, od: Dict, req: Frame, d: Transfer)
    requires Specifier(req) == CCS_DOWNLOAD_SEGMENT && d.Download? && s.transfer == Some(d)
    requires TransferOwner(d, od)
    ensures var o := DownloadSegment(s, od, req);
            var seg := SegmentOf(req);
            var all := d.buf + seg.data;
            && (o.resp.Some? && !IsAbort(o.resp.value) <==> Extends(d, seg))
            && (if Extends(d, seg) && !seg.last then o.server.transfer == Some(d.(buf := all, toggle := !d.toggle))
                else o.server.transfer.None?)
            && (if Extends(d, seg) && seg.last then
                  && DecodeLe(d.dataType, all).Ok? && DecodeLe(d.dataType, all).value.Type() == d.dataType
                  && o.od == Stored(od, d.addr, DecodeLe(d.dataType, all).value)
                else o.od == od)
  {
    var seg := SegmentOf(req);
    AckIsNoAbort(seg.toggle);
    DecodedShape(d.dataType, d.buf + seg.data);
    hide AddressedFrame, SegmentFrame, DecodeLe, SegmentLength;
    assert forall addr, code :: IsAbort(EncodeAbort(addr, code)) by { AbortIsAbort(); }
    hide EncodeAbort, IsAbort;
  }

  lemma AbortIsAbort()
    ensures forall addr, code :: IsAbort(EncodeAbort(addr, code))
  {
  }

  lemma SegmentWithoutTransfer(s: Server, od: Dict, req: Frame)
    requires Specifier(req) == CCS_DOWNLOAD_SEGMENT && (s.transfer.Some? ==> s.transfer.value.Upload?)
    ensures var o := DownloadSegment(s, od, req);
            o.resp.Some? && IsAbort(o.resp.value) && o.server.transfer.None? && o.od == od
  {
    hide SegmentLength, Le16, Le32;
  }

  /** The answer to a segmented upload initiate. */
  predicate StartsUpload(e: Exchange) {
    e.Accepted() && Specifier(e.req) == CCS_UPLOAD_INITIATE && e.resp.value[0] & EXPEDITED == 0
  }

  /**
    Requests that are neither segments nor aborts leave a transfer as it is unless they are accepted
    as the start of another: expedited exchanges, rejected initiates and unknown commands do not
    disturb it.
   */
  lemma OthersDoNotDisturb(s: Server, od: Dict, req: Frame)
    requires s.Valid() && Specifier(req) !in {CCS_DOWNLOAD_SEGMENT, CCS_UPLOAD_SEGMENT, CS_ABORT}
    ensures var o := ServerStep(s, od, req);
            var e := Exchange(req, o.resp);
            !StartsDownload(e) && !StartsUpload(e) ==> o.server.transfer == s.transfer
  {
    if Specifier(req) == CCS_DOWNLOAD_INITIATE {
      InitiateTransfer(s, od, req);
    } else if Specifier(req) == CCS_UPLOAD_INITIATE {
      UploadInitiateTransfer(s, od, req);
    }
    hide DownloadInitiate, UploadInitiate, IsAbort;
  }

  lemma UploadInitiateTransfer(s: Server, od: Dict, req: Frame)
    requires Specifier(req) == CCS_UPLOAD_INITIATE
    ensures var o := UploadInitiate(s, od, req);
            && o.od == od
            && (if StartsUpload(Exchange(req, o.resp)) then o.server.transfer.Some? && o.server.transfer.value.Upload?
                else o.server.transfer == s.transfer)
  {
    hide AddressOf, Le16, Le32;
  }

  /** Everything but an accepted start or segment leaves the download as it is, or ends it. */
  lemma OthersKeepOrEnd(s: Server, od: Dict, req: Frame)
    requires s.Valid()
    requires var e := Exchange(req, ServerStep(s, od, req).resp); !StartsDownload(e) && !ContinuesDownload(e)
    ensures var o := ServerStep(s, od, req);
            o.server.transfer == s.transfer || o.server.transfer.None? || o.server.transfer.value.Upload?
  {
    if Specifier(req) == CCS_DOWNLOAD_INITIATE {
      InitiateTransfer(s, od, req);
    } else if Specifier(req) == CCS_UPLOAD_INITIATE {
      UploadInitiateTransfer(s, od, req);
    } else if Specifier(req) == CCS_DOWNLOAD_SEGMENT && s.transfer.Some? && s.transfer.value.Upload? {
      SegmentWithoutTransfer(s, od, req);
    }
    hide DownloadInitiate, UploadInitiate, DecodeDataSegment, Commit, EncodeAbort, EncodeDataSegment, IsAbort,
      EncodeDownloadSegmentResponse, StartsUpload;
  }

  /** Appending an accepted segment to what the bus showed. */
  lemma ObserveSegment(history: seq<Exchange>, e: Exchange)
    requires ContinuesDownload(e) && Observe(history).Some?
    ensures var seen := Observe(history).value;
            var segments := seen.segments + [SegmentOf(e.req)];
            && Observe(history + [e]) == Some(seen.(segments := segments))
            && Joined(segments) == Joined(seen.segments) + SegmentOf(e.req).data
  {
    assert (history + [e])[..|history|] == history;
    var seen := Observe(history).value;
    var segments := seen.segments + [SegmentOf(e.req)];
    assert segments[..|segments| - 1] == seen.segments;
    hide SegmentOf, IsAbort;
  }

  lemma ObserveOther(history: seq<Exchange>, e: Exchange)
    requires !ContinuesDownload(e)
    ensures Observe(history + [e]) ==
            if StartsDownload(e) then Some(Observed(AddressOf(e.req), WordOf(e.req) as int, [])) else Observe(history)
  {
    assert (history + [e])[..|history|] == history;
    hide ContinuesDownload, StartsDownload, AddressOf, WordOf;
  }

  /** One more segment on a tracked download. */
  lemma TracksExtends(seen: Observed, d: Transfer, od: Dict, seg: Segment)
    requires d.Download? && Tracks(Some(seen), d, od) && Extends(d, seg)
    ensures var segments := seen.segments + [seg];
            && Joined(segments) == d.buf + seg.data && Alternates(segments) && OnlyEndIsLast(segments)
            && (!seg.last ==>
                  Tracks(Some(seen.(segments := segments)), d.(buf := d.buf + seg.data, toggle := !d.toggle), od))
  {
    assert (seen.segments + [seg])[..|seen.segments|] == seen.segments;
  }

  lemma SegmentTracked(run: Run, req: Frame)
    requires run.server.Valid() && Tracking(run)
    requires Specifier(req) == CCS_DOWNLOAD_SEGMENT && run.server.transfer.Some? && run.server.transfer.value.Download?
    ensures Tracking(Next(run, req))
  {
    var d := run.server.transfer.value;
    var seg := SegmentOf(req);
    assert TransferOwner(d, run.od);
    SegmentTransfer(run.server, run.od, req, d);
    SegmentIsDownload(run.server, run.od, req);
    if Extends(d, seg) && !seg.last {
      ObserveSegment(run.history, Exchange(req, ServerStep(run.server, run.od, req).resp));
      TracksExtends(Observe(run.history).value, d, run.od, seg);
    }
    hide ServerStep, DownloadSegment, SegmentOf, IsAbort, Observe, Tracks, Extends, Joined, TransferOwner;
  }

  lemma SegmentIsDownload(s: Server, od: Dict, req: Frame)
    requires s.Valid() && Specifier(req) == CCS_DOWNLOAD_SEGMENT
    ensures ServerStep(s, od, req) == DownloadSegment(s, od, req)
  {
    hide DownloadSegment;
  }

  lemma InitiateTracked(run: Run, req: Frame)
    requires run.server.Valid() && Tracking(run)
    requires StartsDownload(Exchange(req, ServerStep(run.server, run.od, req).resp))
    ensures Tracking(Next(run, req))
  {
    InitiateTransfer(run.server, run.od, req);
    ObserveOther(run.history, Exchange(req, ServerStep(run.server, run.od, req).resp));
    hide DownloadInitiate, IsAbort, Observe, WordOf, AddressOf;
  }

  lemma OtherTracked(run: Run, req: Frame)
    requires run.server.Valid() && Tracking(run)
    requires var e := Exchange(req, ServerStep(run.server, run.od, req).resp);
             !StartsDownload(e) && !ContinuesDownload(e)
    ensures Tracking(Next(run, req))
  {
    OthersKeepOrEnd(run.server, run.od, req);
    StepSafe(run.server, run.od, req);
    var next := Next(run, req);
    ObserveOther(run.history, Exchange(req, ServerStep(run.server, run.od, req).resp));
    hide ServerStep, IsAbort, Observe, Tracks, StartsDownload, ContinuesDownload, SameExcept, Preserves;
    if next.server.transfer.Some? && next.server.transfer.value.Download? {
      PreservesTracks(Observe(run.history), next.server.transfer.value, run.od, next.od);
    }
  }

  lemma SegmentNeedsDownload(run: Run, req: Frame)
    requires run.server.Valid() && ContinuesDownload(Exchange(req, ServerStep(run.server, run.od, req).resp))
    ensures run.server.transfer.Some? && run.server.transfer.value.Download?
  {
    if run.server.transfer.None? || run.server.transfer.value.Upload? {
      SegmentWithoutTransfer(run.server, run.od, req);
      SegmentIsDownload(run.server, run.od, req);
    }
    hide ServerStep, DownloadSegment, IsAbort;
  }

  lemma NextTracked(run: Run, req: Frame)
    requires run.server.Valid() && Tracking(run)
    ensures Tracking(Next(run, req))
  {
    var e := Exchange(req, ServerStep(run.server, run.od, req).resp);
    if StartsDownload(e) {
      InitiateTracked(run, req);
    } else if ContinuesDownload(e) {
      SegmentNeedsDownload(run, req);
      SegmentTracked(run, req);
    } else {
      OtherTracked(run, req);
    }
    hide ServerStep, Tracking, StartsDownload;
  }

  lemma {:induction false} RunTracks(od: Dict, reqs: seq<Frame>)
    ensures Tracking(RunOf(od, reqs))
  {
    if reqs != [] {
      RunTracks(od, reqs[..|reqs| - 1]);
      NextTracked(RunOf(od, reqs[..|reqs| - 1]), reqs[|reqs| - 1]);
      hide ServerStep, Tracking;
    }
  }

  /**
    After any requests: a segment is accepted only as the next part of the download the bus showed
    last, and the object is written only when that download is whole. Then the segments' toggles
    alternate from 0, their bytes together have the declared length, and the object holds exactly
    what they decode to.
   */
  lemma DownloadTrace(od: Dict, reqs: seq<Frame>, req: Frame)
    requires var run := RunOf(od, reqs);
             ContinuesDownload(Exchange(req, ServerStep(run.server, run.od, req).resp))
    ensures var before := RunOf(od, reqs);
            var after := Next(before, req);
            var seen := Observe(after.history);
            && seen.Some? && seen.value.segments != []
            && Alternates(seen.value.segments) && OnlyEndIsLast(seen.value.segments)
            && var bytes := Joined(seen.value.segments);
            && |bytes| <= MAX_STRING_LEN && seen.value.addr in before.od
            && if !SegmentOf(req).last then after.od == before.od
               else
                 && |bytes| == seen.value.size
                 && var decoded := DecodeLe(before.od[seen.value.addr].value.Type(), bytes);
                 && decoded.Ok? && after.od == Stored(before.od, seen.value.addr, decoded.value)
  {
    var run := RunOf(od, reqs);
    RunTracks(od, reqs);
    SegmentNeedsDownload(run, req);
    var d := run.server.transfer.value;
    SegmentTransfer(run.server, run.od, req, d);
    SegmentIsDownload(run.server, run.od, req);
    ObserveSegment(run.history, Exchange(req, ServerStep(run.server, run.od, req).resp));
    TracksExtends(Observe(run.history).value, d, run.od, SegmentOf(req));
    hide ServerStep, DownloadSegment, SegmentOf, IsAbort, Observe, DecodeLe, RunOf, Joined, Alternates, OnlyEndIsLast;
  }

  /**
    The other direction: while the server holds a download, a segment with the right toggle that
    fits is accepted, and the last one is stored exactly when the declared length is reached.
   */
  lemma DownloadProgress(od: Dict, reqs: seq<Frame>, req: Frame)
    requires Specifier(req) == CCS_DOWNLOAD_SEGMENT
    requires var run := RunOf(od, reqs); run.server.transfer.Some? && run.server.transfer.value.Download?
    ensures var run := RunOf(od, reqs);
            var seen := Observe(run.history);
            && seen.Some?
            && var seg, bytes := SegmentOf(req), Joined(seen.value.segments);
            ContinuesDownload(Exchange(req, ServerStep(run.server, run.od, req).resp)) <==>
              && seg.toggle == (|seen.value.segments| % 2 == 1)
              && |bytes| + |seg.data| <= MAX_STRING_LEN
              && (seg.last ==> |bytes| + |seg.data| == seen.value.size)
  {
    var run := RunOf(od, reqs);
    RunTracks(od, reqs);
    SegmentTransfer(run.server, run.od, req, run.server.transfer.value);
    SegmentIsDownload(run.server, run.od, req);
    hide ServerStep, DownloadSegment, SegmentOf, IsAbort, Observe, RunOf, Joined, Alternates;
  }

  // --- Nothing else changes the dictionary ----------------------------------

  /** The inline data of an expedited download suits the object it is for. */
  predicate SuitsInline(od: Dict, req: Frame) {
    var addr := AddressOf(req);
    && addr in od && od[addr].access.IsWritable()
    && var t := od[addr].value.Type();
    var len := ExpeditedLength(req[0], t);
    len <= 4 && (t.FixedSize().Some? ==> len == t.FixedSize().value)
  }

  function InlineValue(od: Dict, req: Frame): Result<Value>
    requires SuitsInline(od, req)
  {
    var t := od[AddressOf(req)].value.Type();
    DecodeLe(t, req[4..4 + ExpeditedLength(req[0], t)])
  }

  /** An expedited download is accepted exactly when its data suits the object, which then holds it. */
  lemma ExpeditedAcceptedIff(s: Server, od: Dict, req: Frame)
    requires Specifier(req) == CCS_DOWNLOAD_INITIATE && req[0] & EXPEDITED != 0
    ensures var o := DownloadInitiate(s, od, req);
            && (Exchange(req, o.resp).Accepted() <==> SuitsInline(od, req))
            && (if SuitsInline(od, req)
                then InlineValue(od, req).Ok? && o.od == Stored(od, AddressOf(req), InlineValue(od, req).value)
                else o.od == od)
  {
    hide AddressOf, AddressedFrame, DecodeLe, Stored;
    AbortIsAbort();
    AcknowledgeIsNoAbort(AddressOf(req));
    if SuitsInline(od, req) {
      var t := od[AddressOf(req)].value.Type();
      DecodedShape(t, req[4..4 + ExpeditedLength(req[0], t)]);
    }
    hide EncodeAbort, EncodeDownloadResponse, IsAbort;
  }

  lemma AcknowledgeIsNoAbort(addr: Address)
    ensures !IsAbort(EncodeDownloadResponse(addr))
  {
  }

  /**
    Every change of the dictionary, at any point of any run, is either an expedited download whose
    inline data suits its object and is what the object then holds, or the final segment of a
    download, which `DownloadTrace` explains.
   */
  lemma EveryChangeExplained(od: Dict, reqs: seq<Frame>, req: Frame)
    ensures var before, after := RunOf(od, reqs), Next(RunOf(od, reqs), req);
            after.od != before.od ==>
              || (&& Specifier(req) == CCS_DOWNLOAD_INITIATE && req[0] & EXPEDITED != 0
                  && SuitsInline(before.od, req) && InlineValue(before.od, req).Ok?
                  && after.od == Stored(before.od, AddressOf(req), InlineValue(before.od, req).value))
              || (&& ContinuesDownload(Exchange(req, ServerStep(before.server, before.od, req).resp))
                  && SegmentOf(req).last)
  {
    var run := RunOf(od, reqs);
    hide RunOf, SuitsInline, InlineValue, SegmentOf, Stored, IsAbort, AddressOf;
    if Specifier(req) == CCS_DOWNLOAD_INITIATE {
      InitiateChange(run.server, run.od, req);
    } else if Specifier(req) == CCS_DOWNLOAD_SEGMENT {
      SegmentChange(od, reqs, req);
    } else if Specifier(req) == CCS_UPLOAD_INITIATE {
      UploadInitiateTransfer(run.server, run.od, req);
    }
    hide DownloadInitiate, DownloadSegment, UploadInitiate;
  }

  lemma InitiateChange(s: Server, od: Dict, req: Frame)
    requires s.Valid() && Specifier(req) == CCS_DOWNLOAD_INITIATE
    ensures ServerStep(s, od, req) == DownloadInitiate(s, od, req)
    ensures DownloadInitiate(s, od, req).od != od ==>
              && req[0] & EXPEDITED != 0 && SuitsInline(od, req) && InlineValue(od, req).Ok?
              && DownloadInitiate(s, od, req).od == Stored(od, AddressOf(req), InlineValue(od, req).value)
  {
    hide DownloadExpedited, SuitsInline, InlineValue, Stored, AddressOf;
    if req[0] & EXPEDITED != 0 {
      ExpeditedAcceptedIff(s, od, req);
    }
  }

  lemma SegmentChange(od: Dict, reqs: seq<Frame>, req: Frame)
    requires Specifier(req) == CCS_DOWNLOAD_SEGMENT
    ensures var before, after := RunOf(od, reqs), Next(RunOf(od, reqs), req);
            after.od != before.od ==>
              && ContinuesDownload(Exchange(req, ServerStep(before.server, before.od, req).resp))
              && SegmentOf(req).last
  {
    var run := RunOf(od, reqs);
    RunTracks(od, reqs);
    SegmentIsDownload(run.server, run.od, req);
    hide ServerStep, DownloadSegment, SegmentOf, IsAbort, RunOf, Observe, DecodeLe;
    if run.server.transfer.Some? && run.server.transfer.value.Download? {
      SegmentTransfer(run.server, run.od, req, run.server.transfer.value);
    } else {
      SegmentWithoutTransfer(run.server, run.od, req);
    }
  }
}
