/**
  Transactions that start while replies to earlier ones are still on the bus (core/src/sdo/client.rs).
  The client does not look at the address in a download acknowledgement or an upload answer, so it
  takes a left-over one for its own: exactly when that can happen, and what it can lead to.
 */
module SdoLeftover {
  import opened Wrappers
  import opened Bytes
  import opened Datatypes
  import opened ObjectDictionaries
  import opened SdoCodec
  import opened SdoTransactions
  import opened SdoLossy
  import S = SdoServers
  import C = SdoClients

  // --- Inline values --------------------------------------------------------

  /** An inline write with any replies left over: only its one request is ever on the bus. */
  ghost predicate InlineInv(t: Transaction, od: Dict, net: Net) {
    && net.Valid() && t.write && !t.Segmented() && t.Allowed(od)
    && (net.client.Idle? || net.client.DownloadExpedited?)
    && (net.od == od || net.od == Stored(od, t.addr, t.value))
    && (net.outcome.Some? && net.outcome.value.Complete? ==> net.outcome.value.value.None?)
    && forall i :: 0 <= i < |net.requests| ==> net.requests[i] == t.Request(0)
  }

  lemma InlineServerKeeps(t: Transaction, od: Dict, net: Net)
    requires InlineInv(t, od, net)
    ensures InlineInv(t, od, ServerReceive(net))
  {
    hide S.ServerStep, Transaction.Request, Transaction.Reply;
    if net.requests != [] {
      assert net.requests[0] == t.Request(0);
      WriteInline(t, net.server, net.od);
    }
  }

  lemma InlineClientKeeps(t: Transaction, od: Dict, net: Net)
    requires InlineInv(t, od, net)
    ensures InlineInv(t, od, ClientReceive(net))
  {
    hide Transaction.Request, Stored, AddressOf;
  }

  lemma InlineStepKeeps(t: Transaction, od: Dict, net: Net, action: Action)
    requires InlineInv(t, od, net)
    ensures InlineInv(t, od, Step(net, action))
  {
    hide Transaction.Request, Stored, ServerReceive, ClientReceive;
    match action
    case ServerReceives => InlineServerKeeps(t, od, net);
    case ClientReceives => InlineClientKeeps(t, od, net);
    case _ =>
  }

  lemma {:induction false} InlineRunKeeps(t: Transaction, od: Dict, net: Net, actions: seq<Action>)
    requires InlineInv(t, od, net)
    ensures InlineInv(t, od, Run(net, actions))
  {
    hide Step, InlineInv;
    if actions != [] {
      assert net.Valid() by { InlineIsValid(t, od, net); }
      InlineRunKeeps(t, od, net, actions[..|actions| - 1]);
      InlineStepKeeps(t, od, Run(net, actions[..|actions| - 1]), actions[|actions| - 1]);
    }
  }

  lemma InlineIsValid(t: Transaction, od: Dict, net: Net)
    requires InlineInv(t, od, net)
    ensures net.Valid()
  {
  }

  /** Writing the value an object already holds is safe whatever is left over. */
  lemma InlineWriteOfSame(s: S.Server, od: Dict, addr: Address, v: Value, left: seq<Frame>, actions: seq<Action>)
    requires s.Valid() && addr in od && od[addr].access.IsWritable() && od[addr].value == v && C.Expedites(v)
    ensures MayEndAs(od, addr, v, Run(Writing(s, od, addr, v, left), actions))
  {
    hide C.WriteRequest, Run;
    var t := Transaction(true, addr, v);
    InlineRunKeeps(t, od, Writing(s, od, addr, v, left), actions);
  }

  function LoseReplies(n: nat): seq<Action> {
    seq(n, _ => LoseReply(0))
  }

  lemma {:induction false} RepliesLost(net: Net, n: nat)
    requires net.Valid() && n <= |net.replies|
    ensures Run(net, LoseReplies(n)) == net.(replies := net.replies[n..])
  {
    if n > 0 {
      RepliesLost(net, n - 1);
      assert LoseReplies(n)[..n - 1] == LoseReplies(n - 1);
    }
  }

  /** An acknowledgement left over completes an inline write that the server has not even seen. */
  lemma LeftAcknowledgementCompletes(s: S.Server, od: Dict, addr: Address, v: Value, left: seq<Frame>, i: nat)
    requires s.Valid() && C.Expedites(v) && i < |left| && AcknowledgesDownload(left[i])
    ensures var begin := Writing(s, od, addr, v, left);
            var end := Run(begin, LoseReplies(i) + [ClientReceives]);
            end.outcome == Some(C.Complete(None)) && end.od == od
  {
    hide C.WriteRequest, AddressOf;
    var begin := Writing(s, od, addr, v, left);
    RepliesLost(begin, i);
    assert (LoseReplies(i) + [ClientReceives])[..i] == LoseReplies(i);
  }

  /**
    For values sent inline: completion means written in every run exactly when no acknowledgement of
    an earlier download is left on the bus, or the object holds the value already.
   */
  lemma InlineWriteSafeIff(s: S.Server, od: Dict, addr: Address, v: Value, left: seq<Frame>)
    requires s.Valid() && addr in od && od[addr].access.IsWritable() && od[addr].value.Type() == v.Type()
    requires C.Expedites(v)
    ensures var begin := Writing(s, od, addr, v, left);
            (forall actions :: MayEndAs(od, addr, v, Run(begin, actions))) <==>
            od[addr].value == v || forall i :: 0 <= i < |left| ==> !AcknowledgesDownload(left[i])
  {
    hide C.WriteRequest, Run, AcknowledgesDownload, C.ClientStep;
    var begin := Writing(s, od, addr, v, left);
    if i :| 0 <= i < |left| && AcknowledgesDownload(left[i]) {
      if od[addr].value == v {
        forall actions ensures MayEndAs(od, addr, v, Run(begin, actions)) {
          InlineWriteOfSame(s, od, addr, v, left, actions);
        }
      } else {
        LeftAcknowledgementCompletes(s, od, addr, v, left, i);
        assert !MayEndAs(od, addr, v, Run(begin, LoseReplies(i) + [ClientReceives]));
      }
    } else {
      forall actions ensures MayEndAs(od, addr, v, Run(begin, actions)) {
        WriteOverLossyBus(s, od, addr, v, left, actions);
      }
    }
  }

  // --- Values sent in segments ----------------------------------------------

  lemma {:induction false} RunThen(net: Net, first: seq<Action>, second: seq<Action>)
    requires net.Valid()
    ensures Run(net, first + second) == Run(Run(net, first), second)
    decreases |second|
  {
    hide Step;
    if second == [] {
      assert first + second == first;
    } else {
      var n := |second| - 1;
      RunThen(net, first, second[..n]);
      assert (first + second)[..|first + second| - 1] == first + second[..n];
    }
  }

  /** The server and the client each receive once. */
  const RELAY: seq<Action> := [ServerReceives, ClientReceives]

  function Relays(n: nat): seq<Action> {
    if n == 0 then [] else Relays(n - 1) + RELAY
  }

  lemma RelayRuns(net: Net)
    requires net.Valid()
    ensures Run(net, RELAY) == ClientReceive(ServerReceive(net))
  {
    hide ServerReceive, ClientReceive;
    assert RELAY[..1] == [ServerReceives] && RELAY[..1][..0] == [];
    assert Run(net, []) == net;
    assert Run(net, [ServerReceives]) == ServerReceive(net) by { assert [ServerReceives][..0] == []; }
  }

  /** Nothing but request k is on the bus, and the server serves transaction t. */
  ghost predicate Underway(t: Transaction, od: Dict, k: nat, net: Net) {
    && net.Valid() && t.Segmented() && 1 <= k < t.Exchanges()
    && net.client == t.ClientAt(k) && net.outcome.None?
    && net.requests == [t.Request(k)] && net.replies == []
    && ServerAt(t, od, k, net.server, net.od) && Serving(t, k, net.server)
  }

  lemma UnderwayAdvances(t: Transaction, od: Dict, k: nat, net: Net)
    requires Underway(t, od, k, net)
    ensures var next := ClientReceive(ServerReceive(net));
            if k + 1 < t.Exchanges() then Underway(t, od, k + 1, next)
            else next.outcome == Some(C.Complete(t.Result())) && next.od == t.DictAt(od, t.Exchanges())
  {
    hide S.ServerStep, C.ClientStep, Transaction.Request, Transaction.Reply, Transaction.ClientAt, Serving;
    ServerAdvances(t, od, k, net.server, net.od);
    ClientAdvances(t, k);
  }

  lemma {:induction false} UnderwayCompletes(t: Transaction, od: Dict, net: Net, n: nat)
    requires Underway(t, od, 1, net) && 1 <= n < t.Exchanges()
    ensures var next := Run(net, Relays(n));
            if n + 1 < t.Exchanges() then Underway(t, od, n + 1, next)
            else next.outcome == Some(C.Complete(t.Result())) && next.od == t.DictAt(od, t.Exchanges())
  {
    hide Underway, ClientReceive, ServerReceive;
    UnderwayIsValid(t, od, 1, net);
    if n == 1 {
      assert Relays(1) == RELAY by { assert Relays(0) == []; }
      RelayRuns(net);
      UnderwayAdvances(t, od, 1, net);
    } else {
      UnderwayCompletes(t, od, net, n - 1);
      RunThen(net, Relays(n - 1), RELAY);
      RelayRuns(Run(net, Relays(n - 1)));
      UnderwayAdvances(t, od, n, Run(net, Relays(n - 1)));
    }
  }

  lemma UnderwayIsValid(t: Transaction, od: Dict, k: nat, net: Net)
    requires Underway(t, od, k, net)
    ensures net.Valid() && k < t.Exchanges()
  {
  }

  /** The server holds a download of as many bytes, but into another object. */
  function Misdirected(other: Address, v: Value): S.Server {
    S.Server(Some(S.Download(other, DomainType, [], v.Size(), false)), None)
  }

  function AsDomain(v: Value): Value {
    v.EncodedLength();
    Domain(v.Encoded())
  }

  /** From the first segment on, a write to any address looks the same. */
  lemma SegmentsDoNotShowAddress(addr: Address, other: Address, v: Value)
    requires !C.Expedites(v)
    ensures var t, u := Transaction(true, addr, v), Transaction(true, other, AsDomain(v));
            && u.Segmented() && u.Exchanges() == t.Exchanges() > 1
            && u.ClientAt(1) == t.ClientAt(1) && u.Request(1) == t.Request(1)
            && Misdirected(other, v).transfer == Some(u.TransferAt(1))
  {
    v.EncodedLength();
    var t, u := Transaction(true, addr, v), Transaction(true, other, AsDomain(v));
    assert u.Data() == t.Data();
    assert u.Data()[..u.Offset(0)] == [];
  }

  lemma AcknowledgementStarts(t: Transaction, f: Frame)
    requires t.write && t.Segmented() && AcknowledgesDownload(f)
    ensures C.ClientStep(t.ClientAt(0), f) == C.Turn(t.ClientAt(1), C.Send(t.Request(1)))
  {
    hide C.SegmentTurn, AddressOf, Transaction.Request;
    ClientStarts(t, 0);
  }

  lemma WritingBegins(s: S.Server, od: Dict, addr: Address, v: Value, left: seq<Frame>)
    ensures Writing(s, od, addr, v, left) == Begin(Transaction(true, addr, v), s, od, left)
  {
    hide C.WriteState, C.WriteRequest;
  }

  /** The i-th left-over reply reaches the client, and the client's first request is lost. */
  function Misleading(left: seq<Frame>, i: nat): seq<Action>
    requires i < |left|
  {
    LoseReplies(i) + [ClientReceives] + [LoseRequest(0)] + LoseReplies(|left| - i - 1)
  }

  lemma ClientMisled(begin: Net, i: nat, next: C.State, sent: Frame)
    requires begin.Valid() && begin.outcome.None? && i < |begin.replies| && |begin.requests| == 1 && next.Valid()
    requires C.ClientStep(begin.client, begin.replies[i]) == C.Turn(next, C.Send(sent))
    ensures Run(begin, LoseReplies(i) + [ClientReceives]) ==
            begin.(client := next, requests := begin.requests + [sent], replies := begin.replies[i + 1..])
  {
    hide C.ClientStep;
    RepliesLost(begin, i);
    assert (LoseReplies(i) + [ClientReceives])[..i] == LoseReplies(i);
    assert begin.replies[i..][1..] == begin.replies[i + 1..];
  }

  /** Only what the misled client sent is left on the bus. */
  lemma RequestLost(begin: Net, i: nat, next: C.State, sent: Frame)
    requires begin.Valid() && begin.outcome.None? && i < |begin.replies| && |begin.requests| == 1 && next.Valid()
    requires C.ClientStep(begin.client, begin.replies[i]) == C.Turn(next, C.Send(sent))
    ensures Run(begin, Misleading(begin.replies, i)) == begin.(client := next, requests := [sent], replies := [])
  {
    hide C.ClientStep;
    ClientMisled(begin, i, next, sent);
    var first, n := LoseReplies(i) + [ClientReceives], |begin.replies| - i - 1;
    var lost := first + [LoseRequest(0)];
    assert lost[..|first|] == first;
    assert Run(begin, lost) == begin.(client := next, requests := [sent], replies := begin.replies[i + 1..]);
    RunThen(begin, lost, LoseReplies(n));
    RepliesLost(Run(begin, lost), n);
  }

  /**
    A left-over acknowledgement, a lost initiate and a server that holds a download of the same
    length into another object: all segments are accepted there, the client reports completion, and
    what changed is the other object.
   */
  lemma LeftAcknowledgementMisdirects(
    od: Dict, addr: Address, other: Address, v: Value, left: seq<Frame>, i: nat)
    requires !C.Expedites(v) && i < |left| && AcknowledgesDownload(left[i])
    requires other in od && od[other].access.IsWritable() && od[other].value.Domain?
    ensures Misdirected(other, v).Valid() && Transaction(true, addr, v).Exchanges() > 1
    ensures var begin := Writing(Misdirected(other, v), od, addr, v, left);
            var end := Run(begin, Misleading(left, i) + Relays(Transaction(true, addr, v).Exchanges() - 1));
            end.outcome == Some(C.Complete(None)) && end.od == Stored(od, other, AsDomain(v))
  {
    hide Run, Underway, Relays, Misleading, AcknowledgesDownload, C.ClientStep, Transaction.Request,
      Transaction.ClientAt, Transaction.Exchanges, Transaction.TransferAt, Writing;
    v.EncodedLength();
    var s, t, u := Misdirected(other, v), Transaction(true, addr, v), Transaction(true, other, AsDomain(v));
    SegmentsDoNotShowAddress(addr, other, v);
    WritingBegins(s, od, addr, v, left);
    AcknowledgementStarts(t, left[i]);
    var begin := Begin(t, s, od, left);
    RequestLost(begin, i, t.ClientAt(1), t.Request(1));
    RunThen(begin, Misleading(left, i), Relays(t.Exchanges() - 1));
    ServerIsUnderway(u, s, od);
    UnderwayCompletes(u, od, Net(u.ClientAt(1), None, s, od, [u.Request(1)], []), u.Exchanges() - 1);
  }

  /** One accepted request to the other object puts a new server into that state. */
  lemma MisdirectedIsReachable(od: Dict, other: Address, v: Value)
    requires !C.Expedites(v) && other in od && od[other].access.IsWritable() && od[other].value.Domain?
    ensures S.ServerStep(S.NEW_SERVER, od, C.WriteRequest(other, AsDomain(v))).server == Misdirected(other, v)
  {
    v.EncodedLength();
    var u := Transaction(true, other, AsDomain(v));
    hide S.ServerStep, C.WriteRequest;
    WriteStarts(u, S.NEW_SERVER, od);
    assert u.Data()[..u.Offset(0)] == [];
  }

  lemma ServerIsUnderway(u: Transaction, s: S.Server, od: Dict)
    requires s.Valid() && u.Segmented() && u.Allowed(od) && s.transfer == Some(u.TransferAt(1))
    ensures 1 < u.Exchanges() && Underway(u, od, 1, Net(u.ClientAt(1), None, s, od, [u.Request(1)], []))
  {
    hide Transaction.Request, Transaction.TransferAt;
  }

  // --- When every run is safe -----------------------------------------------

  /** Every run from every valid server and every dictionary that allows the write. */
  ghost predicate WriteSafe(addr: Address, v: Value, left: seq<Frame>) {
    forall s: S.Server, od: Dict, actions: seq<Action> | s.Valid() && Transaction(true, addr, v).Allowed(od) ::
      MayEndAs(od, addr, v, Run(Writing(s, od, addr, v, left), actions))
  }

  function OtherBytes(x: ByteString): (y: ByteString)
    ensures y != x
  {
    if x == [] then [0] else []
  }

  /** Another value of the same type. */
  function OtherValue(v: Value): Value {
    match v
    case Boolean(b) => Boolean(!b)
    case Integer8(x) => Integer8(if x == 0 then 1 else 0)
    case Unsigned8(x) => Unsigned8(if x == 0 then 1 else 0)
    case Integer16(x) => Integer16(if x == 0 then 1 else 0)
    case Unsigned16(x) => Unsigned16(if x == 0 then 1 else 0)
    case Integer32(x) => Integer32(if x == 0 then 1 else 0)
    case Unsigned32(x) => Unsigned32(if x == 0 then 1 else 0)
    case Real32(x) => Real32(if x == 0 then 1 else 0)
    case Integer64(x) => Integer64(if x == 0 then 1 else 0)
    case Unsigned64(x) => Unsigned64(if x == 0 then 1 else 0)
    case Real64(x) => Real64(if x == 0 then 1 else 0)
    case VisibleString(x) => VisibleString(OtherBytes(x))
    case OctetString(x) => OctetString(OtherBytes(x))
    case Domain(x) => Domain(OtherBytes(x))
  }

  lemma OtherValueDiffers(v: Value)
    ensures OtherValue(v) != v && OtherValue(v).Type() == v.Type()
  {
  }

  lemma InlineUnsafe(addr: Address, v: Value, left: seq<Frame>, i: nat)
    requires C.Expedites(v) && i < |left| && AcknowledgesDownload(left[i])
    ensures !WriteSafe(addr, v, left)
  {
    hide Run, Writing, OtherValue, LoseReplies, AcknowledgesDownload;
    var od: Dict := map[addr := Entry(OtherValue(v), Rw)];
    OtherValueDiffers(v);
    LeftAcknowledgementCompletes(S.NEW_SERVER, od, addr, v, left, i);
    assert Transaction(true, addr, v).Allowed(od);
    assert !MayEndAs(od, addr, v, Run(Writing(S.NEW_SERVER, od, addr, v, left), LoseReplies(i) + [ClientReceives]));
  }

  lemma SegmentedUnsafe(addr: Address, v: Value, left: seq<Frame>, i: nat)
    requires !C.Expedites(v) && i < |left| && AcknowledgesDownload(left[i])
    ensures !WriteSafe(addr, v, left)
  {
    hide Run, Writing, OtherValue, Misleading, Relays, AcknowledgesDownload, Misdirected, Transaction.Exchanges;
    var other := Address(addr.index, addr.subindex + 1);
    NextSubindexDiffers(addr);
    OtherValueDiffers(AsDomain(v));
    var od: Dict := map[addr := Entry(v, Rw), other := Entry(OtherValue(AsDomain(v)), Rw)];
    LeftAcknowledgementMisdirects(od, addr, other, v, left, i);
    assert Transaction(true, addr, v).Allowed(od);
    var actions := Misleading(left, i) + Relays(Transaction(true, addr, v).Exchanges() - 1);
    var end := Run(Writing(Misdirected(other, v), od, addr, v, left), actions);
    assert end.od[other].value == AsDomain(v) != od[other].value;
    assert !MayEndAs(od, addr, v, end);
  }

  lemma NextSubindexDiffers(addr: Address)
    ensures Address(addr.index, addr.subindex + 1) != addr
  {
  }

  /**
    A write of any value, inline or in segments, ends in every run as it should, and completes only
    if written, exactly when no acknowledgement of an earlier download is left on the bus.
   */
  lemma WriteSafeIff(addr: Address, v: Value, left: seq<Frame>)
    ensures WriteSafe(addr, v, left) <==> forall i :: 0 <= i < |left| ==> !AcknowledgesDownload(left[i])
  {
    if i :| 0 <= i < |left| && AcknowledgesDownload(left[i]) {
      if C.Expedites(v) {
        InlineUnsafe(addr, v, left, i);
      } else {
        SegmentedUnsafe(addr, v, left, i);
      }
    } else {
      hide Run, Writing, AcknowledgesDownload;
      forall s: S.Server, od: Dict, actions: seq<Action> | s.Valid() && Transaction(true, addr, v).Allowed(od)
        ensures MayEndAs(od, addr, v, Run(Writing(s, od, addr, v, left), actions))
      {
        WriteOverLossyBus(s, od, addr, v, left, actions);
      }
    }
  }

  // --- Reads ----------------------------------------------------------------

  /** Every run from every valid server and every dictionary that allows the read. */
  ghost predicate ReadSafe(addr: Address, dataType: DataType, left: seq<Frame>) {
    forall s: S.Server, od: Dict, actions: seq<Action> |
        s.Valid() && addr in od && od[addr].access.IsReadable() && od[addr].value.Type() == dataType ::
      ReadMayEndAs(od, addr, Run(Reading(s, od, addr, dataType, left), actions))
  }

  /** A left-over inline answer of the right length completes the read with its own value. */
  lemma LeftAnswerCompletes(s: S.Server, od: Dict, addr: Address, dataType: DataType, left: seq<Frame>, i: nat)
    requires s.Valid() && i < |left| && DecodeUploadExpeditedResponse(left[i], dataType).Ok?
    ensures var end := Run(Reading(s, od, addr, dataType, left), LoseReplies(i) + [ClientReceives]);
            && end.outcome == Some(C.Complete(Some(DecodeUploadExpeditedResponse(left[i], dataType).value.1)))
            && end.od == od
  {
    hide EncodeUploadRequest, AddressOf, DecodeLe, IndicatedLength;
    var begin := Reading(s, od, addr, dataType, left);
    RepliesLost(begin, i);
    assert (LoseReplies(i) + [ClientReceives])[..i] == LoseReplies(i);
  }

  lemma InlineReadUnsafe(addr: Address, dataType: DataType, left: seq<Frame>, i: nat)
    requires i < |left| && DecodeUploadExpeditedResponse(left[i], dataType).Ok?
    ensures !ReadSafe(addr, dataType, left)
  {
    var w := DecodeUploadExpeditedResponse(left[i], dataType).value.1;
    AnswerHasType(left[i], dataType);
    OtherValueDiffers(w);
    hide Run, Reading, OtherValue, LoseReplies, DecodeUploadExpeditedResponse;
    var od: Dict := map[addr := Entry(OtherValue(w), Ro)];
    LeftAnswerCompletes(S.NEW_SERVER, od, addr, dataType, left, i);
    var end := Run(Reading(S.NEW_SERVER, od, addr, dataType, left), LoseReplies(i) + [ClientReceives]);
    assert !ReadMayEndAs(od, addr, end);
  }

  lemma AnswerHasType(f: Frame, dataType: DataType)
    requires DecodeUploadExpeditedResponse(f, dataType).Ok?
    ensures DecodeUploadExpeditedResponse(f, dataType).value.1.Type() == dataType
  {
    DecodedShape(dataType, f[4..4 + IndicatedLength(f[0])]);
    hide DecodeLe, IndicatedLength, AddressOf;
  }

  /** A value of each type. */
  function Sample(t: DataType): (v: Value)
    ensures v.Type() == t && (C.Expedites(v) <==> 1 <= v.Type().Size() <= 4)
  {
    match t
    case BooleanType => Boolean(false)
    case Integer8Type => Integer8(0)
    case Unsigned8Type => Unsigned8(0)
    case Integer16Type => Integer16(0)
    case Unsigned16Type => Unsigned16(0)
    case Integer32Type => Integer32(0)
    case Unsigned32Type => Unsigned32(0)
    case Real32Type => Real32(0)
    case Integer64Type => Integer64(0)
    case Unsigned64Type => Unsigned64(0)
    case Real64Type => Real64(0)
    case VisibleStringType => VisibleString([])
    case OctetStringType => OctetString([])
    case DomainType => Domain([])
  }

  /** The server is about to send the bytes of another value. */
  function Uploading(other: Address, w: Value): S.Server {
    S.Server(Some(S.Upload(other, w.Encoded(), 0, false)), None)
  }

  lemma AnswerStarts(dataType: DataType, f: Frame)
    requires DecodeUploadExpeditedResponse(f, dataType).Err? && DecodeUploadInitiateSegmentedResponse(f).Ok?
    ensures C.ClientStep(C.UploadInit(dataType), f) ==
            C.Turn(C.UploadSeg(dataType, [], false), C.Send(EncodeUploadSegmentRequest(false)))
  {
    hide DecodeUploadExpeditedResponse, AddressOf;
  }

  /** The misled client polls, and the server's only segment gives it the other value. */
  lemma ShortUploadCompletes(od: Dict, other: Address, w: Value)
    requires C.Expedites(w)
    ensures Uploading(other, w).Valid()
    ensures var net := Net(C.UploadSeg(w.Type(), [], false), None, Uploading(other, w), od,
                           [EncodeUploadSegmentRequest(false)], []);
            var end := Run(net, RELAY);
            end.outcome == Some(C.Complete(Some(w))) && end.od == od
  {
    w.EncodedLength();
    var poll, s := EncodeUploadSegmentRequest(false), Uploading(other, w);
    var segment := EncodeDataSegment(w.Encoded(), false, true).value;
    ToggleFrame(CCS_UPLOAD_SEGMENT, false);
    PollDispatched(s, od, poll);
    DataSegmentRoundTrip(w.Encoded(), false, true);
    ShortUploadServed(s, od, other, w, poll);
    ShortUploadReceived(w, segment);
    hide S.ServerStep, C.ClientStep, EncodeDataSegment, EncodeUploadSegmentRequest, Value.Encoded, Value.Type;
    RelayRuns(Net(C.UploadSeg(w.Type(), [], false), None, s, od, [poll], []));
  }

  lemma ShortUploadServed(s: S.Server, od: Dict, other: Address, w: Value, poll: Frame)
    requires s == Uploading(other, w) && s.Valid() && C.Expedites(w) && |w.Encoded()| == w.Size()
    requires Specifier(poll) == CCS_UPLOAD_SEGMENT && poll[0] & TOGGLE == 0
    ensures S.ServerStep(s, od, poll) ==
            S.Outcome(s.(transfer := None), od, Some(EncodeDataSegment(w.Encoded(), false, true).value))
  {
    hide S.ServerStep, EncodeDataSegment, Value.Encoded, Value.Size;
    PollDispatched(s, od, poll);
    assert w.Encoded()[0..|w.Encoded()|] == w.Encoded();
  }

  lemma ShortUploadReceived(w: Value, segment: Frame)
    requires DecodeDataSegment(segment) == Ok(Segment(false, true, w.Encoded())) && |w.Encoded()| <= MAX_STRING_LEN
    requires Specifier(segment) == CCS_DOWNLOAD_SEGMENT
    ensures C.ClientStep(C.UploadSeg(w.Type(), [], false), segment) == C.Turn(C.Idle, C.Complete(Some(w)))
  {
    hide C.ClientStep, C.UploadSegTurn, DecodeDataSegment, DecodeLe, Value.Encoded, Value.Type;
    var state := C.UploadSeg(w.Type(), [], false);
    DataSegmentDispatched(state, segment);
    DecodeEncode(w);
    assert [] + w.Encoded() == w.Encoded();
    SegmentReceived(state, segment, true, w.Encoded());
  }

  /** The misled client polls, and the server's segments give it the other value. */
  lemma LongUploadCompletes(od: Dict, other: Address, w: Value)
    requires !C.Expedites(w) && other in od && od[other].access.IsReadable() && od[other].value == w
    ensures Uploading(other, w).Valid()
    ensures var u := Transaction(false, other, w);
            var net := Net(C.UploadSeg(w.Type(), [], false), None, Uploading(other, w), od,
                           [EncodeUploadSegmentRequest(false)], []);
            && u.Exchanges() > 1
            && var end := Run(net, Relays(u.Exchanges() - 1));
            end.outcome == Some(C.Complete(Some(w))) && end.od == od
  {
    hide Run, Underway, Relays, C.ClientStep;
    w.EncodedLength();
    var u, s := Transaction(false, other, w), Uploading(other, w);
    var net := Net(C.UploadSeg(w.Type(), [], false), None, s, od, [EncodeUploadSegmentRequest(false)], []);
    assert u.Data()[..u.Offset(0)] == [];
    ServerIsUnderway(u, s, od);
    hide EncodeUploadSegmentRequest;
    UnderwayCompletes(u, od, net, u.Exchanges() - 1);
  }

  /** How many relays an upload of this value takes once it has started. */
  function UploadRelays(other: Address, w: Value): nat {
    if C.Expedites(w) then 1 else Transaction(false, other, w).Exchanges() - 1
  }

  /**
    A left-over answer that starts an upload, the request lost and a server about to send another
    object's bytes: the read completes with the other object's value.
   */
  lemma LeftAnswerMisdirects(od: Dict, addr: Address, other: Address, w: Value, left: seq<Frame>, i: nat)
    requires i < |left| && DecodeUploadExpeditedResponse(left[i], w.Type()).Err?
    requires DecodeUploadInitiateSegmentedResponse(left[i]).Ok?
    requires other in od && od[other].access.IsReadable() && od[other].value == w
    ensures Uploading(other, w).Valid()
    ensures var begin := Reading(Uploading(other, w), od, addr, w.Type(), left);
            var end := Run(begin, Misleading(left, i) + Relays(UploadRelays(other, w)));
            end.outcome == Some(C.Complete(Some(w))) && end.od == od
  {
    hide Run, Relays, Misleading, C.ClientStep, EncodeUploadSegmentRequest, EncodeUploadRequest,
      DecodeUploadExpeditedResponse, DecodeUploadInitiateSegmentedResponse, Value.Type, Value.Encoded;
    w.EncodedLength();
    var begin := Reading(Uploading(other, w), od, addr, w.Type(), left);
    AnswerStarts(w.Type(), left[i]);
    RequestLost(begin, i, C.UploadSeg(w.Type(), [], false), EncodeUploadSegmentRequest(false));
    RunThen(begin, Misleading(left, i), Relays(UploadRelays(other, w)));
    if C.Expedites(w) {
      ShortUploadCompletes(od, other, w);
      OneRelay();
    } else {
      LongUploadCompletes(od, other, w);
    }
  }

  lemma OneRelay()
    ensures Relays(1) == RELAY
  {
    assert Relays(0) == [];
  }

  lemma SegmentedReadUnsafe(addr: Address, dataType: DataType, left: seq<Frame>, i: nat)
    requires i < |left| && DecodeUploadExpeditedResponse(left[i], dataType).Err?
    requires DecodeUploadInitiateSegmentedResponse(left[i]).Ok?
    ensures !ReadSafe(addr, dataType, left)
  {
    var w := Sample(dataType);
    NextSubindexDiffers(addr);
    OtherValueDiffers(w);
    hide Run, Reading, OtherValue, Sample, Uploading, Misleading, Relays, UploadRelays, DecodeUploadExpeditedResponse,
      DecodeUploadInitiateSegmentedResponse, Value.Type;
    var other := Address(addr.index, addr.subindex + 1);
    var od: Dict := map[addr := Entry(OtherValue(w), Ro), other := Entry(w, Ro)];
    LeftAnswerMisdirects(od, addr, other, w, left, i);
    var actions := Misleading(left, i) + Relays(UploadRelays(other, w));
    assert !ReadMayEndAs(od, addr, Run(Reading(Uploading(other, w), od, addr, dataType, left), actions));
  }

  /**
    A read ends in every run as it should, and completes only with the stored value, exactly when no
    reply that answers an upload of its type is left on the bus.
   */
  lemma ReadSafeIff(addr: Address, dataType: DataType, left: seq<Frame>)
    ensures ReadSafe(addr, dataType, left) <==> forall i :: 0 <= i < |left| ==> !AnswersUpload(dataType, left[i])
  {
    hide Run, Reading, DecodeUploadExpeditedResponse, DecodeUploadInitiateSegmentedResponse;
    if i :| 0 <= i < |left| && AnswersUpload(dataType, left[i]) {
      if DecodeUploadExpeditedResponse(left[i], dataType).Ok? {
        InlineReadUnsafe(addr, dataType, left, i);
      } else {
        SegmentedReadUnsafe(addr, dataType, left, i);
      }
    } else {
      forall s: S.Server, od: Dict, actions: seq<Action> |
          s.Valid() && addr in od && od[addr].access.IsReadable() && od[addr].value.Type() == dataType
        ensures ReadMayEndAs(od, addr, Run(Reading(s, od, addr, dataType, left), actions))
      {
        ReadOverLossyBus(s, od, addr, left, actions);
      }
    }
  }
}
