/**
  One SDO transaction over a bus that may lose or repeat any frame. Frames in flight wait in a queue
  per direction, in the order they were sent; what a run does next is any list of actions.
 */
module SdoLossy {
  import opened Wrappers
  import opened Bytes
  import opened Datatypes
  import opened ObjectDictionaries
  import opened SdoCodec
  import opened SdoTransactions
  import opened Queues
  import S = SdoServers
  import C = SdoClients

  datatype Net = Net(
    client: C.State,
    outcome: Option<C.Event>,
    server: S.Server,
    od: Dict,
    requests: seq<Frame>,
    replies: seq<Frame>)
  {
    predicate Valid() {
      client.Valid() && server.Valid()
    }
  }

  datatype Action =
    | ServerReceives
    | ClientReceives
    | LoseRequest(i: nat) | RepeatRequest(i: nat)
    | LoseReply(i: nat) | RepeatReply(i: nat)

  function ServerReceive(net: Net): (next: Net)
    requires net.Valid()
    ensures next.Valid()
  {
    if net.requests == [] then net
    else
      var o := S.ServerStep(net.server, net.od, net.requests[0]);
      net.(server := o.server, od := o.od, requests := net.requests[1..],
           replies := if o.resp.Some? then net.replies + [o.resp.value] else net.replies)
  }

  /** The first completion or abort is the outcome; a client that is done ignores what still arrives. */
  function ClientReceive(net: Net): (next: Net)
    requires net.Valid()
    ensures next.Valid()
  {
    if net.replies == [] then net
    else
      var turn := C.ClientStep(net.client, net.replies[0]);
      net.(client := turn.state, replies := net.replies[1..],
           requests := if turn.event.Send? then net.requests + [turn.event.frame] else net.requests,
           outcome := if net.outcome.None? && !turn.event.Send? then Some(turn.event) else net.outcome)
  }

  function Step(net: Net, action: Action): (next: Net)
    requires net.Valid()
    ensures next.Valid()
  {
    match action
    case ServerReceives => ServerReceive(net)
    case ClientReceives => ClientReceive(net)
    case LoseRequest(i) => net.(requests := Without(net.requests, i))
    case RepeatRequest(i) => net.(requests := Twice(net.requests, i))
    case LoseReply(i) => net.(replies := Without(net.replies, i))
    case RepeatReply(i) => net.(replies := Twice(net.replies, i))
  }

  function Run(net: Net, actions: seq<Action>): (end: Net)
    requires net.Valid()
    ensures end.Valid()
  {
    if actions == [] then net
    else Step(Run(net, actions[..|actions| - 1]), actions[|actions| - 1])
  }

  /** The transaction's first request is sent; `left` are replies still on their way from before. */
  function Begin(t: Transaction, s: S.Server, od: Dict, left: seq<Frame>): (net: Net)
    ensures s.Valid() ==> net.Valid()
  {
    Net(t.ClientAt(0), None, s, od, [t.Request(0)], left)
  }

  /** A reply that makes a client which has just sent its first request abort. */
  predicate Refuses(t: Transaction, f: Frame) {
    C.ClientStep(t.ClientAt(0), f).event.Aborted?
  }

  // --- The invariant --------------------------------------------------------

  /**
    The client awaits reply k; the server has carried out j requests. The first q queued requests
    and the first p queued replies belong to exchange k - 1.
   */
  datatype Progress = Progress(k: nat, j: nat, q: nat, p: nat)

  ghost function Stale(t: Transaction, k: nat): iset<Frame>
    requires k < t.Exchanges()
  {
    if k > 0 then iset{t.Request(k - 1)} else iset{}
  }

  ghost function Current(t: Transaction, k: nat): iset<Frame>
    requires k < t.Exchanges()
  {
    iset{t.Request(k)}
  }

  ghost function Aborts(): iset<Frame> {
    iset f: Frame | IsAbort(f)
  }

  ghost function Refused(t: Transaction): iset<Frame> {
    iset f: Frame | Refuses(t, f)
  }

  ghost function OldReplies(t: Transaction, k: nat): iset<Frame>
    requires k < t.Exchanges()
  {
    Aborts() + if k > 0 then iset{t.Reply(k - 1)} else Refused(t)
  }

  ghost function NewReplies(t: Transaction, k: nat): iset<Frame>
    requires k < t.Exchanges()
  {
    Aborts() + iset{t.Reply(k)}
  }

  ghost predicate RequestsInFlight(t: Transaction, k: nat, j: nat, q: nat, requests: seq<Frame>)
    requires k < t.Exchanges()
  {
    && (q > 0 ==> j == k > 0)
    && Parted(requests, q, Stale(t, k), Current(t, k))
  }

  ghost predicate RepliesInFlight(t: Transaction, k: nat, j: nat, p: nat, replies: seq<Frame>)
    requires k < t.Exchanges()
  {
    && (j == k ==> p == |replies|)
    && Parted(replies, p, OldReplies(t, k), NewReplies(t, k))
  }

  ghost predicate ClientKnows(t: Transaction, k: nat, j: nat, client: C.State, outcome: Option<C.Event>)
    requires k < t.Exchanges()
  {
    && (outcome.None? ==> client == t.ClientAt(k))
    && (outcome.Some? ==> client.Idle?)
    && (outcome.Some? && outcome.value.Complete? ==> outcome.value.value == t.Result() && j == t.Exchanges())
  }

  ghost predicate Inv(t: Transaction, od: Dict, w: Progress, net: Net) {
    && w.k < t.Exchanges() && w.k <= w.j <= w.k + 1
    && ServerAt(t, od, w.j, net.server, net.od)
    && RequestsInFlight(t, w.k, w.j, w.q, net.requests)
    && RepliesInFlight(t, w.k, w.j, w.p, net.replies)
    && ClientKnows(t, w.k, w.j, net.client, net.outcome)
  }

  lemma RequestsMayChange(t: Transaction, k: nat, j: nat, q: nat, requests: seq<Frame>, i: nat)
      returns (lost: nat, repeated: nat)
    requires k < t.Exchanges() && RequestsInFlight(t, k, j, q, requests)
    ensures RequestsInFlight(t, k, j, lost, Without(requests, i))
    ensures RequestsInFlight(t, k, j, repeated, Twice(requests, i))
  {
    WithoutParted(requests, q, Stale(t, k), Current(t, k), i);
    TwiceParted(requests, q, Stale(t, k), Current(t, k), i);
    hide Stale, Current, Parted, Without, Twice;
    lost, repeated := if i < q then q - 1 else q, if i < q then q + 1 else q;
  }

  lemma RepliesMayChange(t: Transaction, k: nat, j: nat, p: nat, replies: seq<Frame>, i: nat)
      returns (lost: nat, repeated: nat)
    requires k < t.Exchanges() && RepliesInFlight(t, k, j, p, replies)
    ensures RepliesInFlight(t, k, j, lost, Without(replies, i))
    ensures RepliesInFlight(t, k, j, repeated, Twice(replies, i))
  {
    WithoutParted(replies, p, OldReplies(t, k), NewReplies(t, k), i);
    TwiceParted(replies, p, OldReplies(t, k), NewReplies(t, k), i);
    hide OldReplies, NewReplies, Parted;
    lost, repeated := if i < p then p - 1 else p, if i < p then p + 1 else p;
  }

  lemma RequestTaken(t: Transaction, k: nat, j: nat, q: nat, requests: seq<Frame>, j': nat)
    requires k < t.Exchanges() && RequestsInFlight(t, k, j, q, requests) && requests != [] && (q > 0 ==> j' == j)
    ensures q == 0 ==> requests[0] == t.Request(k)
    ensures q > 0 ==> j == k > 0 && requests[0] == t.Request(k - 1)
    ensures RequestsInFlight(t, k, j', if q > 0 then q - 1 else 0, requests[1..])
  {
    hide Transaction.Request;
  }

  lemma ReplyTaken(t: Transaction, k: nat, j: nat, p: nat, replies: seq<Frame>)
    requires k < t.Exchanges() && RepliesInFlight(t, k, j, p, replies) && replies != []
    ensures p == 0 ==> j != k && (IsAbort(replies[0]) || replies[0] == t.Reply(k))
    ensures p > 0 ==> replies[0] in OldReplies(t, k)
    ensures RepliesInFlight(t, k, j, if p > 0 then p - 1 else 0, replies[1..])
  {
    hide OldReplies, IsAbort, Transaction.Reply;
  }

  lemma OldReplySent(t: Transaction, k: nat, p: nat, replies: seq<Frame>, f: Frame)
    requires k < t.Exchanges() && RepliesInFlight(t, k, k, p, replies) && f in OldReplies(t, k)
    ensures RepliesInFlight(t, k, k, p + 1, replies + [f])
  {
    hide OldReplies, NewReplies;
  }

  lemma NewReplySent(t: Transaction, k: nat, j: nat, p: nat, replies: seq<Frame>, f: Frame)
    requires k < t.Exchanges() && RepliesInFlight(t, k, j, p, replies) && f in NewReplies(t, k)
    ensures RepliesInFlight(t, k, k + 1, p, replies + [f])
  {
    hide OldReplies, NewReplies;
  }

  /** When the client moves on, everything in flight becomes old. */
  lemma QueuesAge(t: Transaction, k: nat, requests: seq<Frame>, replies: seq<Frame>)
    requires k + 1 < t.Exchanges()
    requires RequestsInFlight(t, k, k + 1, 0, requests) && RepliesInFlight(t, k, k + 1, 0, replies)
    ensures RequestsInFlight(t, k + 1, k + 1, |requests|, requests + [t.Request(k + 1)])
    ensures RepliesInFlight(t, k + 1, k + 1, |replies|, replies)
  {
    hide Transaction.Request, Transaction.Reply, IsAbort;
  }

  /** The server carries out the client's last request. */
  lemma ServerServes(t: Transaction, od: Dict, w: Progress, net: Net)
    requires net.Valid() && Inv(t, od, w, net) && net.requests != [] && w.q == 0 && w.j == w.k
    requires Serving(t, w.j, net.server)
    ensures Inv(t, od, w.(j := w.j + 1), ServerReceive(net))
  {
    hide S.ServerStep, ServerAt, Serving, Transaction.Request, Transaction.Reply, Transaction.ClientAt, IsAbort,
      RequestsInFlight, RepliesInFlight;
    RequestTaken(t, w.k, w.j, 0, net.requests, w.j + 1);
    ServerAdvances(t, od, w.j, net.server, net.od);
    NewReplySent(t, w.k, w.j, w.p, net.replies, t.Reply(w.k));
  }

  /** The server, having dropped the transfer, refuses the client's last request. */
  lemma ServerDeclines(t: Transaction, od: Dict, w: Progress, net: Net)
    requires net.Valid() && Inv(t, od, w, net) && net.requests != [] && w.q == 0 && w.j == w.k
    requires !Serving(t, w.j, net.server)
    ensures Inv(t, od, w.(p := w.p + 1), ServerReceive(net))
  {
    hide S.ServerStep, ServerAt, Serving, Transaction.Request, Transaction.Reply, Transaction.ClientAt, IsAbort,
      RequestsInFlight, RepliesInFlight;
    RequestTaken(t, w.k, w.j, 0, net.requests, w.j);
    ServerRefuses(t, od, w.j, net.server, net.od);
    OldReplySent(t, w.k, w.p, net.replies, S.ServerStep(net.server, net.od, net.requests[0]).resp.value);
  }

  /** The server receives a request from before the client's last turn. */
  lemma ServerReceivesStale(t: Transaction, od: Dict, w: Progress, net: Net) returns (next: Progress)
    requires net.Valid() && Inv(t, od, w, net) && net.requests != [] && w.q > 0
    ensures Inv(t, od, next, ServerReceive(net))
  {
    hide S.ServerStep, ServerAt, Transaction.Request, Transaction.Reply, Transaction.ClientAt, IsAbort,
      RequestsInFlight, RepliesInFlight, ClientKnows;
    next := w.(q := w.q - 1, p := w.p + 1);
    RequestTaken(t, w.k, w.j, w.q, net.requests, w.j);
    ServerRepeats(t, od, w.j, net.server, net.od);
    var o := S.ServerStep(net.server, net.od, net.requests[0]);
    OldReplySent(t, w.k, w.p, net.replies, o.resp.value);
  }

  /** The server receives the client's last request again. */
  lemma ServerReceivesAgain(t: Transaction, od: Dict, w: Progress, net: Net)
    requires net.Valid() && Inv(t, od, w, net) && net.requests != [] && w.q == 0 && w.j == w.k + 1
    ensures Inv(t, od, w, ServerReceive(net))
  {
    hide S.ServerStep, ServerAt, Transaction.Request, Transaction.Reply, Transaction.ClientAt, IsAbort,
      RequestsInFlight, RepliesInFlight, ClientKnows;
    RequestTaken(t, w.k, w.j, 0, net.requests, w.j);
    ServerRepeats(t, od, w.j, net.server, net.od);
    var o := S.ServerStep(net.server, net.od, net.requests[0]);
    NewReplySent(t, w.k, w.j, w.p, net.replies, o.resp.value);
  }

  /** The client receives the reply it waits for and sends its next request. */
  lemma ClientMovesOn(t: Transaction, od: Dict, w: Progress, net: Net)
    requires net.Valid() && Inv(t, od, w, net) && net.replies != [] && net.outcome.None?
    requires !IsAbort(net.replies[0]) && w.p == 0 && w.k + 1 < t.Exchanges()
    ensures Inv(t, od, Progress(w.k + 1, w.j, |net.requests|, |net.replies| - 1), ClientReceive(net))
  {
    hide C.ClientStep, ServerAt, Transaction.Request, Transaction.Reply, Transaction.ClientAt, IsAbort,
      RequestsInFlight, RepliesInFlight, OldReplies, NewReplies, Stale, Current;
    ReplyTaken(t, w.k, w.j, 0, net.replies);
    ClientAdvances(t, w.k);
    NothingStale(t, w.k, w.j, w.q, net.requests);
    QueuesAge(t, w.k, net.requests, net.replies[1..]);
  }

  /** The client receives the last reply of the transaction. */
  lemma ClientCompletes(t: Transaction, od: Dict, w: Progress, net: Net)
    requires net.Valid() && Inv(t, od, w, net) && net.replies != [] && net.outcome.None?
    requires !IsAbort(net.replies[0]) && w.p == 0 && w.k + 1 == t.Exchanges()
    ensures Inv(t, od, w, ClientReceive(net))
  {
    hide C.ClientStep, ServerAt, Transaction.Request, Transaction.Reply, Transaction.ClientAt, IsAbort,
      RequestsInFlight, RepliesInFlight, OldReplies, NewReplies, Stale, Current;
    ReplyTaken(t, w.k, w.j, 0, net.replies);
    ClientAdvances(t, w.k);
  }

  lemma NothingStale(t: Transaction, k: nat, j: nat, q: nat, requests: seq<Frame>)
    requires k < t.Exchanges() && RequestsInFlight(t, k, j, q, requests) && j != k
    ensures q == 0
  {
  }

  /** A client that is done, or that meets an abort or an old reply, is done afterwards. */
  lemma ClientReceivesOther(t: Transaction, od: Dict, w: Progress, net: Net) returns (next: Progress)
    requires net.Valid() && Inv(t, od, w, net) && net.replies != []
    requires net.outcome.Some? || IsAbort(net.replies[0]) || w.p > 0
    ensures Inv(t, od, next, ClientReceive(net))
  {
    hide C.ClientStep, ServerAt, Transaction.Request, Transaction.Reply, Transaction.ClientAt, IsAbort,
      RequestsInFlight, RepliesInFlight, OldReplies, NewReplies, Stale, Current, Aborts;
    next := if w.p > 0 then w.(p := w.p - 1) else w;
    ReplyTaken(t, w.k, w.j, w.p, net.replies);
    ClientIsDone(t, w, net.client, net.outcome, net.replies[0]);
  }

  lemma ClientIsDone(t: Transaction, w: Progress, client: C.State, outcome: Option<C.Event>, reply: Frame)
    requires w.k < t.Exchanges() && client.Valid() && ClientKnows(t, w.k, w.j, client, outcome)
    requires outcome.Some? || IsAbort(reply) || reply in OldReplies(t, w.k)
    ensures C.ClientStep(client, reply).state.Idle? && C.ClientStep(client, reply).event.Aborted?
  {
    hide C.ClientStep, Transaction.Request, Transaction.Reply, Transaction.ClientAt, IsAbort;
    if outcome.None? && !IsAbort(reply) && w.k > 0 {
      ClientRejects(t, w.k);
    } else if outcome.Some? || IsAbort(reply) {
      ClientEnds(client, reply);
    }
  }

  lemma ClientEnds(client: C.State, reply: Frame)
    requires client.Valid() && (client.Idle? || IsAbort(reply))
    ensures C.ClientStep(client, reply).state.Idle? && C.ClientStep(client, reply).event.Aborted?
  {
  }

  lemma StepPreserves(t: Transaction, od: Dict, w: Progress, net: Net, action: Action) returns (next: Progress)
    requires net.Valid() && Inv(t, od, w, net)
    ensures Inv(t, od, next, Step(net, action))
  {
    hide ServerReceive, ClientReceive, Without, Twice, RequestsInFlight, RepliesInFlight, ServerAt, ClientKnows;
    match action
    case ServerReceives => next := ServerReceivePreserves(t, od, w, net);
    case ClientReceives => next := ClientReceivePreserves(t, od, w, net);
    case LoseRequest(i) =>
      var lost, _ := RequestsMayChange(t, w.k, w.j, w.q, net.requests, i);
      next := w.(q := lost);
    case RepeatRequest(i) =>
      var _, repeated := RequestsMayChange(t, w.k, w.j, w.q, net.requests, i);
      next := w.(q := repeated);
    case LoseReply(i) =>
      var lost, _ := RepliesMayChange(t, w.k, w.j, w.p, net.replies, i);
      next := w.(p := lost);
    case RepeatReply(i) =>
      var _, repeated := RepliesMayChange(t, w.k, w.j, w.p, net.replies, i);
      next := w.(p := repeated);
  }

  lemma ServerReceivePreserves(t: Transaction, od: Dict, w: Progress, net: Net) returns (next: Progress)
    requires net.Valid() && Inv(t, od, w, net)
    ensures Inv(t, od, next, ServerReceive(net))
  {
    if net.requests == [] {
      next := w;
    } else if w.q > 0 {
      next := ServerReceivesStale(t, od, w, net);
    } else if w.j == w.k + 1 {
      next := w;
      ServerReceivesAgain(t, od, w, net);
    } else if Serving(t, w.j, net.server) {
      next := w.(j := w.j + 1);
      ServerServes(t, od, w, net);
    } else {
      next := w.(p := w.p + 1);
      ServerDeclines(t, od, w, net);
    }
  }

  lemma ClientReceivePreserves(t: Transaction, od: Dict, w: Progress, net: Net) returns (next: Progress)
    requires net.Valid() && Inv(t, od, w, net)
    ensures Inv(t, od, next, ClientReceive(net))
  {
    if net.replies == [] {
      next := w;
    } else if net.outcome.Some? || IsAbort(net.replies[0]) || w.p > 0 {
      next := ClientReceivesOther(t, od, w, net);
    } else if w.k + 1 < t.Exchanges() {
      next := Progress(w.k + 1, w.j, |net.requests|, |net.replies| - 1);
      ClientMovesOn(t, od, w, net);
    } else {
      next := w;
      ClientCompletes(t, od, w, net);
    }
  }

  lemma BeginsInvariant(t: Transaction, s: S.Server, od: Dict, left: seq<Frame>)
    requires s.Valid() && t.Allowed(od) && forall i :: 0 <= i < |left| ==> Refuses(t, left[i])
    ensures Inv(t, od, Progress(0, 0, 0, |left|), Begin(t, s, od, left))
  {
    hide Refuses, Transaction.Request, Transaction.Reply, Transaction.ClientAt, IsAbort;
  }

  lemma {:induction false} RunKeepsInv(
    t: Transaction, s: S.Server, od: Dict, left: seq<Frame>, actions: seq<Action>) returns (w: Progress)
    requires s.Valid() && t.Allowed(od) && forall i :: 0 <= i < |left| ==> Refuses(t, left[i])
    ensures Inv(t, od, w, Run(Begin(t, s, od, left), actions))
  {
    hide Step, Inv, Begin, Refuses;
    if actions == [] {
      w := Progress(0, 0, 0, |left|);
      BeginsInvariant(t, s, od, left);
    } else {
      var n := |actions| - 1;
      w := RunKeepsInv(t, s, od, left, actions[..n]);
      w := StepPreserves(t, od, w, Run(Begin(t, s, od, left), actions[..n]), actions[n]);
    }
  }

  // --- What a run can end in ------------------------------------------------

  /** A reply that would end a new write early: the acknowledgement of a download. */
  predicate AcknowledgesDownload(f: Frame) {
    f[0] == SCS_DOWNLOAD_INITIATE
  }

  lemma WriterRefusesOthers(t: Transaction, f: Frame)
    requires t.write && !AcknowledgesDownload(f)
    ensures Refuses(t, f)
  {
    hide Value.Encoded, Value.Size, AddressOf;
  }

  /** A client has sent the first request of a write; `left` are replies from before. */
  function Writing(s: S.Server, od: Dict, addr: Address, v: Value, left: seq<Frame>): (net: Net)
    ensures s.Valid() ==> net.Valid()
  {
    Net(C.WriteState(v), None, s, od, [C.WriteRequest(addr, v)], left)
  }

  /** A client has sent the first request of a read; `left` are replies from before. */
  function Reading(s: S.Server, od: Dict, addr: Address, dataType: DataType, left: seq<Frame>): (net: Net)
    ensures s.Valid() ==> net.Valid()
  {
    Net(C.UploadInit(dataType), None, s, od, [EncodeUploadRequest(addr)], left)
  }

  ghost predicate MayEndAs(od: Dict, addr: Address, v: Value, end: Net)
    requires addr in od
  {
    && (end.od == od || end.od == od[addr := od[addr].(value := v)])
    && (end.outcome.Some? && end.outcome.value.Complete? ==>
          end.outcome.value.value == None && end.od == od[addr := od[addr].(value := v)])
  }

  /**
    Whatever is lost or repeated, a write leaves the object at its old or at the written value and
    the rest of the dictionary alone; a client that saw it complete knows the value is written. No
    request may be left on the bus from before, and among the replies no acknowledgement of an
    earlier download, which the client could not tell from its own.
   */
  lemma WriteOverLossyBus(
    s: S.Server, od: Dict, addr: Address, v: Value, left: seq<Frame>, actions: seq<Action>)
    requires s.Valid() && addr in od && od[addr].access.IsWritable() && od[addr].value.Type() == v.Type()
    requires forall i :: 0 <= i < |left| ==> !AcknowledgesDownload(left[i])
    ensures MayEndAs(od, addr, v, Run(Writing(s, od, addr, v, left), actions))
  {
    hide C.WriteState, C.WriteRequest, Run, RequestsInFlight, RepliesInFlight, Refuses;
    var t := Transaction(true, addr, v);
    forall i | 0 <= i < |left| ensures Refuses(t, left[i]) {
      WriterRefusesOthers(t, left[i]);
    }
    var _ := RunKeepsInv(t, s, od, left, actions);
  }

  /** A reply a new read would take for the answer to its first request. */
  predicate AnswersUpload(dataType: DataType, f: Frame) {
    DecodeUploadExpeditedResponse(f, dataType).Ok? || DecodeUploadInitiateSegmentedResponse(f).Ok?
  }

  lemma ReaderRefusesOthers(t: Transaction, f: Frame)
    requires !t.write && !AnswersUpload(t.value.Type(), f)
    ensures Refuses(t, f)
  {
    hide DecodeUploadExpeditedResponse, DecodeUploadInitiateSegmentedResponse;
  }

  ghost predicate ReadMayEndAs(od: Dict, addr: Address, end: Net)
    requires addr in od
  {
    && end.od == od
    && (end.outcome.Some? && end.outcome.value.Complete? ==> end.outcome.value.value == Some(od[addr].value))
  }

  /** A read changes nothing, and if it completes it returns the stored value. */
  lemma ReadOverLossyBus(s: S.Server, od: Dict, addr: Address, left: seq<Frame>, actions: seq<Action>)
    requires s.Valid() && addr in od && od[addr].access.IsReadable()
    requires forall i :: 0 <= i < |left| ==> !AnswersUpload(od[addr].value.Type(), left[i])
    ensures ReadMayEndAs(od, addr, Run(Reading(s, od, addr, od[addr].value.Type(), left), actions))
  {
    hide EncodeUploadRequest, Run, RequestsInFlight, RepliesInFlight, Refuses, AnswersUpload;
    var t := Transaction(false, addr, od[addr].value);
    forall i | 0 <= i < |left| ensures Refuses(t, left[i]) {
      ReaderRefusesOthers(t, left[i]);
    }
    var _ := RunKeepsInv(t, s, od, left, actions);
  }
}
