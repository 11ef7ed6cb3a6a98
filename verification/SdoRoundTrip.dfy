/** A client and a server on a reliable bus (core/src/sdo/client.rs, core/src/sdo/server.rs). */
module SdoRoundTrip {
  import opened Wrappers
  import opened Bytes
  import opened Datatypes
  import opened ObjectDictionaries
  import opened SdoCodec
  import opened SdoTransactions
  import S = SdoServers
  import C = SdoClients

  /** The request on the bus, if the client waits for an answer, and the client's last report. */
  datatype Bus = Bus(client: C.State, server: S.Server, od: Dict, request: Option<Frame>, event: Option<C.Event>) {
    predicate Valid() {
      client.Valid() && server.Valid()
    }
  }

  /** The server answers the request and the client reacts to the answer. */
  function Exchange(b: Bus): (next: Bus)
    requires b.Valid()
    ensures next.Valid()
  {
    if b.request.None? then b
    else
      var o := S.ServerStep(b.server, b.od, b.request.value);
      if o.resp.None? then b.(server := o.server, od := o.od, request := None)
      else
        var turn := C.ClientStep(b.client, o.resp.value);
        Bus(turn.state, o.server, o.od, if turn.event.Send? then Some(turn.event.frame) else None, Some(turn.event))
  }

  function Run(b: Bus, n: nat): (end: Bus)
    requires b.Valid()
    ensures end.Valid()
  {
    if n == 0 then b else Exchange(Run(b, n - 1))
  }

  /** `SdoClient::write` has just returned its first request. */
  function Writing(s: S.Server, od: Dict, addr: Address, v: Value): Bus {
    Bus(C.WriteState(v), s, od, Some(C.WriteRequest(addr, v)), None)
  }

  /** `SdoClient::read` has just returned its first request. */
  function Reading(s: S.Server, od: Dict, addr: Address, dataType: DataType): Bus {
    Bus(C.UploadInit(dataType), s, od, Some(EncodeUploadRequest(addr)), None)
  }

  /** The number of exchanges that transfer n bytes. */
  function ExchangesFor(n: nat): nat {
    if 1 <= n <= 4 then 1
    else if n == 0 then 2
    else 1 + (n + 6) / 7
  }

  function Start(t: Transaction, s: S.Server, od: Dict): Bus {
    if t.write then Writing(s, od, t.addr, t.value) else Reading(s, od, t.addr, t.value.Type())
  }

  ghost predicate Waiting(t: Transaction, od: Dict, k: nat, b: Bus) {
    && k < t.Exchanges()
    && b.client == t.ClientAt(k) && b.request == Some(t.Request(k))
    && ServerAt(t, od, k, b.server, b.od) && Serving(t, k, b.server)
    && (b.event.Some? ==> b.event.value.Send?)
  }

  lemma StartWaits(t: Transaction, s: S.Server, od: Dict)
    requires s.Valid() && t.Allowed(od)
    ensures Waiting(t, od, 0, Start(t, s, od))
  {
    hide C.WriteRequest, C.WriteState, EncodeUploadRequest;
  }

  lemma ExchangeAdvances(t: Transaction, od: Dict, k: nat, b: Bus)
    requires b.Valid() && Waiting(t, od, k, b)
    ensures k + 1 < t.Exchanges() ==> Waiting(t, od, k + 1, Exchange(b))
    ensures k + 1 == t.Exchanges() ==>
              && Exchange(b).event == Some(C.Complete(t.Result())) && Exchange(b).request.None?
              && Exchange(b).od == t.DictAt(od, t.Exchanges()) && Exchange(b).client.Idle?
  {
    ServerAdvances(t, od, k, b.server, b.od);
    ClientAdvances(t, k);
    hide S.ServerStep, C.ClientStep, Transaction.Request, Transaction.Reply, Transaction.ClientAt, Serving;
  }

  lemma {:induction false} RunWaits(t: Transaction, s: S.Server, od: Dict, k: nat)
    requires s.Valid() && t.Allowed(od) && k < t.Exchanges()
    ensures Waiting(t, od, k, Run(Start(t, s, od), k))
  {
    hide Waiting, Exchange;
    if k == 0 {
      StartWaits(t, s, od);
    } else {
      RunWaits(t, s, od, k - 1);
      ExchangeAdvances(t, od, k - 1, Run(Start(t, s, od), k - 1));
    }
  }

  /** One transaction: still waiting before its last exchange, complete after it. */
  lemma TransactionCompletes(t: Transaction, s: S.Server, od: Dict)
    requires s.Valid() && t.Allowed(od)
    ensures t.Exchanges() == ExchangesFor(t.value.Size())
    ensures forall k :: 0 <= k < t.Exchanges() ==> Run(Start(t, s, od), k).request.Some?
    ensures var end := Run(Start(t, s, od), t.Exchanges());
            && end.event == Some(C.Complete(t.Result())) && end.request.None?
            && end.od == t.DictAt(od, t.Exchanges()) && end.client.Idle?
  {
    t.value.EncodedLength();
    forall k | 0 <= k < t.Exchanges() ensures Run(Start(t, s, od), k).request.Some? {
      RunWaits(t, s, od, k);
    }
    var last := t.Exchanges() - 1;
    RunWaits(t, s, od, last);
    ExchangeAdvances(t, od, last, Run(Start(t, s, od), last));
    hide Exchange, Start;
  }

  /**
    Whatever the server was doing before, a write of a value of the object's type completes and
    changes that object only, and a read then returns the value. Each takes exactly
    `ExchangesFor` request-response pairs.
   */
  lemma RoundTrip(s: S.Server, od: Dict, addr: Address, v: Value)
    requires s.Valid() && addr in od && od[addr].access.Rw? && od[addr].value.Type() == v.Type()
    ensures var n := ExchangesFor(v.Size());
            var written := Run(Writing(s, od, addr, v), n);
            var read := Run(Reading(written.server, written.od, addr, v.Type()), n);
            && written.event == Some(C.Complete(None)) && written.od == od[addr := od[addr].(value := v)]
            && read.event == Some(C.Complete(Some(v))) && read.od == written.od
    ensures forall k :: 0 <= k < ExchangesFor(v.Size()) ==>
              var written := Run(Writing(s, od, addr, v), ExchangesFor(v.Size()));
              && Run(Writing(s, od, addr, v), k).request.Some?
              && Run(Reading(written.server, written.od, addr, v.Type()), k).request.Some?
  {
    var w, r := Transaction(true, addr, v), Transaction(false, addr, v);
    TransactionCompletes(w, s, od);
    var written := Run(Start(w, s, od), ExchangesFor(v.Size()));
    TransactionCompletes(r, written.server, written.od);
    hide Run, Writing, Reading, ExchangesFor, Transaction.Exchanges;
  }

  /** A read of a readable object with its own type returns the stored value and changes nothing. */
  lemma ReadReturnsStored(s: S.Server, od: Dict, addr: Address)
    requires s.Valid() && addr in od && od[addr].access.IsReadable()
    ensures var v := od[addr].value;
            var read := Run(Reading(s, od, addr, v.Type()), ExchangesFor(v.Size()));
            read.event == Some(C.Complete(Some(v))) && read.od == od
  {
    TransactionCompletes(Transaction(false, addr, od[addr].value), s, od);
    hide Run, Reading, ExchangesFor, Transaction.Exchanges;
  }
}
