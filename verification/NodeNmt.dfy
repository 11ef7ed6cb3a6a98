/**
  A node's NMT state as a function of what it heard (core/src/node.rs, core/src/nmt.rs): over any run
  of frames, boots, id adoptions and reconfigurations, the commands on the bus decide it.
 */
module NodeNmt {
  import opened Wrappers
  import opened Bytes
  import opened ObjectDictionaries
  import opened Nmt
  import opened Nodes
  import opened NodeGating
  import L = Lss
  import S = SdoServers

  /** What an event says about a node's NMT state. */
  datatype Signal = Boots | Command(specifier: byte) | Nothing {
    predicate IsReset() {
      Command? && (specifier == 0x81 || specifier == 0x82)
    }
  }

  /**
    A frame with identifier 0 of at least two bytes, a known specifier, and target 0 or this node's
    own id, heard by a node that is not waiting for an LSS id.
   */
  predicate IsCommand(d: Device, cobId: bv16, data: seq<byte>) {
    && cobId as int == 0 && |data| >= 2
    && data[0] in {0x01, 0x02, 0x80, 0x81, 0x82}
    && data[1] as int <= 127 && (data[1] == 0 || data[1] == d.nodeId)
    && !(d.lss.Some? && d.lss.value.nodeId == 0xFF)
  }

  function SignalOf(d: Device, e: Event): Signal {
    match e
    case BootUp => Boots
    case Receive(cobId, data) => if IsCommand(d, cobId, data) then Command(data[0]) else Nothing
    case AdoptLssNodeId => Nothing
    case ConfigurePdos => Nothing
  }

  /** The signals of a run, each judged by the node as it was then. */
  function Signals(d: Device, events: seq<Event>): (signals: seq<Signal>)
    requires d.Valid()
    ensures |signals| == |events|
  {
    if events == [] then []
    else
      var n := |events| - 1;
      Signals(d, events[..n]) + [SignalOf(Run(d, events[..n]), events[n])]
  }

  /** Every boot so far has been undone by a later reset. */
  ghost predicate Asleep(signals: seq<Signal>) {
    forall i :: 0 <= i < |signals| && signals[i].Boots? ==> ResetAfter(signals, i)
  }

  ghost predicate ResetAfter(signals: seq<Signal>, i: int) {
    exists j :: i < j < |signals| && 0 <= j && signals[j].IsReset()
  }

  /** Boot b took effect and still does: no reset since, and no earlier boot in effect then. */
  ghost predicate InEffect(signals: seq<Signal>, b: int) {
    && 0 <= b < |signals| && signals[b].Boots? && !ResetAfter(signals, b)
    && Asleep(signals[..b])
  }

  /** Command c is the last one since boot b. */
  ghost predicate LastSince(signals: seq<Signal>, b: int, c: int) {
    && b < c < |signals| && 0 <= c && signals[c].Command?
    && forall j :: c < j < |signals| ==> !signals[j].Command?
  }

  ghost predicate NoneSince(signals: seq<Signal>, b: int) {
    forall j :: b < j < |signals| && 0 <= j ==> !signals[j].Command?
  }

  /** What the signals decide. */
  ghost predicate Decided(signals: seq<Signal>, state: NmtState) {
    && (state.Initialising? <==> Asleep(signals))
    && (forall b, c :: InEffect(signals, b) && LastSince(signals, b, c) ==>
          && (signals[c].specifier == 0x01 ==> state.Operational?)
          && (signals[c].specifier == 0x02 ==> state.Stopped?)
          && (signals[c].specifier == 0x80 ==> state.PreOperational?))
    && (forall b :: InEffect(signals, b) && NoneSince(signals, b) ==> state.PreOperational?)
  }

  // --- One signal -----------------------------------------------------------

  lemma ResetAfterNext(signals: seq<Signal>, x: Signal, i: int)
    requires 0 <= i < |signals|
    ensures ResetAfter(signals + [x], i) <==> ResetAfter(signals, i) || x.IsReset()
  {
    if ResetAfter(signals, i) {
      var j :| i < j < |signals| && 0 <= j && signals[j].IsReset();
      assert (signals + [x])[j].IsReset();
    }
    if x.IsReset() {
      assert (signals + [x])[|signals|].IsReset();
    }
  }

  lemma AsleepNext(signals: seq<Signal>, x: Signal)
    ensures Asleep(signals + [x]) <==> x.IsReset() || (Asleep(signals) && !x.Boots?)
  {
    hide ResetAfter;
    var all := signals + [x];
    NothingAfterEnd(all);
    forall i | 0 <= i < |signals| ensures ResetAfter(all, i) <==> ResetAfter(signals, i) || x.IsReset() {
      ResetAfterNext(signals, x, i);
    }
    if Asleep(all) && !x.IsReset() {
      assert all[|signals|] == x;
      forall i | 0 <= i < |signals| && signals[i].Boots? ensures ResetAfter(signals, i) {
        assert all[i] == signals[i];
      }
    }
  }

  lemma NothingAfterEnd(all: seq<Signal>)
    ensures all != [] ==> !ResetAfter(all, |all| - 1)
  {
  }

  /** Which boot is in effect after one more signal. */
  lemma InEffectNext(signals: seq<Signal>, x: Signal, b: int)
    requires InEffect(signals + [x], b)
    ensures if b < |signals| then InEffect(signals, b) && !x.IsReset()
            else b == |signals| && x.Boots? && Asleep(signals)
  {
    hide ResetAfter;
    var all := signals + [x];
    if b < |signals| {
      ResetAfterNext(signals, x, b);
      assert all[..b] == signals[..b];
    } else {
      assert all[..b] == signals;
    }
  }

  /** The command table, in the bytes of the wire. */
  lemma CommandApplied(state: NmtState, specifier: byte, target: byte)
    requires specifier in {0x01, 0x02, 0x80, 0x81, 0x82} && target as int <= 127
    ensures DecodeCommand(specifier, target).Some? && DecodeCommand(specifier, target).value.1 == target
    ensures var next := AppliedTo(state, DecodeCommand(specifier, target).value.0);
            if specifier == 0x81 || specifier == 0x82 || state.Initialising? then next.Initialising?
            else if specifier == 0x01 then next.Operational?
            else if specifier == 0x02 then next.Stopped?
            else next.PreOperational?
  {
    SmallTarget(target);
  }

  lemma SmallTarget(target: byte)
    requires target as int <= 127
    ensures target == BROADCAST || IsNodeId(target)
  {
  }

  lemma TargetNumber(target: byte)
    requires target == BROADCAST || IsNodeId(target)
    ensures target as int <= 127
  {
  }

  /** What a signal does to the state. */
  function After(state: NmtState, x: Signal): NmtState {
    match x
    case Nothing => state
    case Boots => if state.Initialising? then PreOperational else state
    case Command(specifier) =>
      if specifier == 0x81 || specifier == 0x82 || state.Initialising? then Initialising
      else if specifier == 0x01 then Operational
      else if specifier == 0x02 then Stopped
      else PreOperational
  }

  lemma FrameSignals(d: Device, cobId: bv16, data: seq<byte>)
    requires d.Valid()
    ensures FrameStep(d, cobId, data).0.nmt == After(d.nmt, SignalOf(d, Receive(cobId, data)))
  {
    CobIdZero(cobId);
    if cobId == NMT_COMMAND_COB_ID && !d.Unconfigured() && |data| >= 2 {
      if IsCommand(d, cobId, data) {
        CommandApplied(d.nmt, data[0], data[1]);
      } else if DecodeCommand(data[0], data[1]).Some? {
        TargetNumber(data[1]);
      }
    }
    hide SdoRequestCobId, SdoResponseCobId, Padded, S.ServerStep, L.SlaveStep, SlotFor, AppliedTo;
  }

  lemma CobIdZero(cobId: bv16)
    ensures cobId as int == 0 <==> cobId == 0
  {
  }

  lemma EventSignals(d: Device, e: Event)
    requires d.Valid()
    ensures Handled(d, e).0.nmt == After(d.nmt, SignalOf(d, e))
  {
    if e.Receive? {
      FrameSignals(d, e.cobId, e.data);
    }
    hide FrameStep, IsCommand;
  }

  // --- Runs -----------------------------------------------------------------

  lemma DecidedNext(signals: seq<Signal>, state: NmtState, x: Signal)
    requires Decided(signals, state) && (x.Command? ==> x.specifier in {0x01, 0x02, 0x80, 0x81, 0x82})
    ensures Decided(signals + [x], After(state, x))
  {
    hide Asleep, ResetAfter, InEffect;
    AsleepNext(signals, x);
    var all, next := signals + [x], After(state, x);
    forall b, c | InEffect(all, b) && LastSince(all, b, c)
      ensures all[c].specifier == 0x01 ==> next.Operational?
      ensures all[c].specifier == 0x02 ==> next.Stopped?
      ensures all[c].specifier == 0x80 ==> next.PreOperational?
    {
      InEffectNext(signals, x, b);
      InEffectIsAwake(all, b);
      if c < |signals| {
        assert !all[|signals|].Command?;
        LastSincePrefix(signals, x, b, c);
      }
    }
    forall b | InEffect(all, b) && NoneSince(all, b) ensures next.PreOperational? {
      InEffectNext(signals, x, b);
      InEffectIsAwake(all, b);
      if b < |signals| {
        assert !all[|signals|].Command?;
        forall j | b < j < |signals| && 0 <= j ensures !signals[j].Command? {
          assert all[j] == signals[j];
        }
        assert NoneSince(signals, b);
      }
    }
  }

  lemma LastSincePrefix(signals: seq<Signal>, x: Signal, b: int, c: int)
    requires LastSince(signals + [x], b, c) && c < |signals|
    ensures LastSince(signals, b, c) && (signals + [x])[c] == signals[c]
  {
    forall j | c < j < |signals| ensures !signals[j].Command? {
      assert (signals + [x])[j] == signals[j];
    }
  }

  lemma InEffectIsAwake(signals: seq<Signal>, b: int)
    requires InEffect(signals, b)
    ensures 0 <= b < |signals| && !Asleep(signals)
  {
    hide ResetAfter;
  }

  lemma NothingDecided()
    ensures Decided([], Initialising)
  {
  }

  /**
    Over any run of a node that starts initialising: it is initialising exactly when every boot has
    been undone by a reset (0x81, 0x82) since. Otherwise the last command since the boot in effect
    decides: 0x01 operational, 0x02 stopped, 0x80 or none at all pre-operational.
   */
  lemma {:induction false} RunDecided(d: Device, events: seq<Event>)
    requires d.Valid() && d.nmt.Initialising?
    ensures Decided(Signals(d, events), Run(d, events).nmt)
  {
    hide Decided, SignalOf, Handled;
    if events == [] {
      NothingDecided();
    } else {
      var n := |events| - 1;
      var before := Run(d, events[..n]);
      RunDecided(d, events[..n]);
      EventSignals(before, events[n]);
      CommandsKnown(before, events[n]);
      DecidedNext(Signals(d, events[..n]), before.nmt, SignalOf(before, events[n]));
    }
  }

  lemma CommandsKnown(d: Device, e: Event)
    ensures var x := SignalOf(d, e); x.Command? ==> x.specifier in {0x01, 0x02, 0x80, 0x81, 0x82}
  {
  }

  /** A node that is not asleep has a boot in effect. */
  lemma AwakeSince(signals: seq<Signal>) returns (b: int)
    requires !Asleep(signals)
    ensures InEffect(signals, b)
  {
    var i :| 0 <= i < |signals| && signals[i].Boots? && !ResetAfter(signals, i);
    b := FirstInEffect(signals, i);
  }

  lemma {:induction false} FirstInEffect(signals: seq<Signal>, i: int) returns (b: int)
    requires 0 <= i < |signals| && signals[i].Boots? && !ResetAfter(signals, i)
    ensures InEffect(signals, b)
    decreases i
  {
    if Asleep(signals[..i]) {
      b := i;
    } else {
      var k :| 0 <= k < i && signals[..i][k].Boots? && !ResetAfter(signals[..i], k);
      if ResetAfter(signals, k) {
        ResetSplit(signals, i, k);
      }
      b := FirstInEffect(signals, k);
    }
  }

  /** A reset after k comes before the boot at i or after it. */
  lemma ResetSplit(signals: seq<Signal>, i: int, k: int)
    requires 0 <= k < i < |signals| && signals[i].Boots? && ResetAfter(signals, k)
    ensures ResetAfter(signals[..i], k) || ResetAfter(signals, i)
  {
    var j :| k < j < |signals| && 0 <= j && signals[j].IsReset();
    if j < i {
      assert signals[..i][j].IsReset();
    }
  }
}
