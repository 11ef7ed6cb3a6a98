/** The error objects of a running node (core/src/node.rs). */
module NodeErrors {
  import opened Bytes
  import opened Datatypes
  import opened ObjectDictionaries
  import opened Records
  import opened ErrorField
  import opened Nodes
  import NodeGating

  /** What a device does with a node: report an error event, or pass it a frame from the bus. */
  datatype Event =
    | Report(error: ErrorEvent)
    | Receive(cobId: bv16, data: seq<byte>)

  function Handled(d: Device, e: Event): (next: Device)
    requires d.Valid()
    ensures next.Valid()
  {
    match e
    case Report(error) => ErrorsRecorded(d, error)
    case Receive(cobId, data) =>
      NodeGating.FrameGated(d, cobId, data);
      FrameStep(d, cobId, data).0
  }

  function Run(d: Device, events: seq<Event>): (end: Device)
    requires d.Valid()
    ensures end.Valid()
  {
    if events == [] then d else Handled(Run(d, events[..|events| - 1]), events[|events| - 1])
  }

  function Reported(events: seq<Event>): seq<ErrorEvent> {
    if events == [] then []
    else
      var before := Reported(events[..|events| - 1]);
      match events[|events| - 1]
      case Report(error) => before + [error]
      case Receive(_, _) => before
  }

  lemma FrameKeepsErrors(d: Device, cobId: bv16, data: seq<byte>)
    requires d.Valid()
    ensures FrameStep(d, cobId, data).0.errors == d.errors
  {
    hide SdoRequestCobId, SdoResponseCobId, Padded, SlotFor, Nodes.S.ServerStep, Nodes.L.SlaveStep;
  }

  lemma TypesKeepErrorObjects(before: Dict, after: Dict, n: nat)
    requires HasErrorObjects(before, n) && after.Keys == before.Keys
    requires forall a :: a in before ==> after[a].value.Type() == before[a].value.Type()
    ensures HasErrorObjects(after, n)
  {
    hide Sub;
    forall k | 1 <= k <= n ensures ShapedWord(after, ERROR_FIELD_INDEX, k) {
      assert ShapedWord(before, ERROR_FIELD_INDEX, k);
    }
  }

  lemma HandledKeepsErrorObjects(d: Device, e: Event, n: nat)
    requires d.Valid() && HasErrorObjects(d.od, n)
    ensures HasErrorObjects(Handled(d, e).od, n)
  {
    hide HasErrorObjects, Mirrored, ErrorStep, FrameStep;
    var next := Handled(d, e);
    match e
    case Report(error) =>
      MirroredChangesOnlyErrors(d.od, next.errors.register, next.errors.history);
      TypesKeepErrorObjects(d.od, next.od, n);
    case Receive(cobId, data) =>
      NodeGating.FrameGated(d, cobId, data);
      TypesKeepErrorObjects(d.od, next.od, n);
  }

  lemma {:induction false} RunKeepsErrorObjects(d: Device, events: seq<Event>, n: nat)
    requires d.Valid() && HasErrorObjects(d.od, n)
    ensures HasErrorObjects(Run(d, events).od, n)
  {
    hide Handled, HasErrorObjects;
    if events != [] {
      RunKeepsErrorObjects(d, events[..|events| - 1], n);
      HandledKeepsErrorObjects(Run(d, events[..|events| - 1]), events[|events| - 1], n);
    }
  }

  lemma {:induction false} RunRecordsErrors(d: Device, events: seq<Event>)
    requires d.Valid() && d.errors == ErrorState(0, [])
    ensures Run(d, events).errors == ErrorsAfter(Reported(events))
  {
    hide FrameStep, Mirrored, ErrorStep;
    if events != [] {
      RunRecordsErrors(d, events[..|events| - 1]);
      match events[|events| - 1]
      case Report(error) =>
        var reported := Reported(events[..|events| - 1]);
        assert (reported + [error])[..|reported|] == reported;
      case Receive(cobId, data) => FrameKeepsErrors(Run(d, events[..|events| - 1]), cobId, data);
    }
  }

  /**
    Whatever errors are raised and cleared, and whatever frames arrive in between: the error field
    holds the newest codes since the last clear, newest first; a register bit is set exactly when
    some raise since then set it; and right after each report the dictionary shows both, if it has
    the objects for as many entries as there are.
   */
  lemma ErrorObjectsShowHistory(d: Device, events: seq<Event>, error: ErrorEvent)
    requires d.Valid() && d.errors == ErrorState(0, [])
    ensures var now := Run(d, events + [Report(error)]);
            && Explains(now.errors, Reported(events) + [error])
            && (HasErrorObjects(d.od, |now.errors.history|) ==>
                  ReadsAs(now.od, now.errors.register, Raised(Reported(events) + [error])))
  {
    hide HasErrorObjects, Mirrored, ErrorStep, Newest, SomeRaised, ShowsErrors, ReadsAs, FrameStep, ErrorsAfter, Raised;
    var before := Run(d, events);
    var all := events + [Report(error)];
    assert all[..|events|] == events;
    RunRecordsErrors(d, all);
    ErrorsExplained(Reported(all));
    var errors := ErrorsRecorded(before, error).errors;
    if HasErrorObjects(d.od, |errors.history|) {
      RunKeepsErrorObjects(d, events, |errors.history|);
      MirroredShows(before.od, errors.register, errors.history);
      ShownReads(ErrorsRecorded(before, error).od, errors, Raised(Reported(all)));
    }
  }

  /**
    A clear leaves the words of earlier errors in the dictionary: the first entry of the error field
    still reads as it did, although the field now counts none.
   */
  lemma ClearLeavesOldWords(d: Device, k: nat)
    requires d.Valid() && 1 <= k <= 255 && Sub(ERROR_FIELD_INDEX, k) in d.od
    ensures var now := ErrorsRecorded(d, Clear);
            && now.errors.history == []
            && now.od[Sub(ERROR_FIELD_INDEX, k)] == d.od[Sub(ERROR_FIELD_INDEX, k)]
  {
    var first := SetTo(d.od, ERROR_REGISTER, Unsigned8(0));
    SetToEffect(d.od, ERROR_REGISTER, Unsigned8(0));
    StoreRecordHolds(first, ERROR_FIELD_INDEX, []);
    if Sub(ERROR_FIELD_INDEX, k) == Sub(ERROR_FIELD_INDEX, 0) {
      SubInjective(ERROR_FIELD_INDEX, k, 0);
    }
    hide SetTo, StoreRecord, HoldsRecord, Shaped;
  }
}
