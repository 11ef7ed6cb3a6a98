/** Splitting a value into data segments and putting it together again (core/src/sdo/mod.rs). */
module Segments {
  import opened Wrappers
  import opened Bytes
  import opened SdoCodec
  import opened SegmentSize

  datatype Writer = Writer(data: seq<byte>, pos: nat, toggle: bool) {
    predicate Valid() {
      pos <= |data|
    }

    predicate IsDone() {
      pos >= |data|
    }
  }

  function NewWriter(data: seq<byte>): Writer {
    Writer(data, 0, false)
  }

  function NextSegment(w: Writer): (next: (Writer, Option<Frame>))
    requires w.Valid()
    ensures next.0.Valid() && next.0.data == w.data && (next.1.Some? ==> next.0.pos > w.pos)
  {
    if w.IsDone() then (w, None)
    else
      var len := Take(|w.data|, w.pos);
      var last := |w.data| - w.pos <= SEGMENT_DATA_MAX;
      (w.(pos := w.pos + len, toggle := !w.toggle),
       Some(EncodeDataSegment(w.data[w.pos..w.pos + len], w.toggle, last).value))
  }

  class SegmentWriter {
    const data: seq<byte>
    var pos: nat
    var toggle: bool

    function View(): Writer
      reads this
    {
      Writer(data, pos, toggle)
    }

    constructor (data: seq<byte>)
      ensures View() == NewWriter(data)
    {
      this.data, this.pos, this.toggle := data, 0, false;
    }

    method Next() returns (segment: Option<Frame>)
      requires View().Valid()
      modifies this
      ensures (View(), segment) == NextSegment(old(View()))
    {
      if pos >= |data| {
        return None;
      }
      var remaining := |data| - pos;
      var len := if remaining < SEGMENT_DATA_MAX then remaining else SEGMENT_DATA_MAX;
      var last := remaining <= SEGMENT_DATA_MAX;
      segment := Some(EncodeDataSegment(data[pos..pos + len], toggle, last).value);
      pos := pos + len;
      toggle := !toggle;
    }
  }

  datatype Reader = Reader(buf: seq<byte>, toggle: bool, done: bool)

  const NEW_READER := Reader([], false, false)

  /** A refused segment leaves the reader as it was. */
  function Pushed(r: Reader, capacity: nat, segment: Segment): (Reader, Result<Unit>) {
    if r.done then (r, Err(UnexpectedCommand))
    else if segment.toggle != r.toggle then (r, Err(ToggleMismatch))
    else if |r.buf| + |segment.data| > capacity then (r, Err(Overflow))
    else (Reader(r.buf + segment.data, !r.toggle, segment.last), Ok(Unit))
  }

  class SegmentReader {
    const capacity: nat
    var buf: seq<byte>
    var toggle: bool
    var done: bool

    function View(): Reader
      reads this
    {
      Reader(buf, toggle, done)
    }

    constructor (capacity: nat)
      ensures View() == NEW_READER && this.capacity == capacity
    {
      this.capacity, this.buf, this.toggle, this.done := capacity, [], false, false;
    }

    method Push(segment: Segment) returns (r: Result<Unit>)
      modifies this
      ensures (View(), r) == Pushed(old(View()), capacity, segment)
    {
      if done {
        return Err(UnexpectedCommand);
      }
      if segment.toggle != toggle {
        return Err(ToggleMismatch);
      }
      if |buf| + |segment.data| > capacity {
        return Err(Overflow);
      }
      buf := buf + segment.data;
      toggle := !toggle;
      if segment.last {
        done := true;
      }
      return Ok(Unit);
    }
  }

  // --- A whole transfer -----------------------------------------------------

  /** Every segment the writer still has to send. */
  function Stream(w: Writer): seq<Frame>
    requires w.Valid()
    decreases |w.data| - w.pos
  {
    var (w', segment) := NextSegment(w);
    if segment.None? then [] else [segment.value] + Stream(w')
  }

  /** The reader takes decoded segments one by one, up to the first it refuses. */
  function Received(r: Reader, capacity: nat, frames: seq<Frame>): (Reader, Result<Unit>)
    decreases |frames|
  {
    if frames == [] then (r, Ok(Unit))
    else
      match DecodeDataSegment(frames[0])
      case Err(e) => (r, Err(e))
      case Ok(segment) =>
        var (r', pushed) := Pushed(r, capacity, segment);
        if pushed.Err? then (r', pushed) else Received(r', capacity, frames[1..])
  }

  /** What the next segment looks like to the reader. */
  lemma NextDecodes(w: Writer)
    requires w.Valid() && !w.IsDone()
    ensures var (w', f) := NextSegment(w);
            f.Some? && DecodeDataSegment(f.value) == Ok(Segment(w.toggle, w'.IsDone(), w.data[w.pos..w'.pos]))
  {
    var (w', f) := NextSegment(w);
    DataSegmentRoundTrip(w.data[w.pos..w'.pos], w.toggle, w'.IsDone());
    hide EncodeDataSegment, DecodeDataSegment;
  }

  lemma {:induction false} ReceivedFrom(w: Writer, r: Reader, capacity: nat)
    requires w.Valid() && !w.IsDone() && r == Reader(w.data[..w.pos], w.toggle, false)
    ensures var (end, result) := Received(r, capacity, Stream(w));
            if |w.data| <= capacity then result.Ok? && end.buf == w.data && end.done
            else result == Err(Overflow) && !end.done && end.buf <= w.data
    decreases |w.data| - w.pos
  {
    NextDecodes(w);
    var (w', f) := NextSegment(w);
    assert w.data[..w.pos] + w.data[w.pos..w'.pos] == w.data[..w'.pos];
    hide EncodeDataSegment, DecodeDataSegment;
    if w'.pos <= capacity && !w'.IsDone() {
      ReceivedFrom(w', Reader(w'.data[..w'.pos], w'.toggle, false), capacity);
    }
  }

  lemma {:induction false} StreamLength(w: Writer)
    requires w.Valid()
    ensures |Stream(w)| == (|w.data| - w.pos + SEGMENT_DATA_MAX - 1) / SEGMENT_DATA_MAX
    decreases |w.data| - w.pos
  {
    if !w.IsDone() {
      StreamLength(NextSegment(w).0);
    }
    hide EncodeDataSegment;
  }

  /**
    Segments from the writer, pushed into a new reader, rebuild the data and complete the transfer
    exactly when there is data and it fits. No data means no segments, so an empty value never
    completes; data that does not fit is refused with an overflow.
   */
  lemma SegmentsRoundTrip(data: seq<byte>, capacity: nat)
    ensures var frames := Stream(NewWriter(data));
            var (end, result) := Received(NEW_READER, capacity, frames);
            && |frames| == (|data| + SEGMENT_DATA_MAX - 1) / SEGMENT_DATA_MAX
            && (result.Ok? && end.done && end.buf == data <==> data != [] && |data| <= capacity)
            && (|data| > capacity ==> result == Err(Overflow) && end.buf <= data)
            && (data == [] ==> frames == [] && end == NEW_READER)
  {
    StreamLength(NewWriter(data));
    if data != [] {
      ReceivedFrom(NewWriter(data), NEW_READER, capacity);
    }
    hide NextSegment;
  }

  /** A segment that arrives twice is refused the second time and changes nothing. */
  lemma RepeatRefused(r: Reader, capacity: nat, segment: Segment)
    ensures var (after, first) := Pushed(r, capacity, segment);
            var (again, second) := Pushed(after, capacity, segment);
            first.Ok? ==> again == after && second == Err(if segment.last then UnexpectedCommand else ToggleMismatch)
  {
  }
}
