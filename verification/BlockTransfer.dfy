/**
  A whole block transfer (core/src/sdo/block.rs): the writer's stream of segments under any
  sequence of negotiated sub-block sizes, received into a bounded buffer and checked.
 */
module BlockTransfer {
  import opened Wrappers
  import opened Bytes
  import opened Crc
  import opened CrcDetection
  import opened Block
  import opened SegmentSize

  /** A negotiated sub-block size. */
  type BlockSize = n: nat | 1 <= n <= MAX_BLKSIZE witness 1

  /** The writer is somewhere in its `i`-th sub-block. */
  ghost predicate InSubBlock(w: Writer, sizes: nat -> BlockSize, i: nat) {
    w.Valid() && w.blksize == sizes(i) && w.seqno <= w.blksize + 1
  }

  /**
    Every segment the writer emits in its `i`-th sub-block and after, restarting with the next
    negotiated size whenever a sub-block is full.
   */
  ghost function Stream(w: Writer, sizes: nat -> BlockSize, i: nat): seq<Frame>
    requires InSubBlock(w, sizes, i)
    decreases |w.data| - w.pos, w.seqno
  {
    var (w', segment) := NextSegment(w);
    if segment.Some? then [segment.value] + Stream(w', sizes, i)
    else if w.IsDone() then []
    else Stream(SubBlockStarted(w, sizes(i + 1)), sizes, i + 1)
  }

  function SegmentCount(len: nat): nat {
    (len + SEGMENT_DATA_MAX - 1) / SEGMENT_DATA_MAX
  }

  function Min(a: nat, b: nat): nat {
    if a < b then a else b
  }

  /** The sequence numbers of `count` segments: 1, 2, ... up to each sub-block's size, then again. */
  ghost function Numbering(count: nat, sizes: nat -> BlockSize, i: nat): (numbers: seq<nat>)
    ensures |numbers| == count
    decreases count
  {
    if count == 0 then []
    else
      var block := Min(count, sizes(i));
      seq(block, k => k + 1) + Numbering(count - block, sizes, i + 1)
  }

  function Chunk(data: seq<byte>, k: nat): seq<byte>
    requires 7 * k <= |data|
  {
    data[7 * k..Min(7 * k + 7, |data|)]
  }

  /** The `k`-th segment of a transfer, numbered `seqno`. */
  ghost predicate IsSegment(f: Frame, data: seq<byte>, k: nat, seqno: nat) {
    && 7 * k < |data| && seqno < 256
    && DecodeSubSegment(f) ==
         SubSegment(seqno, k == SegmentCount(|data|) - 1,
                    Chunk(data, k) + Zeroes(7 - |Chunk(data, k)|))
  }

  ghost predicate IsStream(frames: seq<Frame>, data: seq<byte>, k: nat, numbers: seq<nat>) {
    |frames| == |numbers| && forall j :: 0 <= j < |frames| ==> IsSegment(frames[j], data, k + j, numbers[j])
  }

  // --- What the writer emits ------------------------------------------------

  lemma CountArithmetic(len: nat, k: nat)
    ensures 7 * k < len <==> k < SegmentCount(len)
    ensures 7 * k < len ==> (len - 7 * k <= 7 <==> k == SegmentCount(len) - 1)
    ensures 7 * SegmentCount(len) >= len
  {
  }

  /** The numbers left in a sub-block that is about to send number `seqno`. */
  ghost function NumbersFrom(count: nat, sizes: nat -> BlockSize, i: nat, seqno: nat): (numbers: seq<nat>)
    ensures |numbers| == count
  {
    var block := if seqno <= sizes(i) then Min(count, sizes(i) + 1 - seqno) else 0;
    seq(block, k => seqno + k) + Numbering(count - block, sizes, i + 1)
  }

  lemma NextSegmentIsSegment(w: Writer, k: nat)
    requires w.Valid() && w.pos == 7 * k < |w.data| && w.seqno <= w.blksize
    ensures
      var (w', f) := NextSegment(w);
      && f.Some? && IsSegment(f.value, w.data, k, w.seqno)
      && w' == w.(pos := Min(7 * k + 7, |w.data|), seqno := w.seqno + 1) && w'.Valid()
  {
    CountArithmetic(|w.data|, k);
    SubSegmentRoundTrip(w.seqno, Chunk(w.data, k), k == SegmentCount(|w.data|) - 1);
    hide EncodeSubSegment, DecodeSubSegment;
  }

  /** `w` is in its `i`-th sub-block with `k` segments sent. */
  ghost predicate Sent(w: Writer, sizes: nat -> BlockSize, i: nat, k: nat) {
    InSubBlock(w, sizes, i) && k <= SegmentCount(|w.data|) && w.pos == Min(7 * k, |w.data|)
  }

  ghost predicate StreamsOn(w: Writer, sizes: nat -> BlockSize, i: nat, k: nat)
    requires Sent(w, sizes, i, k)
  {
    IsStream(Stream(w, sizes, i), w.data, k, NumbersFrom(SegmentCount(|w.data|) - k, sizes, i, w.seqno))
  }

  lemma {:induction false} StreamShape(w: Writer, sizes: nat -> BlockSize, i: nat, k: nat)
    requires Sent(w, sizes, i, k)
    ensures StreamsOn(w, sizes, i, k)
    decreases |w.data| - w.pos, w.seqno
  {
    CountArithmetic(|w.data|, k);
    hide StreamsOn, NextSegment;
    if w.IsDone() {
      StreamShapeEnd(w, sizes, i, k);
    } else if w.seqno > w.blksize {
      StreamShape(SubBlockStarted(w, sizes(i + 1)), sizes, i + 1, k);
      StreamShapeRestart(w, sizes, i, k);
    } else {
      NextSegmentIsSegment(w, k);
      StreamShape(NextSegment(w).0, sizes, i, k + 1);
      StreamShapeStep(w, sizes, i, k);
    }
  }

  lemma StreamShapeEnd(w: Writer, sizes: nat -> BlockSize, i: nat, k: nat)
    requires Sent(w, sizes, i, k) && w.IsDone()
    ensures StreamsOn(w, sizes, i, k)
  {
    CountArithmetic(|w.data|, k);
  }

  lemma StreamShapeRestart(w: Writer, sizes: nat -> BlockSize, i: nat, k: nat)
    requires Sent(w, sizes, i, k) && !w.IsDone() && w.seqno > w.blksize
    requires Sent(SubBlockStarted(w, sizes(i + 1)), sizes, i + 1, k)
    requires StreamsOn(SubBlockStarted(w, sizes(i + 1)), sizes, i + 1, k)
    ensures StreamsOn(w, sizes, i, k)
  {
    StreamRestarts(w, sizes, i);
    NumbersRestart(SegmentCount(|w.data|) - k, sizes, i);
    hide IsStream, Stream, NumbersFrom;
  }

  lemma StreamShapeStep(w: Writer, sizes: nat -> BlockSize, i: nat, k: nat)
    requires Sent(w, sizes, i, k) && !w.IsDone() && w.seqno <= w.blksize
    requires NextSegment(w).0 == w.(pos := Min(7 * k + 7, |w.data|), seqno := w.seqno + 1)
    requires Sent(NextSegment(w).0, sizes, i, k + 1)
    requires StreamsOn(NextSegment(w).0, sizes, i, k + 1)
    ensures StreamsOn(w, sizes, i, k)
  {
    hide NextSegment, IsStream, IsSegment, NumbersFrom, Stream, SegmentCount;
    CountArithmetic(|w.data|, k);
    NextSegmentIsSegment(w, k);
    ConsStream(w, sizes, i, k, SegmentCount(|w.data|) - k);
  }

  lemma ConsStream(w: Writer, sizes: nat -> BlockSize, i: nat, k: nat, count: nat)
    requires InSubBlock(w, sizes, i) && w.seqno <= sizes(i) && count > 0
    requires
      var (w', f) := NextSegment(w);
      && f.Some? && InSubBlock(w', sizes, i) && IsSegment(f.value, w.data, k, w.seqno)
      && IsStream(Stream(w', sizes, i), w.data, k + 1, NumbersFrom(count - 1, sizes, i, w.seqno + 1))
    ensures IsStream(Stream(w, sizes, i), w.data, k, NumbersFrom(count, sizes, i, w.seqno))
  {
    StreamContinues(w, sizes, i);
    hide NextSegment, IsStream, IsSegment, NumbersFrom, Stream;
    var (w', f) := NextSegment(w);
    ConsIsStream(f.value, Stream(w', sizes, i), w.data, k, count, sizes, i, w.seqno);
  }

  lemma ConsIsStream(
    f: Frame, rest: seq<Frame>, data: seq<byte>, k: nat, count: nat, sizes: nat -> BlockSize, i: nat, seqno: nat)
    requires 1 <= seqno <= sizes(i) && count > 0
    requires IsSegment(f, data, k, seqno)
    requires IsStream(rest, data, k + 1, NumbersFrom(count - 1, sizes, i, seqno + 1))
    ensures IsStream([f] + rest, data, k, NumbersFrom(count, sizes, i, seqno))
  {
    hide IsSegment, NumbersFrom;
    NumbersContinue(count, sizes, i, seqno);
    var frames := [f] + rest;
    var numbers := NumbersFrom(count, sizes, i, seqno);
    assert IsSegment(frames[0], data, k, numbers[0]);
    forall j | 1 <= j < |frames|
      ensures IsSegment(frames[j], data, k + j, numbers[j])
    {
      TailSegment(f, rest, data, k, numbers, j);
    }
  }

  lemma TailSegment(f: Frame, rest: seq<Frame>, data: seq<byte>, k: nat, numbers: seq<nat>, j: nat)
    requires numbers != [] && IsStream(rest, data, k + 1, numbers[1..]) && 1 <= j <= |rest|
    ensures j < |numbers| && IsSegment(([f] + rest)[j], data, k + j, numbers[j])
  {
    hide IsSegment;
    assert ([f] + rest)[j] == rest[j - 1] && numbers[1..][j - 1] == numbers[j];
    assert IsSegment(rest[j - 1], data, k + 1 + (j - 1), numbers[1..][j - 1]);
  }

  lemma StreamContinues(w: Writer, sizes: nat -> BlockSize, i: nat)
    requires InSubBlock(w, sizes, i) && NextSegment(w).1.Some? && InSubBlock(NextSegment(w).0, sizes, i)
    ensures Stream(w, sizes, i) == [NextSegment(w).1.value] + Stream(NextSegment(w).0, sizes, i)
  {
  }

  lemma StreamRestarts(w: Writer, sizes: nat -> BlockSize, i: nat)
    requires InSubBlock(w, sizes, i) && !w.IsDone() && w.seqno > w.blksize
    ensures Stream(w, sizes, i) == Stream(SubBlockStarted(w, sizes(i + 1)), sizes, i + 1)
  {
  }

  lemma NumbersRestart(count: nat, sizes: nat -> BlockSize, i: nat)
    ensures NumbersFrom(count, sizes, i, sizes(i) + 1) == NumbersFrom(count, sizes, i + 1, 1)
  {
    assert NumbersFrom(count, sizes, i, sizes(i) + 1) == Numbering(count, sizes, i + 1);
    NumbersFromOne(count, sizes, i + 1);
  }

  lemma NumbersFromOne(count: nat, sizes: nat -> BlockSize, i: nat)
    ensures NumbersFrom(count, sizes, i, 1) == Numbering(count, sizes, i)
  {
    var block := Min(count, sizes(i));
    assert seq(block, k => 1 + k) == seq(block, k => k + 1);
    if count == 0 {
      assert Numbering(0, sizes, i + 1) == [];
    }
  }

  lemma NumbersContinue(count: nat, sizes: nat -> BlockSize, i: nat, seqno: nat)
    requires 1 <= seqno <= sizes(i) && count > 0
    ensures NumbersFrom(count, sizes, i, seqno)[0] == seqno
    ensures NumbersFrom(count, sizes, i, seqno)[1..] == NumbersFrom(count - 1, sizes, i, seqno + 1)
  {
  }

  /**
    The segments of a transfer: one per seven bytes or part of them, numbered from 1 in every
    sub-block up to the size negotiated for it, the last flag on the final one only, each carrying
    its slice of the data.
   */
  lemma StreamOfTransfer(data: seq<byte>, sizes: nat -> BlockSize)
    ensures IsStream(Stream(NewWriter(data, sizes(0)), sizes, 0), data, 0,
                     Numbering(SegmentCount(|data|), sizes, 0))
  {
    StreamShape(NewWriter(data, sizes(0)), sizes, 0, 0);
    NumbersFromOne(SegmentCount(|data|), sizes, 0);
  }

  // --- What the receiver makes of it ----------------------------------------

  /** Push segments in order, stopping at the first error. */
  function ReceiveAll(r: Receiver, capacity: nat, frames: seq<Frame>): (Receiver, Result<Unit>)
    decreases |frames|
  {
    if frames == [] then (r, Ok(Unit))
    else
      var (r', pushed) := Pushed(r, capacity, DecodeSubSegment(frames[0]));
      if pushed.Err? then (r', pushed) else ReceiveAll(r', capacity, frames[1..])
  }

  /** The data received after `k` segments: the first `7 * k` bytes, the last segment padded. */
  function Padded(data: seq<byte>, k: nat): seq<byte> {
    if 7 * k <= |data| then data[..7 * k] else data + Zeroes(7 * k - |data|)
  }

  lemma PaddedStep(data: seq<byte>, k: nat)
    requires 7 * k < |data|
    ensures Padded(data, k + 1) == Padded(data, k) + (Chunk(data, k) + Zeroes(7 - |Chunk(data, k)|))
    ensures |Padded(data, k + 1)| == 7 * (k + 1)
  {
  }

  lemma {:induction false} ReceiveStream(
    r: Receiver, capacity: nat, frames: seq<Frame>, data: seq<byte>, k: nat, numbers: seq<nat>)
    requires IsStream(frames, data, k, numbers) && |frames| == SegmentCount(|data|) - k
    requires r.buf == Padded(data, k) && r.done == (k == SegmentCount(|data|) > 0)
    requires |r.buf| == 7 * k <= capacity
    ensures
      var (r', result) := ReceiveAll(r, capacity, frames);
      if 7 * SegmentCount(|data|) <= capacity then
        result == Ok(Unit) && r' == Receiver(Padded(data, SegmentCount(|data|)), SegmentCount(|data|) > 0)
      else result == Err(Overflow)
    decreases |frames|
  {
    if frames != [] {
      assert IsSegment(frames[0], data, k + 0, numbers[0]);
      PaddedStep(data, k);
      CountArithmetic(|data|, k);
      var segment := DecodeSubSegment(frames[0]);
      hide Padded, Chunk, SegmentCount, DecodeSubSegment;
      if 7 * (k + 1) <= capacity {
        TailIsStream(frames, data, k, numbers);
        ReceiveStream(Receiver(r.buf + segment.data, segment.last), capacity, frames[1..], data, k + 1, numbers[1..]);
      }
    }
  }

  lemma TailIsStream(frames: seq<Frame>, data: seq<byte>, k: nat, numbers: seq<nat>)
    requires IsStream(frames, data, k, numbers) && frames != []
    ensures IsStream(frames[1..], data, k + 1, numbers[1..])
  {
    hide IsSegment;
    forall j | 0 <= j < |frames| - 1
      ensures IsSegment(frames[1..][j], data, k + 1 + j, numbers[1..][j])
    {
      assert IsSegment(frames[j + 1], data, k + (j + 1), numbers[j + 1]);
    }
  }

  /** Writer to receiver with the checksum on: the received data, or the first error. */
  ghost function Transfer(data: seq<byte>, sizes: nat -> BlockSize, capacity: nat): Result<seq<byte>>
  {
    var (r, pushed) := ReceiveAll(NEW_RECEIVER, capacity, Stream(NewWriter(data, sizes(0)), sizes, 0));
    if pushed.Err? then Err(pushed.error)
    else
      var (unused, crc) :- DecodeEnd(EndFrameOf(data, true));
      Finished(r, unused, crc, true).1
  }

  lemma UnusedIsPadding(len: nat)
    requires len > 0
    ensures UnusedBytes(len) == 7 * SegmentCount(len) - len
  {
  }

  lemma PaddedWhole(data: seq<byte>)
    requires data != []
    ensures
      var n := SegmentCount(|data|);
      |Padded(data, n)| == 7 * n && Padded(data, n)[..|data|] == data
  {
    CountArithmetic(|data|, SegmentCount(|data|));
  }

  lemma Reception(data: seq<byte>, sizes: nat -> BlockSize, capacity: nat)
    ensures
      var n := SegmentCount(|data|);
      var (r, result) := ReceiveAll(NEW_RECEIVER, capacity, Stream(NewWriter(data, sizes(0)), sizes, 0));
      if 7 * n <= capacity then result == Ok(Unit) && r == Receiver(Padded(data, n), n > 0)
      else result == Err(Overflow)
  {
    var n := SegmentCount(|data|);
    StreamOfTransfer(data, sizes);
    assert Padded(data, 0) == [];
    ReceiveStream(NEW_RECEIVER, capacity, Stream(NewWriter(data, sizes(0)), sizes, 0), data, 0,
                  Numbering(n, sizes, 0));
  }

  lemma FinishWhole(data: seq<byte>, done: bool)
    requires data != []
    ensures Finished(Receiver(Padded(data, SegmentCount(|data|)), done), UnusedBytes(|data|), Crc16(data), true).1
         == Ok(data)
  {
    UnusedIsPadding(|data|);
    PaddedWhole(data);
    hide Crc16, Padded;
  }

  /**
    A block transfer delivers exactly the data, whatever sub-block sizes are negotiated, if and only
    if the data is not empty and the receiver's buffer holds every segment at its full seven bytes.
   */
  lemma BlockRoundTrip(data: seq<byte>, sizes: nat -> BlockSize, capacity: nat)
    ensures Transfer(data, sizes, capacity) == Ok(data) <==>
            data != [] && 7 * SegmentCount(|data|) <= capacity
    ensures data == [] ==> Transfer(data, sizes, capacity) == Err(BadLength)
    ensures data != [] && 7 * SegmentCount(|data|) > capacity ==> Transfer(data, sizes, capacity) == Err(Overflow)
  {
    Reception(data, sizes, capacity);
    EndRoundTrip(UnusedBytes(|data|), Crc16(data));
    hide EncodeEnd, DecodeEnd, Crc16, Stream, ReceiveAll, Padded;
    if data != [] {
      FinishWhole(data, SegmentCount(|data|) > 0);
    } else {
      assert Padded([], 0) == [] by {
        PaddedNothing();
      }
    }
  }

  lemma PaddedNothing()
    ensures Padded([], 0) == []
  {
  }

  /**
    A receiver holding data in which any sixteen consecutive bits were corrupted reports the mismatch
    when the checksum is verified, and hands the corrupted data on when it is not.
   */
  lemma CorruptionReported(r: Receiver, sent: seq<byte>, unused: Count8, k: nat)
    requires unused <= |r.buf|
    requires AgreeOutside(sent, r.buf[..|r.buf| - unused], k) && sent != r.buf[..|r.buf| - unused]
    ensures Finished(r, unused, Crc16(sent), true).1 == Err(CrcMismatch)
    ensures Finished(r, unused, Crc16(sent), false).1 == Ok(r.buf[..|r.buf| - unused])
  {
    BurstDetected(sent, r.buf[..|r.buf| - unused], k);
    hide Crc16;
  }
}
