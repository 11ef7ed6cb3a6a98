/**
  SDO block transfer (core/src/sdo/block.rs): sub-block segments and the end frame, the writer that
  splits data into sub-blocks and the receiver that reassembles it. BlockTransfer.dfy puts the two
  together.
 */
module Block {
  import opened Wrappers
  import opened Bytes
  import opened Crc
  import opened SegmentSize

  const MAX_BLKSIZE: nat := 127

  /** A sequence number or sub-block size, a `u8` in the source. */
  type Count8 = n: nat | n < 256

  datatype SubSegment = SubSegment(seqno: Count8, last: bool, data: seq<byte>)

  function SequenceByte(seqno: Count8, last: bool): byte {
    (seqno as byte) | if last then 0x80 else 0
  }

  function EncodeSubSegment(seqno: Count8, data: seq<byte>, last: bool): Result<Frame> {
    if seqno == 0 || seqno > MAX_BLKSIZE || data == [] || |data| > SEGMENT_DATA_MAX then Err(BadLength)
    else Ok([SequenceByte(seqno, last)] + data + Zeroes(SEGMENT_DATA_MAX - |data|))
  }

  function DecodeSubSegment(p: Frame): SubSegment {
    SubSegment((p[0] & 0x7F) as int, p[0] & 0x80 != 0, p[1..8])
  }

  function EncodeEnd(unused: Count8, crc: bv16): Frame {
    var c := Le16(crc);
    [0xC0 | (((unused as byte) & 0x07) << 2) | 0x01, c[0], c[1], 0, 0, 0, 0, 0]
  }

  function DecodeEnd(p: Frame): Result<(Count8, bv16)> {
    if p[0] & 0xE0 != 0xC0 || p[0] & 0x03 != 0x01 then Err(UnexpectedCommand)
    else Ok((((p[0] >> 2) & 0x07) as int, FromLe16(p[1], p[2])))
  }

  lemma SequenceByteRoundTrip(seqno: Count8, last: bool)
    requires seqno <= MAX_BLKSIZE
    ensures (SequenceByte(seqno, last) & 0x7F) as int == seqno
    ensures (SequenceByte(seqno, last) & 0x80 != 0) == last
  {
    SmallByte(seqno);
    SequenceBits(seqno as byte, last);
  }

  lemma SmallByte(n: nat)
    requires n <= 127
    ensures (n as byte) as int == n && (n as byte) < 0x80
  {
  }

  lemma SequenceBits(b: byte, last: bool)
    requires b < 0x80
    ensures (b | if last then 0x80 else 0) & 0x7F == b
    ensures ((b | if last then 0x80 else 0) & 0x80 != 0) == last
  {
  }

  /** A decoded segment carries the bytes sent, padded to seven. */
  lemma SubSegmentRoundTrip(seqno: Count8, data: seq<byte>, last: bool)
    requires 1 <= seqno <= MAX_BLKSIZE && 1 <= |data| <= SEGMENT_DATA_MAX
    ensures EncodeSubSegment(seqno, data, last).Ok?
    ensures DecodeSubSegment(EncodeSubSegment(seqno, data, last).value) ==
            SubSegment(seqno, last, data + Zeroes(SEGMENT_DATA_MAX - |data|))
  {
    SequenceByteRoundTrip(seqno, last);
    hide SequenceByte;
    var p := EncodeSubSegment(seqno, data, last).value;
    assert p[1..8] == data + Zeroes(SEGMENT_DATA_MAX - |data|);
  }

  lemma EndRoundTrip(unused: Count8, crc: bv16)
    requires unused <= 7
    ensures DecodeEnd(EncodeEnd(unused, crc)) == Ok((unused, crc))
  {
    Le16RoundTrip(crc);
    SmallByte(unused);
    EndBits(unused as byte);
    hide Le16, FromLe16;
  }

  lemma EndBits(b: byte)
    requires b <= 7
    ensures
      var p: byte := 0xC0 | ((b & 0x07) << 2) | 0x01;
      p & 0xE0 == 0xC0 && p & 0x03 == 0x01 && (p >> 2) & 0x07 == b
  {
  }

  // --- Writer ---------------------------------------------------------------

  datatype Writer = Writer(data: seq<byte>, pos: nat, seqno: Count8, blksize: Count8) {
    /** What `BlockWriter` needs of its caller: a negotiated size the sequence numbers can reach. */
    predicate Valid() {
      pos <= |data| && 1 <= seqno <= MAX_BLKSIZE + 1 && blksize <= MAX_BLKSIZE
    }

    predicate IsDone() {
      pos >= |data|
    }

    /** The next segment would need a sequence number that does not exist, and the writer fails. */
    predicate Overruns() {
      !IsDone() && MAX_BLKSIZE < seqno <= blksize
    }

    /** What a call for the next segment demands, whatever block size was asked for. */
    predicate Ready() {
      pos <= |data| && seqno >= 1 && !Overruns()
    }
  }

  function NewWriter(data: seq<byte>, blksize: Count8): Writer {
    Writer(data, 0, 1, blksize)
  }

  /** The frame of the writer's next segment; the source expects it to encode. */
  function SegmentFrame(w: Writer): Result<Frame>
    requires w.pos <= |w.data|
  {
    var take := Take(|w.data|, w.pos);
    EncodeSubSegment(w.seqno, w.data[w.pos..w.pos + take], |w.data| - w.pos <= SEGMENT_DATA_MAX)
  }

  function NextSegment(w: Writer): (Writer, Option<Frame>)
    requires w.Ready()
  {
    if w.IsDone() || w.seqno > w.blksize then (w, None)
    else
      (w.(pos := w.pos + Take(|w.data|, w.pos), seqno := w.seqno + 1), Some(SegmentFrame(w).value))
  }

  function SubBlockStarted(w: Writer, blksize: Count8): Writer {
    w.(seqno := 1, blksize := blksize)
  }

  function UnusedBytes(len: nat): (n: Count8)
    ensures n <= 7
  {
    if len % SEGMENT_DATA_MAX == 0 && len > 0 then 0 else SEGMENT_DATA_MAX - len % SEGMENT_DATA_MAX
  }

  function EndFrameOf(data: seq<byte>, crcSupport: bool): Frame {
    EncodeEnd(UnusedBytes(|data|), if crcSupport then Crc16(data) else 0)
  }

  class BlockWriter {
    const data: seq<byte>
    var pos: nat
    var seqno: Count8
    var blksize: Count8

    function View(): Writer
      reads this
    {
      Writer(data, pos, seqno, blksize)
    }

    constructor (data: seq<byte>, blksize: Count8)
      ensures View() == NewWriter(data, blksize)
    {
      this.data, this.pos, this.seqno, this.blksize := data, 0, 1, blksize;
    }

    method Next() returns (segment: Option<Frame>)
      requires View().Ready()
      modifies this
      ensures (View(), segment) == NextSegment(old(View()))
      ensures old(View()).Valid() ==> View().Valid()
    {
      if pos >= |data| || seqno > blksize {
        return None;
      }
      var remaining := |data| - pos;
      var take := if remaining < SEGMENT_DATA_MAX then remaining else SEGMENT_DATA_MAX;
      var last := remaining <= SEGMENT_DATA_MAX;
      segment := Some(EncodeSubSegment(seqno, data[pos..pos + take], last).value);
      pos := pos + take;
      seqno := seqno + 1;
    }

    method StartSubBlock(blksize: Count8)
      modifies this
      ensures View() == SubBlockStarted(old(View()), blksize)
    {
      seqno := 1;
      this.blksize := blksize;
    }

    method EndFrame(crcSupport: bool) returns (frame: Frame)
      ensures frame == EndFrameOf(data, crcSupport)
    {
      var lastLen := |data| % SEGMENT_DATA_MAX;
      if lastLen == 0 && data != [] {
        lastLen := SEGMENT_DATA_MAX;
      }
      var crc: bv16 := 0;
      if crcSupport {
        crc := ComputeCrc16(data);
      }
      hide Crc16, EncodeEnd;
      frame := EncodeEnd(SEGMENT_DATA_MAX - lastLen, crc);
    }
  }

  // --- Block sizes the source lets through ----------------------------------

  /** A call for the next segment that has to send one, and cannot encode it. */
  predicate Fails(w: Writer)
    requires w.pos <= |w.data|
  {
    !w.IsDone() && w.seqno <= w.blksize && SegmentFrame(w).Err?
  }

  /** The encoding fails exactly when the sequence numbers have run out. */
  lemma FailsIffOverruns(w: Writer)
    requires w.pos <= |w.data| && w.seqno >= 1
    ensures Fails(w) <==> w.Overruns()
  {
  }

  /** The writer after n calls for the next segment; none if one of them failed. */
  function After(w: Writer, n: nat): (end: Option<Writer>)
    requires w.pos <= |w.data| && w.seqno >= 1
    ensures end.Some? ==> end.value.pos <= |end.value.data| && end.value.seqno >= 1
  {
    if n == 0 then Some(w)
    else
      var before := After(w, n - 1);
      if before.None? || Fails(before.value) then None
      else
        FailsIffOverruns(before.value);
        Some(NextSegment(before.value).0)
  }

  lemma {:induction false} LongSubBlock(w: Writer, n: nat)
    requires w.seqno == 1 && w.blksize > MAX_BLKSIZE && n <= MAX_BLKSIZE
    requires w.pos + SEGMENT_DATA_MAX * MAX_BLKSIZE < |w.data|
    ensures After(w, n) == Some(w.(pos := w.pos + 7 * n, seqno := 1 + n))
  {
    hide SegmentFrame, Fails;
    if n > 0 {
      LongSubBlock(w, n - 1);
      FailsIffOverruns(After(w, n - 1).value);
    }
  }

  lemma {:induction false} ShortSubBlock(w: Writer, n: nat)
    requires w.seqno == 1 && w.pos <= |w.data|
    requires w.blksize <= MAX_BLKSIZE || |w.data| <= w.pos + SEGMENT_DATA_MAX * MAX_BLKSIZE
    ensures var end := After(w, n);
            && end.Some? && end.value.data == w.data && end.value.blksize == w.blksize && !end.value.Overruns()
            && end.value.seqno <= MAX_BLKSIZE + 1
            && (end.value.IsDone() || end.value.pos == w.pos + 7 * (end.value.seqno - 1))
  {
    hide SegmentFrame, Fails;
    if n > 0 {
      ShortSubBlock(w, n - 1);
      FailsIffOverruns(After(w, n - 1).value);
    }
  }

  /**
    Asking for the segments of a sub-block fails, because sequence number 128 does not encode,
    exactly when its size exceeds 127 and more than 127 full segments of data are left for it.
   */
  lemma SubBlockFailsIff(w: Writer, blksize: Count8)
    requires w.pos <= |w.data|
    ensures (exists n :: After(SubBlockStarted(w, blksize), n).None?) <==>
            blksize > MAX_BLKSIZE && |w.data| - w.pos > SEGMENT_DATA_MAX * MAX_BLKSIZE
    ensures blksize > MAX_BLKSIZE && |w.data| - w.pos > SEGMENT_DATA_MAX * MAX_BLKSIZE ==>
              var last := After(SubBlockStarted(w, blksize), MAX_BLKSIZE);
              last.Some? && last.value.seqno == 128 && SegmentFrame(last.value) == Err(BadLength)
  {
    var b := SubBlockStarted(w, blksize);
    if blksize > MAX_BLKSIZE && |w.data| - w.pos > SEGMENT_DATA_MAX * MAX_BLKSIZE {
      LongSubBlock(b, MAX_BLKSIZE);
      assert Fails(After(b, MAX_BLKSIZE).value);
      assert After(b, MAX_BLKSIZE + 1).None?;
    } else if n :| After(b, n).None? {
      ShortSubBlock(b, n);
      assert false;
    }
  }

  /** The smallest failing transfer: 890 bytes in a sub-block of 128 segments. */
  lemma FailingSubBlock()
    ensures After(NewWriter(Zeroes(890), 128), 127).Some? && After(NewWriter(Zeroes(890), 128), 128).None?
  {
    LongSubBlock(NewWriter(Zeroes(890), 128), 127);
    assert Fails(After(NewWriter(Zeroes(890), 128), 127).value);
  }

  /** A sub-block of size zero sends nothing, however often it is asked. */
  lemma {:induction false} ZeroSizeStalls(w: Writer, n: nat)
    requires w.pos <= |w.data|
    ensures var b := SubBlockStarted(w, 0);
            After(b, n) == Some(b) && NextSegment(b) == (b, None)
  {
    if n > 0 {
      ZeroSizeStalls(w, n - 1);
    }
  }

  // --- Receiver -------------------------------------------------------------

  datatype Receiver = Receiver(buf: seq<byte>, done: bool)

  const NEW_RECEIVER := Receiver([], false)

  function Pushed(r: Receiver, capacity: nat, segment: SubSegment): (Receiver, Result<Unit>) {
    if r.done then (r, Err(UnexpectedCommand))
    else if |r.buf| + |segment.data| > capacity then (r, Err(Overflow))
    else (Receiver(r.buf + segment.data, segment.last), Ok(Unit))
  }

  function Finished(r: Receiver, unused: Count8, crc: bv16, verifyCrc: bool): (Receiver, Result<seq<byte>>) {
    if unused > |r.buf| then (r, Err(BadLength))
    else
      var trimmed := r.buf[..|r.buf| - unused];
      (r.(buf := trimmed), if verifyCrc && Crc16(trimmed) != crc then Err(CrcMismatch) else Ok(trimmed))
  }

  class BlockReceiver {
    const capacity: nat
    var buf: seq<byte>
    var done: bool

    function View(): Receiver
      reads this
    {
      Receiver(buf, done)
    }

    constructor (capacity: nat)
      ensures View() == NEW_RECEIVER && this.capacity == capacity
    {
      this.capacity, this.buf, this.done := capacity, [], false;
    }

    method Push(segment: SubSegment) returns (r: Result<Unit>)
      modifies this
      ensures (View(), r) == Pushed(old(View()), capacity, segment)
    {
      if done {
        return Err(UnexpectedCommand);
      }
      if |buf| + |segment.data| > capacity {
        return Err(Overflow);
      }
      buf := buf + segment.data;
      if segment.last {
        done := true;
      }
      return Ok(Unit);
    }

    method Finish(unused: Count8, crc: bv16, verifyCrc: bool) returns (r: Result<seq<byte>>)
      modifies this
      ensures (View(), r) == Finished(old(View()), unused, crc, verifyCrc)
    {
      hide Crc16;
      if unused > |buf| {
        return Err(BadLength);
      }
      buf := buf[..|buf| - unused];
      if verifyCrc {
        var own := ComputeCrc16(buf);
        if own != crc {
          return Err(CrcMismatch);
        }
      }
      return Ok(buf);
    }
  }
}
