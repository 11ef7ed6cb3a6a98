/**
  What stands on the wire, byte by byte and in numbers: the layout of every frame the model sends
  (core/src/sdo/mod.rs, core/src/sdo/block.rs, core/src/lss.rs, core/src/nmt.rs, core/src/emcy.rs) and
  of every value (core/src/datatypes.rs).
 */
module WireFormat {
  import opened Wrappers
  import opened Bytes
  import opened Datatypes
  import opened ObjectDictionaries
  import opened SdoCodec
  import opened Nmt
  import opened Nodes
  import opened Crc
  import opened SegmentSize
  import opened Pdo
  import opened PdoConfig
  import opened ErrorField
  import B = Block
  import G = Segments
  import L = Lss

  // --- Values ---------------------------------------------------------------

  /** The length of each fixed-size type, and which types have none. */
  lemma TypeSizes(t: DataType)
    ensures t.FixedSize() ==
            if t in {BooleanType, Integer8Type, Unsigned8Type} then Some(1)
            else if t in {Integer16Type, Unsigned16Type} then Some(2)
            else if t in {Integer32Type, Unsigned32Type, Real32Type} then Some(4)
            else if t in {Integer64Type, Unsigned64Type, Real64Type} then Some(8)
            else None
  {
  }

  /** The bytes are worth the number, least significant first; true is 1 and false is 0. */
  lemma ValueBytes(v: Value)
    ensures v.Boolean? ==> v.Encoded() == [if v.flag then 1 else 0]
    ensures v.Unsigned8? ==> v.Encoded() == [v.u8]
    ensures v.Unsigned16? ==> |v.Encoded()| == 2 && Number16(v.Encoded()[0], v.Encoded()[1]) == v.u16 as int
    ensures v.Unsigned32? ==>
              var b := v.Encoded();
              |b| == 4 && Number32(b[0], b[1], b[2], b[3]) == v.u32 as int
    ensures v.Unsigned64? ==> |v.Encoded()| == 8 && Number64(v.Encoded()) == v.u64 as int
    ensures v.VisibleString? ==> v.Encoded() == v.text
    ensures v.OctetString? ==> v.Encoded() == v.octets
    ensures v.Domain? ==> v.Encoded() == v.content
  {
    hide Number16, Number32, Number64, Le16, Le32, Le64;
    if v.Unsigned16? {
      LittleEndian16(v.u16);
    } else if v.Unsigned32? {
      LittleEndian32(v.u32);
    } else if v.Unsigned64? {
      LittleEndian64(v.u64);
    }
  }

  /** Signed integers and floats travel as the unsigned integer with the same bits. */
  lemma BitPatternBytes(v: Value)
    ensures v.Integer8? ==> v.Encoded() == Unsigned8(v.i8).Encoded()
    ensures v.Integer16? ==> v.Encoded() == Unsigned16(v.i16).Encoded()
    ensures v.Integer32? ==> v.Encoded() == Unsigned32(v.i32).Encoded()
    ensures v.Integer64? ==> v.Encoded() == Unsigned64(v.i64).Encoded()
    ensures v.Real32? ==> v.Encoded() == Unsigned32(v.f32).Encoded()
    ensures v.Real64? ==> v.Encoded() == Unsigned64(v.f64).Encoded()
  {
  }

  // --- SDO ------------------------------------------------------------------

  /** Index in bytes 1 and 2, least significant first, subindex in byte 3. */
  ghost predicate Names(p: Frame, addr: Address) {
    Number16(p[1], p[2]) == addr.index as int && p[3] == addr.subindex
  }

  lemma FrameNames(command: byte, addr: Address, tail: seq<byte>)
    requires |tail| == 4
    ensures var p := AddressedFrame(command, addr, tail);
            p[0] == command && Names(p, addr) && p[4..] == tail
  {
    LittleEndian16(addr.index);
    hide Number16, Le16;
  }

  /** The address a receiver reads is the one the bytes name. */
  lemma AddressIsNamed(p: Frame)
    ensures Names(p, AddressOf(p))
  {
    hide Number16;
    JoinedWord16(AddressOf(p).index, p[1], p[2]);
    NumberOfBytes(p[1], p[2]);
  }

  lemma NumberOfBytes(b0: byte, b1: byte)
    ensures Number16(b0, b1) == (b0 as int) + 0x100 * (b1 as int)
  {
  }

  /** An inline download of 1, 2, 3 or 4 bytes starts with 2F, 2B, 27 or 23. */
  lemma InlineDownloadBytes(addr: Address, v: Value)
    requires 1 <= v.Size() <= 4
    ensures var p := EncodeDownloadExpedited(addr, v);
            && p.Ok? && Names(p.value, addr)
            && p.value[0] == (if v.Size() == 1 then 0x2F else if v.Size() == 2 then 0x2B
                              else if v.Size() == 3 then 0x27 else 0x23)
            && p.value[4..4 + v.Size()] == v.Encoded()
  {
    InlineCommand(0x20, v.Size());
    InlineFrame(0x20, addr, v);
    hide ExpeditedCommand, Names;
  }

  /** An inline upload answer of 1, 2, 3 or 4 bytes starts with 4F, 4B, 47 or 43. */
  lemma InlineUploadBytes(addr: Address, v: Value)
    requires 1 <= v.Size() <= 4
    ensures var p := EncodeUploadExpeditedResponse(addr, v);
            && p.Ok? && Names(p.value, addr)
            && p.value[0] == (if v.Size() == 1 then 0x4F else if v.Size() == 2 then 0x4B
                              else if v.Size() == 3 then 0x47 else 0x43)
            && p.value[4..4 + v.Size()] == v.Encoded()
  {
    InlineCommand(0x40, v.Size());
    InlineFrame(0x40, addr, v);
    hide ExpeditedCommand, Names;
  }

  lemma InlineFrame(specifier: byte, addr: Address, v: Value)
    requires 1 <= v.Size() <= 4
    ensures var p := EncodeExpedited(specifier, addr, v);
            && p.Ok? && Names(p.value, addr) && p.value[0] == ExpeditedCommand(specifier, v.Size())
            && p.value[4..4 + v.Size()] == v.Encoded()
  {
    v.EncodedLength();
    var tail := v.Encoded() + Zeroes(4 - v.Size());
    FrameNames(ExpeditedCommand(specifier, v.Size()), addr, tail);
    hide ExpeditedCommand, AddressedFrame, Names, Value.Encoded, Value.Size;
    var p := EncodeExpedited(specifier, addr, v).value;
    assert p[4..4 + v.Size()] == p[4..][..v.Size()];
  }

  lemma InlineCommand(specifier: byte, len: nat)
    requires 1 <= len <= 4 && (specifier == 0x20 || specifier == 0x40)
    ensures ExpeditedCommand(specifier, len) ==
            specifier | (if len == 1 then 0x0F else if len == 2 then 0x0B else if len == 3 then 0x07 else 0x03)
  {
    if len == 1 {
      assert (4 - len) as byte == 3;
    } else if len == 2 {
      assert (4 - len) as byte == 2;
    } else if len == 3 {
      assert (4 - len) as byte == 1;
    } else {
      assert (4 - len) as byte == 0;
    }
  }

  /** Bytes 4 to 7 of a frame as a number. */
  ghost function Word(p: Frame): int {
    Number32(p[4], p[5], p[6], p[7])
  }

  /** The word a receiver reads is the one the bytes are worth. */
  lemma WordIsNumber(p: Frame)
    ensures WordOf(p) as int == Word(p)
  {
    JoinedWord32(WordOf(p), p[4], p[5], p[6], p[7]);
  }

  lemma WordFrame(command: byte, addr: Address, word: bv32)
    ensures var p := AddressedFrame(command, addr, Le32(word));
            p[0] == command && Names(p, addr) && Word(p) == word as int
  {
    FrameNames(command, addr, Le32(word));
    LittleEndian32(word);
    var p := AddressedFrame(command, addr, Le32(word));
    assert p[4] == p[4..][0] && p[5] == p[4..][1] && p[6] == p[4..][2] && p[7] == p[4..][3];
    hide Le32, Number32, AddressedFrame, Names;
  }

  /** A segmented download starts with 21 and its size, an upload's answer with 41 and its size. */
  lemma SegmentedInitiateBytes(addr: Address, size: bv32)
    ensures var p := EncodeDownloadInitiateSegmented(addr, size);
            p[0] == 0x21 && Names(p, addr) && Word(p) == size as int
    ensures var p := EncodeUploadInitiateSegmentedResponse(addr, size);
            p[0] == 0x41 && Names(p, addr) && Word(p) == size as int
  {
    WordFrame(0x21, addr, size);
    WordFrame(0x41, addr, size);
    hide AddressedFrame, Names, Word;
  }

  /** An acknowledgement starts with 60, an upload request with 40, an abort with 80 and its code. */
  lemma PlainFrameBytes(addr: Address, code: bv32)
    ensures EncodeDownloadResponse(addr)[0] == 0x60 && Names(EncodeDownloadResponse(addr), addr)
    ensures EncodeUploadRequest(addr)[0] == 0x40 && Names(EncodeUploadRequest(addr), addr)
    ensures EncodeAbort(addr, code)[0] == 0x80 && Names(EncodeAbort(addr, code), addr)
    ensures Word(EncodeAbort(addr, code)) == code as int
  {
    FrameNames(0x60, addr, Zeroes(4));
    FrameNames(0x40, addr, Zeroes(4));
    WordFrame(0x80, addr, code);
    hide AddressedFrame, Names, Word;
  }

  /** A data segment: unused bytes in bits 1 to 3, the toggle worth 16, the last flag worth 1. */
  lemma SegmentBytes(data: seq<byte>, toggle: bool, last: bool)
    requires |data| <= 7
    ensures var p := EncodeDataSegment(data, toggle, last);
            && p.Ok? && p.value[1..1 + |data|] == data
            && p.value[0] as int == 2 * (7 - |data|) + (if toggle then 16 else 0) + (if last then 1 else 0)
  {
    var unused := (7 - |data|) as byte;
    ByteRoundTrip(7 - |data|);
    SegmentCommandNumber(unused, toggle, last);
    var p := EncodeDataSegment(data, toggle, last).value;
    assert p[0] == SegmentCommand(|data|, toggle, last);
    assert p[1..1 + |data|] == data;
  }

  lemma SegmentCommandNumber(unused: byte, toggle: bool, last: bool)
    requires 0 <= unused as int <= 7
    ensures (((unused << 1) & 0x0E) | (if toggle then 0x10 else 0) | if last then 0x01 else 0) as int ==
            2 * (unused as int) + (if toggle then 16 else 0) + (if last then 1 else 0)
  {
    UnusedIsSmall(unused);
  }

  lemma UnusedIsSmall(unused: byte)
    requires 0 <= unused as int <= 7
    ensures unused <= 7
  {
  }

  /** Segment acknowledgements are 20 or 30, upload polls 60 or 70. */
  lemma SegmentControlBytes(toggle: bool)
    ensures EncodeDownloadSegmentResponse(toggle) == [if toggle then 0x30 else 0x20, 0, 0, 0, 0, 0, 0, 0]
    ensures EncodeUploadSegmentRequest(toggle) == [if toggle then 0x70 else 0x60, 0, 0, 0, 0, 0, 0, 0]
  {
  }

  /** Which first bytes each SDO decoder takes, and the error for all others. */
  lemma FramesRecognised(p: Frame)
    ensures DecodeDownloadResponse(p) == if p[0] == 0x60 then Ok(AddressOf(p)) else Err(UnexpectedCommand)
    ensures DecodeAbort(p) == if p[0] == 0x80 then Ok((AddressOf(p), WordOf(p))) else Err(UnexpectedCommand)
    ensures DecodeDownloadInitiateSegmented(p) ==
            if p[0] & 0xE3 == 0x21 then Ok((AddressOf(p), WordOf(p))) else Err(UnexpectedCommand)
    ensures DecodeUploadInitiateSegmentedResponse(p) ==
            if p[0] & 0xE3 == 0x41 then Ok((AddressOf(p), WordOf(p))) else Err(UnexpectedCommand)
    ensures DecodeDownloadSegmentResponse(p) ==
            if p[0] & 0xE0 == 0x20 then Ok(p[0] & 0x10 != 0) else Err(UnexpectedCommand)
    ensures if p[0] & 0xE0 == 0x00 then DecodeDataSegment(p).Ok? else DecodeDataSegment(p) == Err(UnexpectedCommand)
  {
    hide AddressOf, WordOf, SegmentLength;
  }

  /** An inline upload is taken from 43, 47, 4B and 4F, if its length is that of the type. */
  lemma InlineUploadRecognised(p: Frame, t: DataType)
    ensures var r := DecodeUploadExpeditedResponse(p, t);
            && (p[0] & 0xE3 != 0x43 ==> r == Err(UnexpectedCommand))
            && (p[0] & 0xE3 == 0x43 ==>
                  var len := 4 - ((p[0] >> 2) & 0x03) as int;
                  if t.FixedSize() != None && t.FixedSize() != Some(len) then r == Err(TypeMismatch)
                  else r.Ok? && r.value.0 == AddressOf(p) && DecodeLe(t, p[4..4 + len]) == Ok(r.value.1))
  {
    DecodedShape(t, p[4..4 + IndicatedLength(p[0])]);
    hide AddressOf, DecodeLe;
  }

  /** What does not fit a frame is refused. */
  lemma EncodersRefuse(addr: Address, v: Value, data: seq<byte>, toggle: bool, last: bool)
    ensures EncodeDownloadExpedited(addr, v).Err? <==> v.Size() !in {1, 2, 3, 4}
    ensures EncodeUploadExpeditedResponse(addr, v).Err? <==> v.Size() !in {1, 2, 3, 4}
    ensures v.Size() !in {1, 2, 3, 4} ==>
              EncodeDownloadExpedited(addr, v) == EncodeUploadExpeditedResponse(addr, v) == Err(UnsupportedTransfer)
    ensures if |data| <= 7 then EncodeDataSegment(data, toggle, last).Ok?
            else EncodeDataSegment(data, toggle, last) == Err(BadLength)
  {
    hide ExpeditedCommand, AddressedFrame, SegmentCommand;
  }

  // --- Block transfer -------------------------------------------------------

  /** A sub-block segment: the sequence number, plus 128 on the last one. */
  lemma SubSegmentBytes(seqno: B.Count8, data: seq<byte>, last: bool)
    requires 1 <= seqno <= 127 && 1 <= |data| <= 7
    ensures var p := B.EncodeSubSegment(seqno, data, last);
            p.Ok? && p.value[0] as int == seqno + (if last then 128 else 0) && p.value[1..1 + |data|] == data
  {
    ByteRoundTrip(seqno);
    SequenceNumber(seqno as byte, last);
    var p := B.EncodeSubSegment(seqno, data, last).value;
    assert p[1..1 + |data|] == data;
  }

  lemma SequenceNumber(b: byte, last: bool)
    requires b as int <= 127
    ensures (b | if last then 0x80 else 0) as int == b as int + if last then 128 else 0
  {
    TopBitIsClear(b);
  }

  lemma TopBitIsClear(b: byte)
    requires b as int <= 127
    ensures b & 0x80 == 0
  {
  }

  /** The end frame: C1 with the unused count worth 4, then the checksum, least significant first. */
  lemma EndFrameBytes(unused: B.Count8, crc: bv16)
    requires unused <= 7
    ensures var p := B.EncodeEnd(unused, crc);
            && p[0] as int == 0xC1 + 4 * unused && Number16(p[1], p[2]) == crc as int
            && p[3..] == [0, 0, 0, 0, 0]
  {
    ByteRoundTrip(unused);
    EndCommandNumber(unused as byte);
    LittleEndian16(crc);
    hide Number16, Le16;
  }

  lemma EndCommandNumber(b: byte)
    requires b as int <= 7
    ensures (0xC0 | ((b & 0x07) << 2) | 0x01) as int == 0xC1 + 4 * (b as int)
  {
  }

  /** Sequence numbers are 1 to 127, segments 1 to 7 bytes; an end frame is one that starts like C1. */
  lemma BlockFramesRefused(seqno: B.Count8, data: seq<byte>, last: bool, p: Frame)
    ensures if 1 <= seqno <= 127 && 1 <= |data| <= 7 then B.EncodeSubSegment(seqno, data, last).Ok?
            else B.EncodeSubSegment(seqno, data, last) == Err(BadLength)
    ensures if p[0] & 0xE3 == 0xC1 then B.DecodeEnd(p).Ok? else B.DecodeEnd(p) == Err(UnexpectedCommand)
  {
    hide FromLe16, B.SequenceByte;
  }

  /** The end frame of a transfer: how much of the last segment is unused, and the checksum if there is one. */
  lemma EndOfTransfer(data: seq<byte>, crcSupport: bool, segments: nat)
    requires if data == [] then segments == 1 else 7 * segments - 7 < |data| <= 7 * segments
    ensures var p := B.EndFrameOf(data, crcSupport);
            && p[0] as int == 0xC1 + 4 * (7 * segments - |data|)
            && Number16(p[1], p[2]) == if crcSupport then Crc16(data) as int else 0
  {
    SegmentsLeft(|data|, segments);
    EndFrameBytes(B.UnusedBytes(|data|), if crcSupport then Crc16(data) else 0);
    hide Number16, Crc16, B.EncodeEnd;
  }

  lemma SegmentsLeft(len: nat, segments: nat)
    requires if len == 0 then segments == 1 else 7 * segments - 7 < len <= 7 * segments
    ensures B.UnusedBytes(len) == 7 * segments - len
  {
  }

  /** After the last segment nothing more is taken; before it, what exceeds the buffer is not. */
  lemma BlockReceiverRefuses(r: B.Receiver, capacity: nat, segment: B.SubSegment)
    ensures var (next, result) := B.Pushed(r, capacity, segment);
            && (r.done ==> result == Err(UnexpectedCommand))
            && (!r.done ==> (|r.buf + segment.data| > capacity <==> result == Err(Overflow)))
            && (result.Err? ==> next == r)
            && (result.Ok? ==> !r.done && next.buf == r.buf + segment.data && (next.done <==> segment.last))
  {
  }

  /** A finish that trims more than arrived fails, and one whose checksum is wrong. */
  lemma BlockFinishRefuses(r: B.Receiver, unused: B.Count8, crc: bv16, verifyCrc: bool, kept: seq<byte>)
    requires unused <= |r.buf| ==> kept <= r.buf && |kept| + unused == |r.buf|
    ensures var result := B.Finished(r, unused, crc, verifyCrc).1;
            result == if unused > |r.buf| then Err(BadLength)
                      else if verifyCrc && Crc16(kept) != crc then Err(CrcMismatch) else Ok(kept)
  {
    if unused <= |r.buf| {
      assert kept == r.buf[..|r.buf| - unused];
    }
    hide Crc16;
  }

  /** A segment reader refuses a segment after the last, then a wrong toggle, then too many bytes. */
  lemma SegmentReaderRefuses(r: G.Reader, capacity: nat, segment: Segment)
    ensures var (next, result) := G.Pushed(r, capacity, segment);
            && (r.done ==> result == Err(UnexpectedCommand))
            && (!r.done ==> (segment.toggle != r.toggle <==> result == Err(ToggleMismatch)))
            && (!r.done && segment.toggle == r.toggle ==>
                  (|r.buf + segment.data| > capacity <==> result == Err(Overflow)))
            && (result.Err? ==> next == r)
            && (result.Ok? ==> next == G.Reader(r.buf + segment.data, !r.toggle, segment.last))
  {
  }

  /** The stack's fixed sizes. */
  lemma Limits()
    ensures B.MAX_BLKSIZE == 127 && SEGMENT_DATA_MAX == 7
    ensures MAX_PDOS == 4 && MAX_PDO_MAPPING == 8 && FRAME_BITS == 64
    ensures MAX_ERROR_HISTORY == 8
  {
  }

  // --- LSS ------------------------------------------------------------------

  /** Bytes 1 to 4 of an LSS frame as a number. */
  ghost function LssWord(f: Frame): int {
    Number32(f[1], f[2], f[3], f[4])
  }

  lemma LssWordIsNumber(f: Frame)
    ensures L.U32At(f) as int == LssWord(f)
  {
    JoinedWord32(L.U32At(f), f[1], f[2], f[3], f[4]);
  }

  lemma LssFrameWord(cs: byte, value: bv32)
    ensures L.FrameU32(cs, value)[0] == cs && LssWord(L.FrameU32(cs, value)) == value as int
  {
    LittleEndian32(value);
    hide Le32, Number32;
  }

  /** The LSS master's frames. */
  lemma LssMasterBytes(configuration: bool, id: byte, a: L.LssAddress)
    ensures L.EncodeSwitchGlobal(configuration) == [0x04, if configuration then 1 else 0, 0, 0, 0, 0, 0, 0]
    ensures L.EncodeConfigureNodeId(id) == [0x11, id, 0, 0, 0, 0, 0, 0]
    ensures var f := L.EncodeSwitchSelective(a);
            && f[0][0] == 0x40 && LssWord(f[0]) == a.vendorId as int
            && f[1][0] == 0x41 && LssWord(f[1]) == a.productCode as int
            && f[2][0] == 0x42 && LssWord(f[2]) == a.revisionNumber as int
            && f[3][0] == 0x43 && LssWord(f[3]) == a.serialNumber as int
  {
    LssFrameWord(0x40, a.vendorId);
    LssFrameWord(0x41, a.productCode);
    LssFrameWord(0x42, a.revisionNumber);
    LssFrameWord(0x43, a.serialNumber);
    hide LssWord, L.FrameU32;
  }

  /** A Fastscan request: 51, the identity number, bit check, part and next part. */
  lemma FastscanBytes(idNumber: bv32, bitCheck: byte, lssSub: byte, lssNext: byte)
    ensures var f := L.EncodeFastscan(idNumber, bitCheck, lssSub, lssNext);
            f[0] == 0x51 && LssWord(f) == idNumber as int && f[5..] == [bitCheck, lssSub, lssNext]
  {
    LittleEndian32(idNumber);
    hide Le32, Number32;
  }

  // --- NMT, identifiers and emergencies -------------------------------------

  /** The heartbeat byte of each state, and node guarding's toggle on top of it. */
  lemma HeartbeatBytes(state: NmtState, toggle: bool)
    ensures state.Wire() == (match state case Initialising => 0x00 case Stopped => 0x04
                             case Operational => 0x05 case PreOperational => 0x7F)
    ensures EncodeNodeGuard(state, false) == state.Wire()
    ensures EncodeNodeGuard(state, true) as int == 0x80 + state.Wire() as int
  {
  }

  /** The COB-IDs of a node. */
  lemma CobIds(node: byte)
    requires IsNodeId(node)
    ensures SdoRequestCobId(node) as int == 0x600 + node as int
    ensures SdoResponseCobId(node) as int == 0x580 + node as int
    ensures (HEARTBEAT_COB_BASE + (node as bv16)) as int == 0x700 + node as int
    ensures LSS_MASTER_COB_ID as int == 0x7E5 && LSS_SLAVE_COB_ID as int == 0x7E4 && NMT_COMMAND_COB_ID as int == 0
  {
  }

  /** An emergency: 80 plus the node-id, the code, the register and five bytes of the manufacturer's. */
  lemma EmergencyBytes(node: byte, code: bv16, register: byte, info: seq<byte>)
    requires IsNodeId(node) && |info| == 5
    ensures var tx := EmergencyFrame(node, code, register, info);
            && tx.cobId as int == 0x80 + node as int && |tx.data| == 8
            && Number16(tx.data[0], tx.data[1]) == code as int
            && tx.data[2] == register && tx.data[3..] == info
  {
    EmergencyCobId(node);
    LittleEndian16(code);
    hide Le16, Number16;
  }

  lemma EmergencyCobId(node: byte)
    requires IsNodeId(node)
    ensures (0x080 + (node as bv16)) as int == 0x80 + node as int
  {
  }
}
