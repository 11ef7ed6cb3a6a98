/** The expedited, segmented and abort frames of SDO transfer (core/src/sdo/mod.rs). */
module SdoCodec {
  import opened Wrappers
  import opened Bytes
  import opened Datatypes
  import opened ObjectDictionaries
  import opened SegmentSize

  const CCS_DOWNLOAD_SEGMENT: byte := 0x00
  const CCS_DOWNLOAD_INITIATE: byte := 0x20
  const CCS_UPLOAD_INITIATE: byte := 0x40
  const CCS_UPLOAD_SEGMENT: byte := 0x60
  const SCS_DOWNLOAD_SEGMENT: byte := 0x20
  const SCS_UPLOAD_INITIATE: byte := 0x40
  const SCS_DOWNLOAD_INITIATE: byte := 0x60
  const CS_ABORT: byte := 0x80
  const CS_MASK: byte := 0xE0

  const EXPEDITED: byte := 0x02
  const SIZE_INDICATED: byte := 0x01
  const EXPEDITED_SIZED: byte := 0x03
  const TOGGLE: byte := 0x10
  const NO_MORE_SEGMENTS: byte := 0x01

  const ABORT_TOGGLE: bv32 := 0x0503_0000
  const ABORT_COMMAND_INVALID: bv32 := 0x0504_0001
  const ABORT_READ_OF_WRITE_ONLY: bv32 := 0x0601_0001
  const ABORT_WRITE_OF_READ_ONLY: bv32 := 0x0601_0002
  const ABORT_OBJECT_DOES_NOT_EXIST: bv32 := 0x0602_0000
  const ABORT_LENGTH_HIGH: bv32 := 0x0607_0012
  const ABORT_LENGTH_LOW: bv32 := 0x0607_0013
  const ABORT_GENERAL: bv32 := 0x0800_0000

  /** A command byte, the address it concerns and four more bytes. */
  function AddressedFrame(command: byte, addr: Address, tail: seq<byte>): Frame
    requires |tail| == 4
  {
    var i := Le16(addr.index);
    [command, i[0], i[1], addr.subindex, tail[0], tail[1], tail[2], tail[3]]
  }

  function AddressOf(p: Frame): Address {
    Address(FromLe16(p[1], p[2]), p[3])
  }

  function WordOf(p: Frame): bv32 {
    FromLe32(p[4], p[5], p[6], p[7])
  }

  function Specifier(p: Frame): byte {
    p[0] & CS_MASK
  }

  // --- Expedited transfer ---------------------------------------------------

  function ExpeditedCommand(specifier: byte, len: nat): byte
    requires 1 <= len <= 4
  {
    specifier | (((4 - len) as byte) << 2) | EXPEDITED_SIZED
  }

  function IndicatedLength(command: byte): (len: nat)
    ensures 1 <= len <= 4
  {
    UnusedAtMostThree(command);
    4 - ((command >> 2) & 0x03) as int
  }

  lemma UnusedAtMostThree(command: byte)
    ensures 0 <= ((command >> 2) & 0x03) as int <= 3
  {
  }

  function EncodeExpedited(specifier: byte, addr: Address, value: Value): Result<Frame> {
    if value.Size() == 0 || value.Size() > 4 then Err(UnsupportedTransfer)
    else
      value.EncodedLength();
      Ok(AddressedFrame(ExpeditedCommand(specifier, value.Size()), addr, value.Encoded() + Zeroes(4 - value.Size())))
  }

  function EncodeDownloadExpedited(addr: Address, value: Value): Result<Frame> {
    EncodeExpedited(CCS_DOWNLOAD_INITIATE, addr, value)
  }

  function EncodeUploadExpeditedResponse(addr: Address, value: Value): Result<Frame> {
    EncodeExpedited(SCS_UPLOAD_INITIATE, addr, value)
  }

  function DecodeUploadExpeditedResponse(p: Frame, dataType: DataType): Result<(Address, Value)> {
    if Specifier(p) != SCS_UPLOAD_INITIATE || p[0] & EXPEDITED_SIZED != EXPEDITED_SIZED then Err(UnexpectedCommand)
    else
      var len := IndicatedLength(p[0]);
      if dataType.FixedSize().Some? && len != dataType.FixedSize().value then Err(TypeMismatch)
      else
        var value :- DecodeLe(dataType, p[4..4 + len]);
        Ok((AddressOf(p), value))
  }

  function EncodeDownloadResponse(addr: Address): Frame {
    AddressedFrame(SCS_DOWNLOAD_INITIATE, addr, Zeroes(4))
  }

  function DecodeDownloadResponse(p: Frame): Result<Address> {
    if p[0] != SCS_DOWNLOAD_INITIATE then Err(UnexpectedCommand) else Ok(AddressOf(p))
  }

  function EncodeUploadRequest(addr: Address): Frame {
    AddressedFrame(CCS_UPLOAD_INITIATE, addr, Zeroes(4))
  }

  function EncodeAbort(addr: Address, code: bv32): Frame {
    AddressedFrame(CS_ABORT, addr, Le32(code))
  }

  function DecodeAbort(p: Frame): Result<(Address, bv32)> {
    if p[0] != CS_ABORT then Err(UnexpectedCommand) else Ok((AddressOf(p), WordOf(p)))
  }

  predicate IsAbort(p: Frame) {
    p[0] == CS_ABORT
  }

  // --- Segmented transfer ---------------------------------------------------

  datatype Segment = Segment(toggle: bool, last: bool, data: seq<byte>)

  function EncodeDownloadInitiateSegmented(addr: Address, size: bv32): Frame {
    AddressedFrame(CCS_DOWNLOAD_INITIATE | SIZE_INDICATED, addr, Le32(size))
  }

  function DecodeDownloadInitiateSegmented(p: Frame): Result<(Address, bv32)> {
    if Specifier(p) != CCS_DOWNLOAD_INITIATE || p[0] & EXPEDITED != 0 || p[0] & SIZE_INDICATED == 0
    then Err(UnexpectedCommand)
    else Ok((AddressOf(p), WordOf(p)))
  }

  function EncodeUploadInitiateSegmentedResponse(addr: Address, size: bv32): Frame {
    AddressedFrame(SCS_UPLOAD_INITIATE | SIZE_INDICATED, addr, Le32(size))
  }

  function DecodeUploadInitiateSegmentedResponse(p: Frame): Result<(Address, bv32)> {
    if Specifier(p) != SCS_UPLOAD_INITIATE || p[0] & EXPEDITED != 0 || p[0] & SIZE_INDICATED == 0
    then Err(UnexpectedCommand)
    else Ok((AddressOf(p), WordOf(p)))
  }

  function SegmentCommand(len: nat, toggle: bool, last: bool): byte
    requires len <= SEGMENT_DATA_MAX
  {
    ((((SEGMENT_DATA_MAX - len) as byte) << 1) & 0x0E)
    | (if toggle then TOGGLE else 0)
    | if last then NO_MORE_SEGMENTS else 0
  }

  function EncodeDataSegment(data: seq<byte>, toggle: bool, last: bool): Result<Frame> {
    if |data| > SEGMENT_DATA_MAX then Err(BadLength)
    else Ok([SegmentCommand(|data|, toggle, last)] + data + Zeroes(SEGMENT_DATA_MAX - |data|))
  }

  function SegmentLength(command: byte): (len: nat)
    ensures len <= SEGMENT_DATA_MAX
  {
    UnusedAtMostSeven(command);
    SEGMENT_DATA_MAX - ((command >> 1) & 0x07) as int
  }

  lemma UnusedAtMostSeven(command: byte)
    ensures 0 <= ((command >> 1) & 0x07) as int <= 7
  {
  }

  /** The unused count is three bits wide, so it never exceeds the seven data bytes. */
  function DecodeDataSegment(p: Frame): Result<Segment> {
    if Specifier(p) != CCS_DOWNLOAD_SEGMENT then Err(UnexpectedCommand)
    else Ok(Segment(p[0] & TOGGLE != 0, p[0] & NO_MORE_SEGMENTS != 0, p[1..1 + SegmentLength(p[0])]))
  }

  function SegmentFrame(specifier: byte, toggle: bool): Frame {
    [specifier | if toggle then TOGGLE else 0, 0, 0, 0, 0, 0, 0, 0]
  }

  function EncodeDownloadSegmentResponse(toggle: bool): Frame {
    SegmentFrame(SCS_DOWNLOAD_SEGMENT, toggle)
  }

  function DecodeDownloadSegmentResponse(p: Frame): Result<bool> {
    if Specifier(p) != SCS_DOWNLOAD_SEGMENT then Err(UnexpectedCommand) else Ok(p[0] & TOGGLE != 0)
  }

  function EncodeUploadSegmentRequest(toggle: bool): Frame {
    SegmentFrame(CCS_UPLOAD_SEGMENT, toggle)
  }

  // --- What a receiver reads in an encoded frame ----------------------------

  lemma AddressedRoundTrip(command: byte, addr: Address, tail: seq<byte>)
    requires |tail| == 4
    ensures AddressOf(AddressedFrame(command, addr, tail)) == addr
    ensures AddressedFrame(command, addr, tail)[0] == command
    ensures AddressedFrame(command, addr, tail)[4..] == tail
  {
    Le16RoundTrip(addr.index);
    hide FromLe16;
  }

  lemma WordRoundTrip(command: byte, addr: Address, word: bv32)
    ensures WordOf(AddressedFrame(command, addr, Le32(word))) == word
  {
    Le32RoundTrip(word);
    hide FromLe32, Le32;
  }

  lemma ExpeditedBits(specifier: byte, len: nat)
    requires 1 <= len <= 4 && specifier & 0x1F == 0
    ensures
      var c := ExpeditedCommand(specifier, len);
      && c & CS_MASK == specifier && c & EXPEDITED != 0 && c & SIZE_INDICATED != 0
      && c & EXPEDITED_SIZED == EXPEDITED_SIZED && IndicatedLength(c) == len
  {
    if len == 1 {
      assert (4 - len) as byte == 3;
    } else if len == 2 {
      assert (4 - len) as byte == 2;
    } else if len == 3 {
      assert (4 - len) as byte == 1;
    } else {
      assert (4 - len) as byte == 0;
    }
  }

  lemma SegmentBits(len: nat, toggle: bool, last: bool)
    requires len <= SEGMENT_DATA_MAX
    ensures
      var c := SegmentCommand(len, toggle, last);
      && c & CS_MASK == CCS_DOWNLOAD_SEGMENT && (c & TOGGLE != 0) == toggle
      && (c & NO_MORE_SEGMENTS != 0) == last && SegmentLength(c) == len
  {
    var unused := (SEGMENT_DATA_MAX - len) as byte;
    assert unused as int == SEGMENT_DATA_MAX - len;
    SegmentFlags(unused, toggle, last);
  }

  lemma SegmentFlags(unused: byte, toggle: bool, last: bool)
    requires unused <= 7
    ensures
      var c := ((unused << 1) & 0x0E) | (if toggle then TOGGLE else 0) | if last then NO_MORE_SEGMENTS else 0;
      && c & CS_MASK == 0 && (c & TOGGLE != 0) == toggle
      && (c & NO_MORE_SEGMENTS != 0) == last && (c >> 1) & 0x07 == unused
  {
  }

  /** A data segment carries its bytes, its toggle and its last flag. */
  lemma DataSegmentRoundTrip(data: seq<byte>, toggle: bool, last: bool)
    requires |data| <= SEGMENT_DATA_MAX
    ensures EncodeDataSegment(data, toggle, last).Ok?
    ensures DecodeDataSegment(EncodeDataSegment(data, toggle, last).value) == Ok(Segment(toggle, last, data))
  {
    SegmentBits(|data|, toggle, last);
    var p := EncodeDataSegment(data, toggle, last).value;
    hide SegmentCommand, SegmentLength;
    assert p[1..1 + |data|] == data;
  }

  /** An expedited frame carries its value back to a receiver that knows the type. */
  lemma ExpeditedRoundTrip(specifier: byte, addr: Address, value: Value)
    requires specifier & 0x1F == 0 && 1 <= value.Size() <= 4
    ensures
      var p := EncodeExpedited(specifier, addr, value);
      && p.Ok? && Specifier(p.value) == specifier && AddressOf(p.value) == addr
      && p.value[0] & EXPEDITED != 0 && p.value[0] & SIZE_INDICATED != 0
      && p.value[0] & EXPEDITED_SIZED == EXPEDITED_SIZED
      && IndicatedLength(p.value[0]) == value.Size()
      && p.value[4..4 + value.Size()] == value.Encoded()
  {
    var len := value.Size();
    value.EncodedLength();
    ExpeditedBits(specifier, len);
    var tail := value.Encoded() + Zeroes(4 - len);
    AddressedRoundTrip(ExpeditedCommand(specifier, len), addr, tail);
    hide ExpeditedCommand, IndicatedLength, AddressedFrame, AddressOf;
    var p := EncodeExpedited(specifier, addr, value).value;
    assert p[4..4 + len] == p[4..][..len] == value.Encoded();
  }

  lemma ToggleFrame(specifier: byte, toggle: bool)
    requires specifier & 0x1F == 0
    ensures Specifier(SegmentFrame(specifier, toggle)) == specifier
    ensures (SegmentFrame(specifier, toggle)[0] & TOGGLE != 0) == toggle
  {
    ToggleBits(specifier, toggle);
  }

  lemma ToggleBits(specifier: byte, toggle: bool)
    requires specifier & 0x1F == 0
    ensures
      var c := specifier | if toggle then TOGGLE else 0;
      c & CS_MASK == specifier && (c & TOGGLE != 0) == toggle
  {
  }
}
