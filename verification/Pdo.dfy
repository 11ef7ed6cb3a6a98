/** PDO mappings, and moving mapped objects between dictionary and frame (core/src/pdo.rs). */
module Pdo {
  import opened Wrappers
  import opened Bytes
  import opened Datatypes
  import opened ObjectDictionaries

  function MappingWord(index: bv16, subindex: byte, bitLength: byte): bv32 {
    ((index as bv32) << 16) | ((subindex as bv32) << 8) | (bitLength as bv32)
  }

  datatype MappingEntry = MappingEntry(address: Address, bitLength: byte) {
    /** The mapping value `0xIIII_SSLL`. */
    function ToU32(): bv32 {
      MappingWord(address.index, address.subindex, bitLength)
    }

    function Bits(): nat {
      bitLength as nat
    }
  }

  function FromU32(raw: bv32): MappingEntry {
    MappingEntry(Address((raw >> 16) as bv16, ((raw >> 8) & 0xFF) as byte), (raw & 0xFF) as byte)
  }

  lemma MappingValueRoundTrip(e: MappingEntry)
    ensures FromU32(e.ToU32()) == e
  {
    IndexBack(e.address.index, e.address.subindex, e.bitLength);
    SubindexBack(e.address.index, e.address.subindex, e.bitLength);
    LengthBack(e.address.index, e.address.subindex, e.bitLength);
  }

  lemma IndexBack(i: bv16, s: byte, l: byte)
    ensures ((((i as bv32) << 16) | ((s as bv32) << 8) | (l as bv32)) >> 16) as bv16 == i
  {
  }

  lemma SubindexBack(i: bv16, s: byte, l: byte)
    ensures (((((i as bv32) << 16) | ((s as bv32) << 8) | (l as bv32)) >> 8) & 0xFF) as byte == s
  {
  }

  lemma LengthBack(i: bv16, s: byte, l: byte)
    ensures ((((i as bv32) << 16) | ((s as bv32) << 8) | (l as bv32)) & 0xFF) as byte == l
  {
  }

  /** Every word is the mapping value of exactly one entry. */
  lemma MappingWordRoundTrip(raw: bv32)
    ensures FromU32(raw).ToU32() == raw
  {
  }

  /** The whole-byte width of a mapping bit length. */
  function ByteWidth(bits: nat): (width: Result<nat>)
    ensures width.Ok? ==> 8 * width.value == bits > 0
  {
    if bits == 0 || bits % 8 != 0 then Err(UnsupportedTransfer) else Ok(bits / 8)
  }

  // --- Mappings -------------------------------------------------------------

  const FRAME_BITS: nat := 64

  function TotalBits(entries: seq<MappingEntry>): nat {
    if entries == [] then 0
    else TotalBits(entries[..|entries| - 1]) + entries[|entries| - 1].Bits()
  }

  function TotalBytes(entries: seq<MappingEntry>): nat {
    (TotalBits(entries) + 7) / 8
  }

  function PushResult(entries: seq<MappingEntry>, capacity: nat, e: MappingEntry): Result<Unit> {
    if TotalBits(entries) + e.Bits() > FRAME_BITS then Err(PdoTooLong)
    else if |entries| >= capacity then Err(MappingFull)
    else Ok(Unit)
  }

  class PdoMapping {
    const capacity: nat
    var entries: seq<MappingEntry>

    ghost predicate Valid()
      reads this
    {
      |entries| <= capacity && TotalBits(entries) <= FRAME_BITS
    }

    constructor (capacity: nat)
      ensures Valid() && this.capacity == capacity && entries == []
    {
      this.capacity, entries := capacity, [];
    }

    method Push(e: MappingEntry) returns (r: Result<Unit>)
      requires Valid()
      modifies this
      ensures Valid()
      ensures r == PushResult(old(entries), capacity, e)
      ensures entries == if r.Ok? then old(entries) + [e] else old(entries)
    {
      if TotalBits(entries) + e.Bits() > FRAME_BITS {
        return Err(PdoTooLong);
      }
      if |entries| >= capacity {
        return Err(MappingFull);
      }
      TotalBitsAppend(entries, e);
      entries := entries + [e];
      return Ok(Unit);
    }
  }

  lemma TotalBitsAppend(entries: seq<MappingEntry>, e: MappingEntry)
    ensures TotalBits(entries + [e]) == TotalBits(entries) + e.Bits()
  {
    assert (entries + [e])[..|entries|] == entries;
  }

  lemma {:induction false} TotalBitsPrefix(entries: seq<MappingEntry>, k: nat)
    requires k <= |entries|
    ensures TotalBits(entries[..k]) <= TotalBits(entries)
    decreases |entries|
  {
    if k < |entries| {
      var init := entries[..|entries| - 1];
      assert init[..k] == entries[..k];
      TotalBitsPrefix(init, k);
    } else {
      assert entries[..k] == entries;
    }
  }

  // --- Packing --------------------------------------------------------------

  /** The bytes a mapped object contributes to the frame. */
  function Field(e: MappingEntry, od: Dict): Result<seq<byte>> {
    var width :- ByteWidth(e.Bits());
    var value :- ReadValue(od, e.address);
    if value.Type().IsVariable() || value.Size() != width then Err(TypeMismatch) else Ok(value.Encoded())
  }

  /** The frame of a mapping, or the error of the first entry that has none. */
  function Packed(entries: seq<MappingEntry>, od: Dict): Result<seq<byte>> {
    if entries == [] then Ok([])
    else
      var before :- Packed(entries[..|entries| - 1], od);
      var field :- Field(entries[|entries| - 1], od);
      Ok(before + field)
  }

  lemma FieldWidth(e: MappingEntry, od: Dict)
    requires Field(e, od).Ok?
    ensures 8 * |Field(e, od).value| == e.Bits()
  {
    od[e.address].value.EncodedLength();
  }

  lemma {:induction false} PackedLength(entries: seq<MappingEntry>, od: Dict)
    requires Packed(entries, od).Ok?
    ensures 8 * |Packed(entries, od).value| == TotalBits(entries)
    ensures |Packed(entries, od).value| == TotalBytes(entries)
  {
    if entries != [] {
      PackedLength(entries[..|entries| - 1], od);
      FieldWidth(entries[|entries| - 1], od);
    }
    hide Field;
  }

  lemma {:induction false} PackedPrefix(entries: seq<MappingEntry>, od: Dict, k: nat)
    requires k <= |entries|
    ensures Packed(entries[..k], od).Err? ==> Packed(entries, od) == Packed(entries[..k], od)
    ensures Packed(entries, od).Ok? ==>
              Packed(entries[..k], od).Ok? && Packed(entries[..k], od).value <= Packed(entries, od).value
    decreases |entries|
  {
    if k < |entries| {
      var init := entries[..|entries| - 1];
      assert init[..k] == entries[..k];
      PackedPrefix(init, od, k);
    } else {
      assert entries[..k] == entries;
    }
    hide Field;
  }

  /** One more entry on the way through the mapping. */
  lemma PackedNext(entries: seq<MappingEntry>, od: Dict, i: nat)
    requires i < |entries|
    ensures entries[..i + 1][..i] == entries[..i]
    ensures Packed(entries[..i], od).Ok? && Field(entries[i], od).Err? ==>
              Packed(entries, od) == Err(Field(entries[i], od).error)
    ensures Packed(entries[..i], od).Ok? && Field(entries[i], od).Ok? ==>
              Packed(entries[..i + 1], od) == Ok(Packed(entries[..i], od).value + Field(entries[i], od).value)
    ensures TotalBits(entries[..i + 1]) == TotalBits(entries[..i]) + entries[i].Bits() <= TotalBits(entries)
  {
    assert entries[..i + 1][..i] == entries[..i];
    PackedPrefix(entries, od, i + 1);
    TotalBitsPrefix(entries, i + 1);
    hide Field;
  }

  /** Lay one object's bytes into the frame. */
  method PackEntry(e: MappingEntry, od: ObjectDictionary, buf: array<byte>, offset: nat) returns (r: Result<nat>)
    requires 8 * offset + e.Bits() <= 8 * buf.Length
    modifies buf
    ensures match Field(e, od.entries)
            case Err(error) => r == Err(error) && buf[..] == old(buf[..])
            case Ok(bytes) =>
              && r == Ok(|bytes|) && offset + |bytes| <= buf.Length
              && buf[..] == old(buf[..offset]) + bytes + old(buf[offset + |bytes|..])
  {
    hide Value.Encoded, Value.Size, Value.Type, DataType.IsVariable, ReadValue, ByteWidth, MappingEntry.Bits;
    var width := ByteWidth(e.Bits());
    if width.Err? {
      return Err(width.error);
    }
    var value := od.Read(e.address);
    if value.Err? {
      return Err(value.error);
    }
    if value.value.Type().IsVariable() || value.value.Size() != width.value {
      return Err(TypeMismatch);
    }
    value.value.EncodedLength();
    r := EncodeLe(value.value, buf, offset, offset + width.value);
    Spliced(old(buf[..]), buf[..], offset, value.value.Encoded());
  }

  lemma Spliced(was: seq<byte>, now: seq<byte>, offset: nat, bytes: seq<byte>)
    requires offset + |bytes| <= |was| == |now|
    requires now[..offset] == was[..offset] && now[offset..offset + |bytes|] == bytes
    requires now[offset + |bytes|..] == was[offset + |bytes|..]
    ensures now == was[..offset] + bytes + was[offset + |bytes|..]
  {
  }

  lemma Overlaid(bytes: seq<byte>, was: seq<byte>, field: seq<byte>)
    requires |bytes| + |field| <= |was|
    ensures var now, n := bytes + was[|bytes|..], |bytes| + |field|;
            now[..|bytes|] + field + now[n..] == (bytes + field) + was[n..]
  {
  }

  /** Entry k is the first that has no field; the fields before it stand in the buffer. */
  ghost predicate StoppedPacking(
    entries: seq<MappingEntry>, od: Dict, k: nat, error: Error, was: seq<byte>, now: seq<byte>)
  {
    && k < |entries| && Field(entries[k], od) == Err(error)
    && Packed(entries[..k], od).Ok?
    && var bytes := Packed(entries[..k], od).value;
    |bytes| <= |was| && now == bytes + was[|bytes|..]
  }

  method Pack(entries: seq<MappingEntry>, od: ObjectDictionary, buf: array<byte>) returns (r: Result<nat>)
    modifies buf
    ensures buf.Length < TotalBytes(entries) ==> r == Err(BadLength) && buf[..] == old(buf[..])
    ensures buf.Length >= TotalBytes(entries) ==>
              match Packed(entries, od.entries)
              case Err(e) => r == Err(e) && exists k :: StoppedPacking(entries, od.entries, k, e, old(buf[..]), buf[..])
              case Ok(bytes) =>
                r == Ok(|bytes|) && |bytes| == TotalBytes(entries) && buf[..] == bytes + old(buf[..])[|bytes|..]
  {
    var total := TotalBytes(entries);
    if buf.Length < total {
      return Err(BadLength);
    }
    var offset := 0;
    ghost var bytes: seq<byte> := [];
    assert entries[..0] == [];
    for i := 0 to |entries|
      invariant 8 * offset == TotalBits(entries[..i]) && offset <= total && offset == |bytes|
      invariant Packed(entries[..i], od.entries) == Ok(bytes)
      invariant buf[..] == bytes + old(buf[..])[offset..]
    {
      hide Field, Packed, TotalBits;
      PackedNext(entries, od.entries, i);
      var width := PackEntry(entries[i], od, buf, offset);
      if width.Err? {
        assert StoppedPacking(entries, od.entries, i, width.error, old(buf[..]), buf[..]);
        return Err(width.error);
      }
      FieldWidth(entries[i], od.entries);
      ghost var field := Field(entries[i], od.entries).value;
      Overlaid(bytes, old(buf[..]), field);
      assert buf[..] == (bytes + field) + old(buf[..])[offset + width.value..];
      bytes := bytes + field;
      offset := offset + width.value;
    }
    assert entries[..|entries|] == entries;
    return Ok(offset);
  }

  // --- Unpacking ------------------------------------------------------------

  /** The type a field decodes to: that of the object it is mapped to. */
  function FieldType(e: MappingEntry, od: Dict): Result<DataType> {
    var width :- ByteWidth(e.Bits());
    if e.address !in od then Err(ObjectNotFound)
    else if od[e.address].value.Type().Size() != width then Err(TypeMismatch)
    else Ok(od[e.address].value.Type())
  }

  /** The dictionary after one field, and the write's result. */
  datatype Applied = Applied(od: Dict, offset: nat, result: Result<Unit>)

  function ApplyEntry(e: MappingEntry, od: Dict, data: seq<byte>, offset: nat): (a: Applied)
    requires 8 * offset + e.Bits() <= 8 * |data|
    ensures a.result.Ok? ==> 8 * a.offset == 8 * offset + e.Bits()
    ensures a.result.Err? ==> a.od == od && a.offset == offset
  {
    match FieldType(e, od)
    case Err(error) => Applied(od, offset, Err(error))
    case Ok(t) =>
      match DecodeLe(t, data[offset..offset + t.Size()])
      case Err(error) => Applied(od, offset, Err(error))
      case Ok(value) =>
        var r := WriteResult(od, e.address, value);
        Applied(Written(od, e.address, value), if r.Ok? then offset + t.Size() else offset, r)
  }

  /** Fields are applied in order, up to the first that fails. */
  function Unpacked(entries: seq<MappingEntry>, od: Dict, data: seq<byte>): (a: Applied)
    requires TotalBits(entries) <= 8 * |data|
    ensures a.result.Ok? ==> 8 * a.offset == TotalBits(entries)
  {
    if entries == [] then Applied(od, 0, Ok(Unit))
    else
      var before := Unpacked(entries[..|entries| - 1], od, data);
      if before.result.Err? then before
      else ApplyEntry(entries[|entries| - 1], before.od, data, before.offset)
  }

  method UnpackEntry(e: MappingEntry, od: ObjectDictionary, data: seq<byte>, offset: nat) returns (r: Result<nat>)
    requires od.Valid() && 8 * offset + e.Bits() <= 8 * |data|
    modifies od
    ensures od.Valid()
    ensures var a := ApplyEntry(e, old(od.entries), data, offset);
            && od.entries == a.od
            && r == if a.result.Ok? then Ok(a.offset) else Err(a.result.error)
  {
    hide DecodeLe, WriteResult, Written, Value.Type, DataType.Size, ByteWidth, MappingEntry.Bits;
    var width := ByteWidth(e.Bits());
    if width.Err? {
      return Err(width.error);
    }
    if e.address !in od.entries {
      return Err(ObjectNotFound);
    }
    var dataType := od.entries[e.address].value.Type();
    if dataType.Size() != width.value {
      return Err(TypeMismatch);
    }
    // The slice has the type's own width, so it decodes.
    var bytes := data[offset..offset + width.value];
    FieldDecodes(dataType, bytes);
    var written := od.Write(e.address, DecodeLe(dataType, bytes).value);
    if written.Err? {
      return Err(written.error);
    }
    return Ok(offset + width.value);
  }

  lemma FieldDecodes(t: DataType, bytes: seq<byte>)
    requires |bytes| == t.Size() > 0
    ensures DecodeLe(t, bytes).Ok?
  {
    DecodedShape(t, bytes);
    hide DecodeLe;
  }

  lemma UnpackedNext(entries: seq<MappingEntry>, od: Dict, data: seq<byte>, i: nat)
    requires i < |entries| && TotalBits(entries) <= 8 * |data|
    ensures TotalBits(entries[..i + 1]) == TotalBits(entries[..i]) + entries[i].Bits() <= TotalBits(entries)
    ensures var before := Unpacked(entries[..i], od, data);
            before.result.Ok? ==>
              var after := ApplyEntry(entries[i], before.od, data, before.offset);
              && Unpacked(entries[..i + 1], od, data) == after
              && (after.result.Err? ==> Unpacked(entries, od, data) == after)
  {
    assert entries[..i + 1][..i] == entries[..i];
    TotalBitsPrefix(entries, i + 1);
    UnpackedPrefix(entries, od, data, i + 1);
    hide ApplyEntry;
  }

  lemma {:induction false} UnpackedPrefix(entries: seq<MappingEntry>, od: Dict, data: seq<byte>, k: nat)
    requires k <= |entries| && TotalBits(entries) <= 8 * |data|
    ensures TotalBits(entries[..k]) <= TotalBits(entries)
    ensures Unpacked(entries[..k], od, data).result.Err? ==>
              Unpacked(entries, od, data) == Unpacked(entries[..k], od, data)
    decreases |entries|
  {
    TotalBitsPrefix(entries, k);
    if k < |entries| {
      var init := entries[..|entries| - 1];
      assert init[..k] == entries[..k];
      UnpackedPrefix(init, od, data, k);
    } else {
      assert entries[..k] == entries;
    }
    hide ApplyEntry;
  }

  method Unpack(entries: seq<MappingEntry>, od: ObjectDictionary, data: seq<byte>) returns (r: Result<Unit>)
    requires od.Valid()
    modifies od
    ensures od.Valid()
    ensures |data| < TotalBytes(entries) ==> r == Err(BadLength) && od.entries == old(od.entries)
    ensures |data| >= TotalBytes(entries) ==>
              var a := Unpacked(entries, old(od.entries), data); od.entries == a.od && r == a.result
  {
    var total := TotalBytes(entries);
    if |data| < total {
      return Err(BadLength);
    }
    var offset := 0;
    assert entries[..0] == [];
    for i := 0 to |entries|
      invariant od.Valid() && 8 * offset == TotalBits(entries[..i]) <= TotalBits(entries)
      invariant Unpacked(entries[..i], old(od.entries), data) == Applied(od.entries, offset, Ok(Unit))
    {
      UnpackedNext(entries, old(od.entries), data, i);
      hide Unpacked, ApplyEntry;
      var next := UnpackEntry(entries[i], od, data, offset);
      if next.Err? {
        return Err(next.error);
      }
      offset := next.value;
    }
    assert entries[..|entries|] == entries;
    return Ok(Unit);
  }
}
