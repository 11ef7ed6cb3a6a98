/**
  CANopen basic data types and their little-endian encoding (core/src/datatypes.rs).

  Signed integers and floating-point values are held as their bit patterns, which is what the
  codec moves: `Integer16(0xFFFE)` is the INTEGER16 minus two.
 */
module Datatypes {
  import opened Wrappers
  import opened Bytes

  /**
    Any string capacity that holds the longest fixed-size value and whose lengths fit the `u8` in
    which the source keeps them; the source's is 32.
   */
  type StringCapacity = n: nat | 8 <= n < 256 witness 32

  const MAX_STRING_LEN: StringCapacity

  /** A bounded byte string: the meaningful bytes of the source's fixed buffer. */
  type ByteString = s: seq<byte> | |s| <= MAX_STRING_LEN witness []

  datatype DataType =
    | BooleanType | Integer8Type | Integer16Type | Integer32Type
    | Unsigned8Type | Unsigned16Type | Unsigned32Type
    | Real32Type | Real64Type | Integer64Type | Unsigned64Type
    | VisibleStringType | OctetStringType | DomainType
  {
    function FixedSize(): Option<nat> {
      match this
      case BooleanType | Integer8Type | Unsigned8Type => Some(1)
      case Integer16Type | Unsigned16Type => Some(2)
      case Integer32Type | Unsigned32Type | Real32Type => Some(4)
      case Integer64Type | Unsigned64Type | Real64Type => Some(8)
      case VisibleStringType | OctetStringType | DomainType => None
    }

    predicate IsVariable() {
      FixedSize().None?
    }

    function Size(): nat {
      match FixedSize()
      case Some(n) => n
      case None => 0
    }
  }

  datatype Value =
    | Boolean(flag: bool)
    | Integer8(i8: bv8) | Integer16(i16: bv16) | Integer32(i32: bv32) | Integer64(i64: bv64)
    | Unsigned8(u8: bv8) | Unsigned16(u16: bv16) | Unsigned32(u32: bv32) | Unsigned64(u64: bv64)
    | Real32(f32: bv32) | Real64(f64: bv64)
    | VisibleString(text: ByteString) | OctetString(octets: ByteString) | Domain(content: ByteString)
  {
    function Type(): DataType {
      match this
      case Boolean(_) => BooleanType
      case Integer8(_) => Integer8Type
      case Integer16(_) => Integer16Type
      case Integer32(_) => Integer32Type
      case Integer64(_) => Integer64Type
      case Unsigned8(_) => Unsigned8Type
      case Unsigned16(_) => Unsigned16Type
      case Unsigned32(_) => Unsigned32Type
      case Unsigned64(_) => Unsigned64Type
      case Real32(_) => Real32Type
      case Real64(_) => Real64Type
      case VisibleString(_) => VisibleStringType
      case OctetString(_) => OctetStringType
      case Domain(_) => DomainType
    }

    function Size(): nat {
      match this
      case VisibleString(s) => |s|
      case OctetString(s) => |s|
      case Domain(s) => |s|
      case _ => Type().Size()
    }

    /** The bytes `EncodeLe` writes. */
    function Encoded(): seq<byte> {
      match this
      case Boolean(v) => [if v then 1 else 0]
      case Integer8(v) => [v]
      case Unsigned8(v) => [v]
      case Integer16(v) => Le16(v)
      case Unsigned16(v) => Le16(v)
      case Integer32(v) => Le32(v)
      case Unsigned32(v) => Le32(v)
      case Real32(v) => Le32(v)
      case Integer64(v) => Le64(v)
      case Unsigned64(v) => Le64(v)
      case Real64(v) => Le64(v)
      case VisibleString(s) => s
      case OctetString(s) => s
      case Domain(s) => s
    }

    lemma EncodedLength()
      ensures |Encoded()| == Size() <= MAX_STRING_LEN
    {
    }
  }

  function DecodeLe(dataType: DataType, bytes: seq<byte>): Result<Value> {
    if dataType.FixedSize().Some? && |bytes| != dataType.FixedSize().value then Err(BadLength)
    else if dataType.FixedSize().None? && |bytes| > MAX_STRING_LEN then Err(BadLength)
    else Ok(
      match dataType
      case BooleanType => Boolean(bytes[0] != 0)
      case Integer8Type => Integer8(bytes[0])
      case Unsigned8Type => Unsigned8(bytes[0])
      case Integer16Type => Integer16(FromLe16(bytes[0], bytes[1]))
      case Unsigned16Type => Unsigned16(FromLe16(bytes[0], bytes[1]))
      case Integer32Type => Integer32(FromLe32(bytes[0], bytes[1], bytes[2], bytes[3]))
      case Unsigned32Type => Unsigned32(FromLe32(bytes[0], bytes[1], bytes[2], bytes[3]))
      case Real32Type => Real32(FromLe32(bytes[0], bytes[1], bytes[2], bytes[3]))
      case Integer64Type => Integer64(FromLe64(bytes))
      case Unsigned64Type => Unsigned64(FromLe64(bytes))
      case Real64Type => Real64(FromLe64(bytes))
      case VisibleStringType => VisibleString(bytes)
      case OctetStringType => OctetString(bytes)
      case DomainType => Domain(bytes)
    )
  }

  /** Encode into the slice `buf[lo..hi]`, as the source encodes into a borrowed slice. */
  method EncodeLe(value: Value, buf: array<byte>, lo: nat, hi: nat) returns (r: Result<nat>)
    requires lo <= hi <= buf.Length
    modifies buf
    ensures r == if hi - lo < value.Size() then Err(BadLength) else Ok(value.Size())
    ensures r.Err? ==> buf[..] == old(buf[..])
    ensures r.Ok? ==> buf[lo..lo + r.value] == value.Encoded()
    ensures r.Ok? ==> buf[..lo] == old(buf[..lo]) && buf[lo + r.value..] == old(buf[lo + r.value..])
  {
    var n := value.Size();
    if hi - lo < n {
      return Err(BadLength);
    }
    var bytes := value.Encoded();
    value.EncodedLength();
    forall i | 0 <= i < n {
      buf[lo + i] := bytes[i];
    }
    return Ok(n);
  }

  /** What a device encodes, its peer decodes: every value of every type comes back. */
  lemma DecodeEncode(v: Value)
    ensures DecodeLe(v.Type(), v.Encoded()) == Ok(v)
  {
    if v.Integer16? || v.Unsigned16? {
      DecodeEncode16(v);
    } else if v.Integer32? || v.Unsigned32? || v.Real32? {
      DecodeEncode32(v);
    } else if v.Integer64? || v.Unsigned64? || v.Real64? {
      DecodeEncode64(v);
    }
  }

  lemma DecodeEncode16(v: Value)
    requires v.Integer16? || v.Unsigned16?
    ensures DecodeLe(v.Type(), v.Encoded()) == Ok(v)
  {
    Le16RoundTrip(if v.Integer16? then v.i16 else v.u16);
  }

  lemma DecodeEncode32(v: Value)
    requires v.Integer32? || v.Unsigned32? || v.Real32?
    ensures DecodeLe(v.Type(), v.Encoded()) == Ok(v)
  {
    Le32RoundTrip(if v.Integer32? then v.i32 else if v.Unsigned32? then v.u32 else v.f32);
  }

  lemma DecodeEncode64(v: Value)
    requires v.Integer64? || v.Unsigned64? || v.Real64?
    ensures DecodeLe(v.Type(), v.Encoded()) == Ok(v)
  {
    Le64RoundTrip(if v.Integer64? then v.i64 else if v.Unsigned64? then v.u64 else v.f64);
  }

  /** Decoding fixes the type and the length of what it returns. */
  lemma DecodedShape(t: DataType, bytes: seq<byte>)
    ensures DecodeLe(t, bytes).Ok? <==>
            |bytes| <= MAX_STRING_LEN && (t.FixedSize().Some? ==> |bytes| == t.FixedSize().value)
    ensures DecodeLe(t, bytes).Err? ==> DecodeLe(t, bytes) == Err(BadLength)
    ensures DecodeLe(t, bytes).Ok? ==>
              DecodeLe(t, bytes).value.Type() == t && DecodeLe(t, bytes).value.Size() == |bytes|
  {
  }

  /** Re-encoding a decoded value gives the bytes back, except for a BOOLEAN sent as 2..=255. */
  lemma EncodeDecode(t: DataType, bytes: seq<byte>)
    requires DecodeLe(t, bytes).Ok?
    ensures DecodeLe(t, bytes).value.Encoded() == bytes <==> t != BooleanType || bytes[0] <= 1
  {
    match t
    case Integer16Type => FromLe16RoundTrip(bytes[0], bytes[1]);
    case Unsigned16Type => FromLe16RoundTrip(bytes[0], bytes[1]);
    case Integer32Type => FromLe32RoundTrip(bytes[0], bytes[1], bytes[2], bytes[3]);
    case Unsigned32Type => FromLe32RoundTrip(bytes[0], bytes[1], bytes[2], bytes[3]);
    case Real32Type => FromLe32RoundTrip(bytes[0], bytes[1], bytes[2], bytes[3]);
    case Integer64Type => FromLe64RoundTrip(bytes);
    case Unsigned64Type => FromLe64RoundTrip(bytes);
    case Real64Type => FromLe64RoundTrip(bytes);
    case _ =>
  }
}
