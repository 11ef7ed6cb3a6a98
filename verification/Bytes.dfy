/** Bytes, eight-byte CAN data fields and little-endian integers. */
module Bytes {
  type byte = bv8

  type Frame = f: seq<byte> | |f| == 8 witness [0, 0, 0, 0, 0, 0, 0, 0]

  function Zeroes(n: nat): (z: seq<byte>)
    ensures |z| == n
  {
    seq(n, _ => 0)
  }

  function Le16(v: bv16): (b: seq<byte>)
    ensures |b| == 2
  {
    [(v & 0xFF) as byte, (v >> 8) as byte]
  }

  function FromLe16(b0: byte, b1: byte): bv16 {
    (b0 as bv16) | ((b1 as bv16) << 8)
  }

  function Le32(v: bv32): (b: seq<byte>)
    ensures |b| == 4
  {
    [(v & 0xFF) as byte, ((v >> 8) & 0xFF) as byte, ((v >> 16) & 0xFF) as byte, (v >> 24) as byte]
  }

  function FromLe32(b0: byte, b1: byte, b2: byte, b3: byte): bv32 {
    (b0 as bv32) | ((b1 as bv32) << 8) | ((b2 as bv32) << 16) | ((b3 as bv32) << 24)
  }

  function Le64(v: bv64): (b: seq<byte>)
    ensures |b| == 8
  {
    [(v & 0xFF) as byte, ((v >> 8) & 0xFF) as byte, ((v >> 16) & 0xFF) as byte, ((v >> 24) & 0xFF) as byte,
     ((v >> 32) & 0xFF) as byte, ((v >> 40) & 0xFF) as byte, ((v >> 48) & 0xFF) as byte, (v >> 56) as byte]
  }

  function FromLe64(b: seq<byte>): bv64
    requires |b| == 8
  {
    (b[0] as bv64) | ((b[1] as bv64) << 8) | ((b[2] as bv64) << 16) | ((b[3] as bv64) << 24)
    | ((b[4] as bv64) << 32) | ((b[5] as bv64) << 40) | ((b[6] as bv64) << 48) | ((b[7] as bv64) << 56)
  }

  lemma Le16RoundTrip(v: bv16)
    ensures FromLe16(Le16(v)[0], Le16(v)[1]) == v
  {
  }

  lemma FromLe16RoundTrip(b0: byte, b1: byte)
    ensures Le16(FromLe16(b0, b1)) == [b0, b1]
  {
  }

  lemma Le32RoundTrip(v: bv32)
    ensures FromLe32(Le32(v)[0], Le32(v)[1], Le32(v)[2], Le32(v)[3]) == v
  {
  }

  lemma FromLe32RoundTrip(b0: byte, b1: byte, b2: byte, b3: byte)
    ensures Le32(FromLe32(b0, b1, b2, b3)) == [b0, b1, b2, b3]
  {
  }

  lemma Le64RoundTrip(v: bv64)
    ensures FromLe64(Le64(v)) == v
  {
  }

  lemma FromLe64RoundTrip(b: seq<byte>)
    requires |b| == 8
    ensures Le64(FromLe64(b)) == b
  {
  }

  // --- What the bytes are worth ---------------------------------------------

  /** The number two bytes stand for, least significant first. */
  function Number16(b0: byte, b1: byte): int {
    (b0 as int) + 0x100 * (b1 as int)
  }

  function Number32(b0: byte, b1: byte, b2: byte, b3: byte): int {
    (b0 as int) + 0x100 * (b1 as int) + 0x1_0000 * (b2 as int) + 0x100_0000 * (b3 as int)
  }

  function Number64(b: seq<byte>): int
    requires |b| == 8
  {
    (b[0] as int) + 0x100 * (b[1] as int) + 0x1_0000 * (b[2] as int) + 0x100_0000 * (b[3] as int)
    + 0x1_0000_0000 * (b[4] as int) + 0x100_0000_0000 * (b[5] as int)
    + 0x1_0000_0000_0000 * (b[6] as int) + 0x100_0000_0000_0000 * (b[7] as int)
  }

  lemma JoinedWord16(w: bv16, b0: byte, b1: byte)
    requires w == (b0 as bv16) | ((b1 as bv16) << 8)
    ensures w as int == (b0 as int) + 0x100 * (b1 as int)
  {
  }

  lemma JoinedWord32(w: bv32, b0: byte, b1: byte, b2: byte, b3: byte)
    requires w == (b0 as bv32) | ((b1 as bv32) << 8) | ((b2 as bv32) << 16) | ((b3 as bv32) << 24)
    ensures w as int == (b0 as int) + 0x100 * (b1 as int) + 0x1_0000 * (b2 as int) + 0x100_0000 * (b3 as int)
  {
  }

  lemma JoinedWord64(
    w: bv64, b0: byte, b1: byte, b2: byte, b3: byte, b4: byte, b5: byte, b6: byte, b7: byte)
    requires w == (b0 as bv64) | ((b1 as bv64) << 8) | ((b2 as bv64) << 16) | ((b3 as bv64) << 24)
                  | ((b4 as bv64) << 32) | ((b5 as bv64) << 40) | ((b6 as bv64) << 48) | ((b7 as bv64) << 56)
    ensures w as int ==
            (b0 as int) + 0x100 * (b1 as int) + 0x1_0000 * (b2 as int) + 0x100_0000 * (b3 as int)
            + 0x1_0000_0000 * (b4 as int) + 0x100_0000_0000 * (b5 as int)
            + 0x1_0000_0000_0000 * (b6 as int) + 0x100_0000_0000_0000 * (b7 as int)
  {
  }

  /** Integers travel least significant byte first. */
  lemma LittleEndian16(v: bv16)
    ensures Number16(Le16(v)[0], Le16(v)[1]) == v as int
  {
    Le16RoundTrip(v);
    JoinedWord16(v, Le16(v)[0], Le16(v)[1]);
  }

  lemma LittleEndian32(v: bv32)
    ensures Number32(Le32(v)[0], Le32(v)[1], Le32(v)[2], Le32(v)[3]) == v as int
  {
    Le32RoundTrip(v);
    var b := Le32(v);
    hide Le32;
    JoinedWord32(v, b[0], b[1], b[2], b[3]);
  }

  lemma LittleEndian64(v: bv64)
    ensures Number64(Le64(v)) == v as int
  {
    Le64RoundTrip(v);
    var b := Le64(v);
    hide Le64;
    JoinedWord64(v, b[0], b[1], b[2], b[3], b[4], b[5], b[6], b[7]);
  }

  // --- Lengths as 32-bit words ----------------------------------------------

  ghost function NumberOf(b: byte): int {
    b as int
  }

  ghost function NumberOfWord(w: bv32): int {
    w as int
  }

  lemma {:induction false} ByteOfNumber(n: nat) returns (b: byte)
    requires n < 256
    ensures NumberOf(b) == n
  {
    hide NumberOf;
    if n == 0 {
      b := NoNumber();
    } else {
      var half := ByteOfNumber(n / 2);
      b := Doubled(half, n % 2 == 1);
    }
  }

  lemma NumberFromByte(b: byte, n: int)
    requires NumberOf(b) == n
    ensures n as byte == b
  {
  }

  /** A small number survives the trip through a byte. */
  lemma ByteRoundTrip(n: nat)
    requires n < 256
    ensures (n as byte) as int == n
  {
    var b := ByteOfNumber(n);
    NumberFromByte(b, n);
  }

  lemma NoNumber() returns (b: byte)
    ensures NumberOf(b) == 0
  {
    b := 0;
  }

  lemma Doubled(half: byte, odd: bool) returns (b: byte)
    requires NumberOf(half) < 128
    ensures NumberOf(b) == 2 * NumberOf(half) + if odd then 1 else 0
  {
    TopBitClear(half);
    if odd {
      b := (half << 1) | 1;
      ShiftedOdd(half);
    } else {
      b := half << 1;
      ShiftedEven(half);
    }
  }

  lemma TopBitClear(b: byte)
    requires NumberOf(b) < 128
    ensures b & 0x80 == 0
  {
  }

  lemma ShiftedEven(b: byte)
    requires b & 0x80 == 0
    ensures (b << 1) as int == 2 * (b as int)
  {
  }

  lemma ShiftedOdd(b: byte)
    requires b & 0x80 == 0
    ensures ((b << 1) | 1) as int == 2 * (b as int) + 1
  {
  }

  lemma JoinedNumber(a: byte, b: byte, c: byte, d: byte) returns (w: bv32)
    ensures NumberOfWord(w) == NumberOf(a) + 0x100 * NumberOf(b) + 0x1_0000 * NumberOf(c) + 0x100_0000 * NumberOf(d)
  {
    w := JoinedBits(a, b, c, d);
  }

  lemma JoinedBits(a: byte, b: byte, c: byte, d: byte) returns (w: bv32)
    ensures w as int == (a as int) + 0x100 * (b as int) + 0x1_0000 * (c as int) + 0x100_0000 * (d as int)
  {
    w := (a as bv32) | ((b as bv32) << 8) | ((c as bv32) << 16) | ((d as bv32) << 24);
  }

  lemma WordOfNumber(n: nat) returns (w: bv32)
    requires n < 0x1_0000_0000
    ensures NumberOfWord(w) == n
  {
    hide NumberOf, NumberOfWord;
    var n1 := n / 256;
    var n2 := n1 / 256;
    var n3 := n2 / 256;
    var a := ByteOfNumber(n % 256);
    var b := ByteOfNumber(n1 % 256);
    var c := ByteOfNumber(n2 % 256);
    var d := ByteOfNumber(n3);
    w := JoinedNumber(a, b, c, d);
  }

  lemma NumberFromWord(w: bv32, n: int)
    requires NumberOfWord(w) == n
    ensures n as bv32 == w
  {
  }

  /** A length that fits 32 bits survives the trip through a `u32`. */
  lemma LengthRoundTrip(n: nat)
    requires n < 0x1_0000_0000
    ensures (n as bv32) as int == n
  {
    var w := WordOfNumber(n);
    NumberFromWord(w, n);
  }
}
