/**
  Two more facts about the block-transfer checksum (core/src/sdo/block.rs): it is linear over XOR,
  and, since x + 1 divides the generator, it keeps the parity of the message.
 */
module CrcParity {
  import opened Bytes
  import opened Crc
  import opened CrcPolynomial

  // --- Linearity ------------------------------------------------------------

  function Plus(a: bv16, b: bv16): bv16 {
    a ^ b
  }

  lemma StepLinearLow(a: bv16, b: bv16)
    requires a & 0x8000 == 0 && b & 0x8000 == 0
    ensures Step(Plus(a, b)) == Plus(Step(a), Step(b))
  {
  }

  lemma StepLinearHigh(a: bv16, b: bv16)
    requires a & 0x8000 != 0 && b & 0x8000 != 0
    ensures Step(Plus(a, b)) == Plus(Step(a), Step(b))
  {
  }

  lemma StepLinearMixed(a: bv16, b: bv16)
    requires a & 0x8000 != 0 && b & 0x8000 == 0
    ensures Step(Plus(a, b)) == Plus(Step(a), Step(b))
  {
  }

  lemma PlusCommutes(a: bv16, b: bv16)
    ensures Plus(a, b) == Plus(b, a)
  {
  }

  lemma StepLinear(a: bv16, b: bv16)
    ensures Step(Plus(a, b)) == Plus(Step(a), Step(b))
  {
    hide Step, Plus;
    if a & 0x8000 == 0 && b & 0x8000 == 0 {
      StepLinearLow(a, b);
    } else if a & 0x8000 != 0 && b & 0x8000 != 0 {
      StepLinearHigh(a, b);
    } else if a & 0x8000 != 0 {
      StepLinearMixed(a, b);
    } else {
      StepLinearMixed(b, a);
      PlusCommutes(a, b);
      PlusCommutes(Step(a), Step(b));
    }
  }

  lemma {:induction false} StepsLinear(a: bv16, b: bv16, n: nat)
    ensures Steps(Plus(a, b), n) == Plus(Steps(a, n), Steps(b, n))
    decreases n
  {
    hide Step, Plus;
    if n > 0 {
      StepLinear(a, b);
      StepsLinear(Step(a), Step(b), n - 1);
    }
  }

  function Loaded(crc: bv16, b: byte): bv16 {
    crc ^ ((b as bv16) << 8)
  }

  lemma LoadedLinear(c: bv16, d: bv16, x: byte, y: byte)
    ensures Loaded(Plus(c, d), x ^ y) == Plus(Loaded(c, x), Loaded(d, y))
  {
  }

  lemma LoadedThenSteps(crc: bv16, b: byte)
    ensures AddByte(crc, b) == Steps(Loaded(crc, b), 8)
  {
    hide Steps;
  }

  lemma AddByteLinear(c: bv16, d: bv16, x: byte, y: byte)
    ensures AddByte(Plus(c, d), x ^ y) == Plus(AddByte(c, x), AddByte(d, y))
  {
    hide Steps, Plus, Loaded, AddByte;
    LoadedThenSteps(Plus(c, d), x ^ y);
    LoadedThenSteps(c, x);
    LoadedThenSteps(d, y);
    LoadedLinear(c, d, x, y);
    StepsLinear(Loaded(c, x), Loaded(d, y), 8);
  }

  function XorBytes(a: seq<byte>, b: seq<byte>): (c: seq<byte>)
    requires |a| == |b|
    ensures |c| == |a|
  {
    seq(|a|, i requires 0 <= i < |a| => a[i] ^ b[i])
  }

  lemma PlusZero()
    ensures Plus(0, 0) == 0
  {
  }

  lemma XorBytesEnd(a: seq<byte>, b: seq<byte>, n: nat)
    requires |a| == |b| == n + 1
    ensures XorBytes(a, b)[..n] == XorBytes(a[..n], b[..n]) && XorBytes(a, b)[n] == a[n] ^ b[n]
  {
  }

  /** The checksum of a corrupted message is the message's own, altered by that of the error. */
  lemma {:induction false} CrcIsLinear(a: seq<byte>, b: seq<byte>)
    requires |a| == |b|
    ensures Crc16(XorBytes(a, b)) == Plus(Crc16(a), Crc16(b))
  {
    hide AddByte, Plus, XorBytes;
    if a == [] {
      PlusZero();
    } else {
      var n := |a| - 1;
      CrcIsLinear(a[..n], b[..n]);
      XorBytesEnd(a, b, n);
      AddByteLinear(Crc16(a[..n]), Crc16(b[..n]), a[n], b[n]);
    }
  }

  lemma PlusZeroIff(a: bv16, b: bv16)
    ensures Plus(a, b) == 0 <==> a == b
  {
  }

  /** Whether corruption goes unnoticed depends on the error pattern alone, not on the message. */
  lemma ErrorPatternDecides(a: seq<byte>, b: seq<byte>)
    requires |a| == |b|
    ensures Crc16(a) == Crc16(b) <==> Crc16(XorBytes(a, b)) == 0
  {
    hide Crc16, Plus, XorBytes;
    CrcIsLinear(a, b);
    PlusZeroIff(Crc16(a), Crc16(b));
  }

  // --- Parity ---------------------------------------------------------------

  /** Whether an odd number of the n lowest register bits are set. */
  predicate RegisterParity(crc: bv16, n: nat)
    requires n <= 16
  {
    n > 0 && Xor(RegisterParity(crc, n - 1), RegisterBit(crc, n - 1))
  }

  /** Feeding a bit moves the parity up one place; below it are one, two and then three taps. */
  lemma {:induction false} FedParity(crc: bv16, bit: bool, n: nat)
    requires n <= 16
    ensures RegisterParity(Feed(crc, bit), n) ==
            Xor(n > 0 && RegisterParity(crc, n - 1), Reduces(crc, bit) && (1 <= n <= 5 || n >= 13))
  {
    hide Feed, RegisterBit, Reduces;
    if n > 0 {
      FedParity(crc, bit, n - 1);
      FedBit(crc, bit, n - 1);
    }
  }

  predicate OddOnes(bits: seq<bool>) {
    bits != [] && Xor(bits[0], OddOnes(bits[1..]))
  }

  lemma {:induction false} CrcKeepsParity(crc: bv16, bits: seq<bool>)
    ensures RegisterParity(CrcBits(crc, bits), 16) == Xor(RegisterParity(crc, 16), OddOnes(bits))
    decreases |bits|
  {
    hide Feed, RegisterBit;
    if bits != [] {
      CrcKeepsParity(Feed(crc, bits[0]), bits[1..]);
      FedParity(crc, bits[0], 16);
    }
  }

  lemma {:induction false} ZeroParity(n: nat)
    requires n <= 16
    ensures !RegisterParity(0, n)
  {
    if n > 0 {
      ZeroParity(n - 1);
    }
  }

  /** The number of places where two bit strings differ. */
  function Flips(a: seq<bool>, b: seq<bool>): nat
    requires |a| == |b|
  {
    if a == [] then 0 else (if a[0] != b[0] then 1 else 0) + Flips(a[1..], b[1..])
  }

  lemma {:induction false} FlipsParity(a: seq<bool>, b: seq<bool>)
    requires |a| == |b|
    ensures Flips(a, b) % 2 == 1 <==> Xor(OddOnes(a), OddOnes(b))
  {
    if a != [] {
      FlipsParity(a[1..], b[1..]);
    }
  }

  /** The checksum has as many ones, modulo two, as the message. */
  lemma CrcParityIsMessageParity(data: seq<byte>)
    ensures RegisterParity(Crc16(data), 16) == OddOnes(Bits(data))
  {
    hide Crc16, Bits, CrcBits, RegisterParity, OddOnes;
    CrcIsBitSerial(data);
    CrcKeepsParity(0, Bits(data));
    ZeroParity(16);
  }

  /** Any odd number of flipped bits, wherever they are, changes the checksum. */
  lemma OddFlipsDetected(a: seq<byte>, b: seq<byte>)
    requires |a| == |b| && Flips(Bits(a), Bits(b)) % 2 == 1
    ensures Crc16(a) != Crc16(b)
  {
    hide Crc16, Bits, RegisterParity, OddOnes, Flips;
    CrcParityIsMessageParity(a);
    CrcParityIsMessageParity(b);
    FlipsParity(Bits(a), Bits(b));
  }
}
