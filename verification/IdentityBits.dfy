/**
  Bit arithmetic of the 32-bit identity values that Fastscan bisects (core/src/lss.rs). The masks
  are symbolic shifts, so every lemma here is kept to one algebraic step.
 */
module IdentityBits {
  import opened Bytes

  /** The master's `i8` bit counter, held as its two's complement byte. */
  const BIT_PROBE: byte := 0xFE    // -2, the initial probe
  const BIT_CONFIRM: byte := 0xFF  // -1, confirm the identity value

  /** The bits `bit..=31`; none for 32. */
  function TopMask(bit: byte): bv32
    requires bit <= 32
  {
    0xFFFF_FFFF << bit
  }

  function BitMask(bit: byte): bv32
    requires bit < 32
  {
    1 << bit
  }

  /** Whether the bits `bitCheck..=31` of the two identity values agree. */
  predicate TopBitsAgree(a: bv32, b: bv32, bitCheck: byte)
    requires bitCheck <= 32
  {
    (a ^ b) & TopMask(bitCheck) == 0
  }

  predicate HasBit(v: bv32, bit: byte)
    requires bit < 32
  {
    v & BitMask(bit) != 0
  }

  /** `v` with only its bits above `bit` kept: what the master has settled when `bit` is next. */
  function Settled(v: bv32, bit: byte): bv32
    requires bit <= 31 || bit == BIT_CONFIRM
  {
    NextBitInRange(bit);
    v & TopMask(bit + 1)
  }

  lemma NextBitInRange(bit: byte)
    requires bit <= 31 || bit == BIT_CONFIRM
    ensures bit + 1 <= 32
    ensures bit <= 31 ==> bit - 1 <= 31 || bit - 1 == BIT_CONFIRM
    ensures bit <= 31 ==> bit - 1 != BIT_PROBE && bit - 1 + 1 == bit
  {
  }

  // --- Numeric value --------------------------------------------------------

  /** The number written in the bits `bit..=31` of `v`. */
  function Upper(v: bv32, bit: byte): nat
    requires bit <= 32
    decreases 32 - (bit as int)
  {
    if bit == 32 then 0
    else
      UpperDescends(bit);
      2 * Upper(v, bit + 1) + if HasBit(v, bit) then 1 else 0
  }

  lemma UpperDescends(bit: byte)
    requires bit < 32
    ensures bit + 1 <= 32 && 32 - ((bit + 1) as int) < 32 - (bit as int)
  {
  }

  /** The numeric value of an identity value. */
  function Number(v: bv32): nat {
    Upper(v, 0)
  }

  lemma {:induction false} UpperIsTopBits(a: bv32, b: bv32, bit: byte)
    requires bit <= 32
    ensures Upper(a, bit) == Upper(b, bit) <==> TopBitsAgree(a, b, bit)
    decreases 32 - (bit as int)
  {
    if bit < 32 {
      UpperDescends(bit);
      UpperIsTopBits(a, b, bit + 1);
      if TopBitsAgree(a, b, bit) {
        TopBitsShrink(a, b, bit);
        TopBitsBit(a, b, bit);
      } else if TopBitsAgree(a, b, bit + 1) && HasBit(a, bit) == HasBit(b, bit) {
        TopBitsGrow(a, b, bit);
      }
    } else {
      assert TopMask(32) == 0;
    }
  }

  lemma {:induction false} UpperOrderDescends(a: bv32, b: bv32, bit: byte)
    requires bit <= 32 && Upper(a, bit) < Upper(b, bit)
    ensures Number(a) < Number(b)
    decreases bit as int
  {
    if bit != 0 {
      assert (bit - 1) as int < bit as int;
      assert bit - 1 < 32 && bit - 1 + 1 == bit;
      UpperOrderDescends(a, b, bit - 1);
    }
  }

  lemma AllBitsAgree(a: bv32, b: bv32)
    ensures TopBitsAgree(a, b, 0) <==> a == b
  {
    assert TopMask(0) == 0xFFFF_FFFF;
    AndOnes(a ^ b);
    XorZero(a, b);
  }

  lemma AndOnes(x: bv32)
    ensures x & 0xFFFF_FFFF == x
  {
  }

  lemma XorZero(a: bv32, b: bv32)
    ensures a ^ b == 0 <==> a == b
  {
  }

  lemma NumberInjective(a: bv32, b: bv32)
    ensures Number(a) == Number(b) <==> a == b
  {
    UpperIsTopBits(a, b, 0);
    AllBitsAgree(a, b);
  }

  // --- One bit further ------------------------------------------------------

  lemma TopBitsShrink(a: bv32, b: bv32, bit: byte)
    requires bit < 32 && TopBitsAgree(a, b, bit)
    ensures bit + 1 <= 32 && TopBitsAgree(a, b, bit + 1)
  {
  }

  lemma TopBitsBit(a: bv32, b: bv32, bit: byte)
    requires bit < 32 && TopBitsAgree(a, b, bit)
    ensures HasBit(a, bit) == HasBit(b, bit)
  {
  }

  lemma TopBitsGrow(a: bv32, b: bv32, bit: byte)
    requires bit < 32 && bit + 1 <= 32 && TopBitsAgree(a, b, bit + 1) && HasBit(a, bit) == HasBit(b, bit)
    ensures TopBitsAgree(a, b, bit)
  {
  }

  // --- Candidates -----------------------------------------------------------

  /** A candidate agrees with the value it was settled from on a bit that is zero there. */
  lemma ZeroBitAnswered(v: bv32, bit: byte)
    requires bit <= 31 && !HasBit(v, bit)
    ensures TopBitsAgree(Settled(v, bit), v, bit)
  {
  }

  lemma CandidateBitIsZero(v: bv32, x: bv32, bit: byte)
    requires bit <= 31 && TopBitsAgree(Settled(v, bit), x, bit)
    ensures !HasBit(x, bit)
  {
  }

  lemma CandidateTopBits(v: bv32, x: bv32, bit: byte)
    requires bit <= 31 && bit + 1 <= 32 && TopBitsAgree(Settled(v, bit), x, bit)
    ensures TopBitsAgree(v, x, bit + 1)
  {
  }

  /** Where a value has a one, only a smaller value can match its candidate's zero. */
  lemma OneBitUnanswered(v: bv32, x: bv32, bit: byte)
    requires bit <= 31 && HasBit(v, bit)
    requires TopBitsAgree(Settled(v, bit), x, bit)
    ensures Number(x) < Number(v)
  {
    NextBitInRange(bit);
    CandidateBitIsZero(v, x, bit);
    CandidateTopBits(v, x, bit);
    UpperBelow(v, x, bit);
    UpperOrderDescends(x, v, bit);
  }

  lemma UpperBelow(v: bv32, x: bv32, bit: byte)
    requires bit <= 31 && HasBit(v, bit) && !HasBit(x, bit)
    requires bit + 1 <= 32 && TopBitsAgree(v, x, bit + 1)
    ensures Upper(x, bit) < Upper(v, bit)
  {
    UpperIsTopBits(v, x, bit + 1);
  }

  lemma OneBitSettled(v: bv32, bit: byte)
    requires bit <= 31 && HasBit(v, bit)
    ensures v & TopMask(bit) == Settled(v, bit) | BitMask(bit)
  {
  }

  lemma ZeroBitSettled(v: bv32, bit: byte)
    requires bit <= 31 && !HasBit(v, bit)
    ensures v & TopMask(bit) == Settled(v, bit)
  {
  }

  /** The settled bits grow by the bit just checked. */
  lemma BitSettled(v: bv32, bit: byte)
    requires bit <= 31
    ensures bit - 1 <= 31 || bit - 1 == BIT_CONFIRM
    ensures Settled(v, bit - 1) == if HasBit(v, bit) then Settled(v, bit) | BitMask(bit) else Settled(v, bit)
  {
    NextBitInRange(bit);
    SettledBefore(v, bit);
    if HasBit(v, bit) {
      OneBitSettled(v, bit);
    } else {
      ZeroBitSettled(v, bit);
    }
  }

  lemma SettledBefore(v: bv32, bit: byte)
    requires bit <= 31 && (bit - 1 <= 31 || bit - 1 == BIT_CONFIRM)
    ensures Settled(v, bit - 1) == v & TopMask(bit)
  {
    assert bit - 1 + 1 == bit;
  }

  lemma SettledEnds(v: bv32)
    ensures Settled(v, BIT_CONFIRM) == v
    ensures Settled(v, 31) == 0
  {
    assert TopMask(BIT_CONFIRM + 1) == 0xFFFF_FFFF;
    assert TopMask(31 + 1) == 0;
  }
}
