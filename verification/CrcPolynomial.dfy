/**
  The checksum as polynomial division over GF(2) (core/src/sdo/block.rs). A polynomial is the set of
  its exponents; the generator is x^16 + x^12 + x^5 + 1, the constant 0x1021 below its leading term.
 */
module CrcPolynomial {
  import opened Bytes
  import opened Crc

  type Polynomial = set<nat>

  predicate Xor(a: bool, b: bool) {
    a != b
  }

  /** The coefficient of x^i in x^k times `p`. */
  predicate Shifted(p: Polynomial, k: nat, i: nat) {
    i >= k && i - k in p
  }

  /** The coefficient of x^i in `q` times the generator. */
  predicate TimesGenerator(q: Polynomial, i: nat) {
    Xor(Xor(Shifted(q, 16, i), Shifted(q, 12, i)), Xor(Shifted(q, 5, i), i in q))
  }

  /** x^16 times the message, plus the remainder, is the quotient times the generator. */
  ghost predicate Divides(message: Polynomial, quotient: Polynomial, remainder: Polynomial) {
    && (forall i :: i in remainder ==> i < 16)
    && forall i: nat :: Xor(Shifted(message, 16, i), i in remainder) == TimesGenerator(quotient, i)
  }

  /** The polynomial of a bit string whose first bit has the highest exponent. */
  function MessageOf(bits: seq<bool>): Polynomial {
    set i: nat | i < |bits| && Coefficient(bits, i)
  }

  predicate Coefficient(bits: seq<bool>, i: nat)
    requires i < |bits|
  {
    bits[|bits| - 1 - i]
  }

  function RegisterBit(crc: bv16, i: nat): bool
    requires i < 16
  {
    match i
    case 0 => crc & 0x0001 != 0
    case 1 => crc & 0x0002 != 0
    case 2 => crc & 0x0004 != 0
    case 3 => crc & 0x0008 != 0
    case 4 => crc & 0x0010 != 0
    case 5 => crc & 0x0020 != 0
    case 6 => crc & 0x0040 != 0
    case 7 => crc & 0x0080 != 0
    case 8 => crc & 0x0100 != 0
    case 9 => crc & 0x0200 != 0
    case 10 => crc & 0x0400 != 0
    case 11 => crc & 0x0800 != 0
    case 12 => crc & 0x1000 != 0
    case 13 => crc & 0x2000 != 0
    case 14 => crc & 0x4000 != 0
    case 15 => crc & 0x8000 != 0
  }

  function RegisterOf(crc: bv16): Polynomial {
    set i: nat | i < 16 && RegisterBit(crc, i)
  }

  // --- One bit --------------------------------------------------------------

  /** Whether feeding `bit` subtracts the generator. */
  predicate Reduces(crc: bv16, bit: bool) {
    Xor(RegisterBit(crc, 15), bit)
  }

  lemma ShiftedBit(crc: bv16, i: nat)
    requires i < 16
    ensures RegisterBit(crc << 1, i) == (i > 0 && RegisterBit(crc, i - 1))
  {
    if i < 6 {
      ShiftedBit0to5(crc, i);
    } else if i < 11 {
      ShiftedBit6to10(crc, i);
    } else {
      ShiftedBit11to15(crc, i);
    }
    hide RegisterBit;
  }

  lemma ShiftedBit0to5(crc: bv16, i: nat)
    requires i < 6
    ensures RegisterBit(crc << 1, i) == (i > 0 && RegisterBit(crc, i - 1))
  {
  }

  lemma ShiftedBit6to10(crc: bv16, i: nat)
    requires 6 <= i < 11
    ensures RegisterBit(crc << 1, i) == RegisterBit(crc, i - 1)
  {
  }

  lemma ShiftedBit11to15(crc: bv16, i: nat)
    requires 11 <= i < 16
    ensures RegisterBit(crc << 1, i) == RegisterBit(crc, i - 1)
  {
  }

  lemma GeneratorBit(x: bv16, i: nat)
    requires i < 16
    ensures RegisterBit(x ^ 0x1021, i) == Xor(RegisterBit(x, i), i == 0 || i == 5 || i == 12)
  {
  }

  lemma FeedShape(crc: bv16, bit: bool)
    ensures Feed(crc, bit) == if Reduces(crc, bit) then (crc << 1) ^ 0x1021 else crc << 1
  {
    if bit {
      TopFlipped(crc);
    } else {
      assert crc ^ 0 == crc;
    }
  }

  lemma TopFlipped(crc: bv16)
    ensures (crc ^ 0x8000) << 1 == crc << 1
    ensures ((crc ^ 0x8000) & 0x8000 != 0) == (crc & 0x8000 == 0)
  {
  }

  lemma FedBit(crc: bv16, bit: bool, i: nat)
    requires i < 16
    ensures RegisterBit(Feed(crc, bit), i) ==
            Xor(i > 0 && RegisterBit(crc, i - 1), Reduces(crc, bit) && (i == 0 || i == 5 || i == 12))
  {
    FeedShape(crc, bit);
    ShiftedBit(crc, i);
    GeneratorBit(crc << 1, i);
    hide RegisterBit, Feed;
  }

  /** The quotient after one more message bit. */
  function NextQuotient(quotient: Polynomial, reduces: bool): Polynomial {
    (set i | i in quotient :: i + 1) + if reduces then {0} else {}
  }

  lemma NextQuotientAt(quotient: Polynomial, reduces: bool, i: nat)
    ensures i in NextQuotient(quotient, reduces) <==> (i > 0 && i - 1 in quotient) || (i == 0 && reduces)
  {
    if i > 0 && i - 1 in quotient {
      assert i - 1 + 1 == i;
    }
  }

  lemma NextProductAt(quotient: Polynomial, reduces: bool, i: nat)
    ensures TimesGenerator(NextQuotient(quotient, reduces), i) ==
            Xor(i > 0 && TimesGenerator(quotient, i - 1), reduces && (i == 0 || i == 5 || i == 12 || i == 16))
  {
    NextQuotientAt(quotient, reduces, i);
    if i >= 5 {
      NextQuotientAt(quotient, reduces, i - 5);
    }
    if i >= 12 {
      NextQuotientAt(quotient, reduces, i - 12);
    }
    if i >= 16 {
      NextQuotientAt(quotient, reduces, i - 16);
    }
    hide NextQuotient;
  }

  lemma NextMessageAt(bits: seq<bool>, bit: bool, i: nat)
    ensures i in MessageOf(bits + [bit]) <==> (i > 0 && i - 1 in MessageOf(bits)) || (i == 0 && bit)
  {
  }

  lemma DivisionStep(bits: seq<bool>, bit: bool, crc: bv16, quotient: Polynomial)
    requires Divides(MessageOf(bits), quotient, RegisterOf(crc))
    ensures Divides(MessageOf(bits + [bit]), NextQuotient(quotient, Reduces(crc, bit)), RegisterOf(Feed(crc, bit)))
  {
    hide NextQuotient, MessageOf, RegisterBit, Feed, TimesGenerator;
    forall i: nat
      ensures Xor(Shifted(MessageOf(bits + [bit]), 16, i), i in RegisterOf(Feed(crc, bit)))
           == TimesGenerator(NextQuotient(quotient, Reduces(crc, bit)), i)
    {
      NextProductAt(quotient, Reduces(crc, bit), i);
      if i >= 16 {
        NextMessageAt(bits, bit, i - 16);
      } else {
        FedBit(crc, bit, i);
      }
      if i > 0 {
        var before := i - 1;
        assert Xor(Shifted(MessageOf(bits), 16, before), before in RegisterOf(crc)) == TimesGenerator(quotient, before);
      }
    }
  }

  // --- A whole message ------------------------------------------------------

  lemma {:induction false} CrcDividesBits(bits: seq<bool>) returns (quotient: Polynomial)
    ensures Divides(MessageOf(bits), quotient, RegisterOf(CrcBits(0, bits)))
    decreases |bits|
  {
    if bits == [] {
      quotient := {};
      assert RegisterOf(0) == {};
    } else {
      hide RegisterOf, MessageOf, Feed;
      var init := bits[..|bits| - 1];
      var last := bits[|bits| - 1];
      var q := CrcDividesBits(init);
      DivisionStep(init, last, CrcBits(0, init), q);
      BitsConcat(0, init, [last]);
      assert init + [last] == bits;
      assert CrcBits(CrcBits(0, init), [last]) == Feed(CrcBits(0, init), last);
      quotient := NextQuotient(q, Reduces(CrcBits(0, init), last));
    }
  }

  lemma {:induction false} Highest(p: Polynomial) returns (d: nat)
    requires p != {}
    ensures d in p && forall i :: i in p ==> i <= d
  {
    var k :| k in p;
    if p == {k} {
      d := k;
    } else {
      assert p - {k} != {};
      var rest := Highest(p - {k});
      d := if rest < k then k else rest;
      assert forall i :: i in p ==> i == k || i in p - {k};
    }
  }

  function Sum(p: Polynomial, q: Polynomial): Polynomial {
    (p - q) + (q - p)
  }

  lemma ProductOfSum(p: Polynomial, q: Polynomial, i: nat)
    ensures TimesGenerator(Sum(p, q), i) == Xor(TimesGenerator(p, i), TimesGenerator(q, i))
  {
    assert i in Sum(p, q) <==> Xor(i in p, i in q);
    assert i >= 5 ==> (i - 5 in Sum(p, q) <==> Xor(i - 5 in p, i - 5 in q));
    assert i >= 12 ==> (i - 12 in Sum(p, q) <==> Xor(i - 12 in p, i - 12 in q));
    assert i >= 16 ==> (i - 16 in Sum(p, q) <==> Xor(i - 16 in p, i - 16 in q));
    hide Sum;
  }

  /** A quotient other than zero gives a product of degree at least sixteen, so the remainder is unique. */
  lemma RemainderUnique(message: Polynomial, q1: Polynomial, r1: Polynomial, q2: Polynomial, r2: Polynomial)
    requires Divides(message, q1, r1) && Divides(message, q2, r2)
    ensures r1 == r2 && q1 == q2
  {
    var q := Sum(q1, q2);
    forall i: nat
      ensures TimesGenerator(q, i) == Xor(i in r1, i in r2)
    {
      ProductOfSum(q1, q2, i);
      assert Xor(Shifted(message, 16, i), i in r1) == TimesGenerator(q1, i);
      assert Xor(Shifted(message, 16, i), i in r2) == TimesGenerator(q2, i);
    }
    NoProduct(q, r1, r2);
    assert forall i :: i in q1 || i in q2 ==> i in q || (i in q1 && i in q2);
  }

  lemma LeadingTerm(q: Polynomial, d: nat)
    requires d in q && forall i :: i in q ==> i <= d
    ensures TimesGenerator(q, d + 16)
  {
  }

  lemma NoProduct(q: Polynomial, r1: Polynomial, r2: Polynomial)
    requires forall i :: i in r1 || i in r2 ==> i < 16
    requires forall i: nat :: TimesGenerator(q, i) == Xor(i in r1, i in r2)
    ensures q == {} && r1 == r2
  {
    if q != {} {
      var d := Highest(q);
      LeadingTerm(q, d);
      assert false;
    }
    forall i: nat
      ensures i in r1 <==> i in r2
    {
      assert !TimesGenerator(q, i);
    }
  }

  /**
    The checksum of any data is the remainder of x^16 times the data modulo the generator: it is one,
    and it is the only one.
   */
  lemma CrcIsRemainder(data: seq<byte>, remainder: Polynomial)
    ensures (exists quotient :: Divides(MessageOf(Bits(data)), quotient, remainder)) <==>
            remainder == RegisterOf(Crc16(data))
  {
    CrcIsBitSerial(data);
    var q := CrcDividesBits(Bits(data));
    if quotient :| Divides(MessageOf(Bits(data)), quotient, remainder) {
      RemainderUnique(MessageOf(Bits(data)), q, RegisterOf(Crc16(data)), quotient, remainder);
    }
  }
}
