/**
  Identity values as numbers (core/src/lss.rs:380-384): the bits a Fastscan check compares are what a
  division leaves, and reading the bits one by one gives the value.
 */
module IdentityNumbers {
  import opened Bytes
  import opened IdentityBits

  /** The number without its lowest bits. */
  ghost function Above(n: int, bits: byte): int {
    n / Power(bits as int)
  }

  ghost function Power(n: nat): (p: nat)
    ensures p > 0
  {
    if n == 0 then 1 else 2 * Power(n - 1)
  }

  /** Two values agree from a bit upwards exactly when a division by that power of two agrees. */
  lemma AgreementIsAbove(a: bv32, b: bv32, bit: byte)
    requires bit <= 32
    ensures TopBitsAgree(a, b, bit) <==> Above(a as int, bit) == Above(b as int, bit)
  {
    UpperIsTopBits(a, b, bit);
    UpperIsAbove(a, bit);
    UpperIsAbove(b, bit);
    hide TopBitsAgree, Upper, Above;
  }

  lemma {:induction false} UpperIsAbove(v: bv32, bit: byte)
    requires bit <= 32
    ensures Upper(v, bit) == Above(v as int, bit)
    decreases bit as int
  {
    if bit == 0 {
      NumberIsValue(v);
      ZeroBits();
    } else {
      BitBefore(bit);
      UpperIsAbove(v, bit - 1);
      HalvesAgain(v as int, Power(bit as int - 1));
    }
  }

  lemma ZeroBits()
    ensures (0 as byte) as int == 0
  {
  }

  lemma BitBefore(bit: byte)
    requires 0 < bit <= 32
    ensures bit - 1 < 32 && (bit - 1) as int == bit as int - 1 && bit - 1 + 1 == bit
  {
  }

  lemma HalvesAgain(n: nat, p: nat)
    requires p > 0
    ensures n / (2 * p) == n / p / 2
  {
    var q, odd, r := n / p / 2, n / p % 2, n % p;
    assert n == (2 * q + odd) * p + r;
    assert (2 * q + odd) * p == q * (2 * p) + odd * p;
    assert odd == 0 || odd == 1;
    Quotient(n, 2 * p, q, odd * p + r);
  }

  lemma Quotient(n: nat, d: nat, q: nat, r: nat)
    requires n == q * d + r && r < d
    ensures n / d == q
  {
    var k := n / d;
    assert n == k * d + n % d;
    if k > q {
      Larger(k, q, d);
    } else if k < q {
      Larger(q, k, d);
    }
  }

  lemma Larger(k: nat, q: nat, d: nat)
    requires k > q
    ensures k * d >= q * d + d
  {
    assert k * d == (k - q - 1) * d + (q + 1) * d;
  }

  // --- Bit by bit -----------------------------------------------------------

  /** Reading the bits one by one, highest first, gives the value. */
  lemma NumberIsValue(v: bv32)
    ensures Number(v) == v as int
  {
    var b := Le32(v);
    Le32RoundTrip(v);
    LittleEndian32(v);
    hide Le32, Upper;
    UpperByte(v, 0, b[0]);
    UpperByte(v, 8, b[1]);
    UpperByte(v, 16, b[2]);
    UpperByte(v, 24, b[3]);
    NothingAbove(v);
  }

  lemma NothingAbove(v: bv32)
    ensures Upper(v, 32) == 0
  {
  }

  lemma UpperByte(v: bv32, base: byte, b: byte)
    requires base in {0, 8, 16, 24}
    requires b == ((v >> base) & 0xFF) as byte
    ensures base + 8 <= 32 && Upper(v, base) == 0x100 * Upper(v, base + 8) + b as int
  {
    hide Upper, BitNumber;
    UpperBit(v, base, 0, b);
    UpperBit(v, base, 1, b);
    UpperBit(v, base, 2, b);
    UpperBit(v, base, 3, b);
    UpperBit(v, base, 4, b);
    UpperBit(v, base, 5, b);
    UpperBit(v, base, 6, b);
    UpperBit(v, base, 7, b);
    ByteBits(b);
  }

  /** One bit, read from the byte it lies in. */
  lemma UpperBit(v: bv32, base: byte, k: byte, b: byte)
    requires base in {0, 8, 16, 24} && k < 8
    requires b == ((v >> base) & 0xFF) as byte
    ensures base + k <= 32 && base + (k + 1) <= 32
    ensures Upper(v, base + k) == 2 * Upper(v, base + (k + 1)) + BitNumber(b, k)
  {
    BitOfByte(v, base, k, b);
    UpperDescends(base + k);
    hide HasBit;
    assert base + k + 1 == base + (k + 1);
  }

  lemma BitOfByte(v: bv32, base: byte, k: byte, b: byte)
    requires base in {0, 8, 16, 24} && k < 8 && b == ((v >> base) & 0xFF) as byte
    ensures base + k < 32 && base + (k + 1) <= 32
    ensures HasBit(v, base + k) <==> b & (1 << k) != 0
  {
    BitOfWord(v, base, k);
    LowByteBit(v >> base, k, b);
  }

  lemma BitOfWord(v: bv32, base: byte, k: byte)
    requires base in {0, 8, 16, 24} && k < 8
    ensures base + k < 32 && base + (k + 1) <= 32
    ensures HasBit(v, base + k) <==> (v >> base) & ((1 as bv32) << k) != 0
  {
    if base == 0 {
      BitFrom0(v, k);
    } else if base == 8 {
      BitFrom8(v, k);
    } else if base == 16 {
      BitFrom16(v, k);
    } else {
      BitFrom24(v, k);
    }
  }

  lemma BitFrom0(v: bv32, k: byte)
    requires k < 8
    ensures v & ((1 as bv32) << (0 + k)) != 0 <==> (v >> 0) & ((1 as bv32) << k) != 0
  {
  }

  lemma BitFrom8(v: bv32, k: byte)
    requires k < 8
    ensures v & ((1 as bv32) << (8 + k)) != 0 <==> (v >> 8) & ((1 as bv32) << k) != 0
  {
  }

  lemma BitFrom16(v: bv32, k: byte)
    requires k < 8
    ensures v & ((1 as bv32) << (16 + k)) != 0 <==> (v >> 16) & ((1 as bv32) << k) != 0
  {
  }

  lemma BitFrom24(v: bv32, k: byte)
    requires k < 8
    ensures v & ((1 as bv32) << (24 + k)) != 0 <==> (v >> 24) & ((1 as bv32) << k) != 0
  {
  }

  lemma LowByteBit(w: bv32, k: byte, b: byte)
    requires k < 8 && b == (w & 0xFF) as byte
    ensures w & ((1 as bv32) << k) != 0 <==> b & ((1 as byte) << k) != 0
  {
  }

  function BitNumber(b: byte, k: byte): int
    requires k < 8
  {
    if b & (1 << k) != 0 then 1 else 0
  }

  lemma ByteBits(b: byte)
    ensures b as int ==
            BitNumber(b, 0) + 2 * BitNumber(b, 1) + 4 * BitNumber(b, 2) + 8 * BitNumber(b, 3)
            + 16 * BitNumber(b, 4) + 32 * BitNumber(b, 5) + 64 * BitNumber(b, 6) + 128 * BitNumber(b, 7)
  {
  }
}
