/**
  The block-transfer checksum (core/src/sdo/block.rs): CRC-16/XMODEM computed by the byte-wise
  nested loop, related to a bit-serial register, to the errors it detects and to polynomial division
  over GF(2).
 */
module Crc {
  import opened Bytes

  /** One turn of the inner loop. */
  function Step(crc: bv16): bv16 {
    if crc & 0x8000 != 0 then (crc << 1) ^ 0x1021 else crc << 1
  }

  function Steps(crc: bv16, n: nat): bv16
    decreases n
  {
    if n == 0 then crc else Steps(Step(crc), n - 1)
  }

  /** One turn of the outer loop. */
  function AddByte(crc: bv16, b: byte): bv16 {
    Steps(crc ^ ((b as bv16) << 8), 8)
  }

  function Crc16(data: seq<byte>): bv16 {
    if data == [] then 0 else AddByte(Crc16(data[..|data| - 1]), data[|data| - 1])
  }

  lemma {:induction false} StepsEnd(crc: bv16, n: nat)
    ensures Steps(crc, n + 1) == Step(Steps(crc, n))
    decreases n
  {
    hide Step;
    if n > 0 {
      StepsEnd(Step(crc), n - 1);
    }
  }

  method ComputeCrc16(data: seq<byte>) returns (crc: bv16)
    ensures crc == Crc16(data)
  {
    crc := 0;
    for k := 0 to |data|
      invariant crc == Crc16(data[..k])
    {
      crc := NextByte(crc, data[k]);
      assert data[..k + 1][..k] == data[..k];
    }
    assert data[..|data|] == data;
  }

  method NextByte(before: bv16, b: byte) returns (crc: bv16)
    ensures crc == AddByte(before, b)
  {
    crc := before ^ ((b as bv16) << 8);
    ghost var start := crc;
    for i := 0 to 8
      invariant crc == Steps(start, i)
    {
      StepsEnd(start, i);
      crc := Step(crc);
    }
  }

  // --- The step is injective ------------------------------------------------

  lemma LowStepsInjective(a: bv16, b: bv16)
    requires a & 0x8000 == 0 && b & 0x8000 == 0 && Step(a) == Step(b)
    ensures a == b
  {
  }

  lemma HighStepsInjective(a: bv16, b: bv16)
    requires a & 0x8000 != 0 && b & 0x8000 != 0 && Step(a) == Step(b)
    ensures a == b
  {
  }

  /** The polynomial's lowest coefficient tells the two cases apart. */
  lemma HighAndLowStepsDiffer(a: bv16, b: bv16)
    requires a & 0x8000 != 0 && b & 0x8000 == 0
    ensures Step(a) != Step(b)
  {
  }

  lemma StepInjective(a: bv16, b: bv16)
    requires Step(a) == Step(b)
    ensures a == b
  {
    hide Step;
    if a & 0x8000 == 0 && b & 0x8000 == 0 {
      LowStepsInjective(a, b);
    } else if a & 0x8000 != 0 && b & 0x8000 != 0 {
      HighStepsInjective(a, b);
    } else if a & 0x8000 != 0 {
      HighAndLowStepsDiffer(a, b);
    } else {
      HighAndLowStepsDiffer(b, a);
    }
  }

  lemma {:induction false} StepsInjective(a: bv16, b: bv16, n: nat)
    requires Steps(a, n) == Steps(b, n)
    ensures a == b
    decreases n
  {
    hide Step;
    if n > 0 {
      StepsInjective(Step(a), Step(b), n - 1);
      StepInjective(a, b);
    }
  }

  lemma {:induction false} StepsOfZero(n: nat)
    ensures Steps(0, n) == 0
  {
    if n > 0 {
      assert Step(0) == 0;
      StepsOfZero(n - 1);
    }
  }

  // --- The bit-serial register ----------------------------------------------

  function Feed(crc: bv16, bit: bool): bv16 {
    Step(crc ^ if bit then 0x8000 else 0)
  }

  function CrcBits(crc: bv16, bits: seq<bool>): bv16
    decreases |bits|
  {
    if bits == [] then crc else CrcBits(Feed(crc, bits[0]), bits[1..])
  }

  /** The top `n` bits of a byte, most significant first. */
  function TopBits(b: byte, n: nat): (bits: seq<bool>)
    ensures |bits| == n
    decreases n
  {
    if n == 0 then [] else [b & 0x80 != 0] + TopBits(b << 1, n - 1)
  }

  function BitsOf(b: byte): (bits: seq<bool>)
    ensures |bits| == 8
  {
    TopBits(b, 8)
  }

  function Bits(data: seq<byte>): (bits: seq<bool>)
    ensures |bits| == 8 * |data|
  {
    if data == [] then [] else Bits(data[..|data| - 1]) + BitsOf(data[|data| - 1])
  }

  /** Add a word into a register. */
  function Load(crc: bv16, word: bv16): bv16 {
    crc ^ word
  }

  /** Push a bit in at the top of a register. */
  function PushTop(word: bv16, bit: bool): bv16 {
    if bit then (word >> 1) | 0x8000 else word >> 1
  }

  /** Up to sixteen bits placed at the top of a register. */
  function Top(bits: seq<bool>): bv16
    requires |bits| <= 16
  {
    if bits == [] then 0 else PushTop(Top(bits[1..]), bits[0])
  }

  /** The `n` bits at the top of a register. */
  function HighMask(n: nat): bv16 {
    if n == 0 then 0 else PushTop(HighMask(n - 1), true)
  }

  predicate Within(word: bv16, mask: bv16) {
    word & mask == word
  }

  lemma PushOneWithin(t: bv16, m: bv16)
    requires Within(t, m)
    ensures Within(PushTop(t, true), PushTop(m, true))
  {
  }

  lemma PushZeroWithin(t: bv16, m: bv16)
    requires Within(t, m)
    ensures Within(PushTop(t, false), PushTop(m, true))
  {
  }

  lemma {:induction false} TopWithinMask(bits: seq<bool>)
    requires |bits| <= 16
    ensures Within(Top(bits), HighMask(|bits|))
    decreases |bits|
  {
    if bits == [] {
      assert Within(0, 0);
    } else {
      hide Within, PushTop;
      TopWithinMask(bits[1..]);
      if bits[0] {
        PushOneWithin(Top(bits[1..]), HighMask(|bits| - 1));
      } else {
        PushZeroWithin(Top(bits[1..]), HighMask(|bits| - 1));
      }
    }
  }

  predicate IsEven(word: bv16) {
    word & 1 == 0
  }

  lemma HighMaskValues()
    ensures HighMask(8) == 0xFF00
    ensures forall n: nat :: n <= 15 ==> IsEven(HighMask(n))
  {
    assert HighMask(1) == 0x8000 && HighMask(2) == 0xC000 && HighMask(3) == 0xE000;
    assert HighMask(4) == 0xF000 && HighMask(5) == 0xF800 && HighMask(6) == 0xFC00;
    assert HighMask(7) == 0xFE00 && HighMask(8) == 0xFF00 && HighMask(9) == 0xFF80;
    assert HighMask(10) == 0xFFC0 && HighMask(11) == 0xFFE0 && HighMask(12) == 0xFFF0;
    assert HighMask(13) == 0xFFF8 && HighMask(14) == 0xFFFC && HighMask(15) == 0xFFFE;
  }

  /** Feeding up to sixteen bits one at a time is loading them at once and stepping. */
  lemma {:induction false} BitsAsWord(crc: bv16, bits: seq<bool>)
    requires |bits| <= 16
    ensures CrcBits(crc, bits) == Steps(Load(crc, Top(bits)), |bits|)
    decreases |bits|
  {
    if bits == [] {
      assert Load(crc, 0) == crc;
    } else {
      hide Step, Feed, Load, PushTop;
      BitsAsWord(Feed(crc, bits[0]), bits[1..]);
      FeedThenLoad(crc, bits);
    }
  }

  /** Register bits below the top only shift, so they can be loaded before the step or after it. */
  predicate LoadsLater(crc: bv16, rest: bv16, bit: bool) {
    Load(Feed(crc, bit), rest) == Step(Load(crc, PushTop(rest, bit)))
  }

  lemma FeedThenLoad(crc: bv16, bits: seq<bool>)
    requires 1 <= |bits| <= 16
    ensures LoadsLater(crc, Top(bits[1..]), bits[0])
  {
    var rest := Top(bits[1..]);
    hide PushTop, HighMask, LoadsLater, IsEven, Within;
    TopWithinMask(bits[1..]);
    HighMaskValues();
    WithinEven(rest, HighMask(|bits| - 1));
    if bits[0] {
      LoadOne(crc, rest);
    } else {
      LoadZero(crc, rest);
    }
  }

  lemma WithinEven(t: bv16, m: bv16)
    requires Within(t, m) && IsEven(m)
    ensures IsEven(t)
  {
  }

  lemma LoadOne(crc: bv16, rest: bv16)
    requires IsEven(rest)
    ensures LoadsLater(crc, rest, true)
  {
    hide Step, Load, IsEven, PushTop, Feed;
    var flipped := FeedOne(crc);
    LoadTopOne(crc, flipped, rest);
    ShiftLater(flipped, rest);
  }

  lemma LoadZero(crc: bv16, rest: bv16)
    requires IsEven(rest)
    ensures LoadsLater(crc, rest, false)
  {
    hide Step, Load, IsEven, PushTop, Feed;
    FeedZero(crc);
    PushZero(rest);
    ShiftLater(crc, rest);
  }

  lemma FeedOne(crc: bv16) returns (flipped: bv16)
    ensures flipped == Load(crc, 0x8000) && Feed(crc, true) == Step(flipped)
  {
    hide Step;
    flipped := crc ^ 0x8000;
  }

  lemma FeedZero(crc: bv16)
    ensures Feed(crc, false) == Step(crc)
  {
    hide Step;
    assert crc ^ 0 == crc;
  }

  lemma PushZero(rest: bv16)
    ensures PushTop(rest, false) == Half(rest)
  {
  }

  function Half(word: bv16): bv16 {
    word >> 1
  }

  lemma LoadTopOne(crc: bv16, flipped: bv16, rest: bv16)
    requires flipped == Load(crc, 0x8000)
    ensures Load(flipped, Half(rest)) == Load(crc, PushTop(rest, true))
  {
  }

  /** What does not reach the top shifts with the register, before the step or after it. */
  lemma ShiftLater(crc: bv16, rest: bv16)
    requires IsEven(rest)
    ensures Load(Step(crc), rest) == Step(Load(crc, Half(rest)))
  {
    hide Step, Load, IsEven, Half;
    if crc & 0x8000 == 0 {
      ShiftLow(crc, rest);
    } else {
      ShiftHigh(crc, rest);
    }
  }

  lemma ShiftLow(crc: bv16, rest: bv16)
    requires IsEven(rest) && crc & 0x8000 == 0
    ensures Load(Step(crc), rest) == Step(Load(crc, Half(rest)))
  {
  }

  lemma ShiftHigh(crc: bv16, rest: bv16)
    requires IsEven(rest) && crc & 0x8000 != 0
    ensures Load(Step(crc), rest) == Step(Load(crc, Half(rest)))
  {
  }

  lemma {:induction false} BitsConcat(crc: bv16, a: seq<bool>, b: seq<bool>)
    ensures CrcBits(crc, a + b) == CrcBits(CrcBits(crc, a), b)
    decreases |a|
  {
    hide Step, Feed;
    if a == [] {
      assert a + b == b;
    } else {
      assert (a + b)[1..] == a[1..] + b;
      BitsConcat(Feed(crc, a[0]), a[1..], b);
    }
  }

  lemma {:induction false} TopOfTopBits(b: byte, n: nat)
    requires n <= 8
    ensures Top(TopBits(b, n)) == ((b as bv16) << 8) & HighMask(n)
    decreases n
  {
    if n > 0 {
      TopOfTopBits(b << 1, n - 1);
      assert TopBits(b, n)[1..] == TopBits(b << 1, n - 1);
      ShiftByteIn(b, HighMask(n - 1));
    } else {
      assert ((b as bv16) << 8) & 0 == 0;
    }
  }

  lemma ShiftByteIn(b: byte, m: bv16)
    ensures PushTop((((b << 1) as bv16) << 8) & m, b & 0x80 != 0) == ((b as bv16) << 8) & PushTop(m, true)
  {
  }

  lemma TopOfByte(b: byte)
    ensures Top(BitsOf(b)) == (b as bv16) << 8
  {
    TopOfTopBits(b, 8);
    HighMaskValues();
    assert ((b as bv16) << 8) & 0xFF00 == (b as bv16) << 8;
  }

  /** Adding a byte feeds its bits, most significant first. */
  lemma ByteIsBitSerial(crc: bv16, b: byte)
    ensures AddByte(crc, b) == CrcBits(crc, BitsOf(b))
  {
    hide CrcBits, BitsOf, Top, Steps;
    BitsAsWord(crc, BitsOf(b));
    TopOfByte(b);
  }

  /** The byte-wise checksum is the bit-serial one over the bits of the data. */
  lemma {:induction false} CrcIsBitSerial(data: seq<byte>)
    ensures Crc16(data) == CrcBits(0, Bits(data))
  {
    hide BitsOf, AddByte;
    if data != [] {
      var init := data[..|data| - 1];
      var last := data[|data| - 1];
      CrcIsBitSerial(init);
      hide CrcBits;
      BitsConcat(0, Bits(init), BitsOf(last));
      ByteIsBitSerial(Crc16(init), last);
    }
  }
}
