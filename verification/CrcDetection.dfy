/** Which corruptions the block-transfer checksum detects (core/src/sdo/block.rs). */
module CrcDetection {
  import opened Bytes
  import opened Crc

  // --- Feeding is injective -------------------------------------------------

  lemma FeedInjective(a: bv16, b: bv16, bit: bool)
    requires Feed(a, bit) == Feed(b, bit)
    ensures a == b
  {
    var head: bv16 := if bit then 0x8000 else 0;
    StepInjective(a ^ head, b ^ head);
    hide Step;
    XorCancel(a, b, head);
  }

  lemma XorCancel(a: bv16, b: bv16, c: bv16)
    ensures a ^ c == b ^ c ==> a == b
    ensures c ^ a == c ^ b ==> a == b
  {
  }

  lemma {:induction false} SuffixInjective(a: bv16, b: bv16, bits: seq<bool>)
    requires CrcBits(a, bits) == CrcBits(b, bits)
    ensures a == b
    decreases |bits|
  {
    hide Feed;
    if bits != [] {
      SuffixInjective(Feed(a, bits[0]), Feed(b, bits[0]), bits[1..]);
      FeedInjective(a, b, bits[0]);
    }
  }

  lemma PushInjective(t: bv16, bit: bool, t': bv16, bit': bool)
    requires IsEven(t) && IsEven(t') && PushTop(t, bit) == PushTop(t', bit')
    ensures t == t' && bit == bit'
  {
    if bit && bit' {
      PushSame(t, t', true);
    } else if !bit && !bit' {
      PushSame(t, t', false);
    } else if bit {
      PushDiffers(t, t');
    } else {
      PushDiffers(t', t);
    }
    hide IsEven;
  }

  lemma PushSame(t: bv16, t': bv16, bit: bool)
    requires IsEven(t) && IsEven(t') && PushTop(t, bit) == PushTop(t', bit)
    ensures t == t'
  {
  }

  lemma PushDiffers(t: bv16, t': bv16)
    ensures PushTop(t, true) != PushTop(t', false)
  {
  }

  lemma ShortTopEven(bits: seq<bool>)
    requires |bits| <= 15
    ensures IsEven(Top(bits))
  {
    hide Within, IsEven, PushTop;
    TopWithinMask(bits);
    HighMaskValues();
    WithinEven(Top(bits), HighMask(|bits|));
  }

  lemma {:induction false} TopInjective(a: seq<bool>, b: seq<bool>)
    requires |a| == |b| <= 16 && Top(a) == Top(b)
    ensures a == b
    decreases |a|
  {
    hide PushTop, IsEven;
    if a != [] {
      ShortTopEven(a[1..]);
      ShortTopEven(b[1..]);
      PushInjective(Top(a[1..]), a[0], Top(b[1..]), b[0]);
      TopInjective(a[1..], b[1..]);
      assert a == [a[0]] + a[1..] && b == [b[0]] + b[1..];
    }
  }

  /** From one register value, different windows of up to sixteen bits lead to different values. */
  lemma WindowInjective(crc: bv16, a: seq<bool>, b: seq<bool>)
    requires |a| == |b| <= 16 && CrcBits(crc, a) == CrcBits(crc, b)
    ensures a == b
  {
    BitsAsWord(crc, a);
    BitsAsWord(crc, b);
    StepsInjective(Load(crc, Top(a)), Load(crc, Top(b)), |a|);
    XorCancel(Top(a), Top(b), crc);
    TopInjective(a, b);
  }

  lemma {:induction false} TopBitsInjective(a: byte, b: byte, n: nat)
    requires n <= 8 && TopBits(a, n) == TopBits(b, n)
    ensures forall k: nat :: k < n ==> BitAt(a, k) == BitAt(b, k)
    decreases n
  {
    if n > 0 {
      TopBitsSplit(a, n);
      TopBitsSplit(b, n);
      hide TopBits;
      TopBitsInjective(a << 1, b << 1, n - 1);
      forall k: nat | k < n
        ensures BitAt(a, k) == BitAt(b, k)
      {
        if k > 0 {
          assert BitAt(a << 1, k - 1) == BitAt(b << 1, k - 1);
        }
      }
    }
  }

  lemma TopBitsSplit(b: byte, n: nat)
    requires 0 < n <= 8
    ensures TopBits(b, n)[0] == (b & 0x80 != 0) && TopBits(b, n)[1..] == TopBits(b << 1, n - 1)
  {
  }

  /** The bit `k` places below the most significant one. */
  predicate BitAt(b: byte, k: nat)
    decreases k
  {
    if k == 0 then b & 0x80 != 0 else BitAt(b << 1, k - 1)
  }

  lemma ByteOfBits(a: byte, b: byte)
    requires forall k: nat :: k < 8 ==> BitAt(a, k) == BitAt(b, k)
    ensures a == b
  {
    BitMasks(a);
    BitMasks(b);
    hide BitAt;
    assert BitAt(a, 0) == BitAt(b, 0) && BitAt(a, 1) == BitAt(b, 1) && BitAt(a, 2) == BitAt(b, 2);
    assert BitAt(a, 3) == BitAt(b, 3) && BitAt(a, 4) == BitAt(b, 4) && BitAt(a, 5) == BitAt(b, 5);
    assert BitAt(a, 6) == BitAt(b, 6) && BitAt(a, 7) == BitAt(b, 7);
  }

  lemma BitMasks(b: byte)
    ensures BitAt(b, 0) == (b & 0x80 != 0) && BitAt(b, 1) == (b & 0x40 != 0)
    ensures BitAt(b, 2) == (b & 0x20 != 0) && BitAt(b, 3) == (b & 0x10 != 0)
    ensures BitAt(b, 4) == (b & 0x08 != 0) && BitAt(b, 5) == (b & 0x04 != 0)
    ensures BitAt(b, 6) == (b & 0x02 != 0) && BitAt(b, 7) == (b & 0x01 != 0)
  {
    assert BitAt(b, 1) == BitAt(b << 1, 0);
    assert BitAt(b, 2) == BitAt((b << 1) << 1, 0);
    assert BitAt(b, 3) == BitAt(((b << 1) << 1) << 1, 0);
    assert BitAt(b, 4) == BitAt((((b << 1) << 1) << 1) << 1, 0);
    assert BitAt(b, 5) == BitAt(((((b << 1) << 1) << 1) << 1) << 1, 0);
    assert BitAt(b, 6) == BitAt((((((b << 1) << 1) << 1) << 1) << 1) << 1, 0);
    assert BitAt(b, 7) == BitAt(((((((b << 1) << 1) << 1) << 1) << 1) << 1) << 1, 0);
  }

  lemma {:induction false} BitsInjective(a: seq<byte>, b: seq<byte>)
    requires |a| == |b| && Bits(a) == Bits(b)
    ensures a == b
    decreases |a|
  {
    hide TopBits;
    if a != [] {
      var n := |a| - 1;
      assert Bits(a)[..8 * n] == Bits(a[..n]) && Bits(b)[..8 * n] == Bits(b[..n]);
      assert Bits(a)[8 * n..] == BitsOf(a[n]) && Bits(b)[8 * n..] == BitsOf(b[n]);
      BitsInjective(a[..n], b[..n]);
      TopBitsInjective(a[n], b[n], 8);
      ByteOfBits(a[n], b[n]);
      assert a == a[..n] + [a[n]] && b == b[..n] + [b[n]];
    }
  }

  // --- Bursts ---------------------------------------------------------------

  /** The two messages agree on every bit outside the sixteen from `k` on. */
  ghost predicate AgreeOutside(a: seq<byte>, b: seq<byte>, k: nat) {
    |a| == |b| && forall j :: 0 <= j < 8 * |a| && !(k <= j < k + 16) ==> Bits(a)[j] == Bits(b)[j]
  }

  lemma BitWindow(x: seq<bool>, y: seq<bool>, lo: nat, hi: nat)
    requires |x| == |y| && lo <= hi <= |x| && hi - lo <= 16
    requires x[..lo] == y[..lo] && x[hi..] == y[hi..]
    requires CrcBits(0, x) == CrcBits(0, y)
    ensures x == y
  {
    hide CrcBits;
    Split(x, lo, hi);
    Split(y, lo, hi);
    var start := CrcBits(0, x[..lo]);
    SuffixInjective(CrcBits(start, x[lo..hi]), CrcBits(start, y[lo..hi]), x[hi..]);
    WindowInjective(start, x[lo..hi], y[lo..hi]);
    assert x == x[..lo] + x[lo..hi] + x[hi..];
    assert y == y[..lo] + y[lo..hi] + y[hi..];
  }

  /**
    Every error burst is detected: whatever happens to sixteen consecutive bits of a message of any
    length, if anything changed then the checksum changed.
   */
  lemma BurstDetected(a: seq<byte>, b: seq<byte>, k: nat)
    requires AgreeOutside(a, b, k) && a != b
    ensures Crc16(a) != Crc16(b)
  {
    CrcIsBitSerial(a);
    CrcIsBitSerial(b);
    hide Bits, Crc16, CrcBits;
    var n := 8 * |a|;
    var lo := if k < n then k else n;
    var hi := if k + 16 < n then k + 16 else n;
    assert Bits(a)[..lo] == Bits(b)[..lo];
    assert Bits(a)[hi..] == Bits(b)[hi..];
    if Crc16(a) == Crc16(b) {
      BitWindow(Bits(a), Bits(b), lo, hi);
      BitsInjective(a, b);
    }
  }

  lemma Split(bits: seq<bool>, lo: nat, hi: nat)
    requires lo <= hi <= |bits|
    ensures CrcBits(0, bits) == CrcBits(CrcBits(CrcBits(0, bits[..lo]), bits[lo..hi]), bits[hi..])
  {
    hide CrcBits;
    BitsConcat(0, bits[..lo], bits[lo..hi]);
    BitsConcat(0, bits[..lo] + bits[lo..hi], bits[hi..]);
    assert bits == bits[..lo] + bits[lo..hi] + bits[hi..];
  }

  lemma {:induction false} BitsAgree(a: seq<byte>, b: seq<byte>, j: nat)
    requires |a| == |b| && j < 8 * |a| && a[j / 8] == b[j / 8]
    ensures Bits(a)[j] == Bits(b)[j]
    decreases |a|
  {
    hide TopBits;
    var n := |a| - 1;
    if j < 8 * n {
      BitsAgree(a[..n], b[..n], j);
    } else {
      assert j / 8 == n;
      assert Bits(a)[j] == BitsOf(a[n])[j - 8 * n] && Bits(b)[j] == BitsOf(b[n])[j - 8 * n];
    }
  }

  /** Any corruption confined to two adjacent bytes changes the checksum. */
  lemma AdjacentBytesDetected(a: seq<byte>, b: seq<byte>, i: nat)
    requires |a| == |b| && a != b
    requires forall j :: 0 <= j < |a| && j != i && j != i + 1 ==> a[j] == b[j]
    ensures Crc16(a) != Crc16(b)
  {
    forall j: nat | j < 8 * |a| && !(8 * i <= j < 8 * i + 16)
      ensures Bits(a)[j] == Bits(b)[j]
    {
      assert j / 8 != i && j / 8 != i + 1;
      BitsAgree(a, b, j);
    }
    BurstDetected(a, b, 8 * i);
  }

  // --- The checksum of a message with its checksum --------------------------

  function HighByte(crc: bv16): byte {
    (crc >> 8) as byte
  }

  function LowByte(crc: bv16): byte {
    (crc & 0xFF) as byte
  }

  lemma StepsOfLowByte(x: bv16)
    requires x & 0xFF00 == 0
    ensures Steps(x, 8) == x << 8
  {
    assert Step(x) == x << 1;
    assert Step(x << 1) == x << 2;
    assert Step(x << 2) == x << 3;
    assert Step(x << 3) == x << 4;
    assert Step(x << 4) == x << 5;
    assert Step(x << 5) == x << 6;
    assert Step(x << 6) == x << 7;
    assert Step(x << 7) == x << 8;
    hide Step;
    assert Steps(x, 8) == Steps(x << 1, 7) == Steps(x << 2, 6) == Steps(x << 3, 5);
    assert Steps(x << 3, 5) == Steps(x << 4, 4) == Steps(x << 5, 3) == Steps(x << 6, 2);
  }

  lemma AddOwnHighByte(crc: bv16)
    ensures (crc ^ ((HighByte(crc) as bv16) << 8)) & 0xFF00 == 0
    ensures (crc ^ ((HighByte(crc) as bv16) << 8)) << 8 == (LowByte(crc) as bv16) << 8
  {
  }

  lemma AddOwnBytes(crc: bv16)
    ensures AddByte(AddByte(crc, HighByte(crc)), LowByte(crc)) == 0
  {
    var first := crc ^ ((HighByte(crc) as bv16) << 8);
    AddOwnHighByte(crc);
    StepsOfLowByte(first);
    StepsOfZero(8);
    SelfXor((LowByte(crc) as bv16) << 8);
  }

  lemma SelfXor(x: bv16)
    ensures x ^ x == 0
  {
  }

  lemma AppendTwo(data: seq<byte>, h: byte, l: byte)
    ensures Crc16(data + [h, l]) == AddByte(AddByte(Crc16(data), h), l)
  {
    var all := data + [h, l];
    assert all[..|all| - 1] == data + [h];
    assert (data + [h])[..|data|] == data;
  }

  /** Two trailing bytes bring the checksum to zero exactly when they are the checksum, high byte first. */
  lemma TrailingChecksum(data: seq<byte>, h: byte, l: byte)
    ensures Crc16(data + [h, l]) == 0 <==> h == HighByte(Crc16(data)) && l == LowByte(Crc16(data))
  {
    var crc := Crc16(data);
    var own := data + [HighByte(crc), LowByte(crc)];
    AppendTwo(data, h, l);
    AppendTwo(data, HighByte(crc), LowByte(crc));
    AddOwnBytes(crc);
    hide AddByte;
    var all := data + [h, l];
    if all != own {
      AdjacentBytesDetected(all, own, |data|);
      assert all[|data|] == h && all[|data| + 1] == l;
      assert h != HighByte(crc) || l != LowByte(crc);
    } else {
      assert all[|data|] == own[|data|] && all[|data| + 1] == own[|data| + 1];
    }
  }
}
