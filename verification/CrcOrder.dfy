/**
  Two flipped bits and the block-transfer checksum (core/src/sdo/block.rs): x has order 32767 modulo
  the generator, so they go unnoticed exactly when they are a multiple of 32767 places apart.
 */
module CrcOrder {
  import opened Bytes
  import opened Crc
  import opened CrcParity

  // --- Multiplication in the register ---------------------------------------

  function Turn(a: bv16, one: bool, r: bv16): bv16 {
    if one then Plus(Step(r), a) else Step(r)
  }

  predicate IsOdd(b: bv16) {
    b & 1 != 0
  }

  function Sixteenth(b: bv16): bv16 {
    Half(Half(Half(Half(b))))
  }

  function Nibble(a: bv16, b: bv16, r: bv16): bv16 {
    var r8 := Turn(a, IsOdd(Half(Half(Half(b)))), r);
    var r4 := Turn(a, IsOdd(Half(Half(b))), r8);
    Turn(a, IsOdd(b), Turn(a, IsOdd(Half(b)), r4))
  }

  /** The product modulo the generator, by Horner's rule over the bits of b. */
  function Times(a: bv16, b: bv16): bv16 {
    var c := Sixteenth(b);
    var d := Sixteenth(c);
    Nibble(a, b, Nibble(a, c, Nibble(a, d, Nibble(a, Sixteenth(d), 0))))
  }

  lemma TurnStepped(a: bv16, one: bool, r: bv16)
    ensures Step(Turn(a, one, r)) == Turn(Step(a), one, Step(r))
  {
    hide Step, Plus;
    StepLinear(Step(r), a);
  }

  lemma NibbleStepped(a: bv16, b: bv16, r: bv16)
    ensures Step(Nibble(a, b, r)) == Nibble(Step(a), b, Step(r))
  {
    hide Step, Turn, IsOdd, Half;
    var r8 := Turn(a, IsOdd(Half(Half(Half(b)))), r);
    var r4 := Turn(a, IsOdd(Half(Half(b))), r8);
    var r2 := Turn(a, IsOdd(Half(b)), r4);
    TurnStepped(a, IsOdd(Half(Half(Half(b)))), r);
    TurnStepped(a, IsOdd(Half(Half(b))), r8);
    TurnStepped(a, IsOdd(Half(b)), r4);
    TurnStepped(a, IsOdd(b), r2);
  }

  lemma StepOfZero()
    ensures Step(0) == 0
  {
  }

  lemma TimesStepped(a: bv16, b: bv16)
    ensures Step(Times(a, b)) == Times(Step(a), b)
  {
    hide Step, Nibble, Sixteenth;
    var c := Sixteenth(b);
    var d := Sixteenth(c);
    var r3 := Nibble(a, Sixteenth(d), 0);
    var r2 := Nibble(a, d, r3);
    var r1 := Nibble(a, c, r2);
    StepOfZero();
    NibbleStepped(a, Sixteenth(d), 0);
    NibbleStepped(a, d, r3);
    NibbleStepped(a, c, r2);
    NibbleStepped(a, b, r1);
  }

  lemma {:induction false} TimesSteps(a: bv16, b: bv16, n: nat)
    ensures Steps(Times(a, b), n) == Times(Steps(a, n), b)
    decreases n
  {
    hide Step, Times;
    if n > 0 {
      TimesStepped(a, b);
      TimesSteps(Step(a), b, n - 1);
    }
  }

  lemma TurnEven(q: bv16)
    requires !IsOdd(q)
    ensures Step(Half(q)) == q
  {
  }

  lemma TurnOdd(q: bv16)
    requires IsOdd(q)
    ensures Plus(Step(Half(q)), 1) == q
  {
  }

  lemma TurnHalf(q: bv16)
    ensures Turn(1, IsOdd(q), Half(q)) == q
  {
    hide Step, Plus, IsOdd, Half;
    if IsOdd(q) {
      TurnOdd(q);
    } else {
      TurnEven(q);
    }
  }

  lemma NibbleOne(b: bv16)
    ensures Nibble(1, b, Sixteenth(b)) == b
  {
    hide Turn, IsOdd, Half;
    TurnHalf(Half(Half(Half(b))));
    TurnHalf(Half(Half(b)));
    TurnHalf(Half(b));
    TurnHalf(b);
  }

  function Shifted4(b: bv16): bv16 {
    b >> 4
  }

  lemma SixteenthShifts(b: bv16)
    ensures Sixteenth(b) == Shifted4(b)
  {
  }

  lemma SixteenBitsGone(b: bv16)
    ensures Sixteenth(Sixteenth(Sixteenth(Sixteenth(b)))) == 0
  {
    hide Sixteenth, Shifted4;
    SixteenthShifts(b);
    SixteenthShifts(Sixteenth(b));
    SixteenthShifts(Sixteenth(Sixteenth(b)));
    SixteenthShifts(Sixteenth(Sixteenth(Sixteenth(b))));
    AllShiftedOut(b);
  }

  lemma AllShiftedOut(b: bv16)
    ensures Shifted4(Shifted4(Shifted4(Shifted4(b)))) == 0
  {
  }

  lemma TimesOne(b: bv16)
    ensures Times(1, b) == b
  {
    hide Nibble, Sixteenth;
    SixteenBitsGone(b);
    NibbleOne(Sixteenth(Sixteenth(Sixteenth(b))));
    NibbleOne(Sixteenth(Sixteenth(b)));
    NibbleOne(Sixteenth(b));
    NibbleOne(b);
  }

  // --- Powers of x ----------------------------------------------------------

  /** x^n modulo the generator. */
  function Power(n: nat): bv16 {
    Steps(1, n)
  }

  lemma {:induction false} StepsAdd(crc: bv16, m: nat, n: nat)
    ensures Steps(crc, m + n) == Steps(Steps(crc, m), n)
    decreases m
  {
    hide Step;
    if m > 0 {
      StepsAdd(Step(crc), m - 1, n);
    }
  }

  lemma PowerAdd(m: nat, n: nat)
    ensures Power(m + n) == Times(Power(n), Power(m))
  {
    hide Steps, Times;
    StepsAdd(1, m, n);
    TimesOne(Power(m));
    TimesSteps(1, Power(m), n);
  }

  lemma SmallPowers()
    ensures Power(0) == 1 && Power(1) == 2 && Power(8) == 0x100
  {
    hide Times;
    assert Steps(1, 1) == Step(1) == 2 by { assert Steps(2, 0) == 2; }
    PowerAdd(1, 1);
    PowerAdd(2, 2);
    PowerAdd(4, 4);
    assert Times(2, 2) == 4 && Times(4, 4) == 0x10 && Times(0x10, 0x10) == 0x100 by { SmallProducts(); }
  }

  lemma SmallProducts()
    ensures Times(2, 2) == 4 && Times(4, 4) == 0x10 && Times(0x10, 0x10) == 0x100
  {
  }

  lemma LargeProducts1()
    ensures Times(0x100, 0x100) == 0x1021 && Times(0x1021, 0x1021) == 0x3730 && Times(0x3730, 0x3730) == 0xB861
    ensures Times(0xB861, 0xB861) == 0xAEFC && Times(0xAEFC, 0xAEFC) == 0x8E29
  {
  }

  lemma LargeProducts2()
    ensures Times(0x8E29, 0x8E29) == 0x13FC && Times(0x13FC, 0x13FC) == 0x36C4 && Times(0x36C4, 0x36C4) == 0xFD50
    ensures Times(0xFD50, 0xFD50) == 0xAA9E && Times(0xAA9E, 0xAA9E) == 0x881C
    ensures Times(0x881C, 0x881C) == 0x4458 && Times(0x4458, 0x4458) == 2
  {
  }

  lemma LargePowers()
    ensures Power(16) == 0x1021 && Power(32) == 0x3730 && Power(64) == 0xB861 && Power(128) == 0xAEFC
    ensures Power(512) == 0x13FC && Power(1024) == 0x36C4 && Power(4096) == 0xAA9E && Power(32768) == 2
  {
    hide Times, Power;
    SmallPowers();
    LargeProducts1();
    LargeProducts2();
    PowerAdd(8, 8);
    PowerAdd(16, 16);
    PowerAdd(32, 32);
    PowerAdd(64, 64);
    PowerAdd(128, 128);
    PowerAdd(256, 256);
    PowerAdd(512, 512);
    PowerAdd(1024, 1024);
    PowerAdd(2048, 2048);
    PowerAdd(4096, 4096);
    PowerAdd(8192, 8192);
    PowerAdd(16384, 16384);
  }

  lemma MixedProducts()
    ensures Times(0x100, 2) == 0x200 && Times(0x1021, 0x200) == 0x6662 && Times(0xB861, 0x6662) == 0xDE8A
    ensures Times(0xAEFC, 0xDE8A) == 0x48E3 && Times(0x3730, 2) == 0x6E60 && Times(0x36C4, 0x6E60) == 0xF2AF
    ensures Times(0xB861, 0x200) == 0x8FA6 && Times(0x13FC, 0x8FA6) == 0x4500 && Times(0xAA9E, 0x4500) == 0x2C42
  {
  }

  /** None of the largest proper divisors of 32767 is a period of x. */
  lemma DivisorsAreNoPeriods()
    ensures Power(217) != 1 && Power(1057) != 1 && Power(4681) != 1
  {
    hide Times, Power;
    SmallPowers();
    LargePowers();
    MixedProducts();
    PowerAdd(1, 8);
    PowerAdd(9, 16);
    PowerAdd(25, 64);
    PowerAdd(89, 128);
    PowerAdd(1, 32);
    PowerAdd(33, 1024);
    PowerAdd(9, 64);
    PowerAdd(73, 512);
    PowerAdd(585, 4096);
  }

  // --- The order of x -------------------------------------------------------

  predicate Returns(n: nat) {
    Power(n) == 1
  }

  lemma ReturnsAdd(m: nat, n: nat)
    requires Returns(m)
    ensures Returns(m + n) <==> Returns(n)
  {
    hide Steps;
    StepsAdd(1, m, n);
  }

  lemma {:induction false} ReturnsMod(n: nat, d: nat)
    requires d > 0 && Returns(d)
    ensures Returns(n) <==> Returns(n % d)
  {
    hide Returns;
    if n >= d {
      ReturnsAdd(d, n - d);
      ReturnsMod(n - d, d);
      ModOfLess(n, d);
    }
  }

  lemma ModOfLess(n: nat, d: nat)
    requires 0 < d <= n
    ensures (n - d) % d == n % d
  {
    assert n - d == n + d * -1;
    ModPlusMultiple(n - d, d);
  }

  lemma ModPlusMultiple(m: nat, d: nat)
    requires d > 0
    ensures (m + d) % d == m % d
  {
    var q, r := m / d, m % d;
    assert m + d == d * (q + 1) + r by {
      assert d * (q + 1) == d * q + d;
    }
    QuotientUnique(m + d, d, q + 1, r);
  }

  lemma QuotientUnique(n: int, d: int, q: int, r: int)
    requires 0 <= r < d && n == d * q + r
    ensures n % d == r
  {
    var k := n / d - q;
    assert d * k == r - n % d by {
      assert d * (n / d - q) == d * (n / d) - d * q;
    }
    MultiplesApart(d, k);
  }

  lemma MultiplesApart(d: int, k: int)
    requires d > 0
    ensures k >= 1 ==> d * k >= d
    ensures k <= -1 ==> d * k <= -d
  {
  }

  lemma FullCycle()
    ensures Returns(32767)
  {
    hide Steps, Times;
    SmallPowers();
    LargePowers();
    StepsAdd(1, 32767, 1);
    OneMoreStep(Power(32767));
    OneMoreStep(1);
    hide Power;
    StepInjective(Power(32767), 1);
  }

  lemma OneMoreStep(crc: bv16)
    ensures Steps(crc, 1) == Step(crc)
  {
    hide Step;
    assert Steps(Step(crc), 0) == Step(crc);
  }

  lemma {:induction false} LeastReturn(n: nat) returns (d: nat)
    requires n > 0 && Returns(n)
    ensures 0 < d <= n && Returns(d) && forall k :: 0 < k < d ==> !Returns(k)
  {
    hide Returns;
    if k :| 0 < k < n && Returns(k) {
      d := LeastReturn(k);
    } else {
      d := n;
    }
  }

  /** The inverse of r modulo 31. */
  function Inverse31(r: nat): nat {
    match r
    case 1 => 1 case 2 => 16 case 3 => 21 case 4 => 8 case 5 => 25
    case 6 => 26 case 7 => 9 case 8 => 4 case 9 => 7 case 10 => 28
    case 11 => 17 case 12 => 13 case 13 => 12 case 14 => 20 case 15 => 29
    case 16 => 2 case 17 => 11 case 18 => 19 case 19 => 18 case 20 => 14
    case 21 => 3 case 22 => 24 case 23 => 27 case 24 => 22 case 25 => 5
    case 26 => 6 case 27 => 23 case 28 => 10 case 29 => 15
    case _ => 30
  }

  lemma Inverse31Works(r: nat)
    requires 1 <= r < 31
    ensures r * Inverse31(r) % 31 == 1
  {
  }

  /** The inverse of r modulo 7. */
  function Inverse7(r: nat): nat {
    match r
    case 1 => 1 case 2 => 4 case 3 => 5 case 4 => 2 case 5 => 3
    case _ => 6
  }

  lemma Inverse7Works(r: nat)
    requires 1 <= r < 7
    ensures r * Inverse7(r) % 7 == 1
  {
  }

  /** What has an inverse modulo p does not share p with a product. */
  lemma FactorInProduct(x: nat, y: nat, p: nat, c: nat, k: nat)
    requires p > 0 && x * y == p * c && (x % p) * k % p == 1
    ensures y % p == 0
  {
    var q, r := x / p, x % p;
    var m := r * k / p;
    assert r * k == p * m + 1;
    var z := k * (c - q * y) - m * y;
    calc {
      p * z;
      k * (p * c - p * q * y) - p * m * y;
      k * (x * y - p * q * y) - p * m * y;
      k * ((x - p * q) * y) - p * m * y;
      k * (r * y) - p * m * y;
      (r * k - p * m) * y;
      y;
    }
    QuotientUnique(y, p, z, 0);
  }

  lemma FactorsOf151(b: nat, h: nat)
    requires b * h == 151
    ensures b == 1 || h == 1
  {
    if b <= 12 {
      SmallFactorOf151(b, h);
    } else if h <= 12 {
      SmallFactorOf151(h, b);
    } else {
      ProductAtLeast(b, h, 13);
    }
  }

  lemma SmallFactorOf151(b: nat, h: nat)
    requires b * h == 151 && b <= 12
    ensures b == 1
  {
    assert b == 0 || b == 1 || b == 2 || b == 3 || b == 4 || b == 5 || b == 6 || b == 7 || b == 8 || b == 9
        || b == 10 || b == 11 || b == 12;
  }

  lemma ProductAtLeast(b: nat, h: nat, n: nat)
    requires b >= n && h >= n
    ensures b * h >= n * n
  {
    assert b * h >= n * h >= n * n;
  }

  /** A proper divisor of 32767 divides one of its three largest. */
  lemma ProperDivisor(d: nat, h: nat)
    requires d * h == 32767 && h > 1
    ensures 4681 % d == 0 || 1057 % d == 0 || 217 % d == 0
  {
    if h % 7 == 0 {
      DividedOut(d, h, 7, 4681);
    } else if h % 31 == 0 {
      DividedOut(d, h, 31, 1057);
    } else {
      Inverse7Works(h % 7);
      FactorInProduct(h, d, 7, 4681, Inverse7(h % 7));
      var a := d / 7;
      assert a * h == 4681 by { assert 7 * a == d; Regrouped(7, a, h); }
      Inverse31Works(h % 31);
      FactorInProduct(h, a, 31, 151, Inverse31(h % 31));
      var b := a / 31;
      assert b * h == 151 by { assert 31 * b == a; Regrouped(31, b, h); }
      FactorsOf151(b, h);
    }
  }

  lemma Regrouped(p: nat, a: nat, h: nat)
    ensures (p * a) * h == p * (a * h)
  {
  }

  lemma DividedOut(d: nat, h: nat, p: nat, n: nat)
    requires d > 0 && p > 0 && h % p == 0 && d * h == p * n
    ensures n % d == 0
  {
    var k := h / p;
    assert p * (d * k) == d * h by { assert h == p * k; }
    assert p * (d * k - n) == 0;
    assert d * k == n by { ZeroProduct(p, d * k - n); }
    QuotientUnique(n, d, k, 0);
  }

  lemma ZeroProduct(p: int, x: int)
    requires p > 0 && p * x == 0
    ensures x == 0
  {
  }

  /** x comes back to 1 after exactly the multiples of 32767 steps. */
  lemma OrderOfX(n: nat)
    ensures Returns(n) <==> n % 32767 == 0
  {
    hide Returns;
    FullCycle();
    var d := LeastReturn(32767);
    ReturnsMod(32767, d);
    assert Returns(0) by { ZeroReturns(); }
    assert 32767 % d == 0;
    assert d * (32767 / d) == 32767;
    if d < 32767 {
      QuotientAboveOne(d);
      ProperDivisor(d, 32767 / d);
      NoShortPeriod(d);
      assert false;
    }
    ReturnsMod(n, 32767);
  }

  lemma QuotientAboveOne(d: nat)
    requires 0 < d < 32767
    ensures 32767 % d == 0 ==> 32767 / d > 1
  {
  }

  lemma ZeroReturns()
    ensures Returns(0)
  {
  }

  lemma NoShortPeriod(d: nat)
    requires d > 0 && (4681 % d == 0 || 1057 % d == 0 || 217 % d == 0)
    ensures !Returns(d)
  {
    DivisorsAreNoPeriods();
    ZeroReturns();
    hide Power;
    if Returns(d) {
      ReturnsMod(217, d);
      ReturnsMod(1057, d);
      ReturnsMod(4681, d);
    }
  }

  // --- Two flipped bits -----------------------------------------------------

  lemma PlusNothing(a: bv16)
    ensures Plus(a, 0) == a && Plus(0, a) == a && Plus(a, a) == 0
  {
  }

  function Zeros(n: nat): seq<bool> {
    seq(n, _ => false)
  }

  lemma {:induction false} ZerosStep(crc: bv16, n: nat)
    ensures CrcBits(crc, Zeros(n)) == Steps(crc, n)
    decreases n
  {
    hide Step, Feed;
    if n > 0 {
      FeedZero(crc);
      assert Zeros(n)[1..] == Zeros(n - 1);
      ZerosStep(Feed(crc, false), n - 1);
    }
  }

  function Differences(a: seq<bool>, b: seq<bool>): (d: seq<bool>)
    requires |a| == |b|
    ensures |d| == |a|
  {
    seq(|a|, i requires 0 <= i < |a| => a[i] != b[i])
  }

  lemma FeedLinear(c: bv16, d: bv16, x: bool, y: bool)
    ensures Feed(Plus(c, d), x != y) == Plus(Feed(c, x), Feed(d, y))
  {
    hide Step, Plus;
    var cx, dy := Topped(c, x), Topped(d, y);
    FeedIsStep(c, x);
    FeedIsStep(d, y);
    FeedIsStep(Plus(c, d), x != y);
    TopsAdd(c, d, x, y);
    StepLinear(cx, dy);
  }

  function Topped(crc: bv16, bit: bool): bv16 {
    crc ^ if bit then 0x8000 else 0
  }

  lemma FeedIsStep(crc: bv16, bit: bool)
    ensures Feed(crc, bit) == Step(Topped(crc, bit))
  {
    hide Step;
  }

  lemma TopsAdd(c: bv16, d: bv16, x: bool, y: bool)
    ensures Topped(Plus(c, d), x != y) == Plus(Topped(c, x), Topped(d, y))
  {
    if x && y {
      BothTops(c, d);
    } else if x {
      OneTop(c, d);
    } else if y {
      OneTop(d, c);
      PlusCommutes(c, d);
      PlusCommutes(Topped(c, false), Topped(d, true));
    } else {
      NoTop(c, d);
    }
    hide Topped, Plus;
  }

  lemma BothTops(c: bv16, d: bv16)
    ensures Topped(Plus(c, d), false) == Plus(Topped(c, true), Topped(d, true))
  {
  }

  lemma OneTop(c: bv16, d: bv16)
    ensures Topped(Plus(c, d), true) == Plus(Topped(c, true), Topped(d, false))
  {
  }

  lemma NoTop(c: bv16, d: bv16)
    ensures Topped(Plus(c, d), false) == Plus(Topped(c, false), Topped(d, false))
  {
  }

  lemma {:induction false} BitsLinear(c: bv16, d: bv16, a: seq<bool>, b: seq<bool>)
    requires |a| == |b|
    ensures CrcBits(Plus(c, d), Differences(a, b)) == Plus(CrcBits(c, a), CrcBits(d, b))
    decreases |a|
  {
    hide Feed, Plus;
    if a != [] {
      FeedLinear(c, d, a[0], b[0]);
      assert Differences(a, b)[1..] == Differences(a[1..], b[1..]);
      BitsLinear(Feed(c, a[0]), Feed(d, b[0]), a[1..], b[1..]);
    }
  }

  /** The register after exactly two ones, `gap + 1` places apart. */
  lemma TwoOnes(before: nat, gap: nat, after: nat)
    ensures CrcBits(0, Zeros(before) + [true] + Zeros(gap) + [true] + Zeros(after)) ==
            Steps(Feed(Steps(Feed(0, true), gap), true), after)
  {
    hide Feed, Step, Steps;
    ZerosStep(0, before);
    StepsOfZero(before);
    BitsConcat(0, Zeros(before), [true]);
    OneBit(0);
    BitsConcat(0, Zeros(before) + [true], Zeros(gap));
    ZerosStep(Feed(0, true), gap);
    BitsConcat(0, Zeros(before) + [true] + Zeros(gap), [true]);
    OneBit(Steps(Feed(0, true), gap));
    BitsConcat(0, Zeros(before) + [true] + Zeros(gap) + [true], Zeros(after));
    ZerosStep(Feed(Steps(Feed(0, true), gap), true), after);
  }

  lemma OneBit(crc: bv16)
    ensures CrcBits(crc, [true]) == Feed(crc, true)
  {
    hide Feed;
    assert [true][1..] == [];
  }

  lemma {:induction false} StepsToZero(crc: bv16, n: nat)
    ensures Steps(crc, n) == 0 <==> crc == 0
  {
    hide Step, Steps;
    StepsOfZero(n);
    if Steps(crc, n) == 0 {
      StepsInjective(crc, 0, n);
    }
  }

  lemma TopIsPower()
    ensures Power(15) == 0x8000
  {
    hide Times, Power;
    SmallPowers();
    TopProducts();
    PowerAdd(1, 1);
    PowerAdd(2, 2);
    PowerAdd(1, 2);
    PowerAdd(3, 4);
    PowerAdd(7, 8);
  }

  lemma TopProducts()
    ensures Times(2, 2) == 4 && Times(4, 4) == 0x10 && Times(4, 2) == 8 && Times(0x10, 8) == 0x80
    ensures Times(0x100, 0x80) == 0x8000
  {
  }

  lemma TopBitsMeet(v: bv16)
    ensures Topped(v, true) == 0 <==> v == 0x8000
    ensures Topped(0, true) == 0x8000
  {
  }

  /** Two ones cancel exactly when they are a multiple of 32767 places apart. */
  lemma OnesCancelIff(gap: nat)
    ensures Feed(Steps(Feed(0, true), gap), true) == 0 <==> (gap + 1) % 32767 == 0
  {
    hide Step, Steps, Feed, Topped, Returns, Power;
    var v := Steps(Feed(0, true), gap);
    TopBitsMeet(v);
    FeedIsStep(0, true);
    FeedIsStep(v, true);
    OneMoreStep(Topped(v, true));
    StepsToZero(Topped(v, true), 1);
    StepsAdd(0x8000, 1, gap);
    OneMoreStep(0x8000);
    TopReturnsIff(gap + 1);
    OrderOfX(gap + 1);
  }

  lemma TopReturnsIff(n: nat)
    ensures Steps(0x8000, n) == 0x8000 <==> Returns(n)
  {
    hide Step, Steps;
    TopIsPower();
    StepsAdd(1, 15, n);
    StepsAdd(1, n, 15);
    if Steps(0x8000, n) == 0x8000 {
      StepsInjective(Power(n), 1, 15);
    }
  }

  /**
    Two flipped bits in data of any length, at bit positions i and j: the checksum stays the same
    exactly when j - i is a multiple of 32767. In data of up to 4095 bytes every two are detected.
   */
  lemma TwoFlipsUndetectedIff(a: seq<byte>, b: seq<byte>, i: nat, j: nat)
    requires |a| == |b| && i < j < 8 * |a|
    requires forall k :: 0 <= k < 8 * |a| ==> (Bits(a)[k] != Bits(b)[k] <==> k == i || k == j)
    ensures Crc16(a) == Crc16(b) <==> (j - i) % 32767 == 0
  {
    hide Crc16, Bits, CrcBits, Plus, Steps, Feed;
    CrcIsBitSerial(a);
    CrcIsBitSerial(b);
    PlusNothing(0);
    BitsLinear(0, 0, Bits(a), Bits(b));
    PlusZeroIff(Crc16(a), Crc16(b));
    var gap, after := j - i - 1, 8 * |a| - j - 1;
    assert Differences(Bits(a), Bits(b)) == Zeros(i) + [true] + Zeros(gap) + [true] + Zeros(after);
    TwoOnes(i, gap, after);
    StepsToZero(Feed(Steps(Feed(0, true), gap), true), after);
    OnesCancelIff(gap);
  }
}
