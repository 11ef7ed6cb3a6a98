/**
  One Fastscan run on a bus of any number of slaves in any state: it terminates, and it finds and
  configures the slave with the smallest address (core/src/lss.rs).
 */
module Fastscan {
  import opened Wrappers
  import opened Bytes
  import opened IdentityBits
  import opened IdentityNumbers
  import opened Lss

  // --- The bus --------------------------------------------------------------

  type Bus = seq<Slave>

  /** Every slave hears a broadcast frame. */
  function Broadcast(bus: Bus, req: Frame): (bus': Bus)
    ensures |bus'| == |bus|
    ensures forall i :: 0 <= i < |bus| ==> bus'[i] == SlaveStep(bus[i], req).0
  {
    seq(|bus|, i requires 0 <= i < |bus| => SlaveStep(bus[i], req).0)
  }

  predicate Identifies(s: Slave, req: Frame) {
    var resp := SlaveStep(s, req).1;
    resp.Some? && IsIdentifySlaveResponse(resp.value)
  }

  /** The answers of all slaves are ORed: the master sees only whether one identified itself. */
  predicate Answered(bus: Bus, req: Frame) {
    exists i :: 0 <= i < |bus| && Identifies(bus[i], req)
  }

  /** Requests still to be sent, the one for the current state included. */
  function Remaining(m: Master): nat
    requires m.Valid()
  {
    if m.sub > 3 then 0
    else if m.bit == BIT_PROBE then 133
    else if m.bit == BIT_CONFIRM then (3 - SubIndex(m.sub)) * 33 + 1
    else (3 - SubIndex(m.sub)) * 33 + m.bit as int + 2
  }

  lemma MasterProgress(m: Master, responded: bool)
    requires m.Valid() && m.sub <= 3
    ensures Remaining(MasterStep(m, responded)) ==
            if m.bit == BIT_PROBE && !responded then 0 else Remaining(m) - 1
  {
    BitCounterValues(m.bit);
  }

  lemma BitCounterValues(bit: byte)
    ensures 0 < bit <= 31 ==> (bit - 1) as int == bit as int - 1
    ensures bit <= 31 ==> bit as int <= 31
  {
  }

  /** The driver loop: send the next request, report whether it was answered, until done. */
  function Scan(m: Master, bus: Bus): (Master, Bus)
    requires m.Valid()
    decreases Remaining(m)
  {
    match RequestOf(m)
    case None => (m, bus)
    case Some(req) =>
      MasterProgress(m, Answered(bus, req));
      Scan(MasterStep(m, Answered(bus, req)), Broadcast(bus, req))
  }

  // --- Termination against any answers --------------------------------------

  /** The requests a master sends when its `t`-th request is answered by `answers(t)`. */
  function Requests(m: Master, answers: nat -> bool, t: nat): seq<Frame>
    requires m.Valid()
    decreases Remaining(m)
  {
    match RequestOf(m)
    case None => []
    case Some(req) =>
      MasterProgress(m, answers(t));
      [req] + Requests(MasterStep(m, answers(t)), answers, t + 1)
  }

  predicate WellFormedRequest(req: Frame) {
    && req[0] == CS_FASTSCAN
    && req[5] <= FASTSCAN_INIT
    && req[6] <= 3 && req[7] <= 3
    && (req[5] == FASTSCAN_INIT ==> U32At(req) == 0 && req[6] == req[7] == 0)
    && (req[7] != req[6] ==> req[5] == 0 && req[7] == (req[6] + 1) & 3)
  }

  lemma RequestWellFormed(m: Master)
    requires m.Valid() && m.sub <= 3
    ensures WellFormedRequest(RequestOf(m).value)
  {
    if m.bit == BIT_PROBE {
      FastscanFrameFields(0, FASTSCAN_INIT, 0, 0);
    } else if m.bit == BIT_CONFIRM {
      FastscanFrameFields(Identity(m.id, m.sub), 0, m.sub, (m.sub + 1) & 3);
    } else {
      FastscanFrameFields(Identity(m.id, m.sub), m.bit, m.sub, m.sub);
    }
  }

  lemma {:induction false} RequestCount(m: Master, answers: nat -> bool, t: nat)
    requires m.Valid() && m.bit != BIT_PROBE
    ensures |Requests(m, answers, t)| == Remaining(m)
    ensures forall k :: 0 <= k < Remaining(m) ==> WellFormedRequest(Requests(m, answers, t)[k])
    decreases Remaining(m)
  {
    if m.sub <= 3 {
      MasterProgress(m, answers(t));
      RequestWellFormed(m);
      RequestCount(MasterStep(m, answers(t)), answers, t + 1);
    }
  }

  /**
    Whatever answers arrive, a scan ends: after the probe alone if nobody answered it, and after
    exactly 133 requests otherwise, each with its bit check and identity number in range.
   */
  lemma ScanTerminates(answers: nat -> bool)
    ensures |Requests(NEW_MASTER, answers, 0)| == if answers(0) then 133 else 1
    ensures forall k :: 0 <= k < |Requests(NEW_MASTER, answers, 0)| ==>
              WellFormedRequest(Requests(NEW_MASTER, answers, 0)[k])
  {
    RequestWellFormed(NEW_MASTER);
    MasterProgress(NEW_MASTER, answers(0));
    var m := MasterStep(NEW_MASTER, answers(0));
    if answers(0) {
      RequestCount(m, answers, 1);
    }
  }

  // --- Addresses ------------------------------------------------------------

  /** Lexicographic order: vendor, product, revision, serial. */
  predicate AddressLess(a: LssAddress, b: LssAddress) {
    Number(a.vendorId) < Number(b.vendorId)
    || (a.vendorId == b.vendorId &&
        (Number(a.productCode) < Number(b.productCode)
         || (a.productCode == b.productCode &&
             (Number(a.revisionNumber) < Number(b.revisionNumber)
              || (a.revisionNumber == b.revisionNumber && Number(a.serialNumber) < Number(b.serialNumber))))))
  }

  /** The order is that of the values as numbers. */
  lemma AddressLessIsNumeric(a: LssAddress, b: LssAddress)
    ensures AddressLess(a, b) <==>
            || a.vendorId as int < b.vendorId as int
            || (a.vendorId == b.vendorId &&
                (a.productCode as int < b.productCode as int
                 || (a.productCode == b.productCode &&
                     (a.revisionNumber as int < b.revisionNumber as int
                      || (a.revisionNumber == b.revisionNumber &&
                          a.serialNumber as int < b.serialNumber as int)))))
  {
    NumberIsValue(a.vendorId);
    NumberIsValue(b.vendorId);
    NumberIsValue(a.productCode);
    NumberIsValue(b.productCode);
    NumberIsValue(a.revisionNumber);
    NumberIsValue(b.revisionNumber);
    NumberIsValue(a.serialNumber);
    NumberIsValue(b.serialNumber);
    hide Number;
  }

  lemma AddressOrderTotal(a: LssAddress, b: LssAddress)
    ensures AddressLess(a, b) || AddressLess(b, a) || a == b
    ensures !(AddressLess(a, b) && AddressLess(b, a))
    ensures !AddressLess(a, a)
  {
    NumberInjective(a.vendorId, b.vendorId);
    NumberInjective(a.productCode, b.productCode);
    NumberInjective(a.revisionNumber, b.revisionNumber);
    NumberInjective(a.serialNumber, b.serialNumber);
  }

  lemma AddressOrderTransitive(a: LssAddress, b: LssAddress, c: LssAddress)
    requires AddressLess(a, b) && AddressLess(b, c)
    ensures AddressLess(a, c)
  {
  }

  /** How many leading identity values of two addresses agree, counting at most `sub` of them. */
  function Cursor(a: LssAddress, smallest: LssAddress, sub: byte): byte {
    if sub == 0 || a.vendorId != smallest.vendorId then 0
    else if sub == 1 || a.productCode != smallest.productCode then 1
    else if sub == 2 || a.revisionNumber != smallest.revisionNumber then 2
    else if sub == 3 || a.serialNumber != smallest.serialNumber then 3
    else 4
  }

  /** Slave `w` takes part in Fastscan and no participant has a smaller address. */
  ghost predicate IsSmallest(bus: Bus, w: nat) {
    && w < |bus|
    && Participates(bus[w])
    && forall i :: 0 <= i < |bus| && Participates(bus[i]) ==> !AddressLess(bus[i].address, bus[w].address)
  }

  /** Every non-empty finite choice has an element that no other undercuts. */
  lemma {:induction false} LeastExists(bus: Bus, less: (LssAddress, LssAddress) -> bool, k: nat) returns (w: nat)
    requires k < |bus| && Participates(bus[k])
    requires forall a :: !less(a, a)
    requires forall a, b, c :: less(a, b) && less(b, c) ==> less(a, c)
    ensures w < |bus| && Participates(bus[w])
    ensures forall i :: 0 <= i < |bus| && Participates(bus[i]) ==> !less(bus[i].address, bus[w].address)
  {
    w := k;
    var n := 0;
    while n < |bus|
      invariant n <= |bus| && w < |bus| && Participates(bus[w])
      invariant forall i :: 0 <= i < n && Participates(bus[i]) ==> !less(bus[i].address, bus[w].address)
    {
      if Participates(bus[n]) && less(bus[n].address, bus[w].address) {
        w := n;
      }
      n := n + 1;
    }
  }

  lemma SmallestExists(bus: Bus, k: nat) returns (w: nat)
    requires k < |bus| && Participates(bus[k])
    ensures IsSmallest(bus, w)
  {
    forall a, b, c
      ensures !AddressLess(a, a)
      ensures AddressLess(a, b) && AddressLess(b, c) ==> AddressLess(a, c)
    {
      AddressOrderTotal(a, a);
      if AddressLess(a, b) && AddressLess(b, c) {
        AddressOrderTransitive(a, b, c);
      }
    }
    w := LeastExists(bus, (a, b) => AddressLess(a, b), k);
  }

  // --- What one request does to one slave -----------------------------------

  predicate Matches(s: Slave, idNumber: bv32, bitCheck: byte, lssSub: byte)
    requires bitCheck < FASTSCAN_INIT
  {
    Participates(s) && s.fsSub == lssSub && TopBitsAgree(idNumber, Identity(s.address, lssSub), bitCheck)
  }

  lemma ProbeEffect(s: Slave)
    ensures
      var req := EncodeFastscan(0, FASTSCAN_INIT, 0, 0);
      && SlaveStep(s, req).0 == (if Participates(s) then s.(fsSub := 0) else s)
      && Identifies(s, req) == Participates(s)
  {
    FastscanFrameFields(0, FASTSCAN_INIT, 0, 0);
  }

  lemma CheckEffect(s: Slave, idNumber: bv32, bitCheck: byte, lssSub: byte)
    requires bitCheck < FASTSCAN_INIT
    ensures
      var req := EncodeFastscan(idNumber, bitCheck, lssSub, lssSub);
      && SlaveStep(s, req).0 == s
      && Identifies(s, req) == Matches(s, idNumber, bitCheck, lssSub)
  {
    FastscanFrameFields(idNumber, bitCheck, lssSub, lssSub);
  }

  lemma ConfirmEffect(s: Slave, idNumber: bv32, lssSub: byte)
    requires lssSub <= 3
    ensures
      var req := EncodeFastscan(idNumber, 0, lssSub, (lssSub + 1) & 3);
      SlaveStep(s, req).0 ==
        if !(Participates(s) && s.fsSub == lssSub && Identity(s.address, lssSub) == idNumber) then s
        else if lssSub == 3 then s.(state := Configuration)
        else s.(fsSub := lssSub + 1)
  {
    FastscanFrameFields(idNumber, 0, lssSub, (lssSub + 1) & 3);
    NextSub(lssSub);
    AllBitsAgree(idNumber, Identity(s.address, lssSub));
  }

  lemma NextSub(lssSub: byte)
    requires lssSub <= 3
    ensures (lssSub + 1) & 3 != lssSub
    ensures lssSub < 3 ==> (lssSub + 1) & 3 == lssSub + 1
  {
  }

  // --- The invariant --------------------------------------------------------

  /** A participant follows the scan for as long as its identity values agree with the smallest. */
  ghost predicate SlavesFollow(start: Bus, bus: Bus, smallest: LssAddress, sub: byte) {
    && |bus| == |start|
    && forall i :: 0 <= i < |start| ==>
         bus[i] == if Participates(start[i]) then start[i].(fsSub := Cursor(start[i].address, smallest, sub))
                   else start[i]
  }

  /** The identity values before `sub` in full, `current` at `sub`, and zeroes after it. */
  function PartialId(smallest: LssAddress, sub: byte, current: bv32): LssAddress {
    if sub == 0 then LssAddress(current, 0, 0, 0)
    else if sub == 1 then LssAddress(smallest.vendorId, current, 0, 0)
    else if sub == 2 then LssAddress(smallest.vendorId, smallest.productCode, current, 0)
    else LssAddress(smallest.vendorId, smallest.productCode, smallest.revisionNumber, current)
  }

  lemma PartialIdAt(smallest: LssAddress, sub: byte, current: bv32, next: bv32)
    requires sub <= 3
    ensures Identity(PartialId(smallest, sub, current), sub) == current
    ensures WithIdentity(PartialId(smallest, sub, current), sub, next) == PartialId(smallest, sub, next)
    ensures sub < 3 ==> PartialId(smallest, sub, Identity(smallest, sub)) == PartialId(smallest, sub + 1, 0)
  {
  }

  /**
    No slave still in the scan at value `sub` matches a candidate whose bit `bit` is zero where the
    smallest slave's is one.
   */
  ghost predicate NeverMatches(a: LssAddress, smallest: LssAddress, sub: byte, bit: byte) {
    sub <= 3 && bit <= 31 && Cursor(a, smallest, sub) == sub && HasBit(Identity(smallest, sub), bit) ==>
      !TopBitsAgree(Settled(Identity(smallest, sub), bit), Identity(a, sub), bit)
  }

  ghost predicate Unmatched(start: Bus, w: nat) {
    && w < |start|
    && Participates(start[w])
    && forall i, sub, bit :: 0 <= i < |start| && Participates(start[i]) ==>
         NeverMatches(start[i].address, start[w].address, sub, bit)
  }

  predicate MasterFollows(m: Master, smallest: LssAddress) {
    && m.Valid() && m.sub <= 3 && m.bit != BIT_PROBE && m.found
    && m.id == PartialId(smallest, m.sub, Settled(Identity(smallest, m.sub), m.bit))
  }

  ghost predicate ScanInvariant(start: Bus, w: nat, m: Master, bus: Bus) {
    && Unmatched(start, w)
    && MasterFollows(m, start[w].address)
    && SlavesFollow(start, bus, start[w].address, m.sub)
  }

  // --- Why the smallest slave wins ------------------------------------------

  lemma SmallestNeverMatched(a: LssAddress, smallest: LssAddress, sub: byte, bit: byte)
    requires !AddressLess(a, smallest)
    ensures NeverMatches(a, smallest, sub, bit)
  {
    if && sub <= 3 && bit <= 31 && Cursor(a, smallest, sub) == sub
       && HasBit(Identity(smallest, sub), bit)
       && TopBitsAgree(Settled(Identity(smallest, sub), bit), Identity(a, sub), bit)
    {
      OneBitUnanswered(Identity(smallest, sub), Identity(a, sub), bit);
      SmallerValueSmallerAddress(a, smallest, sub);
    }
  }

  lemma SmallerValueSmallerAddress(a: LssAddress, smallest: LssAddress, sub: byte)
    requires sub <= 3
    requires Cursor(a, smallest, sub) == sub
    requires Number(Identity(a, sub)) < Number(Identity(smallest, sub))
    ensures AddressLess(a, smallest)
  {
  }

  lemma SmallestIsUnmatched(start: Bus, w: nat)
    requires IsSmallest(start, w)
    ensures Unmatched(start, w)
  {
    forall i, sub, bit | 0 <= i < |start| && Participates(start[i])
      ensures NeverMatches(start[i].address, start[w].address, sub, bit)
    {
      SmallestNeverMatched(start[i].address, start[w].address, sub, bit);
    }
  }

  // --- One bit check --------------------------------------------------------

  /** The check draws no answer exactly when the smallest slave's bit is one. */
  lemma CheckAnswered(start: Bus, w: nat, bus: Bus, sub: byte, bit: byte)
    requires Unmatched(start, w) && sub <= 3 && bit <= 31
    requires SlavesFollow(start, bus, start[w].address, sub)
    ensures
      var v := Identity(start[w].address, sub);
      (exists i :: 0 <= i < |bus| && Matches(bus[i], Settled(v, bit), bit, sub)) <==> !HasBit(v, bit)
  {
    var v := Identity(start[w].address, sub);
    if !HasBit(v, bit) {
      CursorOfSelf(start[w].address, sub);
      ZeroBitAnswered(v, bit);
      assert Matches(bus[w], Settled(v, bit), bit, sub);
    } else {
      forall i | 0 <= i < |bus|
        ensures !Matches(bus[i], Settled(v, bit), bit, sub)
      {
        if Participates(start[i]) {
          assert NeverMatches(start[i].address, start[w].address, sub, bit);
        }
      }
    }
  }

  lemma CheckBroadcast(bus: Bus, c: bv32, bit: byte, sub: byte)
    requires bit < FASTSCAN_INIT
    ensures Broadcast(bus, EncodeFastscan(c, bit, sub, sub)) == bus
    ensures Answered(bus, EncodeFastscan(c, bit, sub, sub)) <==>
            exists i :: 0 <= i < |bus| && Matches(bus[i], c, bit, sub)
  {
    var req := EncodeFastscan(c, bit, sub, sub);
    forall i | 0 <= i < |bus|
      ensures Broadcast(bus, req)[i] == bus[i]
      ensures Identifies(bus[i], req) == Matches(bus[i], c, bit, sub)
    {
      CheckEffect(bus[i], c, bit, sub);
    }
  }

  lemma CursorOfSelf(a: LssAddress, sub: byte)
    requires sub <= 3
    ensures Cursor(a, a, sub) == sub
  {
  }

  /** The identity values after one check, whatever its outcome. */
  lemma CheckedId(smallest: LssAddress, sub: byte, bit: byte)
    requires sub <= 3 && bit <= 31
    ensures bit - 1 <= 31 || bit - 1 == BIT_CONFIRM
    ensures
      var v := Identity(smallest, sub);
      var id := PartialId(smallest, sub, Settled(v, bit));
      PartialId(smallest, sub, Settled(v, bit - 1)) ==
        if HasBit(v, bit) then WithIdentity(id, sub, Identity(id, sub) | BitMask(bit)) else id
  {
    hide Settled, HasBit, BitMask;
    var v := Identity(smallest, sub);
    NextBitInRange(bit);
    BitSettled(v, bit);
    PartialIdAt(smallest, sub, Settled(v, bit), Settled(v, bit - 1));
  }

  lemma CheckedMaster(m: Master, answered: bool)
    requires m.Valid() && m.sub <= 3 && m.bit <= 31
    ensures
      var id := if answered then m.id else WithIdentity(m.id, m.sub, Identity(m.id, m.sub) | BitMask(m.bit));
      MasterStep(m, answered) == m.(id := id, bit := m.bit - 1)
  {
    assert m.bit != BIT_PROBE && m.bit != BIT_CONFIRM;
  }

  lemma CheckKeepsMaster(m: Master, smallest: LssAddress, answered: bool)
    requires MasterFollows(m, smallest) && m.bit <= 31
    requires answered == !HasBit(Identity(smallest, m.sub), m.bit)
    ensures MasterFollows(MasterStep(m, answered), smallest)
    ensures MasterStep(m, answered).sub == m.sub
  {
    hide Settled, HasBit, BitMask, PartialId, WithIdentity, MasterStep;
    NextBitInRange(m.bit);
    CheckedId(smallest, m.sub, m.bit);
    CheckedMaster(m, answered);
  }

  // --- Confirming an identity value -----------------------------------------

  lemma CursorAdvances(a: LssAddress, smallest: LssAddress, sub: byte)
    requires sub <= 3
    ensures Cursor(a, smallest, sub) == sub && Identity(a, sub) == Identity(smallest, sub) ==>
              Cursor(a, smallest, sub + 1) == sub + 1
    ensures !(Cursor(a, smallest, sub) == sub && Identity(a, sub) == Identity(smallest, sub)) ==>
              Cursor(a, smallest, sub + 1) == Cursor(a, smallest, sub)
    ensures sub == 3 ==>
              ((Cursor(a, smallest, sub) == sub && Identity(a, sub) == Identity(smallest, sub)) <==> a == smallest)
  {
  }

  /** Confirming an identity value the smallest slave has moves on exactly the slaves sharing it. */
  lemma ConfirmBroadcast(start: Bus, bus: Bus, smallest: LssAddress, sub: byte)
    requires sub <= 2
    requires SlavesFollow(start, bus, smallest, sub)
    ensures SlavesFollow(start, Broadcast(bus, EncodeFastscan(Identity(smallest, sub), 0, sub, (sub + 1) & 3)),
                         smallest, sub + 1)
  {
    forall i | 0 <= i < |bus|
      ensures Broadcast(bus, EncodeFastscan(Identity(smallest, sub), 0, sub, (sub + 1) & 3))[i] ==
              if Participates(start[i]) then start[i].(fsSub := Cursor(start[i].address, smallest, sub + 1))
              else start[i]
    {
      ConfirmEffect(bus[i], Identity(smallest, sub), sub);
      CursorAdvances(start[i].address, smallest, sub);
    }
  }

  lemma ConfirmKeepsMaster(m: Master, smallest: LssAddress, answered: bool)
    requires MasterFollows(m, smallest) && m.bit == BIT_CONFIRM && m.sub <= 2
    ensures MasterFollows(MasterStep(m, answered), smallest)
    ensures MasterStep(m, answered).sub == m.sub + 1
  {
    SettledEnds(Identity(smallest, m.sub));
    SettledEnds(Identity(smallest, m.sub + 1));
    PartialIdAt(smallest, m.sub, Identity(smallest, m.sub), 0);
  }

  /** The bus after a completed scan that found `address`. */
  ghost predicate ScanOutcome(start: Bus, bus: Bus, address: LssAddress) {
    && |bus| == |start|
    && forall i :: 0 <= i < |start| ==>
         bus[i] ==
           if !Participates(start[i]) then start[i]
           else if start[i].address == address then start[i].(state := Configuration, fsSub := 3)
           else start[i].(fsSub := Cursor(start[i].address, address, 3))
  }

  lemma LastConfirmBroadcast(start: Bus, bus: Bus, smallest: LssAddress)
    requires SlavesFollow(start, bus, smallest, 3)
    ensures ScanOutcome(start, Broadcast(bus, EncodeFastscan(smallest.serialNumber, 0, 3, 0)), smallest)
  {
    forall i | 0 <= i < |bus|
      ensures Broadcast(bus, EncodeFastscan(smallest.serialNumber, 0, 3, 0))[i] ==
              if !Participates(start[i]) then start[i]
              else if start[i].address == smallest then start[i].(state := Configuration, fsSub := 3)
              else start[i].(fsSub := Cursor(start[i].address, smallest, 3))
    {
      assert (3 + 1) & 3 == 0 as byte;
      ConfirmEffect(bus[i], smallest.serialNumber, 3);
      CursorAdvances(start[i].address, smallest, 3);
    }
  }

  // --- The whole scan -------------------------------------------------------

  lemma RequestFollows(start: Bus, w: nat, m: Master, bus: Bus)
    requires ScanInvariant(start, w, m, bus)
    ensures
      var v := Identity(start[w].address, m.sub);
      RequestOf(m) == Some(if m.bit == BIT_CONFIRM then EncodeFastscan(v, 0, m.sub, (m.sub + 1) & 3)
                           else EncodeFastscan(Settled(v, m.bit), m.bit, m.sub, m.sub))
  {
    var v := Identity(start[w].address, m.sub);
    SettledEnds(v);
    PartialIdAt(start[w].address, m.sub, Settled(v, m.bit), 0);
  }

  /** One round trip keeps the invariant, and the last one ends the scan with its result. */
  lemma ScanStep(start: Bus, w: nat, m: Master, bus: Bus, req: Frame)
    requires ScanInvariant(start, w, m, bus) && RequestOf(m) == Some(req)
    ensures
      var m' := MasterStep(m, Answered(bus, req));
      var bus' := Broadcast(bus, req);
      if m.bit == BIT_CONFIRM && m.sub == 3 then
        && m'.IsComplete() && m'.found && m'.id == start[w].address
        && ScanOutcome(start, bus', start[w].address)
      else ScanInvariant(start, w, m', bus')
  {
    var smallest := start[w].address;
    var v := Identity(smallest, m.sub);
    RequestFollows(start, w, m, bus);
    if m.bit != BIT_CONFIRM {
      CheckBroadcast(bus, Settled(v, m.bit), m.bit, m.sub);
      CheckAnswered(start, w, bus, m.sub, m.bit);
      CheckKeepsMaster(m, smallest, Answered(bus, req));
    } else if m.sub <= 2 {
      ConfirmBroadcast(start, bus, smallest, m.sub);
      ConfirmKeepsMaster(m, smallest, Answered(bus, req));
    } else {
      LastConfirmBroadcast(start, bus, smallest);
      SettledEnds(v);
    }
  }

  lemma {:induction false} ScanFollows(start: Bus, w: nat, m: Master, bus: Bus)
    requires ScanInvariant(start, w, m, bus)
    ensures
      var (m', bus') := Scan(m, bus);
      && m'.Valid() && m'.IsComplete() && m'.found && m'.id == start[w].address
      && ScanOutcome(start, bus', start[w].address)
    decreases Remaining(m)
  {
    var req := RequestOf(m).value;
    MasterProgress(m, Answered(bus, req));
    ScanStep(start, w, m, bus, req);
    if m.bit != BIT_CONFIRM || m.sub != 3 {
      ScanFollows(start, w, MasterStep(m, Answered(bus, req)), Broadcast(bus, req));
    }
  }

  /**
    Fastscan on any bus. It reports a node exactly when some slave is unconfigured and waiting. The
    address it reports is then the smallest of those slaves' addresses, exactly the slaves with that
    address enter the configuration state, and nothing but the scan cursor of other participants
    changes. With no participant the bus is left as it was.
   */
  lemma FastscanFindsSmallest(bus: Bus)
    ensures
      var (m, bus') := Scan(NEW_MASTER, bus);
      && m.Valid() && m.IsComplete()
      && (m.found <==> exists i :: 0 <= i < |bus| && Participates(bus[i]))
      && (m.found ==> (exists w: nat :: IsSmallest(bus, w) && bus[w].address == m.id))
      && (m.found ==> ScanOutcome(bus, bus', m.id))
      && (!m.found ==> bus' == bus)
  {
    var req := EncodeFastscan(0, FASTSCAN_INIT, 0, 0);
    assert RequestOf(NEW_MASTER) == Some(req);
    var bus1 := Broadcast(bus, req);
    forall i | 0 <= i < |bus|
      ensures bus1[i] == if Participates(bus[i]) then bus[i].(fsSub := 0) else bus[i]
      ensures Identifies(bus[i], req) == Participates(bus[i])
    {
      ProbeEffect(bus[i]);
    }
    MasterProgress(NEW_MASTER, Answered(bus, req));
    var m1 := MasterStep(NEW_MASTER, Answered(bus, req));
    if k: nat :| k < |bus| && Participates(bus[k]) {
      assert Identifies(bus[k], req);
      var w := SmallestExists(bus, k);
      SmallestIsUnmatched(bus, w);
      SettledEnds(Identity(bus[w].address, 0));
      assert ScanInvariant(bus, w, m1, bus1);
      ScanFollows(bus, w, m1, bus1);
    } else {
      assert !Answered(bus, req);
      assert bus1 == bus;
    }
  }
}
