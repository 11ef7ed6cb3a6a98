/**
  The selective switch as a recogniser over everything a slave has heard (core/src/lss.rs): four
  frames in a row, interrupted by no other switch frame, select exactly the addressed slave.
 */
module Selective {
  import opened Wrappers
  import opened Bytes
  import opened IdentityBits
  import opened Lss
  import opened Fastscan

  /** The frames that touch selective-switch progress; all others are transparent to it. */
  predicate IsSwitchFrame(f: Frame) {
    f[0] == CS_SWITCH_GLOBAL || IsSelectiveFrame(f)
  }

  predicate IsSelectiveFrame(f: Frame) {
    || f[0] == CS_SWITCH_SELECTIVE_VENDOR
    || f[0] == CS_SWITCH_SELECTIVE_PRODUCT
    || f[0] == CS_SWITCH_SELECTIVE_REVISION
    || f[0] == CS_SWITCH_SELECTIVE_SERIAL
  }

  /** The slave after hearing every frame of a history. */
  function Run(s: Slave, history: seq<Frame>): Slave {
    if history == [] then s
    else SlaveStep(Run(s, history[..|history| - 1]), history[|history| - 1]).0
  }

  function SwitchFrames(history: seq<Frame>): seq<Frame> {
    if history == [] then []
    else
      var before := SwitchFrames(history[..|history| - 1]);
      var last := history[|history| - 1];
      if IsSwitchFrame(last) then before + [last] else before
  }

  predicate Carries(f: Frame, cs: byte, value: bv32) {
    f[0] == cs && U32At(f) == value
  }

  /** The switch frames heard end in this address's vendor, product and revision, in that order. */
  predicate EndsInVendor(h: seq<Frame>, a: LssAddress) {
    |h| >= 1 && Carries(h[|h| - 1], CS_SWITCH_SELECTIVE_VENDOR, a.vendorId)
  }

  predicate EndsInProduct(h: seq<Frame>, a: LssAddress) {
    |h| >= 2 && Carries(h[|h| - 1], CS_SWITCH_SELECTIVE_PRODUCT, a.productCode) && EndsInVendor(h[..|h| - 1], a)
  }

  predicate EndsInRevision(h: seq<Frame>, a: LssAddress) {
    |h| >= 3 && Carries(h[|h| - 1], CS_SWITCH_SELECTIVE_REVISION, a.revisionNumber) && EndsInProduct(h[..|h| - 1], a)
  }

  /** How much of the address the switch frames heard end in. */
  function Progress(h: seq<Frame>, a: LssAddress): byte {
    if EndsInVendor(h, a) then 1
    else if EndsInProduct(h, a) then 2
    else if EndsInRevision(h, a) then 3
    else 0
  }

  lemma ProgressOfExtension(h: seq<Frame>, f: Frame, a: LssAddress)
    ensures Progress(h + [f], a) ==
            if Carries(f, CS_SWITCH_SELECTIVE_VENDOR, a.vendorId) then 1
            else if Progress(h, a) == 1 && Carries(f, CS_SWITCH_SELECTIVE_PRODUCT, a.productCode) then 2
            else if Progress(h, a) == 2 && Carries(f, CS_SWITCH_SELECTIVE_REVISION, a.revisionNumber) then 3
            else 0
  {
    hide U32At;
    assert (h + [f])[..|h|] == h;
  }

  lemma {:induction false} ProgressRecordsHistory(s: Slave, history: seq<Frame>)
    requires s.selective == 0
    ensures Run(s, history).address == s.address
    ensures Run(s, history).selective == Progress(SwitchFrames(history), s.address)
  {
    hide SlaveStep, Progress, Carries;
    if history != [] {
      var before := history[..|history| - 1];
      var last := history[|history| - 1];
      ProgressRecordsHistory(s, before);
      ProgressStep(Run(s, before), last);
      ProgressOfExtension(SwitchFrames(before), last, s.address);
    } else {
      assert Progress([], s.address) == 0 by {
        ProgressOfNothing(s.address);
      }
    }
  }

  lemma ProgressOfNothing(a: LssAddress)
    ensures Progress([], a) == 0
  {
  }

  lemma ProgressStep(s: Slave, f: Frame)
    ensures
      var next := SlaveStep(s, f).0;
      && next.address == s.address
      && (!IsSwitchFrame(f) ==> next.selective == s.selective)
      && (IsSwitchFrame(f) ==>
            next.selective ==
              if Carries(f, CS_SWITCH_SELECTIVE_VENDOR, s.address.vendorId) then 1
              else if s.selective == 1 && Carries(f, CS_SWITCH_SELECTIVE_PRODUCT, s.address.productCode) then 2
              else if s.selective == 2 && Carries(f, CS_SWITCH_SELECTIVE_REVISION, s.address.revisionNumber) then 3
              else 0)
  {
    hide U32At, FrameU32, FastscanStep;
    if IsSwitchFrame(f) {
      assert SlaveStep(s, f).0.address == s.address;
    } else if f[0] == CS_FASTSCAN {
      FastscanKeepsProgress(s, f);
    } else {
      assert SlaveStep(s, f).0 == s || SlaveStep(s, f).0 == s.(pendingNodeId := f[1]);
    }
  }

  lemma FastscanKeepsProgress(s: Slave, f: Frame)
    ensures FastscanStep(s, f).0.address == s.address && FastscanStep(s, f).0.selective == s.selective
  {
    hide U32At, TopBitsAgree, Identity;
  }

  lemma ResponseNeedsSerial(s: Slave, f: Frame)
    ensures
      var resp := SlaveStep(s, f).1;
      (resp.Some? && IsSwitchSelectiveResponse(resp.value)) <==>
        s.selective == 3 && Carries(f, CS_SWITCH_SELECTIVE_SERIAL, s.address.serialNumber)
  {
    hide U32At, TopBitsAgree, Identity;
  }

  /**
    A slave that starts with no selective progress confirms a selective switch exactly when, leaving
    out every frame that is not a switch frame, the last four frames heard were its own vendor,
    product, revision and serial.
   */
  lemma SelectiveSwitchRecogniser(s: Slave, history: seq<Frame>, f: Frame)
    requires s.selective == 0
    ensures
      var resp := SlaveStep(Run(s, history), f).1;
      var h := SwitchFrames(history);
      (resp.Some? && IsSwitchSelectiveResponse(resp.value)) <==>
        && Carries(f, CS_SWITCH_SELECTIVE_SERIAL, s.address.serialNumber)
        && |h| >= 3
        && Carries(h[|h| - 1], CS_SWITCH_SELECTIVE_REVISION, s.address.revisionNumber)
        && Carries(h[|h| - 2], CS_SWITCH_SELECTIVE_PRODUCT, s.address.productCode)
        && Carries(h[|h| - 3], CS_SWITCH_SELECTIVE_VENDOR, s.address.vendorId)
  {
    hide Run, SwitchFrames, SlaveStep, U32At;
    ProgressRecordsHistory(s, history);
    ResponseNeedsSerial(Run(s, history), f);
  }

  // --- The four-frame sequence on a bus -------------------------------------

  /** One slave hearing the selective switch to `a`: its state after it and its four responses. */
  lemma SequenceEffect(s: Slave, a: LssAddress)
    ensures
      var f := EncodeSwitchSelective(a);
      var s1 := SlaveStep(s, f[0]);
      var s2 := SlaveStep(s1.0, f[1]);
      var s3 := SlaveStep(s2.0, f[2]);
      var s4 := SlaveStep(s3.0, f[3]);
      && s1.1 == s2.1 == s3.1 == None
      && s4.0 == (if s.address == a then s.(selective := 0, state := Configuration) else s.(selective := 0))
      && (s4.1 == if s.address == a then Some(CommandFrame(CS_SWITCH_SELECTIVE_RESPONSE)) else None)
  {
    FrameU32RoundTrip(CS_SWITCH_SELECTIVE_VENDOR, a.vendorId);
    FrameU32RoundTrip(CS_SWITCH_SELECTIVE_PRODUCT, a.productCode);
    FrameU32RoundTrip(CS_SWITCH_SELECTIVE_REVISION, a.revisionNumber);
    FrameU32RoundTrip(CS_SWITCH_SELECTIVE_SERIAL, a.serialNumber);
    hide U32At;
    SwitchStep(s, CS_SWITCH_SELECTIVE_VENDOR, a.vendorId);
    var s1 := SlaveStep(s, FrameU32(CS_SWITCH_SELECTIVE_VENDOR, a.vendorId)).0;
    SwitchStep(s1, CS_SWITCH_SELECTIVE_PRODUCT, a.productCode);
    var s2 := SlaveStep(s1, FrameU32(CS_SWITCH_SELECTIVE_PRODUCT, a.productCode)).0;
    SwitchStep(s2, CS_SWITCH_SELECTIVE_REVISION, a.revisionNumber);
    var s3 := SlaveStep(s2, FrameU32(CS_SWITCH_SELECTIVE_REVISION, a.revisionNumber)).0;
    SwitchStep(s3, CS_SWITCH_SELECTIVE_SERIAL, a.serialNumber);
    hide SlaveStep, FrameU32;
  }

  /** What one frame of the sequence does to one slave. */
  lemma SwitchStep(s: Slave, cs: byte, value: bv32)
    ensures
      var (next, resp) := SlaveStep(s, FrameU32(cs, value));
      && (cs == CS_SWITCH_SELECTIVE_VENDOR ==>
            next == s.(selective := if value == s.address.vendorId then 1 else 0) && resp == None)
      && (cs == CS_SWITCH_SELECTIVE_PRODUCT ==>
            next == s.(selective := if s.selective == 1 && value == s.address.productCode then 2 else 0)
            && resp == None)
      && (cs == CS_SWITCH_SELECTIVE_REVISION ==>
            next == s.(selective := if s.selective == 2 && value == s.address.revisionNumber then 3 else 0)
            && resp == None)
      && (cs == CS_SWITCH_SELECTIVE_SERIAL ==>
            if s.selective == 3 && value == s.address.serialNumber then
              && next == s.(selective := 0, state := Configuration)
              && resp == Some(CommandFrame(CS_SWITCH_SELECTIVE_RESPONSE))
            else next == s.(selective := 0) && resp == None)
  {
    FrameU32RoundTrip(cs, value);
  }

  /** The slaves that answer a broadcast frame. */
  ghost function Responders(bus: Bus, f: Frame): set<nat> {
    set i: nat | i < |bus| && SlaveStep(bus[i], f).1.Some?
  }

  /**
    On a bus of distinct addresses in any state, the four-frame sequence to slave `k` moves exactly
    slave `k` to the configuration state and draws exactly one response, to the last frame.
   */
  lemma SelectiveSwitchSelectsOne(bus: Bus, k: nat)
    requires k < |bus|
    requires forall i, j :: 0 <= i < j < |bus| ==> bus[i].address != bus[j].address
    ensures
      var f := EncodeSwitchSelective(bus[k].address);
      var b1 := Broadcast(bus, f[0]);
      var b2 := Broadcast(b1, f[1]);
      var b3 := Broadcast(b2, f[2]);
      var b4 := Broadcast(b3, f[3]);
      && Responders(bus, f[0]) == Responders(b1, f[1]) == Responders(b2, f[2]) == {}
      && Responders(b3, f[3]) == {k}
      && b4[k] == bus[k].(selective := 0, state := Configuration)
      && forall i :: 0 <= i < |bus| && i != k ==> b4[i] == bus[i].(selective := 0)
  {
    hide SlaveStep, EncodeSwitchSelective;
    var a := bus[k].address;
    forall i | 0 <= i < |bus|
      ensures
        var f := EncodeSwitchSelective(a);
        var s1 := SlaveStep(bus[i], f[0]);
        var s2 := SlaveStep(s1.0, f[1]);
        var s3 := SlaveStep(s2.0, f[2]);
        var s4 := SlaveStep(s3.0, f[3]);
        && s1.1 == s2.1 == s3.1 == None
        && s4.0 == (if i == k then bus[i].(selective := 0, state := Configuration) else bus[i].(selective := 0))
        && (s4.1.Some? <==> i == k)
    {
      SequenceEffect(bus[i], a);
      assert i != k ==> bus[i].address != a;
    }
  }
}
