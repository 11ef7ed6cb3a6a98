/**
  What an LSS slave answers (core/src/lss.rs:423-500), byte by byte, and what a conversation tells:
  over any run of frames, the requests and the answers on the bus decide the slave's state. Then the
  same services through a node's dispatch (core/src/node.rs:441-450).
 */
module LssServices {
  import opened Wrappers
  import opened Bytes
  import opened IdentityBits
  import opened IdentityNumbers
  import opened Lss
  import opened WireFormat
  import opened Selective
  import opened Nmt
  import opened Nodes
  import N = NodeGating
  import S = SdoServers

  // --- One request ----------------------------------------------------------

  /** A slave starts waiting, its pending node-id the one it was given. */
  lemma FreshSlave(address: LssAddress, id: byte)
    ensures var s := NewSlave(address, id);
            && s.address == address && s.nodeId == s.pendingNodeId == id
            && s.state.Waiting? && s.selective == 0 && s.fsSub == 0
  {
  }

  /** A switch-global is never answered: mode 1 configures, every other mode waits. */
  lemma SwitchGlobalServed(s: Slave, f: Frame)
    requires f[0] == 0x04
    ensures var (next, resp) := SlaveStep(s, f);
            && resp == None
            && (next.state.Configuration? <==> f[1] == 1)
            && next == s.(state := next.state, selective := 0)
  {
  }

  /** A configuring slave takes an id from 1 to 127 or 255 and refuses any other, keeping the pending one. */
  lemma ConfigureIdServed(s: Slave, f: Frame)
    requires f[0] == 0x11 && s.state.Configuration?
    ensures var accepted := 1 <= f[1] as int <= 127 || f[1] as int == 255;
            && SlaveStep(s, f).1 == Some([0x11, if accepted then 0 else 1, 0, 0, 0, 0, 0, 0])
            && SlaveStep(s, f).0 == if accepted then s.(pendingNodeId := f[1]) else s
  {
    IdInRange(f[1]);
  }

  lemma IdInRange(id: byte)
    ensures 1 <= id <= 127 || id == 255 <==> 1 <= id as int <= 127 || id as int == 255
  {
  }

  /** A configuring slave echoes a store, and each inquiry with the value asked for. */
  lemma InquiryServed(s: Slave, f: Frame)
    requires s.state.Configuration? && f[0] in {0x17, 0x5A, 0x5B, 0x5C, 0x5D, 0x5E}
    ensures var (next, resp) := SlaveStep(s, f);
            && next == s && resp.Some? && resp.value[0] == f[0]
            && (f[0] == 0x17 ==> resp.value[1..] == [0, 0, 0, 0, 0, 0, 0])
            && (f[0] == 0x5A ==> LssWord(resp.value) == s.address.vendorId as int)
            && (f[0] == 0x5B ==> LssWord(resp.value) == s.address.productCode as int)
            && (f[0] == 0x5C ==> LssWord(resp.value) == s.address.revisionNumber as int)
            && (f[0] == 0x5D ==> LssWord(resp.value) == s.address.serialNumber as int)
            && (f[0] == 0x5E ==> resp.value[1..] == [s.nodeId, 0, 0, 0, 0, 0, 0])
  {
    LssFrameWord(0x5A, s.address.vendorId);
    LssFrameWord(0x5B, s.address.productCode);
    LssFrameWord(0x5C, s.address.revisionNumber);
    LssFrameWord(0x5D, s.address.serialNumber);
    hide LssWord, FrameU32, U32At;
  }

  /** A waiting slave answers nothing but selective switches and Fastscan, and no slave any other command. */
  lemma SilentOtherwise(s: Slave, f: Frame)
    requires f[0] !in {0x04, 0x40, 0x41, 0x42, 0x43, 0x51}
    requires s.state.Waiting? || f[0] !in {0x11, 0x17, 0x5A, 0x5B, 0x5C, 0x5D, 0x5E}
    ensures SlaveStep(s, f) == (s, None)
  {
  }

  /** The part of its identity a slave compares: vendor, product, revision, then serial. */
  ghost function PartNumber(a: LssAddress, part: byte): int {
    if part == 0 then a.vendorId as int
    else if part == 1 then a.productCode as int
    else if part == 2 then a.revisionNumber as int
    else a.serialNumber as int
  }

  /**
    Selective switching in numbers: the four values count a slave up from 1 to 3, the serial then
    switches it and is answered with 0x44, and a wrong value starts over.
   */
  lemma SelectiveServed(s: Slave, f: Frame)
    requires f[0] in {0x40, 0x41, 0x42, 0x43}
    ensures var (next, resp) := SlaveStep(s, f);
            var word := LssWord(f);
            && (f[0] == 0x40 ==>
                  next == s.(selective := if word == s.address.vendorId as int then 1 else 0) && resp == None)
            && (f[0] == 0x41 ==>
                  next == s.(selective :=
                    if s.selective == 1 && word == s.address.productCode as int then 2 else 0) && resp == None)
            && (f[0] == 0x42 ==>
                  next == s.(selective :=
                    if s.selective == 2 && word == s.address.revisionNumber as int then 3 else 0) && resp == None)
            && (f[0] == 0x43 ==>
                  if s.selective == 3 && word == s.address.serialNumber as int
                  then (next, resp) == (s.(selective := 0, state := Configuration), Some([0x44, 0, 0, 0, 0, 0, 0, 0]))
                  else (next, resp) == (s.(selective := 0), None))
  {
    LssWordIsNumber(f);
    WordEquality(U32At(f), s.address.vendorId);
    WordEquality(U32At(f), s.address.productCode);
    WordEquality(U32At(f), s.address.revisionNumber);
    WordEquality(U32At(f), s.address.serialNumber);
    hide U32At, LssWord;
  }

  lemma WordEquality(a: bv32, b: bv32)
    ensures a == b <==> a as int == b as int
  {
    assert (a as int) as bv32 == a;
    assert (b as int) as bv32 == b;
  }

  /**
    Fastscan: only an unconfigured waiting slave answers, always with 0x4F. A probe restarts its
    scan; a check of the part it is at is answered when the number above the checked bit is its own;
    a full match with another part to come moves to that part, or configures it after the serial.
   */
  lemma FastscanServed(s: Slave, f: Frame)
    requires f[0] == 0x51
    ensures var (next, resp) := SlaveStep(s, f);
            && (resp.Some? ==> resp.value == [0x4F, 0, 0, 0, 0, 0, 0, 0])
            && (s.nodeId != 255 || s.state.Configuration? ==> next == s && resp == None)
            && (s.nodeId == 255 && s.state.Waiting? && f[5] as int >= 32 ==> next == s.(fsSub := 0) && resp.Some?)
            && (s.nodeId == 255 && s.state.Waiting? && f[5] as int < 32 ==>
                  && (resp.Some? <==>
                        && f[6] == s.fsSub
                        && Above(LssWord(f), f[5]) == Above(PartNumber(s.address, f[6]), f[5]))
                  && next == if resp == None || f[5] != 0 || f[7] == f[6] then s
                             else if f[6] as int >= 3 then s.(state := Configuration)
                             else s.(fsSub := f[7]))
  {
    SmallByte(f[5], 32);
    SmallByte(f[6], 3);
    if f[5] < 32 {
      LssWordIsNumber(f);
      AgreementIsAbove(U32At(f), Identity(s.address, f[6]), f[5]);
    }
    hide U32At, LssWord, TopBitsAgree, Above;
  }

  lemma SmallByte(b: byte, limit: byte)
    ensures b < limit <==> (b as int) < limit as int
  {
  }

  // --- A conversation -------------------------------------------------------

  /** What a slave answered to each frame of a history. */
  function Answers(s: Slave, history: seq<Frame>): (answers: seq<Option<Frame>>)
    ensures |answers| == |history|
  {
    if history == [] then []
    else
      var n := |history| - 1;
      Answers(s, history[..n]) + [SlaveStep(Run(s, history[..n]), history[n]).1]
  }

  /** Switch-global with mode 1, an answered selective serial, or an answered Fastscan serial match. */
  predicate Configures(f: Frame, answer: Option<Frame>) {
    || (f[0] == 0x04 && f[1] == 1)
    || (f[0] == 0x43 && answer.Some?)
    || (f[0] == 0x51 && answer.Some? && f[5] == 0 && f[6] as int >= 3 && f[7] != f[6])
  }

  predicate Waits(f: Frame) {
    f[0] == 0x04 && f[1] != 1
  }

  /** An id the slave confirmed. */
  predicate Assigns(f: Frame, answer: Option<Frame>) {
    f[0] == 0x11 && answer == Some([0x11, 0, 0, 0, 0, 0, 0, 0])
  }

  /** Something configured the slave and no switch-global made it wait again. */
  ghost predicate Configuring(history: seq<Frame>, answers: seq<Option<Frame>>)
    requires |answers| == |history|
  {
    exists i :: ConfiguredAt(history, answers, i)
  }

  ghost predicate ConfiguredAt(history: seq<Frame>, answers: seq<Option<Frame>>, i: int)
    requires |answers| == |history|
  {
    0 <= i < |history| && Configures(history[i], answers[i]) && forall j :: i < j < |history| ==> !Waits(history[j])
  }

  ghost predicate LastAssigned(history: seq<Frame>, answers: seq<Option<Frame>>, i: int)
    requires |answers| == |history|
  {
    && 0 <= i < |history| && Assigns(history[i], answers[i])
    && forall j :: i < j < |history| ==> !Assigns(history[j], answers[j])
  }

  ghost predicate NeverAssigned(history: seq<Frame>, answers: seq<Option<Frame>>)
    requires |answers| == |history|
  {
    forall j :: 0 <= j < |history| ==> !Assigns(history[j], answers[j])
  }

  /** What requests and answers tell of a slave that started with this address and id. */
  ghost predicate Told(start: Slave, history: seq<Frame>, answers: seq<Option<Frame>>, s: Slave)
    requires |answers| == |history|
  {
    && s.address == start.address && s.nodeId == start.nodeId
    && (s.state.Configuration? <==> Configuring(history, answers))
    && (forall i :: LastAssigned(history, answers, i) ==> s.pendingNodeId == history[i][1])
    && (NeverAssigned(history, answers) ==> s.pendingNodeId == start.nodeId)
  }

  /** One frame's part in it. */
  lemma FrameTells(s: Slave, f: Frame)
    ensures var (next, resp) := SlaveStep(s, f);
            && next.address == s.address && next.nodeId == s.nodeId
            && (next.state.Configuration? <==> Configures(f, resp) || (s.state.Configuration? && !Waits(f)))
            && next.pendingNodeId == if Assigns(f, resp) then f[1] else s.pendingNodeId
  {
    hide U32At, FastscanStep, LssWord;
    if f[0] == 0x51 {
      FastscanTells(s, f);
    }
  }

  lemma FastscanTells(s: Slave, f: Frame)
    ensures var (next, resp) := FastscanStep(s, f);
            && next.address == s.address && next.nodeId == s.nodeId && next.pendingNodeId == s.pendingNodeId
            && (next.state.Configuration? <==>
                  || s.state.Configuration?
                  || (resp.Some? && f[5] == 0 && f[6] as int >= 3 && f[7] != f[6]))
  {
    SmallByte(f[6], 3);
    hide U32At, TopBitsAgree, Identity;
  }

  lemma ConfiguringNext(history: seq<Frame>, answers: seq<Option<Frame>>, f: Frame, answer: Option<Frame>)
    requires |answers| == |history|
    ensures Configuring(history + [f], answers + [answer]) <==>
            Configures(f, answer) || (Configuring(history, answers) && !Waits(f))
  {
    var h, a := history + [f], answers + [answer];
    hide Configures, Waits;
    if Configuring(h, a) && !Configures(f, answer) {
      var i :| ConfiguredAt(h, a, i);
      assert !Waits(h[|history|]);
      forall j | i < j < |history| ensures !Waits(history[j]) {
        assert h[j] == history[j];
      }
      assert ConfiguredAt(history, answers, i);
    }
    if Configures(f, answer) {
      assert ConfiguredAt(h, a, |history|);
    } else if Configuring(history, answers) && !Waits(f) {
      var i :| ConfiguredAt(history, answers, i);
      assert ConfiguredAt(h, a, i);
    }
  }

  lemma ToldNext(
    start: Slave, history: seq<Frame>, answers: seq<Option<Frame>>, s: Slave,
    f: Frame, answer: Option<Frame>, next: Slave)
    requires |answers| == |history| && Told(start, history, answers, s)
    requires next.address == s.address && next.nodeId == s.nodeId
    requires next.state.Configuration? <==> Configures(f, answer) || (s.state.Configuration? && !Waits(f))
    requires next.pendingNodeId == if Assigns(f, answer) then f[1] else s.pendingNodeId
    ensures Told(start, history + [f], answers + [answer], next)
  {
    var h, a := history + [f], answers + [answer];
    ConfiguringNext(history, answers, f, answer);
    hide Configuring, Configures, Waits, Assigns;
    forall i | LastAssigned(h, a, i) ensures next.pendingNodeId == h[i][1] {
      if i < |history| {
        assert !Assigns(h[|history|], a[|history|]);
        forall j | i < j < |history| ensures !Assigns(history[j], answers[j]) {
          assert h[j] == history[j] && a[j] == answers[j];
        }
        assert LastAssigned(history, answers, i);
      }
    }
    if NeverAssigned(h, a) {
      assert !Assigns(h[|history|], a[|history|]);
      forall j | 0 <= j < |history| ensures !Assigns(history[j], answers[j]) {
        assert h[j] == history[j] && a[j] == answers[j];
      }
    }
  }

  lemma NothingTold(start: Slave)
    requires start.state.Waiting? && start.pendingNodeId == start.nodeId
    ensures Told(start, [], [], start)
  {
  }

  /**
    After any conversation, whoever saw the frames and the answers knows the slave: it is configuring
    exactly when something configured it and no switch-global made it wait again; its pending id is
    the last one it confirmed, or the one it started with; address and active id never change.
   */
  lemma {:induction false} ConversationTells(address: LssAddress, id: byte, history: seq<Frame>)
    ensures var s := NewSlave(address, id); Told(s, history, Answers(s, history), Run(s, history))
  {
    hide SlaveStep, Told, Configures, Waits, Assigns;
    var start := NewSlave(address, id);
    if history == [] {
      NothingTold(start);
    } else {
      var n := |history| - 1;
      ConversationTells(address, id, history[..n]);
      var s := Run(start, history[..n]);
      assert history == history[..n] + [history[n]];
      FrameTells(s, history[n]);
      ToldNext(start, history[..n], Answers(start, history[..n]), s,
               history[n], SlaveStep(s, history[n]).1, SlaveStep(s, history[n]).0);
    }
  }

  /** And it confirms the next id exactly when it is configuring by then and the id is one it takes. */
  lemma ConfirmedIff(address: LssAddress, id: byte, history: seq<Frame>, f: Frame)
    requires f[0] == 0x11
    ensures var s := NewSlave(address, id);
            var answer := SlaveStep(Run(s, history), f).1;
            && (Assigns(f, answer) <==>
                  && Configuring(history, Answers(s, history))
                  && (1 <= f[1] as int <= 127 || f[1] as int == 255))
            && (answer == None <==> !Configuring(history, Answers(s, history)))
  {
    ConversationTells(address, id, history);
    var s := Run(NewSlave(address, id), history);
    if s.state.Configuration? {
      ConfigureIdServed(s, f);
    } else {
      SilentOtherwise(s, f);
    }
    hide SlaveStep, Configuring;
  }

  // --- Through a node -------------------------------------------------------

  /**
    A frame of at most eight bytes with identifier 0x7E5 reaches the slave padded with zeroes, in
    every NMT state, and its answer goes out on 0x7E4; nothing else of the node changes.
   */
  lemma LssThroughNode(d: Device, cobId: bv16, data: seq<byte>, padded: Frame)
    requires d.Valid() && cobId as int == 0x7E5 && |data| <= 8
    requires padded[..|data|] == data && forall i :: |data| <= i < 8 ==> padded[i] == 0
    ensures var (next, tx) := FrameStep(d, cobId, data);
            && (d.lss == None ==> next == d && tx == None)
            && (d.lss.Some? ==>
                  var (slave, answer) := SlaveStep(d.lss.value, padded);
                  && next == d.(lss := Some(slave))
                  && (tx.Some? <==> answer.Some?)
                  && (tx.Some? ==> tx.value.cobId as int == 0x7E4 && tx.value.data == answer.value))
  {
    WordIs7E5(cobId);
    assert Padded(data) == padded;
    hide SlaveStep, SdoRequestCobId, Padded;
  }

  lemma WordIs7E5(cobId: bv16)
    ensures cobId as int == 0x7E5 <==> cobId == 0x7E5
    ensures (0x7E4 as bv16) as int == 0x7E4
  {
  }

  /** Longer frames are ignored. */
  lemma LongLssIgnored(d: Device, cobId: bv16, data: seq<byte>)
    requires d.Valid() && cobId as int == 0x7E5 && |data| > 8
    ensures FrameStep(d, cobId, data) == (d, None)
  {
    WordIs7E5(cobId);
  }

  /** The frames as a node receives them. */
  function OverLss(frames: seq<Frame>): (events: seq<N.Event>)
    ensures |events| == |frames|
  {
    seq(|frames|, i requires 0 <= i < |frames| => N.Receive(0x7E5, frames[i]))
  }

  lemma {:induction false} ConversationThroughNode(d: Device, frames: seq<Frame>)
    requires d.Valid() && d.lss.Some?
    ensures N.Run(d, OverLss(frames)) == d.(lss := Some(Run(d.lss.value, frames)))
  {
    hide SlaveStep, FrameStep;
    if frames != [] {
      var n := |frames| - 1;
      ConversationThroughNode(d, frames[..n]);
      assert OverLss(frames)[..n] == OverLss(frames[..n]);
      var before := N.Run(d, OverLss(frames[..n]));
      WordIs7E5(0x7E5);
      LssThroughNode(before, 0x7E5, frames[n], frames[n]);
    }
  }

  /**
    After any LSS conversation a node adopts the last id it confirmed if that is from 1 to 127: it is
    then that node, with a fresh SDO server. If the last one was 255, or a node without an id confirmed
    none, it changes nothing but its slave. Dictionary, NMT state and PDOs stay in every case.
   */
  lemma NodeTakesAssignedId(d: Device, address: LssAddress, id: byte, frames: seq<Frame>)
    requires d.Valid() && d.lss == Some(NewSlave(address, id))
    ensures var answers := Answers(NewSlave(address, id), frames);
            var next := N.Run(d, OverLss(frames) + [N.AdoptLssNodeId]);
            && next.od == d.od && next.nmt == d.nmt && next.rpdos == d.rpdos && next.tpdos == d.tpdos
            && next.errors == d.errors && next.lss.Some?
            && (forall i :: LastAssigned(frames, answers, i) ==>
                  if 1 <= frames[i][1] as int <= 127
                  then next.nodeId == next.serverNode == next.lss.value.nodeId == frames[i][1]
                       && next.server == S.NEW_SERVER
                  else next == d.(lss := next.lss) && next.lss.value.nodeId == id)
            && (NeverAssigned(frames, answers) && id == 255 ==>
                  next == d.(lss := next.lss) && next.lss.value.nodeId == 255)
  {
    hide Run, N.Run, LastAssigned, NeverAssigned, Configuring, Answers, OverLss;
    ConversationTells(address, id, frames);
    ConversationThroughNode(d, frames);
    AdoptedAfter(d, OverLss(frames), Run(NewSlave(address, id), frames));
  }

  /** What adopting does to a node whose slave has come to be s. */
  lemma AdoptedAfter(d: Device, heard: seq<N.Event>, s: Slave)
    requires d.Valid() && N.Run(d, heard) == d.(lss := Some(s))
    ensures var next := N.Run(d, heard + [N.AdoptLssNodeId]);
            && next.od == d.od && next.nmt == d.nmt && next.rpdos == d.rpdos && next.tpdos == d.tpdos
            && next.errors == d.errors && next.lss.Some?
            && if 1 <= s.pendingNodeId as int <= 127
               then next.nodeId == next.serverNode == next.lss.value.nodeId == s.pendingNodeId
                    && next.server == S.NEW_SERVER
               else next == d.(lss := Some(s))
  {
    hide N.Run, LssAdopted, FrameStep;
    RunThenAdopt(d, heard);
    AdoptedSlave(d, s);
  }

  lemma RunThenAdopt(d: Device, heard: seq<N.Event>)
    requires d.Valid()
    ensures N.Run(d, heard + [N.AdoptLssNodeId]) == LssAdopted(N.Run(d, heard)).0
  {
    assert (heard + [N.AdoptLssNodeId])[..|heard|] == heard;
    hide FrameStep, LssAdopted;
  }

  lemma AdoptedSlave(d: Device, s: Slave)
    ensures var next := LssAdopted(d.(lss := Some(s))).0;
            if 1 <= s.pendingNodeId as int <= 127
            then next == d.(nodeId := s.pendingNodeId, serverNode := s.pendingNodeId, server := S.NEW_SERVER,
                            lss := Some(s.(nodeId := s.pendingNodeId)))
            else next == d.(lss := Some(s))
  {
    AssignedRange(s.pendingNodeId);
  }

  lemma AssignedRange(id: byte)
    ensures IsNodeId(id) <==> 1 <= id as int <= 127
  {
  }
}
