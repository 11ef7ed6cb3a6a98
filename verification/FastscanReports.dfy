/**
  The Fastscan master under any sequence of reports (core/src/lss.rs), whether or not they stop when
  its scan is over: what it then says it found, and which report it cannot take.
 */
module FastscanReports {
  import opened Wrappers
  import opened Bytes
  import opened IdentityBits
  import opened Lss
  import opened Fastscan

  /** The master after these reports; none if it failed on one of them. */
  function Reported(rs: seq<bool>): Option<Master> {
    if rs == [] then Some(NEW_MASTER)
    else
      var before, r := Reported(rs[..|rs| - 1]), rs[|rs| - 1];
      if before.None? || !before.value.Accepts(r) then None else Some(MasterStep(before.value, r))
  }

  lemma StepKeepsBits(m: Master, r: bool)
    requires m.Accepts(r) && (m.found <==> m.bit != BIT_PROBE)
    ensures var next := MasterStep(m, r);
            && (next.found <==> m.found || r) && (next.found <==> next.bit != BIT_PROBE)
            && (next.bit <= 31 || next.bit == BIT_PROBE || next.bit == BIT_CONFIRM)
  {
    if m.bit <= 31 {
      NextBitInRange(m.bit);
    }
    hide BitMask;
  }

  lemma {:induction false} ReportsTell(rs: seq<bool>)
    requires Reported(rs).Some?
    ensures var m := Reported(rs).value;
            && (m.found <==> true in rs)
            && (m.found <==> m.bit != BIT_PROBE)
            && (m.bit <= 31 || m.bit == BIT_PROBE || m.bit == BIT_CONFIRM)
  {
    hide MasterStep;
    if rs != [] {
      var n := |rs| - 1;
      ReportsTell(rs[..n]);
      StepKeepsBits(Reported(rs[..n]).value, rs[n]);
      assert rs == rs[..n] + [rs[n]];
    }
  }

  /**
    After any reports the master has found a node exactly when any of them was an answer, not only
    the first, which is the probe's: its result agrees with the probe's exactly when the probe was
    answered or nothing was.
   */
  lemma LateAnswerMisreports(rs: seq<bool>)
    requires Reported(rs).Some?
    ensures Reported(rs).value.found <==> true in rs
    ensures rs != [] ==> (Reported(rs).value.found == rs[0] <==> rs[0] || true !in rs)
  {
    hide Reported;
    ReportsTell(rs);
  }

  /**
    After any reports the master fails on the next exactly when a bit check beyond the four identity
    values goes unanswered, which can only be after a find, or its count of values overflows.
   */
  lemma ReportFailsIff(rs: seq<bool>, r: bool)
    requires Reported(rs).Some?
    ensures var m := Reported(rs).value;
            Reported(rs + [r]).None? <==>
            (m.found && m.IsComplete() && m.bit <= 31 && !r) || (m.bit == BIT_CONFIRM && m.sub == 255)
  {
    ReportsTell(rs);
    assert (rs + [r])[..|rs|] == rs;
    hide MasterStep;
  }

  lemma ScanStepKeeps(m: Master, r: bool)
    requires m.Valid() && m.sub <= 3 && m.bit != BIT_PROBE
    ensures var next := MasterStep(m, r);
            && m.Accepts(r) && next.Valid() && next.bit != BIT_PROBE && Remaining(next) == Remaining(m) - 1
            && (next.sub > 3 ==> next.bit == 31)
  {
    MasterProgress(m, r);
    if m.bit <= 31 {
      NextBitInRange(m.bit);
    }
    hide BitMask, Remaining;
  }

  lemma {:induction false} ScanInProgress(rs: seq<bool>)
    requires 1 <= |rs| <= 133 && rs[0]
    ensures Reported(rs).Some?
    ensures var m := Reported(rs).value;
            && m.Valid() && m.bit != BIT_PROBE && Remaining(m) == 133 - |rs|
            && (m.sub > 3 ==> m.bit == 31)
  {
    if |rs| == 1 {
      assert rs[..0] == [];
      MasterProgress(NEW_MASTER, true);
    } else {
      hide MasterStep;
      var n := |rs| - 1;
      ScanInProgress(rs[..n]);
      ScanStepKeeps(Reported(rs[..n]).value, rs[n]);
    }
  }

  /**
    A scan whose probe was answered takes any 133 reports and is then over. From there an unanswered
    report fails at once, and an answered one does not.
   */
  lemma FinishedScanFails(rs: seq<bool>)
    requires |rs| == 133 && rs[0]
    ensures Reported(rs).Some? && Reported(rs).value.IsComplete() && Reported(rs).value.found
    ensures Reported(rs + [false]).None? && Reported(rs + [true]).Some?
  {
    hide Reported, MasterStep;
    ScanInProgress(rs);
    ReportsTell(rs);
    ReportFailsIff(rs, false);
    ReportFailsIff(rs, true);
  }

  /** Without an answer no report fails, and the scan is over after the first. */
  lemma {:induction false} SilenceNeverFails(rs: seq<bool>)
    requires true !in rs
    ensures Reported(rs).Some? && (rs != [] ==> Reported(rs).value.IsComplete() && !Reported(rs).value.found)
  {
    if rs != [] {
      SilenceNeverFails(rs[..|rs| - 1]);
      ReportsTell(rs[..|rs| - 1]);
      ReportsTell(rs);
    }
  }
}
