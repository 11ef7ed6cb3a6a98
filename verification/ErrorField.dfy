/** The error register, the pre-defined error field and their objects (core/src/node.rs). */
module ErrorField {
  import opened Bytes
  import opened Datatypes
  import opened ObjectDictionaries
  import opened Records

  const MAX_ERROR_HISTORY: nat := 8
  const GENERIC: byte := 0x01

  const ERROR_REGISTER := Address(0x1001, 0)
  const ERROR_FIELD_INDEX: bv16 := 0x1003

  type History = h: seq<bv32> | |h| <= MAX_ERROR_HISTORY witness []

  function CodeWord(code: bv16): bv32 {
    code as bv32
  }

  /** The newest code in front; the oldest makes room. */
  function Recorded(history: History, code: bv16): History {
    [CodeWord(code)] + if |history| == MAX_ERROR_HISTORY then history[..MAX_ERROR_HISTORY - 1] else history
  }

  /** Shift the first `len` words back by one, in place, and put a new one in front. */
  method PushFront(a: array<bv32>, len: nat, word: bv32)
    requires len < a.Length
    modifies a
    ensures a[..len + 1] == [word] + old(a[..len])
  {
    for i := len downto 0
      invariant forall j :: 0 <= j <= i && j < len ==> a[j] == old(a[j])
      invariant forall j :: i < j <= len ==> a[j] == old(a[j - 1])
    {
      a[i + 1] := a[i];
    }
    a[0] := word;
  }

  /** The dictionary with both error objects brought up to date, best effort. */
  function Mirrored(od: Dict, register: byte, history: History): Dict {
    StoreRecord(SetTo(od, ERROR_REGISTER, Unsigned8(register)), ERROR_FIELD_INDEX, history)
  }

  /** The error objects for n entries exist with their standard types. */
  ghost predicate HasErrorObjects(od: Dict, n: nat) {
    && n <= MAX_ERROR_HISTORY
    && ERROR_REGISTER in od && od[ERROR_REGISTER].value.Unsigned8?
    && Shaped(od, ERROR_FIELD_INDEX, n)
  }

  ghost predicate ShowsErrors(od: Dict, register: byte, history: History) {
    && ERROR_REGISTER in od && od[ERROR_REGISTER].value == Unsigned8(register)
    && HoldsRecord(od, ERROR_FIELD_INDEX, history)
  }

  lemma MirroredShows(od: Dict, register: byte, history: History)
    requires HasErrorObjects(od, |history|)
    ensures ShowsErrors(Mirrored(od, register, history), register, history)
  {
    var first := SetTo(od, ERROR_REGISTER, Unsigned8(register));
    SetToEffect(od, ERROR_REGISTER, Unsigned8(register));
    hide SetTo, StoreRecord, HoldsRecord, Sub;
    ShapedElsewhere(od, first, |history|);
    StoreRecordHolds(first, ERROR_FIELD_INDEX, history);
    RecordKeepsRegister(first, Mirrored(od, register, history), |history|);
  }

  lemma ShapedElsewhere(before: Dict, after: Dict, n: nat)
    requires HasErrorObjects(before, n)
    requires after.Keys == before.Keys && forall a :: a in before && a != ERROR_REGISTER ==> after[a] == before[a]
    ensures Shaped(after, ERROR_FIELD_INDEX, n)
  {
    forall k | 1 <= k <= n ensures ShapedWord(after, ERROR_FIELD_INDEX, k) {
      assert ShapedWord(before, ERROR_FIELD_INDEX, k);
    }
  }

  lemma RecordKeepsRegister(before: Dict, after: Dict, n: nat)
    requires n <= 255 && ChangesOnlyRecord(before, after, ERROR_FIELD_INDEX, n) && ERROR_REGISTER in before
    ensures ERROR_REGISTER in after && after[ERROR_REGISTER] == before[ERROR_REGISTER]
  {
  }

  /** Mirroring changes nothing but the error objects, and no object's type or access rights. */
  lemma MirroredChangesOnlyErrors(od: Dict, register: byte, history: History)
    ensures var after := Mirrored(od, register, history);
            && after.Keys == od.Keys
            && forall a :: a in od ==>
                 && after[a].access == od[a].access && after[a].value.Type() == od[a].value.Type()
                 && (a != ERROR_REGISTER && a.index != ERROR_FIELD_INDEX ==> after[a] == od[a])
  {
    var first := SetTo(od, ERROR_REGISTER, Unsigned8(register));
    SetToEffect(od, ERROR_REGISTER, Unsigned8(register));
    StoreRecordHolds(first, ERROR_FIELD_INDEX, history);
    hide SetTo, StoreRecord, HoldsRecord, Shaped;
  }

  // --- Raises and clears ----------------------------------------------------

  datatype ErrorEvent = Raise(code: bv16, bits: byte) | Clear

  datatype ErrorState = ErrorState(register: byte, history: History)

  function ErrorStep(s: ErrorState, e: ErrorEvent): ErrorState {
    match e
    case Raise(code, bits) => ErrorState(s.register | (bits | GENERIC), Recorded(s.history, code))
    case Clear => ErrorState(0, [])
  }

  function ErrorsAfter(events: seq<ErrorEvent>): ErrorState {
    if events == [] then ErrorState(0, [])
    else ErrorStep(ErrorsAfter(events[..|events| - 1]), events[|events| - 1])
  }

  /** The raises since the last clear, newest first. */
  function Raised(events: seq<ErrorEvent>): seq<ErrorEvent> {
    if events == [] then []
    else
      match events[|events| - 1]
      case Clear => []
      case Raise(_, _) => [events[|events| - 1]] + Raised(events[..|events| - 1])
  }

  lemma {:induction false} RaisedAreRaises(events: seq<ErrorEvent>)
    ensures forall i :: 0 <= i < |Raised(events)| ==> Raised(events)[i].Raise?
  {
    if events != [] {
      RaisedAreRaises(events[..|events| - 1]);
    }
  }

  ghost predicate SomeRaised(raises: seq<ErrorEvent>, mask: byte) {
    exists i :: 0 <= i < |raises| && raises[i].Raise? && (raises[i].bits | 0x01) & mask != 0
  }

  lemma OrMasked(a: byte, b: byte, mask: byte)
    ensures (a | b) & mask != 0 <==> a & mask != 0 || b & mask != 0
  {
  }

  lemma SomeRaisedNext(newest: ErrorEvent, older: seq<ErrorEvent>, mask: byte)
    requires newest.Raise?
    ensures SomeRaised([newest] + older, mask) <==> (newest.bits | GENERIC) & mask != 0 || SomeRaised(older, mask)
  {
    var all := [newest] + older;
    if SomeRaised(older, mask) {
      var i :| 0 <= i < |older| && older[i].Raise? && (older[i].bits | GENERIC) & mask != 0;
      assert all[i + 1] == older[i];
    }
    if (newest.bits | GENERIC) & mask != 0 {
      assert all[0] == newest;
    }
  }

  /** A register bit is set exactly when some raise since the last clear set it. */
  lemma {:induction false} RegisterIsUnion(events: seq<ErrorEvent>, mask: byte)
    ensures ErrorsAfter(events).register & mask != 0 <==> SomeRaised(Raised(events), mask)
  {
    if events != [] {
      var before, last := events[..|events| - 1], events[|events| - 1];
      RegisterIsUnion(before, mask);
      if last.Raise? {
        OrMasked(ErrorsAfter(before).register, last.bits | GENERIC, mask);
        SomeRaisedNext(last, Raised(before), mask);
      }
    }
  }

  /** The words of the newest codes, as many as fit. */
  ghost predicate NewestWords(history: History, raises: seq<ErrorEvent>) {
    && |history| == (if |raises| < 8 then |raises| else 8)
    && forall i :: 0 <= i < |history| ==> raises[i].Raise? && history[i] == CodeWord(raises[i].code)
  }

  lemma NewestNext(history: History, raises: seq<ErrorEvent>, e: ErrorEvent)
    requires NewestWords(history, raises) && e.Raise?
    ensures NewestWords(Recorded(history, e.code), [e] + raises)
  {
    hide CodeWord;
    var next := Recorded(history, e.code);
    forall i | 0 <= i < |next| ensures ([e] + raises)[i].Raise? && next[i] == CodeWord(([e] + raises)[i].code) {
      if i > 0 {
        assert next[i] == history[i - 1] && ([e] + raises)[i] == raises[i - 1];
      }
    }
  }

  lemma {:induction false} HistoryIsNewestWords(events: seq<ErrorEvent>)
    ensures NewestWords(ErrorsAfter(events).history, Raised(events))
  {
    hide CodeWord;
    if events != [] {
      var before, last := events[..|events| - 1], events[|events| - 1];
      HistoryIsNewestWords(before);
      if last.Raise? {
        NewestNext(ErrorsAfter(before).history, Raised(before), last);
      }
    }
  }

  /** The newest codes, newest first, as many as fit; each word is worth its 16-bit code. */
  ghost predicate Newest(history: History, raises: seq<ErrorEvent>) {
    && |history| == (if |raises| < 8 then |raises| else 8)
    && forall i :: 0 <= i < |history| ==> raises[i].Raise? && history[i] as int == raises[i].code as int
  }

  lemma WideNumber(w: bv32, code: bv16)
    requires w == code as bv32
    ensures w as int == code as int
  {
  }

  lemma CodeNumber(w: bv32, code: bv16)
    requires w == CodeWord(code)
    ensures w as int == code as int
  {
    WideNumber(w, code);
  }

  /** The field holds the newest codes since the last clear, newest first, as many as fit. */
  lemma HistoryIsNewest(events: seq<ErrorEvent>)
    ensures Newest(ErrorsAfter(events).history, Raised(events))
  {
    hide CodeWord, ErrorsAfter, Raised;
    HistoryIsNewestWords(events);
    var history, raises := ErrorsAfter(events).history, Raised(events);
    forall i | 0 <= i < |history| ensures raises[i].Raise? && history[i] as int == raises[i].code as int {
      CodeNumber(history[i], raises[i].code);
    }
  }

  /** Register and field together tell exactly the raises since the last clear. */
  ghost predicate Explains(s: ErrorState, events: seq<ErrorEvent>) {
    && Newest(s.history, Raised(events))
    && forall mask :: s.register & mask != 0 <==> SomeRaised(Raised(events), mask)
  }

  lemma ErrorsExplained(events: seq<ErrorEvent>)
    ensures Explains(ErrorsAfter(events), events)
  {
    hide ErrorsAfter, Raised, Newest, SomeRaised;
    HistoryIsNewest(events);
    forall mask ensures ErrorsAfter(events).register & mask != 0 <==> SomeRaised(Raised(events), mask) {
      RegisterIsUnion(events, mask);
    }
  }

  // --- What a master reads --------------------------------------------------

  /**
    The object at `a` in the error field: how many entries there are at subindex 0, and at subindex
    i + 1 the code of the i-th newest raise.
   */
  predicate ShowsNumber(od: Dict, a: Address, raises: seq<ErrorEvent>, n: nat)
    requires a.subindex as int <= n <= |raises|
  {
    && a in od
    && (a.subindex as int == 0 ==> od[a].value.Unsigned8? && od[a].value.u8 as int == n)
    && (a.subindex as int > 0 ==>
          && od[a].value.Unsigned32? && raises[a.subindex as int - 1].Raise?
          && od[a].value.u32 as int == raises[a.subindex as int - 1].code as int)
  }

  /** The objects 0x1001 and 0x1003 as a master reads them. */
  ghost predicate ReadsAs(od: Dict, register: byte, raises: seq<ErrorEvent>) {
    && var n := if |raises| < 8 then |raises| else 8;
    && (forall a: Address :: a.index as int == 0x1001 && a.subindex as int == 0 ==>
          a in od && od[a].value == Unsigned8(register))
    && (forall a: Address :: a.index as int == 0x1003 && a.subindex as int <= n ==> ShowsNumber(od, a, raises, n))
  }

  lemma IndexNumbers(index: bv16)
    ensures index as int == 0x1001 ==> index == 0x1001
    ensures index as int == 0x1003 ==> index == 0x1003
  {
    assert (index as int) as bv16 == index;
  }

  lemma SubindexIsSub(index: bv16, b: byte)
    ensures 0 <= b as int <= 255 && Address(index, b) == Sub(index, b as int)
    ensures b as int == 0 ==> b == 0
  {
    assert (b as int) as byte == b;
  }

  lemma ShownNumber(od: Dict, register: byte, history: History, raises: seq<ErrorEvent>, a: Address)
    requires ShowsErrors(od, register, history) && Newest(history, raises)
    requires a.index == 0x1003 && a.subindex as int <= |history|
    ensures ShowsNumber(od, a, raises, |history|)
  {
    hide Sub;
    SubindexIsSub(0x1003, a.subindex);
    var k := a.subindex as int;
    if k == 0 {
      ByteRoundTrip(|history|);
    } else {
      assert HoldsWord(od, ERROR_FIELD_INDEX, history, k);
    }
  }

  /** Objects that show register and field read as the raises since the last clear. */
  lemma ShownReads(od: Dict, s: ErrorState, raises: seq<ErrorEvent>)
    requires ShowsErrors(od, s.register, s.history) && Newest(s.history, raises)
    ensures ReadsAs(od, s.register, raises)
  {
    hide ShowsNumber, Sub;
    forall a: Address | a.index as int == 0x1001 && a.subindex as int == 0
      ensures a in od && od[a].value == Unsigned8(s.register)
    {
      IndexNumbers(a.index);
      SubindexIsSub(a.index, a.subindex);
      assert a == ERROR_REGISTER;
    }
    forall a: Address | a.index as int == 0x1003 && a.subindex as int <= |s.history|
      ensures ShowsNumber(od, a, raises, |s.history|)
    {
      IndexNumbers(a.index);
      ShownNumber(od, s.register, s.history, raises, a);
    }
  }
}
