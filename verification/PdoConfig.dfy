/** Reading PDO parameters out of the dictionary (core/src/node.rs, core/src/pdo.rs). */
module PdoConfig {
  import opened Wrappers
  import opened Bytes
  import opened ObjectDictionaries
  import opened Pdo
  import opened Records

  const MAX_PDOS: nat := 4
  const MAX_PDO_MAPPING: nat := 8
  const PDO_COB_ID_INVALID: bv32 := 0x8000_0000

  const RPDO_COMMUNICATION: bv16 := 0x1400
  const RPDO_MAPPING: bv16 := 0x1600
  const TPDO_COMMUNICATION: bv16 := 0x1800
  const TPDO_MAPPING: bv16 := 0x1A00

  type Mapping = es: seq<MappingEntry> | |es| <= MAX_PDO_MAPPING && TotalBits(es) <= FRAME_BITS witness []

  datatype TransmissionType =
    | SynchronousAcyclic
    | SynchronousCyclic(n: byte)
    | SynchronousRtrOnly
    | EventDrivenRtrOnly
    | EventDrivenManufacturer
    | EventDrivenProfile
  {
    function ToByte(): byte {
      match this
      case SynchronousAcyclic => 0
      case SynchronousCyclic(n) => n
      case SynchronousRtrOnly => 252
      case EventDrivenRtrOnly => 253
      case EventDrivenManufacturer => 254
      case EventDrivenProfile => 255
    }

    predicate IsSynchronous() {
      SynchronousAcyclic? || SynchronousCyclic?
    }
  }

  /** The types 241 to 251 are reserved. */
  function TransmissionFromByte(b: byte): Result<TransmissionType> {
    if b == 0 then Ok(SynchronousAcyclic)
    else if b <= 240 then Ok(SynchronousCyclic(b))
    else if b == 252 then Ok(SynchronousRtrOnly)
    else if b == 253 then Ok(EventDrivenRtrOnly)
    else if b == 254 then Ok(EventDrivenManufacturer)
    else if b == 255 then Ok(EventDrivenProfile)
    else Err(UnsupportedTransfer)
  }

  lemma TransmissionRoundTrip(b: byte)
    ensures TransmissionFromByte(b).Ok? <==> b < 241 || b > 251
    ensures TransmissionFromByte(b).Err? ==> TransmissionFromByte(b) == Err(UnsupportedTransfer)
    ensures TransmissionFromByte(b).Ok? ==> TransmissionFromByte(b).value.ToByte() == b
  {
  }

  datatype RpdoSlot = RpdoSlot(cobId: bv16, mapping: Mapping)

  datatype TpdoSlot = TpdoSlot(cobId: bv16, mapping: Mapping, transmission: TransmissionType)

  predicate IsValidPdo(cobId: bv32) {
    cobId & PDO_COB_ID_INVALID == 0
  }

  function CanId(cobId: bv32): bv16 {
    (cobId & 0x7FF) as bv16
  }

  /** Bit 31 of the COB-ID disables a PDO. */
  lemma ValidIsBelow(cobId: bv32)
    ensures IsValidPdo(cobId) <==> cobId as int < 0x8000_0000
  {
  }

  lemma SplitWord(w: bv32, hi: bv21, lo: bv11)
    requires w == ((hi as bv32) << 11) | (lo as bv32)
    ensures w as int == 2048 * (hi as int) + lo as int
  {
  }

  lemma WordSplits(w: bv32)
    ensures w == ((((w >> 11) as bv21) as bv32) << 11) | (((w & 0x7FF) as bv11) as bv32)
  {
  }

  lemma LowBits(w: bv32)
    ensures CanId(w) as int == ((w & 0x7FF) as bv11) as int < 2048
  {
  }

  /** The CAN identifier is the COB-ID modulo 2048. */
  lemma CanIdNumber(cobId: bv32)
    ensures CanId(cobId) as int == cobId as int % 0x800
  {
    hide CanId;
    var hi, lo := (cobId >> 11) as bv21, (cobId & 0x7FF) as bv11;
    WordSplits(cobId);
    SplitWord(cobId, hi, lo);
    LowBits(cobId);
    LowPart(hi as int, lo as int);
  }

  lemma LowPart(hi: int, lo: int)
    requires 0 <= lo < 2048
    ensures (2048 * hi + lo) % 0x800 == lo
  {
  }

  /** The offset of PDO k's parameters from those of PDO 0. */
  function PdoOffset(k: nat): bv16
    requires k < MAX_PDOS
  {
    match k
    case 0 => 0
    case 1 => 1
    case 2 => 2
    case _ => 3
  }

  function WordAt(od: Dict, addr: Address): Option<bv32> {
    match ReadValue(od, addr)
    case Ok(Unsigned32(v)) => Some(v)
    case _ => None
  }

  function ByteAt(od: Dict, addr: Address): Option<byte> {
    match ReadValue(od, addr)
    case Ok(Unsigned8(v)) => Some(v)
    case _ => None
  }

  /** The mapping with one more entry read from its record, if that entry is there and fits. */
  function Extended(before: Mapping, raw: Option<bv32>): Option<Mapping> {
    match raw
    case None => None
    case Some(word) =>
      if PushResult(before, MAX_PDO_MAPPING, FromU32(word)).Err? then None
      else
        TotalBitsAppend(before, FromU32(word));
        Some(before + [FromU32(word)])
  }

  function EntriesAt(od: Dict, index: bv16, n: nat): Option<Mapping>
    requires n <= 255
  {
    if n == 0 then Some([])
    else
      match EntriesAt(od, index, n - 1)
      case None => None
      case Some(before) => Extended(before, WordAt(od, Sub(index, n)))
  }

  function MappingAt(od: Dict, index: bv16): Option<Mapping> {
    match ByteAt(od, Sub(index, 0))
    case None => None
    case Some(count) => EntriesAt(od, index, count as nat)
  }

  function RpdoAt(od: Dict, k: nat): Option<RpdoSlot>
    requires k < MAX_PDOS
  {
    match WordAt(od, Address(RPDO_COMMUNICATION + PdoOffset(k), 1))
    case None => None
    case Some(cobId) =>
      if !IsValidPdo(cobId) then None
      else
        match MappingAt(od, RPDO_MAPPING + PdoOffset(k))
        case None => None
        case Some(mapping) => Some(RpdoSlot(CanId(cobId), mapping))
  }

  /** The transmission type at communication subindex 2; event-driven when absent or reserved. */
  function TransmissionAt(od: Dict, index: bv16): TransmissionType {
    match ByteAt(od, Address(index, 2))
    case None => EventDrivenProfile
    case Some(b) => if TransmissionFromByte(b).Ok? then TransmissionFromByte(b).value else EventDrivenProfile
  }

  function TpdoAt(od: Dict, k: nat): Option<TpdoSlot>
    requires k < MAX_PDOS
  {
    match WordAt(od, Address(TPDO_COMMUNICATION + PdoOffset(k), 1))
    case None => None
    case Some(cobId) =>
      if !IsValidPdo(cobId) then None
      else
        match MappingAt(od, TPDO_MAPPING + PdoOffset(k))
        case None => None
        case Some(mapping) =>
          Some(TpdoSlot(CanId(cobId), mapping, TransmissionAt(od, TPDO_COMMUNICATION + PdoOffset(k))))
  }

  function RpdosAt(od: Dict, n: nat): seq<Option<RpdoSlot>>
    requires n <= MAX_PDOS
  {
    seq(n, k requires 0 <= k < n => RpdoAt(od, k))
  }

  function TpdosAt(od: Dict, n: nat): seq<Option<TpdoSlot>>
    requires n <= MAX_PDOS
  {
    seq(n, k requires 0 <= k < n => TpdoAt(od, k))
  }

  lemma PdosNext(od: Dict, n: nat)
    requires n < MAX_PDOS
    ensures RpdosAt(od, n + 1) == RpdosAt(od, n) + [RpdoAt(od, n)]
    ensures TpdosAt(od, n + 1) == TpdosAt(od, n) + [TpdoAt(od, n)]
  {
    hide RpdoAt, TpdoAt;
  }

  /** The receive and transmit slots of a node configured from this dictionary. */
  function ConfiguredRpdos(od: Dict): (slots: seq<RpdoSlot>)
    ensures |slots| <= MAX_PDOS
  {
    Present(RpdosAt(od, MAX_PDOS))
  }

  function ConfiguredTpdos(od: Dict): (slots: seq<TpdoSlot>)
    ensures |slots| <= MAX_PDOS
  {
    Present(TpdosAt(od, MAX_PDOS))
  }

  // --- Reading a live dictionary --------------------------------------------

  method ReadWord(od: ObjectDictionary, addr: Address) returns (r: Option<bv32>)
    ensures r == WordAt(od.entries, addr)
  {
    var value := od.Read(addr);
    match value
    case Ok(Unsigned32(v)) => return Some(v);
    case _ => return None;
  }

  method ReadByte(od: ObjectDictionary, addr: Address) returns (r: Option<byte>)
    ensures r == ByteAt(od.entries, addr)
  {
    var value := od.Read(addr);
    match value
    case Ok(Unsigned8(v)) => return Some(v);
    case _ => return None;
  }

  lemma {:induction false} EntriesStopEarly(od: Dict, index: bv16, k: nat, n: nat)
    requires k <= n <= 255 && EntriesAt(od, index, k).None?
    ensures EntriesAt(od, index, n).None?
  {
    if k < n {
      EntriesStopEarly(od, index, k, n - 1);
    }
  }

  method ReadPdoMapping(od: ObjectDictionary, index: bv16) returns (r: Option<Mapping>)
    ensures r == MappingAt(od.entries, index)
  {
    var count := ReadByte(od, Sub(index, 0));
    if count.None? {
      return None;
    }
    r := ReadEntries(od, index, count.value as nat);
    hide Sub, EntriesAt, ByteAt;
  }

  method ReadEntries(od: ObjectDictionary, index: bv16, n: nat) returns (r: Option<Mapping>)
    requires n <= 255
    ensures r == EntriesAt(od.entries, index, n)
  {
    var mapping := new PdoMapping(MAX_PDO_MAPPING);
    for sub := 1 to n + 1
      invariant fresh(mapping) && mapping.Valid() && mapping.capacity == MAX_PDO_MAPPING
      invariant EntriesAt(od.entries, index, sub - 1) == Some(mapping.entries)
    {
      hide FromU32, WordAt, Sub, TotalBits;
      var raw := ReadWord(od, Sub(index, sub));
      if raw.None? {
        EntriesStopEarly(od.entries, index, sub, n);
        return None;
      }
      var pushed := mapping.Push(FromU32(raw.value));
      if pushed.Err? {
        EntriesStopEarly(od.entries, index, sub, n);
        return None;
      }
    }
    return Some(mapping.entries);
  }

  method BuildRpdo(od: ObjectDictionary, k: nat) returns (slot: Option<RpdoSlot>)
    requires k < MAX_PDOS
    ensures slot == RpdoAt(od.entries, k)
  {
    hide WordAt, MappingAt, CanId, IsValidPdo, PdoOffset;
    var cobId := ReadWord(od, Address(RPDO_COMMUNICATION + PdoOffset(k), 1));
    if cobId.None? || !IsValidPdo(cobId.value) {
      return None;
    }
    var mapping := ReadPdoMapping(od, RPDO_MAPPING + PdoOffset(k));
    return if mapping.Some? then Some(RpdoSlot(CanId(cobId.value), mapping.value)) else None;
  }

  method BuildTpdo(od: ObjectDictionary, k: nat) returns (slot: Option<TpdoSlot>)
    requires k < MAX_PDOS
    ensures slot == TpdoAt(od.entries, k)
  {
    hide WordAt, ByteAt, MappingAt, CanId, IsValidPdo, PdoOffset, TransmissionFromByte;
    var cobId := ReadWord(od, Address(TPDO_COMMUNICATION + PdoOffset(k), 1));
    if cobId.None? || !IsValidPdo(cobId.value) {
      return None;
    }
    var transmission := EventDrivenProfile;
    var b := ReadByte(od, Address(TPDO_COMMUNICATION + PdoOffset(k), 2));
    if b.Some? && TransmissionFromByte(b.value).Ok? {
      transmission := TransmissionFromByte(b.value).value;
    }
    var mapping := ReadPdoMapping(od, TPDO_MAPPING + PdoOffset(k));
    return if mapping.Some? then Some(TpdoSlot(CanId(cobId.value), mapping.value, transmission)) else None;
  }

  method BuildPdos(od: ObjectDictionary) returns (rpdos: seq<RpdoSlot>, tpdos: seq<TpdoSlot>)
    ensures rpdos == ConfiguredRpdos(od.entries) && tpdos == ConfiguredTpdos(od.entries)
  {
    rpdos, tpdos := [], [];
    for k := 0 to MAX_PDOS
      invariant rpdos == Present(RpdosAt(od.entries, k)) && tpdos == Present(TpdosAt(od.entries, k))
    {
      PdosNext(od.entries, k);
      hide RpdoAt, TpdoAt;
      var r := BuildRpdo(od, k);
      if r.Some? {
        rpdos := rpdos + [r.value];
      }
      var t := BuildTpdo(od, k);
      if t.Some? {
        tpdos := tpdos + [t.value];
      }
    }
  }

  // --- Configuration round trip ---------------------------------------------

  /** The mapping values of a mapping, as its parameter record stores them. */
  function WordsOf(mapping: Mapping): (words: Words)
    ensures |words| == |mapping|
  {
    seq(|mapping|, i requires 0 <= i < |mapping| => mapping[i].ToU32())
  }

  ghost predicate Readable(od: Dict, index: bv16, n: nat)
    requires n <= 255
  {
    forall k :: 0 <= k <= n ==> ReadableSub(od, index, k)
  }

  predicate ReadableSub(od: Dict, index: bv16, k: nat)
    requires k <= 255
  {
    Sub(index, k) in od && od[Sub(index, k)].access.IsReadable()
  }

  /** Pushing the next entry of a valid mapping never fails. */
  lemma ExtendsToNext(mapping: Mapping, n: nat)
    requires n < |mapping|
    ensures TotalBits(mapping[..n]) <= FRAME_BITS && TotalBits(mapping[..n + 1]) <= FRAME_BITS
    ensures Extended(mapping[..n], Some(mapping[n].ToU32())) == Some(mapping[..n + 1])
  {
    TotalBitsPrefix(mapping, n);
    TotalBitsPrefix(mapping, n + 1);
    assert mapping[..n + 1][..n] == mapping[..n];
    assert mapping[..n] + [mapping[n]] == mapping[..n + 1];
    MappingValueRoundTrip(mapping[n]);
    hide FromU32, MappingEntry.ToU32;
  }

  lemma WordReads(od: Dict, index: bv16, words: Words, k: nat)
    requires 1 <= k <= |words|
    ensures HoldsWord(od, index, words, k) && ReadableSub(od, index, k) ==>
              WordAt(od, Sub(index, k)) == Some(words[k - 1])
    ensures WordAt(od, Sub(index, k)) == Some(words[k - 1]) ==>
              HoldsWord(od, index, words, k) && ReadableSub(od, index, k)
  {
    hide Sub;
  }

  /** The entries read back are those stored. */
  lemma {:induction false} EntriesRebuilt(od: Dict, index: bv16, mapping: Mapping, n: nat)
    requires n <= |mapping| && HoldsRecord(od, index, WordsOf(mapping)) && Readable(od, index, |mapping|)
    ensures TotalBits(mapping[..n]) <= FRAME_BITS
    ensures EntriesAt(od, index, n) == Some(mapping[..n])
  {
    if n > 0 {
      EntriesRebuilt(od, index, mapping, n - 1);
      ExtendsToNext(mapping, n - 1);
      WordReads(od, index, WordsOf(mapping), n);
      hide TotalBits, Sub, WordAt, HoldsWord, ReadableSub, Extended, MappingEntry.ToU32;
    }
  }

  /** What is read is what the record stores, entry by entry. */
  lemma {:induction false} EntriesStored(od: Dict, index: bv16, n: nat)
    requires n <= 255 && EntriesAt(od, index, n).Some?
    ensures n <= MAX_PDO_MAPPING
    ensures var mapping := EntriesAt(od, index, n).value;
            && |mapping| == n
            && forall k :: 1 <= k <= n ==> ReadableSub(od, index, k) && HoldsWord(od, index, WordsOf(mapping), k)
  {
    if n > 0 {
      EntriesStored(od, index, n - 1);
      var before, mapping := EntriesAt(od, index, n - 1).value, EntriesAt(od, index, n).value;
      MappingWordRoundTrip(WordAt(od, Sub(index, n)).value);
      WordReads(od, index, WordsOf(mapping), n);
      hide FromU32, Sub, WordAt, TotalBits;
      forall k | 1 <= k <= n ensures ReadableSub(od, index, k) && HoldsWord(od, index, WordsOf(mapping), k) {
        if k < n {
          assert HoldsWord(od, index, WordsOf(before), k) && ReadableSub(od, index, k);
        }
      }
    }
  }

  lemma StoredMappingRead(od: Dict, index: bv16, mapping: Mapping)
    requires HoldsRecord(od, index, WordsOf(mapping)) && Readable(od, index, |mapping|)
    ensures MappingAt(od, index) == Some(mapping)
  {
    ByteRoundTrip(|mapping|);
    EntriesRebuilt(od, index, mapping, |mapping|);
    assert ReadableSub(od, index, 0) && mapping[..|mapping|] == mapping;
    hide EntriesAt, Sub, HoldsWord, WordsOf;
  }

  lemma ReadMappingStored(od: Dict, index: bv16)
    requires MappingAt(od, index).Some?
    ensures var mapping := MappingAt(od, index).value;
            HoldsRecord(od, index, WordsOf(mapping)) && Readable(od, index, |mapping|)
  {
    var count := ByteAt(od, Sub(index, 0)).value;
    CountIsNumber(count);
    EntriesStored(od, index, count as nat);
    hide EntriesAt, Sub, HoldsWord, WordsOf;
  }

  /**
    A PDO's mapping is read from the dictionary exactly when its parameter record is readable and
    stores the mapping: as many entries as it counts, each as its mapping value.
   */
  lemma MappingReadIffStored(od: Dict, index: bv16, mapping: Mapping)
    ensures MappingAt(od, index) == Some(mapping) <==>
            HoldsRecord(od, index, WordsOf(mapping)) && Readable(od, index, |mapping|)
  {
    if MappingAt(od, index) == Some(mapping) {
      ReadMappingStored(od, index);
    } else if HoldsRecord(od, index, WordsOf(mapping)) && Readable(od, index, |mapping|) {
      StoredMappingRead(od, index, mapping);
      assert false;
    }
    hide MappingAt, HoldsRecord, Readable;
  }

  lemma CountIsNumber(b: byte)
    ensures (b as int) as byte == b
  {
  }

  /** A mapping depends on nothing outside its own record. */
  lemma {:induction false} EntriesLocal(before: Dict, after: Dict, index: bv16, n: nat)
    requires n <= 255 && forall k :: 0 <= k <= 255 ==> SameSub(before, after, index, k)
    ensures EntriesAt(after, index, n) == EntriesAt(before, index, n)
  {
    if n > 0 {
      EntriesLocal(before, after, index, n - 1);
      WordLocal(before, after, index, n);
      hide Extended, Sub, SameSub, WordAt;
    }
  }

  lemma WordLocal(before: Dict, after: Dict, index: bv16, n: nat)
    requires n <= 255 && SameSub(before, after, index, n)
    ensures WordAt(after, Sub(index, n)) == WordAt(before, Sub(index, n))
  {
    hide Sub;
  }

  predicate SameSub(before: Dict, after: Dict, index: bv16, k: nat)
    requires k <= 255
  {
    && (Sub(index, k) in before <==> Sub(index, k) in after)
    && (Sub(index, k) in before ==> after[Sub(index, k)] == before[Sub(index, k)])
  }

  lemma MappingLocal(before: Dict, after: Dict, changed: bv16, n: nat, index: bv16)
    requires n <= 255 && ChangesOnlyRecord(before, after, changed, n) && index != changed
    ensures MappingAt(after, index) == MappingAt(before, index)
  {
    forall k | 0 <= k <= 255 ensures SameSub(before, after, index, k) {
    }
    if ByteAt(before, Sub(index, 0)).Some? {
      EntriesLocal(before, after, index, ByteAt(before, Sub(index, 0)).value as nat);
    }
    assert SameSub(before, after, index, 0);
    hide EntriesAt;
  }

  /** A parameter outside the record reads as before. */
  lemma ParameterLocal(before: Dict, after: Dict, changed: bv16, n: nat, addr: Address)
    requires n <= 255 && ChangesOnlyRecord(before, after, changed, n) && addr.index != changed
    ensures WordAt(after, addr) == WordAt(before, addr) && ByteAt(after, addr) == ByteAt(before, addr)
  {
  }

  lemma PdoIndexesDiffer(j: nat, k: nat)
    requires j < MAX_PDOS && k < MAX_PDOS
    ensures RPDO_COMMUNICATION + PdoOffset(j) !in {RPDO_MAPPING + PdoOffset(k), TPDO_MAPPING + PdoOffset(k)}
    ensures TPDO_COMMUNICATION + PdoOffset(j) !in {RPDO_MAPPING + PdoOffset(k), TPDO_MAPPING + PdoOffset(k)}
    ensures RPDO_MAPPING + PdoOffset(j) != TPDO_MAPPING + PdoOffset(k)
    ensures j != k ==> RPDO_MAPPING + PdoOffset(j) != RPDO_MAPPING + PdoOffset(k)
    ensures j != k ==> TPDO_MAPPING + PdoOffset(j) != TPDO_MAPPING + PdoOffset(k)
  {
  }

  lemma StoredRecordReadable(od: Dict, index: bv16, mapping: Mapping)
    requires Shaped(od, index, |mapping|) && Readable(od, index, |mapping|)
    ensures var after := StoreRecord(od, index, WordsOf(mapping));
            ChangesOnlyRecord(od, after, index, |mapping|) && MappingAt(after, index) == Some(mapping)
  {
    var after := StoreRecord(od, index, WordsOf(mapping));
    StoreRecordHolds(od, index, WordsOf(mapping));
    forall k | 0 <= k <= |mapping| ensures ReadableSub(after, index, k) {
      assert ReadableSub(od, index, k);
    }
    StoredMappingRead(after, index, mapping);
    hide MappingAt, StoreRecord, HoldsRecord, Sub;
  }

  /**
    Storing a mapping in receive PDO k's parameter record: configuration then finds that mapping
    under the PDO's CAN identifier, and every other PDO is as it was.
   */
  lemma RpdoConfigurationRoundTrip(od: Dict, k: nat, mapping: Mapping)
    requires k < MAX_PDOS
    requires Shaped(od, RPDO_MAPPING + PdoOffset(k), |mapping|) && Readable(od, RPDO_MAPPING + PdoOffset(k), |mapping|)
    ensures var after := StoreRecord(od, RPDO_MAPPING + PdoOffset(k), WordsOf(mapping));
            var cobId := WordAt(od, Address(RPDO_COMMUNICATION + PdoOffset(k), 1));
            && (RpdoAt(after, k).Some? <==> cobId.Some? && cobId.value as int < 0x8000_0000)
            && (RpdoAt(after, k).Some? ==>
                  && RpdoAt(after, k).value.mapping == mapping
                  && RpdoAt(after, k).value.cobId as int == cobId.value as int % 0x800)
            && (forall j :: 0 <= j < MAX_PDOS && j != k ==> RpdoAt(after, j) == RpdoAt(od, j))
            && (forall j :: 0 <= j < MAX_PDOS ==> TpdoAt(after, j) == TpdoAt(od, j))
  {
    hide MappingAt, StoreRecord, WordAt, ByteAt, PdoOffset, ChangesOnlyRecord, IsValidPdo, CanId;
    var index := RPDO_MAPPING + PdoOffset(k);
    var after := StoreRecord(od, index, WordsOf(mapping));
    StoredRecordReadable(od, index, mapping);
    PdoIndexesDiffer(k, k);
    ParameterLocal(od, after, index, |mapping|, Address(RPDO_COMMUNICATION + PdoOffset(k), 1));
    var cobId := WordAt(od, Address(RPDO_COMMUNICATION + PdoOffset(k), 1));
    if cobId.Some? {
      ValidIsBelow(cobId.value);
      CanIdNumber(cobId.value);
    }
    forall j | 0 <= j < MAX_PDOS && j != k ensures RpdoAt(after, j) == RpdoAt(od, j) {
      RpdoLocal(od, after, index, |mapping|, j, k);
    }
    forall j | 0 <= j < MAX_PDOS ensures TpdoAt(after, j) == TpdoAt(od, j) {
      PdoIndexesDiffer(j, k);
      PdoIndexesDiffer(k, j);
      TpdoLocal(od, after, index, |mapping|, j);
    }
  }

  lemma RpdoLocal(before: Dict, after: Dict, changed: bv16, n: nat, j: nat, k: nat)
    requires n <= 255 && j < MAX_PDOS && k < MAX_PDOS && ChangesOnlyRecord(before, after, changed, n)
    requires (j != k && changed == RPDO_MAPPING + PdoOffset(k)) || changed == TPDO_MAPPING + PdoOffset(k)
    ensures RpdoAt(after, j) == RpdoAt(before, j)
  {
    PdoIndexesDiffer(j, k);
    ParameterLocal(before, after, changed, n, Address(RPDO_COMMUNICATION + PdoOffset(j), 1));
    MappingLocal(before, after, changed, n, RPDO_MAPPING + PdoOffset(j));
    hide MappingAt, WordAt, ByteAt, PdoOffset, ChangesOnlyRecord;
  }

  lemma TpdoLocal(before: Dict, after: Dict, changed: bv16, n: nat, j: nat)
    requires n <= 255 && j < MAX_PDOS && ChangesOnlyRecord(before, after, changed, n)
    requires changed !in {TPDO_MAPPING + PdoOffset(j), TPDO_COMMUNICATION + PdoOffset(j)}
    ensures TpdoAt(after, j) == TpdoAt(before, j)
  {
    ParameterLocal(before, after, changed, n, Address(TPDO_COMMUNICATION + PdoOffset(j), 1));
    ParameterLocal(before, after, changed, n, Address(TPDO_COMMUNICATION + PdoOffset(j), 2));
    MappingLocal(before, after, changed, n, TPDO_MAPPING + PdoOffset(j));
    hide MappingAt, WordAt, ByteAt, PdoOffset, ChangesOnlyRecord;
  }

  lemma TpdoRebuilt(before: Dict, after: Dict, k: nat, mapping: Mapping)
    requires k < MAX_PDOS && ChangesOnlyRecord(before, after, TPDO_MAPPING + PdoOffset(k), |mapping|)
    requires MappingAt(after, TPDO_MAPPING + PdoOffset(k)) == Some(mapping)
    ensures var cobId := WordAt(before, Address(TPDO_COMMUNICATION + PdoOffset(k), 1));
            TpdoAt(after, k) == if cobId.Some? && IsValidPdo(cobId.value)
                                then Some(TpdoSlot(CanId(cobId.value), mapping,
                                                   TransmissionAt(before, TPDO_COMMUNICATION + PdoOffset(k))))
                                else None
  {
    var index := TPDO_MAPPING + PdoOffset(k);
    PdoIndexesDiffer(k, k);
    ParameterLocal(before, after, index, |mapping|, Address(TPDO_COMMUNICATION + PdoOffset(k), 1));
    ParameterLocal(before, after, index, |mapping|, Address(TPDO_COMMUNICATION + PdoOffset(k), 2));
    hide MappingAt, WordAt, ByteAt, PdoOffset, ChangesOnlyRecord, IsValidPdo, CanId;
  }

  /** The same for transmit PDO k, whose transmission type is kept. */
  lemma TpdoConfigurationRoundTrip(od: Dict, k: nat, mapping: Mapping)
    requires k < MAX_PDOS
    requires Shaped(od, TPDO_MAPPING + PdoOffset(k), |mapping|) && Readable(od, TPDO_MAPPING + PdoOffset(k), |mapping|)
    ensures var after := StoreRecord(od, TPDO_MAPPING + PdoOffset(k), WordsOf(mapping));
            var cobId := WordAt(od, Address(TPDO_COMMUNICATION + PdoOffset(k), 1));
            && (TpdoAt(after, k).Some? <==> cobId.Some? && cobId.value as int < 0x8000_0000)
            && (TpdoAt(after, k).Some? ==>
                  && TpdoAt(after, k).value.mapping == mapping
                  && TpdoAt(after, k).value.cobId as int == cobId.value as int % 0x800
                  && TpdoAt(after, k).value.transmission == TransmissionAt(od, TPDO_COMMUNICATION + PdoOffset(k)))
            && (forall j :: 0 <= j < MAX_PDOS && j != k ==> TpdoAt(after, j) == TpdoAt(od, j))
            && (forall j :: 0 <= j < MAX_PDOS ==> RpdoAt(after, j) == RpdoAt(od, j))
  {
    var index := TPDO_MAPPING + PdoOffset(k);
    var after := StoreRecord(od, index, WordsOf(mapping));
    StoredRecordReadable(od, index, mapping);
    TpdoRebuilt(od, after, k, mapping);
    var cobId := WordAt(od, Address(TPDO_COMMUNICATION + PdoOffset(k), 1));
    if cobId.Some? {
      ValidIsBelow(cobId.value);
      CanIdNumber(cobId.value);
    }
    hide IsValidPdo, CanId, TpdoAt, RpdoAt, MappingAt, StoreRecord, WordAt, PdoOffset, ChangesOnlyRecord,
      TransmissionAt;
    forall j | 0 <= j < MAX_PDOS && j != k ensures TpdoAt(after, j) == TpdoAt(od, j) {
      PdoIndexesDiffer(j, k);
      TpdoLocal(od, after, index, |mapping|, j);
    }
    forall j | 0 <= j < MAX_PDOS ensures RpdoAt(after, j) == RpdoAt(od, j) {
      RpdoLocal(od, after, index, |mapping|, j, k);
    }
  }

  /** The configured slots are exactly the PDOs that are valid and readable, in PDO order. */
  lemma ConfiguredInOrder(od: Dict) returns (rs: seq<nat>, ts: seq<nat>)
    ensures InOrder(RpdosAt(od, MAX_PDOS), ConfiguredRpdos(od), rs)
    ensures InOrder(TpdosAt(od, MAX_PDOS), ConfiguredTpdos(od), ts)
  {
    rs := PresentInOrder(RpdosAt(od, MAX_PDOS));
    ts := PresentInOrder(TpdosAt(od, MAX_PDOS));
    hide InOrder, Present;
  }
}
