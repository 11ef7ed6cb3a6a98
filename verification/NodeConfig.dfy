/**
  Configuring a node's PDOs over the bus (core/src/node.rs): a client writes a mapping record object
  by object, other traffic in between, and the node then reads its PDO parameters.
 */
module NodeConfig {
  import opened Wrappers
  import opened Bytes
  import opened Datatypes
  import opened ObjectDictionaries
  import opened Pdo
  import opened PdoConfig
  import opened Records
  import opened Nodes
  import opened NodeGating
  import opened NodeSdo
  import C = SdoClients
  import R = SdoRoundTrip

  // --- What PDO configuration depends on ------------------------------------

  /** The indexes of PDO j's parameters. */
  predicate IndexOfPdo(j: nat, index: bv16)
    requires j < MAX_PDOS
  {
    || index == RPDO_COMMUNICATION + PdoOffset(j) || index == RPDO_MAPPING + PdoOffset(j)
    || index == TPDO_COMMUNICATION + PdoOffset(j) || index == TPDO_MAPPING + PdoOffset(j)
  }

  predicate IsPdoParameter(x: Address) {
    exists j :: 0 <= j < MAX_PDOS && IndexOfPdo(j, x.index)
  }

  predicate AgreesAt(a: Dict, b: Dict, x: Address) {
    (x in a <==> x in b) && (x in a ==> a[x] == b[x])
  }

  ghost predicate AgreeOnParameters(a: Dict, b: Dict) {
    forall x :: IsPdoParameter(x) ==> AgreesAt(a, b, x)
  }

  lemma ParameterOf(j: nat, x: Address)
    requires j < MAX_PDOS && IndexOfPdo(j, x.index)
    ensures IsPdoParameter(x)
  {
  }

  lemma AgreedReads(a: Dict, b: Dict, x: Address)
    requires AgreesAt(a, b, x)
    ensures WordAt(a, x) == WordAt(b, x) && ByteAt(a, x) == ByteAt(b, x)
  {
  }

  lemma AgreedMapping(a: Dict, b: Dict, j: nat, index: bv16)
    requires AgreeOnParameters(a, b) && j < MAX_PDOS && IndexOfPdo(j, index)
    ensures MappingAt(a, index) == MappingAt(b, index)
  {
    hide IndexOfPdo, EntriesAt;
    forall k | 0 <= k <= 255 ensures SameSub(a, b, index, k) {
      ParameterOf(j, Sub(index, k));
      assert AgreesAt(a, b, Sub(index, k));
    }
    AgreedReads(a, b, Sub(index, 0));
    if ByteAt(a, Sub(index, 0)).Some? {
      EntriesLocal(a, b, index, ByteAt(a, Sub(index, 0)).value as nat);
    }
  }

  /** Two dictionaries with the same PDO parameters configure the same PDOs. */
  lemma ParametersDecide(a: Dict, b: Dict, j: nat)
    requires AgreeOnParameters(a, b) && j < MAX_PDOS
    ensures RpdoAt(a, j) == RpdoAt(b, j) && TpdoAt(a, j) == TpdoAt(b, j)
  {
    var r, t := RPDO_COMMUNICATION + PdoOffset(j), TPDO_COMMUNICATION + PdoOffset(j);
    hide MappingAt, WordAt, ByteAt, PdoOffset;
    ParameterOf(j, Address(r, 1));
    ParameterOf(j, Address(t, 1));
    ParameterOf(j, Address(t, 2));
    AgreedReads(a, b, Address(r, 1));
    AgreedReads(a, b, Address(t, 1));
    AgreedReads(a, b, Address(t, 2));
    AgreedMapping(a, b, j, RPDO_MAPPING + PdoOffset(j));
    AgreedMapping(a, b, j, TPDO_MAPPING + PdoOffset(j));
  }

  // --- Writing a record -----------------------------------------------------

  /** Traffic that no process data maps to a PDO parameter. */
  ghost predicate SparesParameters(nodeId: byte, rpdos: seq<RpdoSlot>, fs: seq<Other>) {
    forall x :: IsPdoParameter(x) ==> AllHarmless(nodeId, rpdos, x, fs)
  }

  lemma OneRoundHarmless(nodeId: byte, rpdos: seq<RpdoSlot>, x: Address, fs: seq<Other>)
    requires AllHarmless(nodeId, rpdos, x, fs)
    ensures RoundsHarmless(nodeId, rpdos, x, [fs])
  {
    hide AllHarmless;
  }

  /** One more parameter written, with traffic before the exchange. */
  lemma ParameterWritten(d: Device, expected: Dict, addr: Address, v: Value, fs: seq<Other>)
    requires Serves(d) && AgreeOnParameters(d.od, expected) && SparesParameters(d.nodeId, d.rpdos, fs)
    requires IsPdoParameter(addr) && C.Expedites(v)
    requires addr in expected && expected[addr].access.IsWritable() && expected[addr].value.Type() == v.Type()
    ensures var next := AfterWrite(d, addr, v, [fs]);
            && AgreeOnParameters(next.od, SetTo(expected, addr, v))
            && Serves(next) && next.nodeId == d.nodeId && next.rpdos == d.rpdos
  {
    hide AfterWrite, MayServe, AllHarmless, RoundsHarmless, IsPdoParameter, Value.Type;
    assert AgreesAt(d.od, expected, addr);
    OneRoundHarmless(d.nodeId, d.rpdos, addr, fs);
    WriteStores(d, addr, v, [fs]);
    var next := AfterWrite(d, addr, v, [fs]);
    forall x | IsPdoParameter(x) ensures AgreesAt(next.od, SetTo(expected, addr, v), x) {
      assert AgreesAt(d.od, expected, x);
      OneRoundHarmless(d.nodeId, d.rpdos, x, fs);
    }
  }

  /** The node after a client has written a record's count and then its first n words. */
  function AfterRecord(d: Device, index: bv16, words: Words, n: nat, between: seq<seq<Other>>): (next: Device)
    requires d.Valid() && n <= |words| && |between| == |words| + 1
    ensures next.Valid()
  {
    if n == 0 then AfterWrite(d, Sub(index, 0), Unsigned8(|words| as byte), [between[0]])
    else
      AfterWrite(AfterRecord(d, index, words, n - 1, between), Sub(index, n), Unsigned32(words[n - 1]), [between[n]])
  }

  ghost predicate WritableRecord(od: Dict, index: bv16, n: nat)
    requires n <= 255
  {
    Shaped(od, index, n) && forall k :: 0 <= k <= n ==> WritableSub(od, index, k)
  }

  predicate WritableSub(od: Dict, index: bv16, k: nat)
    requires k <= 255
  {
    Sub(index, k) in od && od[Sub(index, k)].access.IsWritable()
  }

  /** The dictionary with a record's count and its first n words. */
  function Expected(od: Dict, index: bv16, words: Words, n: nat): Dict
    requires n <= |words|
  {
    StoreWords(SetTo(od, Sub(index, 0), Unsigned8(|words| as byte)), index, words, n)
  }

  /** The next word of a record is still writable after the count and the words before it. */
  lemma NextWordWritable(od: Dict, index: bv16, words: Words, n: nat)
    requires 1 <= n <= |words| && WritableRecord(od, index, |words|)
    ensures var so := Expected(od, index, words, n - 1);
            && Sub(index, n) in so && so[Sub(index, n)].access.IsWritable()
            && so[Sub(index, n)].value.Type() == Unsigned32Type
  {
    hide Sub, SetTo, StoreWords;
    assert ShapedWord(od, index, n) && WritableSub(od, index, n);
    hide WritableRecord, Shaped, HoldsWord;
    CountStored(od, index, words);
    StoreWordsEffect(SetTo(od, Sub(index, 0), Unsigned8(|words| as byte)), index, words, n - 1);
  }

  lemma AgreesWithItself(od: Dict)
    ensures AgreeOnParameters(od, od)
  {
  }

  lemma {:induction false} RecordWritten(
    d: Device, j: nat, index: bv16, words: Words, n: nat, between: seq<seq<Other>>)
    requires Serves(d) && n <= |words| && |between| == |words| + 1 && j < MAX_PDOS && IndexOfPdo(j, index)
    requires WritableRecord(d.od, index, |words|)
    requires forall i :: 0 <= i < |between| ==> SparesParameters(d.nodeId, d.rpdos, between[i])
    ensures var next := AfterRecord(d, index, words, n, between);
            && AgreeOnParameters(next.od, Expected(d.od, index, words, n))
            && Serves(next) && next.nodeId == d.nodeId && next.rpdos == d.rpdos
  {
    hide MayServe, AfterWrite, Sub, WritableRecord, AgreeOnParameters, SparesParameters, IndexOfPdo;
    SubIndexOf(index, n);
    ParameterOf(j, Sub(index, n));
    if n == 0 {
      CountWritable(d.od, index, |words|);
      AgreesWithItself(d.od);
      ParameterWritten(d, d.od, Sub(index, 0), Unsigned8(|words| as byte), between[0]);
    } else {
      RecordWritten(d, j, index, words, n - 1, between);
      NextWordWritable(d.od, index, words, n);
      var before := AfterRecord(d, index, words, n - 1, between);
      var expected := Expected(d.od, index, words, n - 1);
      ParameterWritten(before, expected, Sub(index, n), Unsigned32(words[n - 1]), between[n]);
    }
  }

  lemma SubIndexOf(index: bv16, n: nat)
    requires n <= 255
    ensures Sub(index, n).index == index
  {
  }

  lemma CountWritable(od: Dict, index: bv16, n: nat)
    requires n <= 255 && WritableRecord(od, index, n)
    ensures Sub(index, 0) in od && od[Sub(index, 0)].access.IsWritable() && od[Sub(index, 0)].value.Unsigned8?
  {
    hide Sub;
    assert WritableSub(od, index, 0);
  }

  // --- Configuration over the bus -------------------------------------------

  lemma SlotsAgree(a: Dict, b: Dict)
    requires AgreeOnParameters(a, b)
    ensures RpdosAt(a, MAX_PDOS) == RpdosAt(b, MAX_PDOS) && TpdosAt(a, MAX_PDOS) == TpdosAt(b, MAX_PDOS)
  {
    hide AgreeOnParameters, RpdoAt, TpdoAt;
    forall j | 0 <= j < MAX_PDOS ensures RpdoAt(a, j) == RpdoAt(b, j) && TpdoAt(a, j) == TpdoAt(b, j) {
      ParametersDecide(a, b, j);
    }
  }

  /**
    A client that writes a mapping into receive PDO k's parameter record, whatever harmless traffic
    comes between its writes, and a node that then configures its PDOs: the slot has that mapping
    under the PDO's CAN identifier, or there is none if the PDO is invalid, and every other PDO is
    configured as before.
   */
  lemma ConfiguredOverBus(d: Device, k: nat, mapping: Mapping, between: seq<seq<Other>>)
    requires Serves(d) && k < MAX_PDOS && |between| == |mapping| + 1
    requires forall i :: 0 <= i < |between| ==> SparesParameters(d.nodeId, d.rpdos, between[i])
    requires WritableRecord(d.od, RPDO_MAPPING + PdoOffset(k), |mapping|)
    requires Readable(d.od, RPDO_MAPPING + PdoOffset(k), |mapping|)
    ensures var written := AfterRecord(d, RPDO_MAPPING + PdoOffset(k), WordsOf(mapping), |mapping|, between);
            var word, slot := WordAt(d.od, Address(RPDO_COMMUNICATION + PdoOffset(k), 1)), RpdoAt(written.od, k);
            && PdosConfigured(written).rpdos == Present(RpdosAt(d.od, MAX_PDOS)[k := slot])
            && PdosConfigured(written).tpdos == ConfiguredTpdos(d.od)
            && (slot.Some? <==> word.Some? && word.value as int < 0x8000_0000)
            && (slot.Some? ==> slot.value.mapping == mapping && slot.value.cobId as int == word.value as int % 0x800)
  {
    hide MayServe, AfterWrite, AfterRecord, Sub, StoreWords, RpdoAt, TpdoAt, WordAt, CanId, IsValidPdo, PdoOffset,
      Present, Shaped, WritableSub, Readable, SparesParameters, AgreeOnParameters;
    var index := RPDO_MAPPING + PdoOffset(k);
    var after := StoreRecord(d.od, index, WordsOf(mapping));
    RecordWritten(d, k, index, WordsOf(mapping), |mapping|, between);
    RpdoConfigurationRoundTrip(d.od, k, mapping);
    SlotsAgree(AfterRecord(d, index, WordsOf(mapping), |mapping|, between).od, after);
    var written := AfterRecord(d, index, WordsOf(mapping), |mapping|, between);
    assert RpdoAt(written.od, k) == RpdosAt(written.od, MAX_PDOS)[k] == RpdosAt(after, MAX_PDOS)[k];
    assert RpdosAt(after, MAX_PDOS) == RpdosAt(d.od, MAX_PDOS)[k := RpdoAt(after, k)];
    assert TpdosAt(after, MAX_PDOS) == TpdosAt(d.od, MAX_PDOS);
  }

  /** The same for transmit PDO k, which also keeps its transmission type. */
  lemma TransmitConfiguredOverBus(d: Device, k: nat, mapping: Mapping, between: seq<seq<Other>>)
    requires Serves(d) && k < MAX_PDOS && |between| == |mapping| + 1
    requires forall i :: 0 <= i < |between| ==> SparesParameters(d.nodeId, d.rpdos, between[i])
    requires WritableRecord(d.od, TPDO_MAPPING + PdoOffset(k), |mapping|)
    requires Readable(d.od, TPDO_MAPPING + PdoOffset(k), |mapping|)
    ensures var written := AfterRecord(d, TPDO_MAPPING + PdoOffset(k), WordsOf(mapping), |mapping|, between);
            var word, slot := WordAt(d.od, Address(TPDO_COMMUNICATION + PdoOffset(k), 1)), TpdoAt(written.od, k);
            && PdosConfigured(written).tpdos == Present(TpdosAt(d.od, MAX_PDOS)[k := slot])
            && PdosConfigured(written).rpdos == ConfiguredRpdos(d.od)
            && (slot.Some? <==> word.Some? && word.value as int < 0x8000_0000)
            && (slot.Some? ==>
                  && slot.value.mapping == mapping && slot.value.cobId as int == word.value as int % 0x800
                  && slot.value.transmission == TransmissionAt(d.od, TPDO_COMMUNICATION + PdoOffset(k)))
  {
    hide MayServe, AfterWrite, AfterRecord, Sub, StoreWords, RpdoAt, TpdoAt, WordAt, CanId, IsValidPdo, PdoOffset,
      Present, Shaped, WritableSub, Readable, SparesParameters, AgreeOnParameters, TransmissionAt;
    var index := TPDO_MAPPING + PdoOffset(k);
    var after := StoreRecord(d.od, index, WordsOf(mapping));
    RecordWritten(d, k, index, WordsOf(mapping), |mapping|, between);
    TpdoConfigurationRoundTrip(d.od, k, mapping);
    SlotsAgree(AfterRecord(d, index, WordsOf(mapping), |mapping|, between).od, after);
    var written := AfterRecord(d, index, WordsOf(mapping), |mapping|, between);
    assert TpdoAt(written.od, k) == TpdosAt(written.od, MAX_PDOS)[k] == TpdosAt(after, MAX_PDOS)[k];
    assert TpdosAt(after, MAX_PDOS) == TpdosAt(d.od, MAX_PDOS)[k := TpdoAt(after, k)];
    assert RpdosAt(after, MAX_PDOS) == RpdosAt(d.od, MAX_PDOS);
  }
}
