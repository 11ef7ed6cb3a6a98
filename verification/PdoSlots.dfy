/**
  What makes a PDO slot, in the numbers of the dictionary (core/src/node.rs, core/src/pdo.rs): which
  objects, which values, which identifier.
 */
module PdoSlots {
  import opened Wrappers
  import opened Bytes
  import opened Datatypes
  import opened ObjectDictionaries
  import opened Pdo
  import opened Records
  import opened PdoConfig

  /** The number of a mapping entry: index, subindex and length in bits. */
  function EntryNumber(e: MappingEntry): int {
    0x1_0000 * (e.address.index as int) + 0x100 * (e.address.subindex as int) + e.bitLength as int
  }

  lemma EntryNumberStored(e: MappingEntry)
    ensures e.ToU32() as int == EntryNumber(e)
  {
    MappingWordNumber(MappingWord(e.address.index, e.address.subindex, e.bitLength),
                      e.address.index, e.address.subindex, e.bitLength);
  }

  lemma MappingWordNumber(w: bv32, i: bv16, s: byte, l: byte)
    requires w == ((i as bv32) << 16) | ((s as bv32) << 8) | (l as bv32)
    ensures w as int == 0x1_0000 * (i as int) + 0x100 * (s as int) + l as int
  {
  }

  lemma WordsEqual(v: bv32, w: bv32)
    requires v as int == w as int
    ensures v == w
  {
    assert (v as int) as bv32 == v && (w as int) as bv32 == w;
  }

  /**
    The object at `a` in the parameter record of a mapping: its entry count at subindex 0, the number
    of entry i at subindex i + 1, all readable.
   */
  predicate StoresNumber(od: Dict, a: Address, mapping: Mapping)
    requires a.subindex as int <= |mapping|
  {
    && a in od && od[a].access != Wo
    && (a.subindex as int == 0 ==> od[a].value.Unsigned8? && od[a].value.u8 as int == |mapping|)
    && (a.subindex as int > 0 ==>
          od[a].value.Unsigned32? && od[a].value.u32 as int == EntryNumber(mapping[a.subindex as int - 1]))
  }

  ghost predicate StoresMapping(od: Dict, index: bv16, mapping: Mapping) {
    forall a: Address :: a.index == index && a.subindex as int <= |mapping| ==> StoresNumber(od, a, mapping)
  }

  lemma SubNumber(index: bv16, k: nat)
    requires k <= 255
    ensures Sub(index, k).index == index && Sub(index, k).subindex as int == k
  {
    ByteRoundTrip(k);
  }

  lemma AddressIsSub(a: Address)
    ensures 0 <= a.subindex as int <= 255 && a == Sub(a.index, a.subindex as int)
  {
    CountIsNumber(a.subindex);
  }

  lemma NumberReadsWord(od: Dict, index: bv16, mapping: Mapping, k: nat)
    requires k <= |mapping|
    ensures Sub(index, k).subindex as int == k
    ensures StoresNumber(od, Sub(index, k), mapping) <==>
              && ReadableSub(od, index, k)
              && (k == 0 ==> od[Sub(index, 0)].value == Unsigned8(|mapping| as byte))
              && (k > 0 ==> HoldsWord(od, index, WordsOf(mapping), k))
  {
    hide Sub, EntryNumber, MappingEntry.ToU32;
    SubNumber(index, k);
    var a := Sub(index, k);
    if a in od {
      if k == 0 {
        CountSays(od[a].value, mapping);
      } else {
        WordSays(od[a].value, mapping[k - 1]);
      }
    }
  }

  lemma CountSays(v: Value, mapping: Mapping)
    ensures v.Unsigned8? && v.u8 as int == |mapping| <==> v == Unsigned8(|mapping| as byte)
  {
    ByteRoundTrip(|mapping|);
    if v.Unsigned8? {
      CountIsNumber(v.u8);
    }
  }

  lemma WordSays(v: Value, e: MappingEntry)
    ensures v.Unsigned32? && v.u32 as int == EntryNumber(e) <==> v == Unsigned32(e.ToU32())
  {
    hide EntryNumber, MappingEntry.ToU32;
    EntryNumberStored(e);
    if v.Unsigned32? && v.u32 as int == EntryNumber(e) {
      WordsEqual(v.u32, e.ToU32());
    }
  }

  lemma NumbersStored(od: Dict, index: bv16, mapping: Mapping)
    requires StoresMapping(od, index, mapping)
    ensures HoldsRecord(od, index, WordsOf(mapping)) && Readable(od, index, |mapping|)
  {
    hide Sub, StoresNumber, HoldsWord, ReadableSub, WordsOf;
    forall k | 0 <= k <= |mapping|
      ensures ReadableSub(od, index, k) && (k > 0 ==> HoldsWord(od, index, WordsOf(mapping), k))
    {
      SubNumber(index, k);
      NumberReadsWord(od, index, mapping, k);
      assert StoresNumber(od, Sub(index, k), mapping);
    }
    SubNumber(index, 0);
    NumberReadsWord(od, index, mapping, 0);
    assert StoresNumber(od, Sub(index, 0), mapping);
    ReadableIsThere(od, index, 0);
  }

  /** A stored mapping is one whose numbers are in its record. */
  lemma StoresMappingIff(od: Dict, index: bv16, mapping: Mapping)
    ensures StoresMapping(od, index, mapping) <==>
            HoldsRecord(od, index, WordsOf(mapping)) && Readable(od, index, |mapping|)
  {
    hide Sub, StoresNumber, HoldsWord, ReadableSub, WordsOf;
    if StoresMapping(od, index, mapping) {
      NumbersStored(od, index, mapping);
    } else if HoldsRecord(od, index, WordsOf(mapping)) && Readable(od, index, |mapping|) {
      forall a: Address | a.index == index && a.subindex as int <= |mapping| ensures StoresNumber(od, a, mapping) {
        AddressIsSub(a);
        var k := a.subindex as int;
        NumberReadsWord(od, index, mapping, k);
        assert ReadableSub(od, index, k);
      }
    }
  }

  lemma ReadableIsThere(od: Dict, index: bv16, k: nat)
    requires k <= 255
    ensures ReadableSub(od, index, k) ==> Sub(index, k) in od
  {
    hide Sub;
  }

  /** The communication parameter at `a` enables a PDO under this identifier. */
  predicate Enables(od: Dict, a: Address, cobId: bv16) {
    && a in od && od[a].access != Wo && od[a].value.Unsigned32?
    && od[a].value.u32 as int < 0x8000_0000 && cobId as int == od[a].value.u32 as int % 0x800
  }

  lemma EnablesIff(od: Dict, a: Address, cobId: bv16)
    ensures Enables(od, a, cobId) <==>
            WordAt(od, a).Some? && IsValidPdo(WordAt(od, a).value) && cobId == CanId(WordAt(od, a).value)
  {
    hide IsValidPdo, CanId;
    if WordAt(od, a).Some? {
      ValidIsBelow(WordAt(od, a).value);
      CanIdNumber(WordAt(od, a).value);
      SameIdentifier(cobId, CanId(WordAt(od, a).value));
    }
  }

  lemma SameIdentifier(a: bv16, b: bv16)
    ensures a as int == b as int ==> a == b
  {
    assert (a as int) as bv16 == a && (b as int) as bv16 == b;
  }

  lemma PdoIndexNumbers(k: nat, c: bv16, m: bv16)
    requires k < 4
    ensures c as int == 0x1400 + k ==> c == RPDO_COMMUNICATION + PdoOffset(k)
    ensures m as int == 0x1600 + k ==> m == RPDO_MAPPING + PdoOffset(k)
    ensures c as int == 0x1800 + k ==> c == TPDO_COMMUNICATION + PdoOffset(k)
    ensures m as int == 0x1A00 + k ==> m == TPDO_MAPPING + PdoOffset(k)
  {
    ParameterIndexes(k);
    SameIdentifier(c, RPDO_COMMUNICATION + PdoOffset(k));
    SameIdentifier(m, RPDO_MAPPING + PdoOffset(k));
    SameIdentifier(c, TPDO_COMMUNICATION + PdoOffset(k));
    SameIdentifier(m, TPDO_MAPPING + PdoOffset(k));
  }

  lemma ParameterIndexes(k: nat)
    requires k < 4
    ensures (RPDO_COMMUNICATION + PdoOffset(k)) as int == 0x1400 + k
    ensures (RPDO_MAPPING + PdoOffset(k)) as int == 0x1600 + k
    ensures (TPDO_COMMUNICATION + PdoOffset(k)) as int == 0x1800 + k
    ensures (TPDO_MAPPING + PdoOffset(k)) as int == 0x1A00 + k
  {
  }

  /**
    Receive PDO k is configured as `slot` exactly when 0x1400 + k, subindex 1, is readable and below
    0x80000000, the identifier is that number modulo 2048, and the record 0x1600 + k stores the
    mapping.
   */
  lemma RpdoSlotIff(od: Dict, k: nat, slot: RpdoSlot, c: bv16, m: bv16)
    requires k < 4 && c as int == 0x1400 + k && m as int == 0x1600 + k
    ensures RpdoAt(od, k) == Some(slot) <==>
            Enables(od, Address(c, 1), slot.cobId) && StoresMapping(od, m, slot.mapping)
  {
    hide Enables, StoresMapping, MappingAt, WordAt, IsValidPdo, CanId, PdoOffset, HoldsRecord, Readable;
    PdoIndexNumbers(k, c, m);
    EnablesIff(od, Address(c, 1), slot.cobId);
    StoresMappingIff(od, m, slot.mapping);
    MappingReadIffStored(od, m, slot.mapping);
  }

  /** A transmission type read from `a`: its byte, or 255 when absent or from 241 to 251. */
  predicate TransmissionReads(od: Dict, a: Address, t: TransmissionType) {
    if a in od && od[a].access != Wo && od[a].value.Unsigned8?
       && (od[a].value.u8 as int <= 240 || od[a].value.u8 as int >= 252)
    then t.ToByte() == od[a].value.u8 else t == EventDrivenProfile
  }

  lemma TransmissionNumber(b: byte)
    ensures TransmissionFromByte(b).Ok? <==> b as int <= 240 || b as int >= 252
  {
  }

  lemma TransmissionReadsAt(od: Dict, index: bv16)
    ensures TransmissionReads(od, Address(index, 2), TransmissionAt(od, index))
  {
    hide TransmissionFromByte, TransmissionType.ToByte;
    var value := ByteAt(od, Address(index, 2));
    if value.Some? {
      TransmissionNumber(value.value);
      TransmissionRoundTrip(value.value);
    }
  }

  /** The same for transmit PDO k, at 0x1800 + k and 0x1A00 + k, with the type at subindex 2. */
  lemma TpdoSlotIff(od: Dict, k: nat, cobId: bv16, mapping: Mapping, c: bv16, m: bv16)
    requires k < 4 && c as int == 0x1800 + k && m as int == 0x1A00 + k
    ensures (exists t :: TpdoAt(od, k) == Some(TpdoSlot(cobId, mapping, t))) <==>
            Enables(od, Address(c, 1), cobId) && StoresMapping(od, m, mapping)
    ensures TpdoAt(od, k).Some? ==> TransmissionReads(od, Address(c, 2), TpdoAt(od, k).value.transmission)
  {
    hide Enables, StoresMapping, MappingAt, WordAt, IsValidPdo, CanId, PdoOffset, HoldsRecord, Readable,
      TransmissionReads, TransmissionAt;
    PdoIndexNumbers(k, c, m);
    EnablesIff(od, Address(c, 1), cobId);
    StoresMappingIff(od, m, mapping);
    MappingReadIffStored(od, m, mapping);
    TransmissionReadsAt(od, c);
    var t := TransmissionAt(od, c);
    assert Enables(od, Address(c, 1), cobId) && StoresMapping(od, m, mapping) ==>
      TpdoAt(od, k) == Some(TpdoSlot(cobId, mapping, t));
  }
}
