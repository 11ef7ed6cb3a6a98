/**
  What a PDO does to the receiving dictionary (core/src/pdo.rs): unpacking applies a prefix of the
  mapped fields, and what one device packs another unpacks.
 */
module PdoTransport {
  import opened Wrappers
  import opened Bytes
  import opened Datatypes
  import opened ObjectDictionaries
  import opened Pdo

  // --- What unpacking does to the dictionary --------------------------------

  /** Whether an entry can be applied at all; this depends only on types and access rights. */
  function Takes(e: MappingEntry, od: Dict): Result<DataType> {
    var t :- FieldType(e, od);
    if od[e.address].access.IsWritable() then Ok(t) else Err(ReadOnly)
  }

  /** The bytes of the k-th field. */
  function FieldBytes(entries: seq<MappingEntry>, k: nat, data: seq<byte>): seq<byte>
    requires k < |entries| && TotalBits(entries) <= 8 * |data|
  {
    TotalBitsPrefix(entries, k + 1);
    TotalBitsPrefix(entries[..k + 1], k);
    assert entries[..k + 1][..k] == entries[..k];
    data[TotalBits(entries[..k]) / 8..TotalBits(entries[..k + 1]) / 8]
  }

  lemma FieldBytesAt(entries: seq<MappingEntry>, k: nat, data: seq<byte>, lo: nat, hi: nat)
    requires k < |entries| && TotalBits(entries) <= 8 * |data|
    requires 8 * lo == TotalBits(entries[..k]) && 8 * hi == TotalBits(entries[..k + 1])
    ensures lo <= hi <= |data| && FieldBytes(entries, k, data) == data[lo..hi]
  {
    TotalBitsNext(entries, k);
    assert TotalBits(entries[..k]) / 8 == lo && TotalBits(entries[..k + 1]) / 8 == hi;
    hide TotalBits;
  }

  predicate Mapped(entries: seq<MappingEntry>, n: nat, x: Address)
    requires n <= |entries|
  {
    exists k :: 0 <= k < n && entries[k].address == x
  }

  /** Entry k is the last of the first n that is mapped to its address. */
  predicate LastOfAddress(entries: seq<MappingEntry>, n: nat, k: nat)
    requires k < n <= |entries|
  {
    forall j :: k < j < n ==> entries[j].address != entries[k].address
  }

  /** Exactly the first n fields are in the dictionary; where they share an address, the last one is. */
  ghost predicate HoldsFields(entries: seq<MappingEntry>, n: nat, od: Dict, data: seq<byte>, after: Dict)
    requires n <= |entries| && TotalBits(entries) <= 8 * |data|
  {
    && after.Keys == od.Keys
    && (forall x :: x in od && !Mapped(entries, n, x) ==> after[x] == od[x])
    && (forall k :: 0 <= k < n && LastOfAddress(entries, n, k) ==> HoldsField(entries, k, od, data, after))
  }

  ghost predicate HoldsField(entries: seq<MappingEntry>, k: nat, od: Dict, data: seq<byte>, after: Dict)
    requires k < |entries| && TotalBits(entries) <= 8 * |data|
  {
    var x := entries[k].address;
    && x in od && x in after
    && var field := DecodeLe(od[x].value.Type(), FieldBytes(entries, k, data));
    field.Ok? && after[x] == od[x].(value := field.value)
  }

  /** What one applied field does, given what an entry may be applied to does not change. */
  lemma ApplyEntryEffect(e: MappingEntry, od: Dict, data: seq<byte>, offset: nat)
    requires 8 * offset + e.Bits() <= 8 * |data|
    ensures var a := ApplyEntry(e, od, data, offset);
            && (a.result.Ok? <==> Takes(e, od).Ok?)
            && (a.result.Err? ==> a.result.error == Takes(e, od).error)
            && Preserves(od, a.od)
            && (a.result.Ok? ==>
                  && a.offset <= |data|
                  && var field := DecodeLe(od[e.address].value.Type(), data[offset..a.offset]);
                  field.Ok? && a.od == Stored(od, e.address, field.value))
  {
    if FieldType(e, od).Ok? {
      var t := FieldType(e, od).value;
      var bytes := data[offset..offset + t.Size()];
      DecodedShape(t, bytes);
      WrittenPreserves(od, e.address, DecodeLe(t, bytes).value);
    }
    hide DecodeLe, Preserves, SameExcept;
  }

  lemma TakesPreserved(e: MappingEntry, before: Dict, after: Dict)
    requires Preserves(before, after)
    ensures Takes(e, after) == Takes(e, before)
  {
  }

  /** Applying field n on top of the first n: what was not mapped before. */
  lemma UnmappedNext(entries: seq<MappingEntry>, n: nat, od: Dict, data: seq<byte>, before: Dict, after: Dict)
    requires n < |entries| && TotalBits(entries) <= 8 * |data|
    requires HoldsFields(entries, n, od, data, before)
    requires entries[n].address in od && entries[n].address in after
    requires after == before[entries[n].address := after[entries[n].address]]
    ensures after.Keys == od.Keys
    ensures forall x :: x in od && !Mapped(entries, n + 1, x) ==> after[x] == od[x]
  {
    hide HoldsField;
    assert Mapped(entries, n + 1, entries[n].address);
    forall x | x in od && !Mapped(entries, n + 1, x) ensures after[x] == od[x] {
      assert !Mapped(entries, n, x);
    }
  }

  /** Applying field n on top of the first n: an earlier field, if it is still the last of its address. */
  lemma EarlierNext(entries: seq<MappingEntry>, n: nat, k: nat, od: Dict, data: seq<byte>, before: Dict, after: Dict)
    requires k < n < |entries| && TotalBits(entries) <= 8 * |data|
    requires HoldsFields(entries, n, od, data, before) && LastOfAddress(entries, n + 1, k)
    requires entries[n].address in after && after == before[entries[n].address := after[entries[n].address]]
    ensures HoldsField(entries, k, od, data, after)
  {
    hide DecodeLe, FieldBytes, Mapped;
    assert entries[n].address != entries[k].address;
    assert LastOfAddress(entries, n, k);
    assert HoldsField(entries, k, od, data, before);
  }

  lemma HoldsFieldsNext(entries: seq<MappingEntry>, n: nat, od: Dict, data: seq<byte>, before: Dict, after: Dict)
    requires n < |entries| && TotalBits(entries) <= 8 * |data|
    requires HoldsFields(entries, n, od, data, before) && HoldsField(entries, n, od, data, after)
    requires after == before[entries[n].address := after[entries[n].address]]
    ensures HoldsFields(entries, n + 1, od, data, after)
  {
    UnmappedNext(entries, n, od, data, before, after);
    forall k | 0 <= k < n && LastOfAddress(entries, n + 1, k) ensures HoldsField(entries, k, od, data, after) {
      EarlierNext(entries, n, k, od, data, before, after);
    }
    hide HoldsField, LastOfAddress, Mapped;
  }

  lemma FieldHeld(entries: seq<MappingEntry>, n: nat, od: Dict, data: seq<byte>, before: Dict, offset: nat)
    requires n < |entries| && TotalBits(entries) <= 8 * |data|
    requires 8 * offset == TotalBits(entries[..n]) && 8 * offset + entries[n].Bits() <= 8 * |data|
    requires Preserves(od, before) && ApplyEntry(entries[n], before, data, offset).result.Ok?
    ensures var after := ApplyEntry(entries[n], before, data, offset).od;
            && HoldsField(entries, n, od, data, after)
            && after == before[entries[n].address := after[entries[n].address]]
  {
    var a := ApplyEntry(entries[n], before, data, offset);
    ApplyEntryEffect(entries[n], before, data, offset);
    TotalBitsNext(entries, n);
    FieldBytesAt(entries, n, data, offset, a.offset);
    hide ApplyEntry, DecodeLe, FieldBytes, Takes, TotalBits;
  }

  lemma FieldApplied(entries: seq<MappingEntry>, n: nat, od: Dict, data: seq<byte>, before: Dict, offset: nat)
    requires n < |entries| && TotalBits(entries) <= 8 * |data|
    requires 8 * offset == TotalBits(entries[..n]) && 8 * offset + entries[n].Bits() <= 8 * |data|
    requires HoldsFields(entries, n, od, data, before) && Preserves(od, before)
    requires ApplyEntry(entries[n], before, data, offset).result.Ok?
    ensures HoldsFields(entries, n + 1, od, data, ApplyEntry(entries[n], before, data, offset).od)
  {
    FieldHeld(entries, n, od, data, before, offset);
    HoldsFieldsNext(entries, n, od, data, before, ApplyEntry(entries[n], before, data, offset).od);
    hide ApplyEntry, HoldsFields, HoldsField, TotalBits;
  }

  lemma TotalBitsNext(entries: seq<MappingEntry>, n: nat)
    requires n < |entries|
    ensures TotalBits(entries[..n + 1]) == TotalBits(entries[..n]) + entries[n].Bits() <= TotalBits(entries)
  {
    assert entries[..n + 1][..n] == entries[..n];
    TotalBitsPrefix(entries, n + 1);
  }

  /** After i entries: n of them are applied, and entry n, if there is one, is the one that failed. */
  ghost predicate StoppedAt(entries: seq<MappingEntry>, i: nat, n: nat, od: Dict, data: seq<byte>, a: Applied)
    requires n <= i <= |entries| && TotalBits(entries) <= 8 * |data|
  {
    && (forall k :: 0 <= k < n ==> Takes(entries[k], od).Ok?)
    && (n < i ==> Takes(entries[n], od).Err? && a.result == Err(Takes(entries[n], od).error))
    && (n == i ==> a.result.Ok?)
    && Preserves(od, a.od) && HoldsFields(entries, n, od, data, a.od)
  }

  lemma StepStopped(entries: seq<MappingEntry>, i: nat, od: Dict, data: seq<byte>) returns (n: nat)
    requires i < |entries| && TotalBits(entries) <= 8 * |data| && TotalBits(entries[..i]) <= 8 * |data|
    requires Unpacked(entries[..i], od, data).result.Ok?
    requires StoppedAt(entries, i, i, od, data, Unpacked(entries[..i], od, data))
    ensures n <= i + 1 && TotalBits(entries[..i + 1]) <= 8 * |data|
    ensures StoppedAt(entries, i + 1, n, od, data, Unpacked(entries[..i + 1], od, data))
  {
    hide ApplyEntry, Takes, DecodeLe, Preserves, HoldsFields, Unpacked;
    var before := Unpacked(entries[..i], od, data);
    TotalBitsNext(entries, i);
    UnpackedNext(entries, od, data, i);
    var after := ApplyEntry(entries[i], before.od, data, before.offset);
    ApplyEntryEffect(entries[i], before.od, data, before.offset);
    TakesPreserved(entries[i], od, before.od);
    PreservesTransitive(od, before.od, after.od);
    n := if after.result.Ok? then i + 1 else i;
    if after.result.Ok? {
      FieldApplied(entries, i, od, data, before.od, before.offset);
    }
  }

  lemma {:induction false} StopsAt(entries: seq<MappingEntry>, i: nat, od: Dict, data: seq<byte>) returns (n: nat)
    requires i <= |entries| && TotalBits(entries) <= 8 * |data|
    ensures n <= i && TotalBits(entries[..i]) <= 8 * |data|
    ensures StoppedAt(entries, i, n, od, data, Unpacked(entries[..i], od, data))
  {
    TotalBitsPrefix(entries, i);
    if i == 0 {
      n := 0;
    } else {
      n := StopsAt(entries, i - 1, od, data);
      if n < i - 1 {
        TotalBitsNext(entries, i - 1);
        assert entries[..i][..i - 1] == entries[..i - 1];
      } else {
        n := StepStopped(entries, i - 1, od, data);
      }
    }
    hide HoldsFields, Takes, ApplyEntry;
  }

  /**
    Unpacking any frame that is long enough: the first n entries are applied and nothing else
    changes. If n stops short, entry n is the first that cannot be applied and its error is returned.
   */
  lemma UnpackAppliesPrefix(entries: seq<MappingEntry>, od: Dict, data: seq<byte>) returns (n: nat)
    requires TotalBits(entries) <= 8 * |data|
    ensures n <= |entries| && forall k :: 0 <= k < n ==> Takes(entries[k], od).Ok?
    ensures var a := Unpacked(entries, od, data);
            && HoldsFields(entries, n, od, data, a.od) && Preserves(od, a.od)
            && (if n == |entries| then a.result.Ok?
                else Takes(entries[n], od).Err? && a.result == Err(Takes(entries[n], od).error))
  {
    n := StopsAt(entries, |entries|, od, data);
    assert entries[..|entries|] == entries;
    hide HoldsFields, Takes, Unpacked;
  }

  // --- From one dictionary to another ---------------------------------------

  /** In a packed frame, the bytes of field k are those of the object it is mapped to. */
  lemma PackedField(entries: seq<MappingEntry>, od: Dict, k: nat)
    requires Packed(entries, od).Ok? && k < |entries|
    ensures TotalBits(entries) == 8 * |Packed(entries, od).value|
    ensures Field(entries[k], od) == Ok(FieldBytes(entries, k, Packed(entries, od).value))
  {
    PackedLength(entries, od);
    PackedPrefix(entries, od, k);
    PackedPrefix(entries, od, k + 1);
    PackedNext(entries, od, k);
    PackedLength(entries[..k], od);
    PackedLength(entries[..k + 1], od);
    hide Field, Packed, TotalBits, TotalBytes, FieldBytes;
    var front := Packed(entries[..k], od).value;
    FieldBytesAt(entries, k, Packed(entries, od).value, |front|, |Packed(entries[..k + 1], od).value|);
    Between(Packed(entries[..k], od).value, Field(entries[k], od).value, Packed(entries, od).value);
  }

  lemma Between(front: seq<byte>, middle: seq<byte>, all: seq<byte>)
    requires front + middle <= all
    ensures |front| + |middle| <= |all| && all[|front|..|front| + |middle|] == middle
  {
    assert all[..|front| + |middle|] == front + middle;
  }

  lemma {:induction false} LastExists(entries: seq<MappingEntry>, n: nat, x: Address) returns (k: nat)
    requires n <= |entries| && Mapped(entries, n, x)
    ensures k < n && entries[k].address == x && LastOfAddress(entries, n, k)
  {
    k := n - 1;
    if entries[k].address != x {
      assert Mapped(entries, n - 1, x);
      k := LastExists(entries, n - 1, x);
    }
  }

  /** The receiver has a writable object of the same type at every mapped address. */
  ghost predicate Receives(entries: seq<MappingEntry>, source: Dict, target: Dict) {
    forall k :: 0 <= k < |entries| ==> ReceivesEntry(entries[k], source, target)
  }

  predicate ReceivesEntry(e: MappingEntry, source: Dict, target: Dict) {
    && e.address in source && e.address in target
    && target[e.address].access.IsWritable()
    && target[e.address].value.Type() == source[e.address].value.Type()
  }

  lemma FieldTaken(e: MappingEntry, source: Dict, target: Dict)
    requires Field(e, source).Ok? && ReceivesEntry(e, source, target)
    ensures Takes(e, target).Ok?
    ensures DecodeLe(target[e.address].value.Type(), Field(e, source).value) == Ok(source[e.address].value)
  {
    var v := source[e.address].value;
    DecodeEncode(v);
    hide DecodeLe;
  }

  /**
    Process data arrives: a frame packed on one device unpacks on another into equal values at every
    mapped address, also where an address is mapped more than once, and changes nothing else.
   */
  lemma PdoCarriesValues(entries: seq<MappingEntry>, source: Dict, target: Dict)
    requires Packed(entries, source).Ok? && Receives(entries, source, target)
    ensures TotalBits(entries) == 8 * |Packed(entries, source).value|
    ensures var a := Unpacked(entries, target, Packed(entries, source).value);
            && a.result == Ok(Unit) && a.od.Keys == target.Keys
            && forall x :: x in target ==>
                 a.od[x] == if Mapped(entries, |entries|, x) then target[x].(value := source[x].value) else target[x]
  {
    var data := Packed(entries, source).value;
    PackedLength(entries, source);
    var n := UnpackAppliesPrefix(entries, target, data);
    if n < |entries| {
      PackedField(entries, source, n);
      FieldTaken(entries[n], source, target);
      assert false;
    }
    var after := Unpacked(entries, target, data).od;
    forall x | x in target && Mapped(entries, |entries|, x)
      ensures x in after && after[x] == target[x].(value := source[x].value)
    {
      var k := LastExists(entries, n, x);
      MappedArrives(entries, k, source, target, after);
    }
    hide Mapped, Unpacked, Packed, Takes;
  }

  lemma MappedArrives(entries: seq<MappingEntry>, k: nat, source: Dict, target: Dict, after: Dict)
    requires Packed(entries, source).Ok? && Receives(entries, source, target) && k < |entries|
    requires TotalBits(entries) == 8 * |Packed(entries, source).value|
    requires HoldsFields(entries, |entries|, target, Packed(entries, source).value, after)
    requires LastOfAddress(entries, |entries|, k)
    ensures var x := entries[k].address;
            x in source && x in target && x in after && after[x] == target[x].(value := source[x].value)
  {
    PackedField(entries, source, k);
    FieldTaken(entries[k], source, target);
    assert HoldsField(entries, k, target, Packed(entries, source).value, after);
    hide Packed, DecodeLe, FieldBytes, Field, Takes, HoldsFields;
  }

  // --- Why an entry fails ---------------------------------------------------

  /** The error of an entry that cannot be packed. */
  lemma PackErrors(e: MappingEntry, od: Dict)
    ensures var bits, r := e.bitLength as int, Field(e, od);
            if bits == 0 || bits % 8 != 0 then r == Err(UnsupportedTransfer)
            else if e.address !in od then r == Err(ObjectNotFound)
            else if od[e.address].access == Wo then r == Err(WriteOnly)
            else if 8 * od[e.address].value.Size() != bits || od[e.address].value.Type().FixedSize().None?
            then r == Err(TypeMismatch)
            else r == Ok(od[e.address].value.Encoded())
  {
    hide Value.Encoded, Value.Size, Value.Type;
  }

  /** The error of an entry that cannot be unpacked. */
  lemma UnpackErrors(e: MappingEntry, od: Dict)
    ensures var bits, r := e.bitLength as int, Takes(e, od);
            if bits == 0 || bits % 8 != 0 then r == Err(UnsupportedTransfer)
            else if e.address !in od then r == Err(ObjectNotFound)
            else if od[e.address].value.Type().FixedSize().None? then r == Err(TypeMismatch)
            else if 8 * od[e.address].value.Type().FixedSize().value != bits then r == Err(TypeMismatch)
            else if od[e.address].access == Ro || od[e.address].access == Const then r == Err(ReadOnly)
            else r == Ok(od[e.address].value.Type())
  {
    hide Value.Type;
  }

  /** An entry fits a mapping up to 64 bits and the mapping's capacity; too many bits come first. */
  lemma PushOutcome(entries: seq<MappingEntry>, capacity: nat, e: MappingEntry)
    ensures var r := PushResult(entries, capacity, e);
            if TotalBits(entries) + e.bitLength as int > 64 then r == Err(PdoTooLong)
            else if |entries| == capacity then r == Err(MappingFull)
            else |entries| < capacity ==> r == Ok(Unit)
  {
    hide TotalBits;
  }
}
