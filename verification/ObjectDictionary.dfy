/** The object dictionary and its access rights (core/src/object_dictionary.rs). */
module ObjectDictionaries {
  import opened Wrappers
  import opened Bytes
  import opened Datatypes

  datatype Address = Address(index: bv16, subindex: byte)

  datatype AccessType = Ro | Wo | Rw | Const {
    predicate IsReadable() {
      Ro? || Rw? || Const?
    }

    predicate IsWritable() {
      Wo? || Rw?
    }
  }

  datatype Entry = Entry(value: Value, access: AccessType)

  /** The contents of a dictionary. */
  type Dict = map<Address, Entry>

  function ReadValue(od: Dict, addr: Address): Result<Value> {
    if addr !in od then Err(ObjectNotFound)
    else if !od[addr].access.IsReadable() then Err(WriteOnly)
    else Ok(od[addr].value)
  }

  function WriteResult(od: Dict, addr: Address, value: Value): Result<Unit> {
    if addr !in od then Err(ObjectNotFound)
    else if !od[addr].access.IsWritable() then Err(ReadOnly)
    else if od[addr].value.Type() != value.Type() then Err(TypeMismatch)
    else Ok(Unit)
  }

  /** The dictionary with the value at `addr` replaced and its access rights kept. */
  function Stored(od: Dict, addr: Address, value: Value): Dict
    requires addr in od
  {
    od[addr := od[addr].(value := value)]
  }

  /** What a bus write leaves behind: the stored value on success, the same dictionary otherwise. */
  function Written(od: Dict, addr: Address, value: Value): Dict {
    if WriteResult(od, addr, value).Ok? then Stored(od, addr, value) else od
  }

  function SetResult(od: Dict, addr: Address, value: Value): Result<Unit> {
    if addr !in od then Err(ObjectNotFound)
    else if od[addr].value.Type() != value.Type() then Err(TypeMismatch)
    else Ok(Unit)
  }

  /** What a device-side store leaves behind; access rights do not matter here. */
  function SetTo(od: Dict, addr: Address, value: Value): Dict {
    if SetResult(od, addr, value).Ok? then Stored(od, addr, value) else od
  }

  /**
    What every bus operation preserves: the addresses, every object's type and access rights, and
    the value of every object the bus may not write.
   */
  ghost predicate Preserves(before: Dict, after: Dict) {
    && after.Keys == before.Keys
    && forall a :: a in before ==>
         && after[a].access == before[a].access
         && after[a].value.Type() == before[a].value.Type()
         && (!before[a].access.IsWritable() ==> after[a] == before[a])
  }

  lemma PreservesTransitive(a: Dict, b: Dict, c: Dict)
    requires Preserves(a, b) && Preserves(b, c)
    ensures Preserves(a, c)
  {
  }

  /** Every entry except possibly the one at `addr` is the same. */
  ghost predicate SameExcept(before: Dict, after: Dict, addr: Address) {
    && after.Keys == before.Keys
    && forall a :: a in before && a != addr ==> after[a] == before[a]
  }

  lemma WrittenPreserves(od: Dict, addr: Address, value: Value)
    ensures Preserves(od, Written(od, addr, value))
    ensures SameExcept(od, Written(od, addr, value), addr)
  {
  }

  /** What the bus may do with an object of each access type, and what it is told otherwise. */
  lemma BusAccess(od: Dict, addr: Address, value: Value)
    ensures ReadValue(od, addr) ==
            if addr !in od then Err(ObjectNotFound)
            else if od[addr].access == Wo then Err(WriteOnly)
            else Ok(od[addr].value)
    ensures WriteResult(od, addr, value) ==
            if addr !in od then Err(ObjectNotFound)
            else if od[addr].access == Ro || od[addr].access == Const then Err(ReadOnly)
            else if od[addr].value.Type() != value.Type() then Err(TypeMismatch)
            else Ok(Unit)
  {
  }

  /** The device itself may store into any object of the value's type, whatever its access type. */
  lemma DeviceAccess(od: Dict, addr: Address, value: Value)
    ensures SetResult(od, addr, value) ==
            if addr !in od then Err(ObjectNotFound)
            else if od[addr].value.Type() != value.Type() then Err(TypeMismatch)
            else Ok(Unit)
    ensures SetResult(od, addr, value).Ok? ==>
              && addr in SetTo(od, addr, value) && SetTo(od, addr, value)[addr] == od[addr].(value := value)
              && SameExcept(od, SetTo(od, addr, value), addr)
    ensures SetResult(od, addr, value).Err? ==> SetTo(od, addr, value) == od
  {
  }

  class ObjectDictionary {
    const capacity: nat
    var entries: Dict

    ghost predicate Valid()
      reads this
    {
      |entries| <= capacity
    }

    constructor (capacity: nat)
      ensures Valid() && this.capacity == capacity && entries == map[]
    {
      this.capacity := capacity;
      entries := map[];
    }

    method Insert(addr: Address, entry: Entry) returns (r: Result<Unit>)
      requires Valid()
      modifies this
      ensures Valid()
      ensures r == if addr in old(entries) || old(|entries|) < capacity then Ok(Unit) else Err(DictionaryFull)
      ensures entries == if r.Ok? then old(entries)[addr := entry] else old(entries)
    {
      if addr in entries || |entries| < capacity {
        assert addr in entries ==> entries[addr := entry].Keys == entries.Keys;
        assert addr !in entries ==> entries[addr := entry].Keys == entries.Keys + {addr};
        SizeOfKeys(entries);
        SizeOfKeys(entries[addr := entry]);
        entries := entries[addr := entry];
        return Ok(Unit);
      }
      return Err(DictionaryFull);
    }

    method Read(addr: Address) returns (r: Result<Value>)
      ensures r == ReadValue(entries, addr)
    {
      if addr !in entries {
        return Err(ObjectNotFound);
      }
      var entry := entries[addr];
      if !entry.access.IsReadable() {
        return Err(WriteOnly);
      }
      return Ok(entry.value);
    }

    method Write(addr: Address, value: Value) returns (r: Result<Unit>)
      requires Valid()
      modifies this
      ensures Valid()
      ensures r == WriteResult(old(entries), addr, value)
      ensures entries == Written(old(entries), addr, value)
    {
      if addr !in entries {
        return Err(ObjectNotFound);
      }
      var entry := entries[addr];
      if !entry.access.IsWritable() {
        return Err(ReadOnly);
      }
      if entry.value.Type() != value.Type() {
        return Err(TypeMismatch);
      }
      StoredSize(entries, addr, value);
      entries := entries[addr := entry.(value := value)];
      return Ok(Unit);
    }

    method Set(addr: Address, value: Value) returns (r: Result<Unit>)
      requires Valid()
      modifies this
      ensures Valid()
      ensures r == SetResult(old(entries), addr, value)
      ensures entries == SetTo(old(entries), addr, value)
    {
      if addr !in entries {
        return Err(ObjectNotFound);
      }
      var entry := entries[addr];
      if entry.value.Type() != value.Type() {
        return Err(TypeMismatch);
      }
      StoredSize(entries, addr, value);
      entries := entries[addr := entry.(value := value)];
      return Ok(Unit);
    }
  }

  lemma SizeOfKeys(od: Dict)
    ensures |od| == |od.Keys|
  {
  }

  lemma StoredSize(od: Dict, addr: Address, value: Value)
    requires addr in od
    ensures |Stored(od, addr, value)| == |od|
  {
    SizeOfKeys(od);
    SizeOfKeys(Stored(od, addr, value));
    assert Stored(od, addr, value).Keys == od.Keys;
  }
}
