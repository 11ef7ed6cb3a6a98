/**
  Records of the object dictionary: a count at subindex 0 and as many 32-bit words after it. The
  pre-defined error field and the PDO mapping parameters have this shape (core/src/node.rs).
 */
module Records {
  import opened Bytes
  import opened Datatypes
  import opened ObjectDictionaries

  type Words = w: seq<bv32> | |w| <= 255 witness []

  function Sub(index: bv16, k: nat): Address
    requires k <= 255
  {
    Address(index, k as byte)
  }

  lemma SubInjective(index: bv16, j: nat, k: nat)
    requires j <= 255 && k <= 255 && Sub(index, j) == Sub(index, k)
    ensures j == k
  {
    ByteRoundTrip(j);
    ByteRoundTrip(k);
  }

  /** Store the first n words, best effort: absent or wrongly typed objects are skipped. */
  function StoreWords(od: Dict, index: bv16, words: Words, n: nat): Dict
    requires n <= |words|
  {
    if n == 0 then od
    else SetTo(StoreWords(od, index, words, n - 1), Sub(index, n), Unsigned32(words[n - 1]))
  }

  function StoreRecord(od: Dict, index: bv16, words: Words): Dict {
    StoreWords(SetTo(od, Sub(index, 0), Unsigned8(|words| as byte)), index, words, |words|)
  }

  /** The record's objects exist with their standard types. */
  ghost predicate Shaped(od: Dict, index: bv16, n: nat)
    requires n <= 255
  {
    && Sub(index, 0) in od && od[Sub(index, 0)].value.Unsigned8?
    && forall k :: 1 <= k <= n ==> ShapedWord(od, index, k)
  }

  predicate ShapedWord(od: Dict, index: bv16, k: nat)
    requires k <= 255
  {
    Sub(index, k) in od && od[Sub(index, k)].value.Unsigned32?
  }

  predicate HoldsWord(od: Dict, index: bv16, words: Words, k: nat)
    requires 1 <= k <= |words|
  {
    Sub(index, k) in od && od[Sub(index, k)].value == Unsigned32(words[k - 1])
  }

  ghost predicate HoldsRecord(od: Dict, index: bv16, words: Words) {
    && Sub(index, 0) in od && od[Sub(index, 0)].value == Unsigned8(|words| as byte)
    && forall k :: 1 <= k <= |words| ==> HoldsWord(od, index, words, k)
  }

  /** Access rights, types and everything outside the record stay as they are. */
  ghost predicate ChangesOnlyRecord(before: Dict, after: Dict, index: bv16, n: nat)
    requires n <= 255
  {
    && after.Keys == before.Keys
    && forall a :: a in before ==>
         && after[a].access == before[a].access
         && after[a].value.Type() == before[a].value.Type()
         && (after[a] != before[a] ==> exists k :: 0 <= k <= n && a == Sub(index, k))
  }

  lemma SetToEffect(od: Dict, addr: Address, value: Value)
    ensures SetTo(od, addr, value).Keys == od.Keys
    ensures forall a :: a in od && a != addr ==> SetTo(od, addr, value)[a] == od[a]
    ensures addr in od ==>
              SetTo(od, addr, value)[addr] ==
              if od[addr].value.Type() == value.Type() then od[addr].(value := value) else od[addr]
  {
  }

  lemma {:induction false} StoreWordsEffect(od: Dict, index: bv16, words: Words, n: nat)
    requires n <= |words|
    ensures ChangesOnlyRecord(od, StoreWords(od, index, words, n), index, n)
    ensures Sub(index, 0) in od ==> StoreWords(od, index, words, n)[Sub(index, 0)] == od[Sub(index, 0)]
    ensures forall k :: 1 <= k <= n && ShapedWord(od, index, k) ==>
              HoldsWord(StoreWords(od, index, words, n), index, words, k)
  {
    if n > 0 {
      var before := StoreWords(od, index, words, n - 1);
      var after := StoreWords(od, index, words, n);
      StoreWordsEffect(od, index, words, n - 1);
      SetToEffect(before, Sub(index, n), Unsigned32(words[n - 1]));
      OthersDiffer(index, n);
      assert ChangesOnlyRecord(od, after, index, n) by {
        hide SetTo, Sub;
      }
      forall k | 1 <= k <= n && ShapedWord(od, index, k) ensures HoldsWord(after, index, words, k) {
        if k < n {
          assert HoldsWord(before, index, words, k);
        }
        hide SetTo, Sub;
      }
      hide SetTo, Sub;
    }
  }

  lemma OthersDiffer(index: bv16, n: nat)
    requires n <= 255
    ensures forall k :: 0 <= k < n ==> Sub(index, k) != Sub(index, n)
  {
    forall k | 0 <= k < n ensures Sub(index, k) != Sub(index, n) {
      if Sub(index, k) == Sub(index, n) {
        SubInjective(index, k, n);
      }
    }
  }

  /** Storing the count at subindex 0. */
  lemma CountStored(od: Dict, index: bv16, words: Words)
    ensures var count := SetTo(od, Sub(index, 0), Unsigned8(|words| as byte));
            && ChangesOnlyRecord(od, count, index, 0)
            && (Shaped(od, index, |words|) ==>
                  && Shaped(count, index, |words|)
                  && count[Sub(index, 0)].value == Unsigned8(|words| as byte))
  {
    var count := SetTo(od, Sub(index, 0), Unsigned8(|words| as byte));
    SetToEffect(od, Sub(index, 0), Unsigned8(|words| as byte));
    hide SetTo, Sub;
    if Shaped(od, index, |words|) {
      forall k | 1 <= k <= |words| ensures ShapedWord(count, index, k) {
        assert ShapedWord(od, index, k);
      }
    }
  }

  lemma ChangesCompose(a: Dict, b: Dict, c: Dict, index: bv16, n: nat)
    requires n <= 255 && ChangesOnlyRecord(a, b, index, 0) && ChangesOnlyRecord(b, c, index, n)
    ensures ChangesOnlyRecord(a, c, index, n)
  {
    hide Sub;
  }

  /** A record whose objects exist holds what was stored; nothing outside it changes. */
  lemma StoreRecordHolds(od: Dict, index: bv16, words: Words)
    ensures ChangesOnlyRecord(od, StoreRecord(od, index, words), index, |words|)
    ensures Shaped(od, index, |words|) ==> HoldsRecord(StoreRecord(od, index, words), index, words)
  {
    var count := SetTo(od, Sub(index, 0), Unsigned8(|words| as byte));
    CountStored(od, index, words);
    StoreWordsEffect(count, index, words, |words|);
    ChangesCompose(od, count, StoreRecord(od, index, words), index, |words|);
    hide SetTo, Sub, StoreWords, ChangesOnlyRecord, HoldsWord, ShapedWord;
  }
}
