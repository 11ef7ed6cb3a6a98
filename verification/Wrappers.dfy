/** Optional values, and the stack's error values (core/src/types.rs). */
module Wrappers {

  datatype Option<+T> = None | Some(value: T)

  datatype Error =
    | BadLength
    | Overflow
    | ObjectNotFound
    | InvalidNodeId
    | ReadOnly
    | WriteOnly
    | TypeMismatch
    | DictionaryFull
    | UnsupportedTransfer
    | UnexpectedCommand
    | PdoTooLong
    | MappingFull
    | ToggleMismatch
    | CrcMismatch

  /** The source's `Result`; usable with `:-`. */
  datatype Result<+T> = Ok(value: T) | Err(error: Error) {
    predicate IsFailure() {
      Err?
    }

    function PropagateFailure<U>(): Result<U>
      requires Err?
    {
      Err(error)
    }

    function Extract(): T
      requires Ok?
    {
      value
    }
  }

  datatype Unit = Unit

  /** The values that are there, in order. */
  function Present<T>(slots: seq<Option<T>>): (values: seq<T>)
    ensures |values| <= |slots|
  {
    if slots == [] then []
    else
      var before, slot := Present(slots[..|slots| - 1]), slots[|slots| - 1];
      if slot.Some? then before + [slot.value] else before
  }

  /** `places[i]` is the place of the i-th value. */
  ghost predicate InOrder<T>(slots: seq<Option<T>>, values: seq<T>, places: seq<nat>) {
    && |places| == |values|
    && (forall i :: 0 <= i < |places| ==> places[i] < |slots| && slots[places[i]] == Some(values[i]))
    && (forall i, j :: 0 <= i < j < |places| ==> places[i] < places[j])
    && (forall k :: 0 <= k < |slots| && slots[k].Some? ==> k in places)
  }

  lemma InOrderMissing<T>(slots: seq<Option<T>>, values: seq<T>, places: seq<nat>)
    requires InOrder(slots, values, places)
    ensures InOrder(slots + [None], values, places)
  {
  }

  lemma InOrderPresent<T>(slots: seq<Option<T>>, values: seq<T>, places: seq<nat>, value: T)
    requires InOrder(slots, values, places)
    ensures InOrder(slots + [Some(value)], values + [value], places + [|slots|])
  {
    assert forall k :: k in places ==> k in places + [|slots|];
    assert |slots| in places + [|slots|];
  }

  lemma {:induction false} PresentInOrder<T>(slots: seq<Option<T>>) returns (places: seq<nat>)
    ensures InOrder(slots, Present(slots), places)
  {
    places := [];
    if slots != [] {
      var init, slot := slots[..|slots| - 1], slots[|slots| - 1];
      places := PresentInOrder(init);
      assert slots == init + [slot];
      hide InOrder;
      if slot.Some? {
        InOrderPresent(init, Present(init), places, slot.value);
        places := places + [|init|];
      } else {
        InOrderMissing(init, Present(init), places);
      }
    }
  }
}
