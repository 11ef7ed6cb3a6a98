/** Queues whose front part and back part hold different kinds of elements. */
module Queues {
  function Without<T>(q: seq<T>, i: nat): seq<T> {
    if i < |q| then q[..i] + q[i + 1..] else q
  }

  function Twice<T>(q: seq<T>, i: nat): seq<T> {
    if i < |q| then q[..i] + [q[i]] + q[i..] else q
  }

  ghost predicate Parted<T(!new)>(q: seq<T>, n: nat, front: iset<T>, back: iset<T>) {
    && n <= |q|
    && (forall i :: 0 <= i < n ==> q[i] in front)
    && (forall i :: n <= i < |q| ==> q[i] in back)
  }

  lemma WithoutParted<T(!new)>(q: seq<T>, n: nat, front: iset<T>, back: iset<T>, i: nat)
    requires Parted(q, n, front, back)
    ensures Parted(Without(q, i), if i < n then n - 1 else n, front, back)
  {
  }

  lemma TwiceParted<T(!new)>(q: seq<T>, n: nat, front: iset<T>, back: iset<T>, i: nat)
    requires Parted(q, n, front, back)
    ensures Parted(Twice(q, i), if i < n then n + 1 else n, front, back)
  {
  }
}
