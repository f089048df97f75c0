// Shared vocabulary: optional values, results, and counting in a log of instants.

module Prelude {

  datatype Option<+T> = None | Some(value: T)

  datatype Result<+T, +E> = Ok(value: T) | Err(error: E)

  /** The time between two instants, nothing when the clock went back. */
  function Since(later: nat, earlier: nat): nat {
    if later >= earlier then later - earlier else 0
  }

  ghost predicate Sorted(instants: seq<nat>) {
    forall i, j :: 0 <= i < j < |instants| ==> instants[i] <= instants[j]
  }

  /** How many instants fall in the half-open interval [from, to). */
  ghost function CountIn(instants: seq<nat>, from: nat, to: nat): nat {
    if instants == [] then 0
    else
      var last := |instants| - 1;
      CountIn(instants[..last], from, to) + (if from <= instants[last] < to then 1 else 0)
  }

  lemma {:induction false} CountAtMostTail(instants: seq<nat>, from: nat, to: nat, tail: nat)
    requires tail <= |instants|
    requires forall i :: 0 <= i < |instants| - tail ==> !(from <= instants[i] < to)
    ensures CountIn(instants, from, to) <= tail
  {
    if instants != [] {
      var last := |instants| - 1;
      CountAtMostTail(instants[..last], from, to, if tail == 0 then 0 else tail - 1);
    }
  }

  /** When `n` consecutive steps of a sorted log always cover `width`, no half-open
      interval of that width holds more than `n` of its instants. */
  lemma {:induction false} SparseCount(instants: seq<nat>, n: nat, from: nat, width: nat)
    requires Sorted(instants)
    requires forall i :: 0 <= i && i + n < |instants| ==> instants[i] + width <= instants[i + n]
    ensures CountIn(instants, from, from + width) <= n
  {
    if |instants| <= n {
      CountAtMostTail(instants, from, from + width, |instants|);
    } else {
      var last := |instants| - 1;
      if from <= instants[last] < from + width {
        assert instants[last - n] + width <= instants[last - n + n];
        CountAtMostTail(instants, from, from + width, n);
      } else {
        SparseCount(instants[..last], n, from, width);
      }
    }
  }
}
