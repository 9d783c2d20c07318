/** Counters: maps from keys to how often each was seen. */
module Tally {

  /** A counter's reading; a missing key reads zero. */
  function At<K(==)>(counter: map<K, nat>, k: K): nat {
    if k in counter then counter[k] else 0
  }

  function Plus<K(==,!new)>(counter: map<K, nat>, k: K, step: nat): (r: map<K, nat>)
    ensures forall x :: At(r, x) == At(counter, x) + if x == k then step else 0
    ensures r.Keys == counter.Keys + {k}
  {
    counter[k := At(counter, k) + step]
  }

  function One(b: bool): nat {
    if b then 1 else 0
  }
}
