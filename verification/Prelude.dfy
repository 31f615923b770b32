/** Shared vocabulary: optional values, UTC-millisecond minutes and finite-set ranking. */
module Prelude {
  datatype Option<+T> = None | Some(value: T)

  const MINUTE := 60_000

  /** The elements of a sequence, as a set. */
  function ToSet<T>(s: seq<T>): set<T> {
    set x | x in s
  }

  predicate Distinct<T(==)>(s: seq<T>) {
    forall i, j :: 0 <= i < j < |s| ==> s[i] != s[j]
  }

  /** The first minute boundary at or after the decision. */
  function OutcomeCutoff(decisionAt: int): (cutoff: int)
    ensures cutoff % MINUTE == 0 && decisionAt <= cutoff < decisionAt + MINUTE
  {
    (decisionAt + MINUTE - 1) / MINUTE * MINUTE
  }
}
