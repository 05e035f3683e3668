/** The counting fact behind every bound on a walk along parent links. */
module Walks {

  /** A sequence of pairwise distinct elements of S is no longer than S is large. */
  lemma {:induction false} DistinctBound<T>(w: seq<T>, S: set<T>)
    requires forall k | 0 <= k < |w| :: w[k] in S
    requires forall k, l | 0 <= k < l < |w| :: w[k] != w[l]
    ensures |w| <= |S|
    decreases |w|
  {
    if w != [] {
      var rest := w[1..];
      assert forall k | 0 <= k < |rest| :: rest[k] == w[k + 1];
      DistinctBound(rest, S - {w[0]});
    }
  }
}
