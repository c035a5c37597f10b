/** Order-preserving subsequences, described by the increasing positions of
    the elements they keep. Used to state what filtering passes keep. */
module Subsequence {

  /** `idx` picks positions of a sequence of length `n` in increasing order:
      the elements it picks form an order-preserving subsequence. */
  ghost predicate Selects(idx: seq<nat>, n: nat) {
    (forall k :: 0 <= k < |idx| ==> idx[k] < n) &&
    (forall k, l :: 0 <= k < l < |idx| ==> idx[k] < idx[l])
  }

  /** The positions of `s` whose element `keep` accepts, in increasing order. */
  ghost function Positions<T>(s: seq<T>, keep: T -> bool): (idx: seq<nat>)
    ensures Selects(idx, |s|)
  {
    if s == [] then []
    else
      var n := |s| - 1;
      var prev := Positions(s[..n], keep);
      assert forall k :: 0 <= k < |prev| ==> prev[k] < n;
      prev + (if keep(s[n]) then [n] else [])
  }

  /** A position is picked exactly when its element is accepted. */
  lemma {:induction false} PositionsMembership<T>(s: seq<T>, keep: T -> bool)
    ensures forall i :: 0 <= i < |s| ==> (i in Positions(s, keep) <==> keep(s[i]))
  {
    if s != [] {
      var n := |s| - 1;
      PositionsMembership(s[..n], keep);
      forall i | 0 <= i < |s| ensures i in Positions(s, keep) <==> keep(s[i]) {
        if i < n {
          assert s[..n][i] == s[i];
        }
      }
    }
  }
}
