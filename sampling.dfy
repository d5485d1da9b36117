/**
 * random.sample(pool, k): the random draw itself is an input, a list of k
 * different positions of the pool, and the sample is the pool items at
 * those positions.
 */
module Sampling {
  import opened Clusterings

  /** Every drawn position lies inside a pool of n items. */
  predicate InRange(idxs: seq<nat>, n: nat) {
    forall t :: 0 <= t < |idxs| ==> idxs[t] < n
  }

  /** With InRange, idxs is what random.sample(pool, k) draws: k different positions. */
  ghost predicate IsSample(idxs: seq<nat>, k: nat) {
    |idxs| == k && forall a, b :: 0 <= a < b < k ==> idxs[a] != idxs[b]
  }

  /** The sequences at the sampled positions, in the order drawn. */
  function Pick(strs: seq<string>, idxs: seq<nat>): (r: seq<string>)
    requires InRange(idxs, |strs|)
    ensures |r| == |idxs|
    ensures forall t :: 0 <= t < |idxs| ==> r[t] == strs[idxs[t]]
  {
    seq(|idxs|, t requires 0 <= t < |idxs| => strs[idxs[t]])
  }

  /** Different positions of a duplicate-free pool give different sequences. */
  lemma PickDistinct(strs: seq<string>, idxs: seq<nat>, k: nat)
    requires InRange(idxs, |strs|) && IsSample(idxs, k) && NoDup(strs)
    ensures NoDup(Pick(strs, idxs))
  {
    var p := Pick(strs, idxs);
    forall a, b | 0 <= a < b < |p|
      ensures p[a] != p[b]
    {
      if idxs[a] < idxs[b] {
        assert strs[idxs[a]] != strs[idxs[b]];
      } else {
        assert strs[idxs[b]] != strs[idxs[a]];
      }
    }
  }
}
