/**
 * The k-medoids loop of cluster_by_partitioning, which both copies share
 * line for line once the initial centroids are chosen: the assignment pass
 * that moves sequences between clusters (the cluster lists are sequence
 * values, reassigned at each step), the centroid update, and the
 * `while change` fixed point.
 */
module Partition {
  import opened Results
  import opened Medoid
  import opened Clusterings

  /** The distance from s to each centroid, in centroid order. */
  function DistancesTo(d: Metric, s: string, cents: seq<string>): (ds: seq<nat>)
    ensures |ds| == |cents|
    ensures forall i :: 0 <= i < |cents| ==> ds[i] == d(s, cents[i])
  {
    seq(|cents|, i requires 0 <= i < |cents| => d(s, cents[i]))
  }

  /**
   * The index min() picks from the (index, distance) pairs: a nearest
   * centroid, the lowest-indexed one on ties.
   */
  function Nearest(d: Metric, s: string, cents: seq<string>): (n: nat)
    requires |cents| > 0
    ensures n < |cents|
    ensures forall i :: 0 <= i < |cents| ==> d(s, cents[n]) <= d(s, cents[i])
    ensures forall i :: 0 <= i < n ==> d(s, cents[n]) < d(s, cents[i])
  {
    FirstMin(DistancesTo(d, s, cents))
  }

  /**
   * With pairwise distinct centroids and a metric that is zero exactly on
   * equal sequences, each centroid is nearest to itself.
   */
  lemma CentroidNearestItself(d: Metric, cents: seq<string>, i: nat)
    requires ZeroOnSelf(d) && Separating(d) && NoDup(cents) && i < |cents|
    ensures Nearest(d, cents[i], cents) == i
  {
    var n := Nearest(d, cents[i], cents);
    assert d(cents[i], cents[i]) == 0;
    assert d(cents[i], cents[n]) == 0;
    assert cents[n] == cents[i];
  }

  /** A centroid repeated at a lower index takes every sequence first: the later copy is never nearest. */
  lemma RepeatNeverNearest(d: Metric, cents: seq<string>, i: nat, j: nat, s: string)
    requires i < j < |cents| && cents[i] == cents[j]
    ensures Nearest(d, s, cents) != j
  {
  }

  /** list.remove: drop the first occurrence of s, keeping the order of the rest. */
  function Remove(c: seq<string>, s: string): (r: seq<string>)
    ensures s in c ==> |r| == |c| - 1
    ensures s !in c ==> r == c
    ensures forall x :: x != s ==> (x in r <==> x in c)
    ensures NoDup(c) ==> NoDup(r) && s !in r
  {
    if c == [] then []
    else
      assert c == [c[0]] + c[1..];
      if c[0] == s then c[1..]
      else
        var rest := Remove(c[1..], s);
        assert NoDup(c) ==> c[0] !in c[1..];
        [c[0]] + rest
  }

  /** Remove takes out exactly the first occurrence, at p, and keeps everything else in order. */
  lemma {:induction false} RemoveAt(c: seq<string>, s: string, p: nat)
    requires p < |c| && c[p] == s && s !in c[..p]
    ensures Remove(c, s) == c[..p] + c[p + 1..]
  {
    if p > 0 {
      assert c[0] in c[..p];
      assert c[1..][..p - 1] == c[1..p];
      assert s !in c[1..][..p - 1];
      RemoveAt(c[1..], s, p - 1);
      assert c[..p] == [c[0]] + c[1..p];
      assert c[1..][p..] == c[p + 1..];
    }
  }

  /** r is clusters with the first occurrence of s removed from every cluster except the one at keep. */
  ghost predicate RemovedElsewhere(clusters: seq<seq<string>>, s: string, keep: nat, r: seq<seq<string>>)
  {
    |r| == |clusters| &&
    forall i :: 0 <= i < |r| ==> r[i] == if i == keep then clusters[i] else Remove(clusters[i], s)
  }

  /**
   * The inner loop of the assignment pass: take s out of every cluster
   * other than the one at keep.
   */
  method RemoveElsewhere(clusters: seq<seq<string>>, s: string, keep: nat) returns (r: seq<seq<string>>)
    requires keep < |clusters|
    requires forall i :: 0 <= i < |clusters| ==> NoDup(clusters[i])
    ensures |r| == |clusters| && r[keep] == clusters[keep]
    ensures forall i :: 0 <= i < |r| ==> NoDup(r[i])
    ensures forall i, x :: 0 <= i < |r| ==> (x in r[i] <==> x in clusters[i] && (x != s || i == keep))
    ensures RemovedElsewhere(clusters, s, keep, r)
  {
    r := clusters;
    for idx := 0 to |clusters|
      invariant |r| == |clusters|
      invariant forall i :: 0 <= i < |r| ==> r[i] == if i == keep || i >= idx then clusters[i] else Remove(clusters[i], s)
    {
      if idx != keep && s in r[idx] {
        r := r[idx := Remove(r[idx], s)];
      }
    }
    forall i | 0 <= i < |r|
      ensures NoDup(r[i])
      ensures forall x :: x in r[i] <==> x in clusters[i] && (x != s || i == keep)
    {
    }
  }

  /** Every cluster holds exactly the pool sequences whose nearest centroid is its own. */
  ghost predicate Assigned(d: Metric, strs: seq<string>, cents: seq<string>, clusters: seq<seq<string>>)
    requires |strs| > 0 ==> |cents| > 0
  {
    |clusters| == |cents| &&
    forall i, x :: 0 <= i < |clusters| ==> (x in clusters[i] <==> x in strs && Nearest(d, x, cents) == i)
  }

  /** What holds after the assignment pass has handled the first t sequences of the pool. */
  ghost predicate PassInvariant(d: Metric, strs: seq<string>, cents: seq<string>, clusters0: seq<seq<string>>,
                                clusters: seq<seq<string>>, change: bool, t: nat)
    requires t <= |strs| && (|strs| > 0 ==> |cents| > 0) && |clusters0| == |cents|
  {
    && |clusters| == |cents|
    && WellFormed(clusters) && Within(clusters, strs)
    && (forall x :: x in strs[..t] ==> x in clusters[Nearest(d, x, cents)])
    && (forall i, x :: 0 <= i < |clusters| && x in clusters[i] && x !in strs[..t] ==> x in clusters0[i])
    && (forall i, x :: 0 <= i < |clusters| && x in clusters0[i] && x !in strs[..t] ==> x in clusters[i])
    && (change <==> exists x :: x in strs[..t] && x !in clusters0[Nearest(d, x, cents)])
    && (!change ==> clusters == clusters0)
  }

  /** Handling a sequence already in its nearest cluster changes nothing. */
  lemma PassSkip(d: Metric, strs: seq<string>, cents: seq<string>, clusters0: seq<seq<string>>,
                 clusters: seq<seq<string>>, change: bool, t: nat)
    requires t < |strs| && |cents| > 0 && |clusters0| == |cents|
    requires PassInvariant(d, strs, cents, clusters0, clusters, change, t)
    requires strs[t] in clusters[Nearest(d, strs[t], cents)]
    ensures PassInvariant(d, strs, cents, clusters0, clusters, change, t + 1)
  {
    var s := strs[t];
    assert strs[..t + 1] == strs[..t] + [s];
    if s !in strs[..t] {
      assert s in clusters0[Nearest(d, s, cents)];
    }
  }

  /** Appending a missing sequence to its nearest cluster and removing it elsewhere. */
  lemma PassAdd(d: Metric, strs: seq<string>, cents: seq<string>, clusters0: seq<seq<string>>,
                clusters: seq<seq<string>>, change: bool, t: nat, next: seq<seq<string>>)
    requires t < |strs| && |cents| > 0 && |clusters0| == |cents|
    requires PassInvariant(d, strs, cents, clusters0, clusters, change, t)
    requires strs[t] !in clusters[Nearest(d, strs[t], cents)]
    requires |next| == |clusters|
    requires forall i :: 0 <= i < |next| ==> NoDup(next[i])
    requires forall i, x :: 0 <= i < |next| ==>
      (x in next[i] <==> (x in clusters[i] || (x == strs[t] && i == Nearest(d, strs[t], cents))) &&
                         (x != strs[t] || i == Nearest(d, strs[t], cents)))
    ensures PassInvariant(d, strs, cents, clusters0, next, true, t + 1)
  {
    var s := strs[t];
    var n := Nearest(d, s, cents);
    assert strs[..t + 1] == strs[..t] + [s];
    assert s !in strs[..t];
    assert s !in clusters0[n];
    assert next != clusters0 by {
      assert s in next[n];
    }
  }

  /**
   * The body of the pass for a pool sequence missing from its nearest
   * centroid's cluster: append it there, then remove it from every other
   * cluster.
   */
  method MoveTo(d: Metric, strs: seq<string>, cents: seq<string>, clusters0: seq<seq<string>>,
                clusters: seq<seq<string>>, change: bool, t: nat) returns (next: seq<seq<string>>)
    requires t < |strs| && |cents| > 0 && |clusters0| == |cents|
    requires PassInvariant(d, strs, cents, clusters0, clusters, change, t)
    requires strs[t] !in clusters[Nearest(d, strs[t], cents)]
    ensures PassInvariant(d, strs, cents, clusters0, next, true, t + 1)
    ensures var n := Nearest(d, strs[t], cents);
            RemovedElsewhere(clusters[n := clusters[n] + [strs[t]]], strs[t], n, next)
  {
    var s := strs[t];
    var n := Nearest(d, s, cents);
    var appended := clusters[n := clusters[n] + [s]];
    assert forall i :: 0 <= i < |appended| ==> NoDup(appended[i]);
    next := RemoveElsewhere(appended, s, n);
    PassAdd(d, strs, cents, clusters0, clusters, change, t, next);
  }

  /**
   * One pass of `for s in seq` over the pool: s is appended to its nearest
   * centroid's cluster when missing there, and then removed from the others.
   * Afterwards every cluster holds exactly the pool sequences nearest to its
   * centroid, and change records whether some sequence was newly added.
   */
  method AssignPass(d: Metric, strs: seq<string>, cents: seq<string>, clusters0: seq<seq<string>>)
    returns (clusters: seq<seq<string>>, change: bool)
    requires |clusters0| == |cents|
    requires |strs| > 0 ==> |cents| > 0
    requires WellFormed(clusters0) && Within(clusters0, strs)
    ensures WellFormed(clusters)
    ensures Assigned(d, strs, cents, clusters)
    ensures change <==> exists x :: x in strs && x !in clusters0[Nearest(d, x, cents)]
    ensures !change ==> clusters == clusters0
  {
    clusters := clusters0;
    change := false;
    for t := 0 to |strs|
      invariant PassInvariant(d, strs, cents, clusters0, clusters, change, t)
    {
      var s := strs[t];
      var minIdx := Nearest(d, s, cents);
      if s !in clusters[minIdx] {
        clusters := MoveTo(d, strs, cents, clusters0, clusters, change, t);
        change := true;
      } else {
        PassSkip(d, strs, cents, clusters0, clusters, change, t);
      }
    }
    assert strs[..|strs|] == strs;
  }

  /**
   * The centroid update `[avg_string(cluster) for cluster in clusters]`:
   * it fails as soon as one cluster is empty.
   */
  function Medoids(d: Metric, clusters: seq<seq<string>>): (r: Result<seq<string>>)
    ensures r.Ok? <==> NonEmpty(clusters)
    ensures r.Err? ==> r.error == EmptyMin
    ensures r.Ok? ==> |r.value| == |clusters|
    ensures r.Ok? ==> forall i :: 0 <= i < |clusters| ==> r.value[i] == AvgString(d, clusters[i]).value
  {
    if exists i :: 0 <= i < |clusters| && clusters[i] == [] then Err(EmptyMin)
    else Ok(seq(|clusters|, i requires 0 <= i < |clusters| => AvgString(d, clusters[i]).value))
  }

  /** Medoids of disjoint clusters are pairwise distinct members of their own clusters. */
  lemma MedoidsDistinct(d: Metric, clusters: seq<seq<string>>)
    requires Disjoint(clusters) && Medoids(d, clusters).Ok?
    ensures forall i :: 0 <= i < |clusters| ==> Medoids(d, clusters).value[i] in clusters[i]
    ensures NoDup(Medoids(d, clusters).value)
  {
    var ms := Medoids(d, clusters).value;
    assert forall i :: 0 <= i < |clusters| ==> ms[i] in clusters[i];
  }

  /** After an assignment pass with distinct centroids from the pool, every centroid sits in its own cluster. */
  lemma DistinctCentroidsFill(d: Metric, strs: seq<string>, cents: seq<string>, clusters: seq<seq<string>>)
    requires ZeroOnSelf(d) && Separating(d) && NoDup(cents)
    requires forall c :: c in cents ==> c in strs
    requires |strs| > 0 ==> |cents| > 0
    requires Assigned(d, strs, cents, clusters)
    ensures NonEmpty(clusters)
  {
    forall i | 0 <= i < |clusters|
      ensures clusters[i] != []
    {
      CentroidNearestItself(d, cents, i);
      assert cents[i] in clusters[i];
    }
  }

  /** After an assignment pass with a repeated centroid, the later copy's cluster is empty. */
  lemma RepeatedCentroidStarves(d: Metric, strs: seq<string>, cents: seq<string>, clusters: seq<seq<string>>)
    requires !NoDup(cents)
    requires |strs| > 0 ==> |cents| > 0
    requires Assigned(d, strs, cents, clusters)
    ensures !NonEmpty(clusters)
  {
    var i, j :| 0 <= i < j < |cents| && cents[i] == cents[j];
    if clusters[j] != [] {
      var x := clusters[j][0];
      assert x in clusters[j];
      RepeatNeverNearest(d, cents, i, j, x);
    }
  }

  /** An assignment is a partition of the pool once each cluster is duplicate-free. */
  lemma AssignedPartition(d: Metric, strs: seq<string>, cents: seq<string>, clusters: seq<seq<string>>)
    requires |strs| > 0 ==> |cents| > 0
    requires Assigned(d, strs, cents, clusters) && WellFormed(clusters)
    ensures IsPartition(clusters, strs)
  {
    forall x | x in strs
      ensures exists i :: 0 <= i < |clusters| && x in clusters[i]
    {
      assert x in clusters[Nearest(d, x, cents)];
    }
  }

  /** What the `while change` loop keeps, with passes counting the passes done. */
  ghost predicate ConvergeInvariant(d: Metric, strs: seq<string>, cents0: seq<string>, fuel: nat,
                                    clusters: seq<seq<string>>, cents: seq<string>, change: bool, left: nat, passes: nat)
  {
    && |clusters| == |cents| == |cents0|
    && (|strs| > 0 ==> |cents0| > 0)
    && WellFormed(clusters) && Within(clusters, strs)
    && (forall c :: c in cents ==> c in strs)
    && (passes == 0 ==> change && cents == cents0 && left == fuel && forall i :: 0 <= i < |clusters| ==> clusters[i] == [])
    && (passes > 0 ==> Medoids(d, clusters) == Ok(cents))
    && (!change ==> Assigned(d, strs, cents, clusters))
    && (ZeroOnSelf(d) && Separating(d) && NoDup(cents0) ==> NoDup(cents))
    && (!NoDup(cents0) && fuel > 0 ==> passes == 0)
  }

  /**
   * The centroid update after one pass fails only on a repeated initial
   * centroid or a metric that does not separate sequences.
   */
  lemma UpdateFailsOnlyOnRepeats(d: Metric, strs: seq<string>, cents0: seq<string>, fuel: nat,
                                 before: seq<seq<string>>, used: seq<string>, left: nat, passes: nat,
                                 clusters: seq<seq<string>>)
    requires ConvergeInvariant(d, strs, cents0, fuel, before, used, true, left, passes)
    requires Assigned(d, strs, used, clusters)
    ensures ZeroOnSelf(d) && Separating(d) && NoDup(cents0) ==> Medoids(d, clusters).Ok?
    ensures passes == 0 && !NoDup(cents0) ==> Medoids(d, clusters).Err?
  {
    if ZeroOnSelf(d) && Separating(d) && NoDup(cents0) {
      DistinctCentroidsFill(d, strs, used, clusters);
    }
    if passes == 0 && !NoDup(cents0) {
      RepeatedCentroidStarves(d, strs, used, clusters);
    }
  }

  /** When the centroid update succeeds, one more pass keeps the loop invariant. */
  lemma ConvergeStep(d: Metric, strs: seq<string>, cents0: seq<string>, fuel: nat,
                     before: seq<seq<string>>, used: seq<string>, left: nat, passes: nat,
                     clusters: seq<seq<string>>, change: bool)
    requires ConvergeInvariant(d, strs, cents0, fuel, before, used, true, left, passes) && left > 0
    requires WellFormed(clusters) && Assigned(d, strs, used, clusters)
    requires passes == 0 && |strs| > 0 ==> change
    requires !change ==> clusters == before
    requires Medoids(d, clusters).Ok? && (passes == 0 ==> NoDup(cents0))
    ensures ConvergeInvariant(d, strs, cents0, fuel, clusters, Medoids(d, clusters).value, change, left - 1, passes + 1)
  {
    assert Within(clusters, strs);
    MedoidsDistinct(d, clusters);
    var cents := Medoids(d, clusters).value;
    forall c | c in cents
      ensures c in strs
    {
      var i :| 0 <= i < |cents| && cents[i] == c;
      assert c in clusters[i];
    }
    if !change && passes == 0 {
      assert |clusters| == 0;
    }
  }

  /**
   * The `while change` loop, from centroids drawn from the pool, with fuel
   * standing for the unbounded number of passes.  A result is a partition of
   * the pool into one non-empty cluster per centroid, and a fixed point: the
   * clusters are exactly the assignment their own medoids produce.  With
   * distinct initial centroids and a metric that separates sequences no
   * cluster ever empties; with a repeated centroid the later copy's cluster
   * stays empty and the centroid update fails on the first pass.
   */
  method Converge(d: Metric, strs: seq<string>, cents0: seq<string>, fuel: nat) returns (r: Result<seq<seq<string>>>)
    requires forall c :: c in cents0 ==> c in strs
    ensures r.Ok? ==> |r.value| == |cents0| && IsPartition(r.value, strs) && NonEmpty(r.value)
    ensures r.Ok? ==> Medoids(d, r.value).Ok? && (|strs| > 0 ==> |r.value| > 0) && Assigned(d, strs, Medoids(d, r.value).value, r.value)
    ensures r.Err? ==> r.error == EmptyMin || r.error == NotConverged
    ensures |cents0| == 0 && |strs| > 0 ==> r == Err(EmptyMin)
    ensures ZeroOnSelf(d) && Separating(d) && NoDup(cents0) && |cents0| > 0 ==> r != Err(EmptyMin)
    ensures !NoDup(cents0) && fuel > 0 ==> r == Err(EmptyMin)
  {
    if |cents0| == 0 && |strs| > 0 {
      return Err(EmptyMin);    // min() over no centroids
    }
    var clusters: seq<seq<string>> := seq(|cents0|, _ => []);
    var cents := cents0;
    var change := true;
    var left := fuel;
    ghost var passes := 0;
    while change
      invariant ConvergeInvariant(d, strs, cents0, fuel, clusters, cents, change, left, passes)
      decreases left
    {
      if left == 0 {
        return Err(NotConverged);
      }
      ghost var before := clusters;
      ghost var used := cents;
      clusters, change := AssignPass(d, strs, cents, clusters);
      if passes == 0 && |strs| > 0 {
        assert strs[0] !in before[Nearest(d, strs[0], used)];
      }
      UpdateFailsOnlyOnRepeats(d, strs, cents0, fuel, before, used, left, passes, clusters);
      var m := Medoids(d, clusters);
      if m.Err? {
        return Err(EmptyMin);  // avg_string([]) in the centroid update
      }
      ConvergeStep(d, strs, cents0, fuel, before, used, left, passes, clusters, change);
      cents := m.value;
      left := left - 1;
      passes := passes + 1;
    }
    AssignedPartition(d, strs, cents, clusters);
    return Ok(clusters);
  }
}
