/**
 * The second copy of the clustering engine.  It shares the encoding, the
 * medoid and the assignment pass with the first copy, but differs in four
 * places: the initial centroids are one random sample taken as is (a
 * repeated sequence is not redrawn); single linkage is the least distance
 * over all cross pairs; the closest pair comes from a full square matrix
 * whose diagonal is set to infinity; and the hierarchical driver records
 * every intermediate clustering.
 */
module Hw2Skeleton {
  import opened Results
  import opened Encoding
  import opened Medoid
  import opened Clusterings
  import opened Partition
  import opened Sampling

  // ------------------------------------------------------------ partitioning

  /**
   * cluster_by_partitioning in this copy: one sample of k positions becomes
   * the centroids without any check for repeats, then the same assignment
   * and medoid loop runs to its fixed point.  Only the site clusters are
   * returned; the sequence clusters behind them are the ghost result.
   */
  method ClusterByPartitioning(d: Metric, sites: seq<Site>, k: nat, sample: seq<nat>, fuel: nat)
    returns (r: Result<seq<seq<Site>>>, ghost clusters: seq<seq<string>>)
    requires AllEncodable(sites) && k <= |sites| ==> InRange(sample, |sites|) && IsSample(sample, k)
    ensures r.Err? && !AllEncodable(sites) ==> exists i :: FirstUnencodable(sites, i) && r.error == Encode(sites[i].residues).error
    ensures AllEncodable(sites) && k > |sites| ==> r == Err(SampleTooLarge)
    ensures r.Ok? ==> AllEncodable(sites) && k <= |sites|
    ensures r.Ok? ==> |clusters| == k && IsPartition(clusters, Encodings(sites)) && NonEmpty(clusters)
    ensures r.Ok? ==> Medoids(d, clusters).Ok? && (|sites| > 0 ==> k > 0) &&
                      Assigned(d, Encodings(sites), Medoids(d, clusters).value, clusters)
    ensures r.Ok? ==> Resolved(sites, clusters, r.value)
    ensures AllEncodable(sites) && k <= |sites| && !NoDup(Pick(Encodings(sites), sample)) && fuel > 0 ==>
      r == Err(EmptyMin)
    ensures ZeroOnSelf(d) && Separating(d) && AllEncodable(sites) && NoDup(Encodings(sites)) && 0 < k <= |sites| ==>
      r.Ok? || r == Err(NotConverged)
  {
    clusters := [];
    var pool := GetAaSeq(sites);
    if pool.Err? {
      return Err(pool.error), clusters;
    }
    var (strs, seqDict) := pool.value;
    if k > |strs| {
      return Err(SampleTooLarge), clusters;  // random.sample raises ValueError
    }
    var cents := Pick(strs, sample);
    if NoDup(strs) {
      PickDistinct(strs, sample, k);
    }
    var c := Converge(d, strs, cents, fuel);
    if c.Err? {
      return Err(c.error), clusters;
    }
    clusters := c.value;
    ToSitesResolves(sites, strs, seqDict, c.value);
    return Ok(ToSites2D(c.value, seqDict)), clusters;
  }

  // ------------------------------------------------------------ single linkage

  /** The least distance from a to a member of c. */
  function ClosestTo(d: Metric, a: string, c: seq<string>): (v: nat)
    requires c != []
    ensures forall b :: b in c ==> v <= d(a, b)
    ensures exists b :: b in c && v == d(a, b)
  {
    if |c| == 1 then d(a, c[0])
    else
      var rest := ClosestTo(d, a, c[..|c| - 1]);
      assert forall b :: b in c ==> b in c[..|c| - 1] || b == c[|c| - 1];
      if d(a, c[|c| - 1]) < rest then d(a, c[|c| - 1]) else rest
  }

  /** The least distance over all pairs drawn from c1 and c2. */
  function LeastCross(d: Metric, c1: seq<string>, c2: seq<string>): (v: nat)
    requires c1 != [] && c2 != []
    ensures forall a, b :: a in c1 && b in c2 ==> v <= d(a, b)
    ensures exists a, b :: a in c1 && b in c2 && v == d(a, b)
  {
    var last := ClosestTo(d, c1[|c1| - 1], c2);
    if |c1| == 1 then last
    else
      var rest := LeastCross(d, c1[..|c1| - 1], c2);
      assert forall a :: a in c1 ==> a in c1[..|c1| - 1] || a == c1[|c1| - 1];
      if last < rest then last else rest
  }

  /**
   * single_linkage in this copy: the least distance over the cartesian
   * product of the two clusters; min() of no distances fails when either
   * cluster is empty.
   */
  function SingleLinkage(d: Metric, c1: seq<string>, c2: seq<string>): (r: Result<nat>)
    ensures r.Ok? <==> c1 != [] && c2 != []
    ensures r.Err? ==> r.error == EmptyMin
    ensures r.Ok? ==> forall a, b :: a in c1 && b in c2 ==> r.value <= d(a, b)
    ensures r.Ok? ==> exists a, b :: a in c1 && b in c2 && r.value == d(a, b)
  {
    if c1 == [] || c2 == [] then Err(EmptyMin) else Ok(LeastCross(d, c1, c2))
  }

  /** With a symmetric distance the linkage does not depend on the order of the clusters. */
  lemma LinkageSymmetric(d: Metric, c1: seq<string>, c2: seq<string>)
    requires Symmetric(d)
    ensures SingleLinkage(d, c1, c2) == SingleLinkage(d, c2, c1)
  {
    if c1 != [] && c2 != [] {
      var v := SingleLinkage(d, c1, c2).value;
      var w := SingleLinkage(d, c2, c1).value;
      var a, b :| a in c1 && b in c2 && v == d(a, b);
      var b', a' :| b' in c2 && a' in c1 && w == d(b', a');
      assert v <= d(a', b');
      assert w <= d(b, a);
      assert d(a', b') == d(b', a') && d(b, a) == d(a, b);
    }
  }

  // ------------------------------------------------------------ similarity matrix

  /** A matrix entry: a finite linkage, or the infinity placed on the diagonal. */
  datatype Dist = Fin(value: nat) | Inf

  predicate Le(x: Dist, y: Dist) {
    y.Inf? || (x.Fin? && x.value <= y.value)
  }

  predicate Lt(x: Dist, y: Dist) {
    x.Fin? && (y.Inf? || x.value < y.value)
  }

  /** (a, b) comes before (i, j) in row-major order. */
  predicate Before(a: int, b: int, i: int, j: int) {
    a < i || (a == i && b < j)
  }

  /**
   * (i, j) holds the first least entry among the cells of m before (a, b)
   * in row-major order.
   */
  ghost predicate LeastSoFar(m: array2<Dist>, i: nat, j: nat, a: nat, b: nat)
    reads m
  {
    && i < m.Length0 && j < m.Length1
    && (Before(i, j, a, b) || (i == 0 && j == 0))
    && forall x, y :: 0 <= x < m.Length0 && 0 <= y < m.Length1 && Before(x, y, a, b) ==>
         Le(m[i, j], m[x, y]) && (Before(x, y, i, j) ==> Lt(m[i, j], m[x, y]))
  }

  /** Scan one row for an entry strictly below the best one so far. */
  method ScanRow(m: array2<Dist>, a: nat, i0: nat, j0: nat) returns (i: nat, j: nat)
    requires a < m.Length0 && 0 < m.Length1
    requires LeastSoFar(m, i0, j0, a, 0)
    ensures LeastSoFar(m, i, j, a + 1, 0)
  {
    i, j := i0, j0;
    for b := 0 to m.Length1
      invariant LeastSoFar(m, i, j, a, b)
    {
      if Lt(m[a, b], m[i, j]) {
        i, j := a, b;
      }
    }
  }

  /**
   * minimum_position: set the diagonal to infinity in place, then return
   * the first least entry in row-major order (what np.where lists first)
   * and its value.  An empty matrix has no minimum.
   */
  method MinimumPosition(m: array2<Dist>) returns (r: Result<(nat, nat, Dist)>)
    modifies m
    ensures forall x, y :: 0 <= x < m.Length0 && 0 <= y < m.Length1 ==>
      m[x, y] == if x == y then Inf else old(m[x, y])
    ensures r.Err? <==> m.Length0 == 0 || m.Length1 == 0
    ensures r.Err? ==> r.error == EmptyMin
    ensures r.Ok? ==> LeastSoFar(m, r.value.0, r.value.1, m.Length0, 0) && r.value.2 == m[r.value.0, r.value.1]
  {
    for t := 0 to if m.Length0 < m.Length1 then m.Length0 else m.Length1
      invariant forall x, y :: 0 <= x < m.Length0 && 0 <= y < m.Length1 ==>
        m[x, y] == if x == y && x < t then Inf else old(m[x, y])
    {
      m[t, t] := Inf;
    }
    if m.Length0 == 0 || m.Length1 == 0 {
      return Err(EmptyMin);
    }
    var i, j := FirstLeast(m);
    return Ok((i, j, m[i, j]));
  }

  /** The first least entry of a non-empty matrix, row by row. */
  method FirstLeast(m: array2<Dist>) returns (i: nat, j: nat)
    requires 0 < m.Length0 && 0 < m.Length1
    ensures LeastSoFar(m, i, j, m.Length0, 0)
  {
    i, j := 0, 0;
    for a := 0 to m.Length0
      invariant LeastSoFar(m, i, j, a, 0)
    {
      i, j := ScanRow(m, a, i, j);
    }
  }

  // ------------------------------------------------------------ merging

  /** The clustering merge_clusters builds from the first size clusters. */
  function Combined(cs: seq<seq<string>>, i: nat, j: nat, size: nat): seq<seq<string>>
    requires size <= |cs|
  {
    [Joined(cs[..size], i, j)] + Without(cs[..size], i, j)
  }

  /**
   * merge_clusters: one pass over the first size positions collects the
   * clusters at i and j into the merged cluster and keeps every other
   * cluster in order; the merged cluster goes first.
   */
  method MergeClusters(i: nat, j: nat, clusters: seq<seq<string>>, size: nat) returns (r: seq<seq<string>>)
    requires size <= |clusters|
    ensures r == Combined(clusters, i, j, size)
  {
    var mergedCluster: seq<string> := [];
    var oldClusters: seq<seq<string>> := [];
    for count := 0 to size
      invariant mergedCluster == Joined(clusters[..count], i, j)
      invariant oldClusters == Without(clusters[..count], i, j)
    {
      assert clusters[..count + 1][..count] == clusters[..count];
      if count == i || count == j {
        mergedCluster := mergedCluster + clusters[count];
      } else {
        oldClusters := oldClusters + [clusters[count]];
      }
    }
    return [mergedCluster] + oldClusters;
  }

  lemma {:induction false} MembersCons(c: seq<string>, cs: seq<seq<string>>)
    ensures Members([c] + cs) == c + Members(cs)
  {
    if cs != [] {
      var n := |cs| - 1;
      MembersCons(c, cs[..n]);
      assert ([c] + cs)[..|cs|] == [c] + cs[..n];
    }
  }

  /**
   * Merging two different positions of the whole clustering loses exactly
   * one cluster, merging a position with itself none; no member is lost and
   * the merged cluster, first, holds the two clusters in position order.
   */
  lemma CombinedCounts(cs: seq<seq<string>>, i: nat, j: nat)
    requires i < |cs| && j < |cs|
    ensures |Combined(cs, i, j, |cs|)| == if i == j then |cs| else |cs| - 1
    ensures Combined(cs, i, j, |cs|)[0] == if i == j then cs[i] else if i < j then cs[i] + cs[j] else cs[j] + cs[i]
    ensures multiset(Members(Combined(cs, i, j, |cs|))) == multiset(Members(cs))
  {
    assert cs[..|cs|] == cs;
    JoinedPair(cs, i, j);
    WithoutSize(cs, i, j);
    WithoutMembers(cs, i, j);
    MembersCons(Joined(cs, i, j), Without(cs, i, j));
  }

  /** A merge of non-empty clusters leaves no cluster empty. */
  lemma CombinedNonEmpty(cs: seq<seq<string>>, i: nat, j: nat)
    requires i < |cs| && j < |cs| && NonEmpty(cs)
    ensures NonEmpty(Combined(cs, i, j, |cs|))
  {
    assert cs[..|cs|] == cs;
    JoinedPair(cs, i, j);
    var rest := Without(cs, i, j);
    WithoutSubset(cs, i, j);
    forall q | 0 <= q < |rest|
      ensures rest[q] != []
    {
      assert rest[q] in rest;
    }
  }

  // ------------------------------------------------------------ one agglomeration step

  /** The linkage between the clusters at positions a and b of a clustering without empty clusters. */
  function Link(d: Metric, cs: seq<seq<string>>, a: nat, b: nat): nat
    requires a < |cs| && b < |cs| && cs[a] != [] && cs[b] != []
  {
    SingleLinkage(d, cs[a], cs[b]).value
  }

  /**
   * (i, j) is the pair cluster merges: two different positions whose
   * linkage is least over all pairs of different positions, and the first
   * such pair in row-major order.
   */
  ghost predicate ClosestPair(d: Metric, cs: seq<seq<string>>, i: nat, j: nat) {
    && NonEmpty(cs) && i < |cs| && j < |cs| && i != j
    && forall a, b :: 0 <= a < |cs| && 0 <= b < |cs| && a != b ==>
         Link(d, cs, i, j) <= Link(d, cs, a, b) && (Before(a, b, i, j) ==> Link(d, cs, i, j) < Link(d, cs, a, b))
  }

  /** With a symmetric distance the chosen pair always has the lower position first. */
  lemma ClosestOrdered(d: Metric, cs: seq<seq<string>>, i: nat, j: nat)
    requires Symmetric(d) && ClosestPair(d, cs, i, j)
    ensures i < j
  {
    if j < i {
      LinkageSymmetric(d, cs[i], cs[j]);
      assert Before(j, i, i, j);
    }
  }

  /** Cell (x, y) of m holds the linkage of clusters x and y, as a finite entry. */
  ghost predicate CellOk(d: Metric, cs: seq<seq<string>>, m: array2<Dist>, x: int, y: int)
    reads m
  {
    0 <= x < |cs| && 0 <= y < |cs| && x < m.Length0 && y < m.Length1 &&
    m[x, y].Fin? && SingleLinkage(d, cs[x], cs[y]) == Ok(m[x, y].value)
  }

  /** Rows below a hold the linkage of every pair. */
  ghost predicate Filled(d: Metric, cs: seq<seq<string>>, m: array2<Dist>, a: nat)
    reads m
  {
    && m.Length0 == |cs| && m.Length1 == |cs| && a <= |cs|
    && forall x, y :: 0 <= x < a && 0 <= y < |cs| ==> CellOk(d, cs, m, x, y)
  }

  /** Fill row a of the matrix, failing as single_linkage does on an empty cluster. */
  method FillRow(d: Metric, cs: seq<seq<string>>, m: array2<Dist>, a: nat) returns (ok: bool)
    requires a < |cs| && Filled(d, cs, m, a)
    modifies m
    ensures ok ==> Filled(d, cs, m, a + 1)
    ensures !ok ==> exists b :: 0 <= b < |cs| && cs[b] == []
    ensures forall x, y :: 0 <= x < m.Length0 && 0 <= y < m.Length1 && x != a ==> m[x, y] == old(m[x, y])
  {
    for b := 0 to |cs|
      invariant Filled(d, cs, m, a)
      invariant forall y :: 0 <= y < b ==> CellOk(d, cs, m, a, y)
      invariant forall x, y :: 0 <= x < m.Length0 && 0 <= y < m.Length1 && x != a ==> m[x, y] == old(m[x, y])
    {
      var sl := SingleLinkage(d, cs[a], cs[b]);
      if sl.Err? {
        return false;
      }
      label before:
      m[a, b] := Fin(sl.value);
      forall x, y | 0 <= x < |cs| && 0 <= y < |cs| && (x < a || (x == a && y < b))
        ensures CellOk(d, cs, m, x, y)
      {
        assert old@before(CellOk(d, cs, m, x, y));
      }
    }
    return true;
  }

  /** The least entry of the filled matrix with infinite diagonal is the closest pair. */
  lemma MatrixClosest(d: Metric, cs: seq<seq<string>>, m: array2<Dist>, i: nat, j: nat)
    requires |cs| >= 2 && NonEmpty(cs) && m.Length0 == |cs| && m.Length1 == |cs|
    requires forall x :: 0 <= x < |cs| ==> m[x, x] == Inf
    requires forall x, y :: 0 <= x < |cs| && 0 <= y < |cs| && x != y ==> CellOk(d, cs, m, x, y)
    requires LeastSoFar(m, i, j, |cs|, 0)
    ensures ClosestPair(d, cs, i, j) && m[i, j] == Fin(Link(d, cs, i, j))
  {
    forall x, y | 0 <= x < |cs| && 0 <= y < |cs| && x != y
      ensures m[x, y] == Fin(Link(d, cs, x, y))
    {
      assert CellOk(d, cs, m, x, y);
    }
    assert Le(m[i, j], m[0, 1]);
  }

  /**
   * cluster: fill the square matrix of linkages, take its least off-diagonal
   * entry and merge the two clusters there.  An empty cluster, or no
   * cluster at all, makes a min() fail.  The merged positions are the
   * ghost results.
   */
  method Cluster(d: Metric, clusters: seq<seq<string>>)
    returns (r: Result<(seq<seq<string>>, Dist)>, ghost i: nat, ghost j: nat)
    ensures r.Ok? <==> |clusters| > 0 && NonEmpty(clusters)
    ensures r.Err? ==> r.error == EmptyMin
    ensures r.Ok? ==> i < |clusters| && j < |clusters| && r.value.0 == Combined(clusters, i, j, |clusters|)
    ensures r.Ok? && |clusters| == 1 ==> i == 0 && j == 0 && r.value.1 == Inf
    ensures r.Ok? && |clusters| >= 2 ==>
      ClosestPair(d, clusters, i, j) && r.value.1 == Fin(Link(d, clusters, i, j))
  {
    i, j := 0, 0;
    var size := |clusters|;
    var simMatrix := new Dist[size, size];
    for a := 0 to size
      invariant Filled(d, clusters, simMatrix, a)
    {
      var ok := FillRow(d, clusters, simMatrix, a);
      if !ok {
        return Err(EmptyMin), i, j;
      }
    }
    if size == 0 {
      return Err(EmptyMin), i, j;  // np.min of an empty matrix
    }
    assert NonEmpty(clusters) by {
      forall x | 0 <= x < size
        ensures clusters[x] != []
      {
        assert CellOk(d, clusters, simMatrix, x, 0);
      }
    }
    label filled:
    var pos := MinimumPosition(simMatrix);
    i, j := pos.value.0, pos.value.1;
    forall x, y | 0 <= x < size && 0 <= y < size && x != y
      ensures CellOk(d, clusters, simMatrix, x, y)
    {
      assert old@filled(CellOk(d, clusters, simMatrix, x, y));
    }
    if size >= 2 {
      MatrixClosest(d, clusters, simMatrix, i, j);
    }
    var merged := MergeClusters(pos.value.0, pos.value.1, clusters, size);
    return Ok((merged, pos.value.2)), i, j;
  }

  // ------------------------------------------------------------ hierarchical driver

  /** convert_to_object_3d: every clustering of the list mapped to its sites. */
  function ToSites3D(clusterings: seq<seq<seq<string>>>, seqDict: map<string, Site>): (r: seq<seq<seq<Site>>>)
    requires forall m, i, x :: 0 <= m < |clusterings| && 0 <= i < |clusterings[m]| && x in clusterings[m][i] ==> x in seqDict
    ensures |r| == |clusterings|
  {
    seq(|clusterings|, m requires 0 <= m < |clusterings| => ToSites2D(clusterings[m], seqDict))
  }

  /** Every clustering of the list comes back as the sites its sequences resolve to. */
  lemma ToSites3DResolves(sites: seq<Site>, strs: seq<string>, seqDict: map<string, Site>,
                          clusterings: seq<seq<seq<string>>>)
    requires IsPool(sites, strs, seqDict)
    requires forall m, i, x :: 0 <= m < |clusterings| && 0 <= i < |clusterings[m]| && x in clusterings[m][i] ==> x in strs
    ensures forall m :: 0 <= m < |clusterings| ==> Resolved(sites, clusterings[m], ToSites3D(clusterings, seqDict)[m])
  {
    forall m | 0 <= m < |clusterings|
      ensures Resolved(sites, clusterings[m], ToSites3D(clusterings, seqDict)[m])
    {
      ToSitesResolves(sites, strs, seqDict, clusterings[m]);
    }
  }

  /** after is what cluster makes of before: the closest pair merged. */
  ghost predicate MergeOf(d: Metric, before: seq<seq<string>>, after: seq<seq<string>>) {
    exists i, j :: ClosestPair(d, before, i, j) && after == Combined(before, i, j, |before|)
  }

  /** How many clusterings cluster_hierarchically reports for n sequences. */
  function Rounds(n: nat, k: int): nat {
    if 2 <= k <= n then k else if n == 0 then 1 else n
  }

  /** The clustering the recorded list ends in: the singletons while nothing is recorded. */
  function Latest(strs: seq<string>, trace: seq<seq<seq<string>>>): seq<seq<string>>
    requires |trace| >= 1
  {
    if |trace| == 1 then Singletons(strs) else trace[|trace| - 1]
  }

  /** Every recorded clustering after the first merges the closest pair of the one before. */
  ghost predicate Merges(d: Metric, strs: seq<string>, trace: seq<seq<seq<string>>>) {
    forall m :: 1 <= m < |trace| ==> MergeOf(d, Latest(strs, trace[..m]), trace[m])
  }

  /** Every recorded clustering after the first has one cluster less than the one before and no member lost. */
  ghost predicate Shrinks(strs: seq<string>, trace: seq<seq<seq<string>>>) {
    forall m :: 1 <= m < |trace| ==>
      |trace[m]| == |strs| - m && NonEmpty(trace[m]) && multiset(Members(trace[m])) == multiset(strs)
  }

  /**
   * The recorded list: an empty clustering first, then the clustering after
   * each merge, each merge starting from the clustering before it (from the
   * singletons for the first).
   */
  ghost predicate Trace(d: Metric, strs: seq<string>, trace: seq<seq<seq<string>>>) {
    |trace| >= 1 && trace[0] == [] && Merges(d, strs, trace) && Shrinks(strs, trace)
  }

  /** What holds at the head of the merge loop. */
  ghost predicate HierInvariant(d: Metric, strs: seq<string>, k: int, trace: seq<seq<seq<string>>>,
                                clusters: seq<seq<string>>) {
    && Trace(d, strs, trace)
    && |trace| <= |strs| + 1
    && clusters == Latest(strs, trace)
    && |clusters| == |strs| - |trace| + 1
    && NonEmpty(clusters) && multiset(Members(clusters)) == multiset(strs)
    && (k >= 2 ==> |trace| < k)
  }

  lemma MergesSnoc(d: Metric, strs: seq<string>, trace: seq<seq<seq<string>>>, next: seq<seq<string>>)
    requires |trace| >= 1 && Merges(d, strs, trace) && MergeOf(d, Latest(strs, trace), next)
    ensures Merges(d, strs, trace + [next])
  {
    var t := trace + [next];
    forall m | 1 <= m < |t|
      ensures MergeOf(d, Latest(strs, t[..m]), t[m])
    {
      assert t[..m] == trace[..m];
      if m == |trace| {
        assert trace[..m] == trace;
      }
    }
  }

  lemma ShrinksSnoc(strs: seq<string>, trace: seq<seq<seq<string>>>, next: seq<seq<string>>)
    requires Shrinks(strs, trace)
    requires |next| == |strs| - |trace| && NonEmpty(next) && multiset(Members(next)) == multiset(strs)
    ensures Shrinks(strs, trace + [next])
  {
    var t := trace + [next];
    forall m | 1 <= m < |t|
      ensures |t[m]| == |strs| - m && NonEmpty(t[m]) && multiset(Members(t[m])) == multiset(strs)
    {
      if m < |trace| {
        assert t[m] == trace[m];
      }
    }
  }

  /** Every recorded clustering draws its sequences from the pool. */
  lemma TraceWithin(d: Metric, strs: seq<string>, trace: seq<seq<seq<string>>>)
    requires Trace(d, strs, trace)
    ensures forall m, c, x :: 0 <= m < |trace| && 0 <= c < |trace[m]| && x in trace[m][c] ==> x in strs
  {
    forall m, c, x | 0 <= m < |trace| && 0 <= c < |trace[m]| && x in trace[m][c]
      ensures x in strs
    {
      var cs := trace[m];
      assert m >= 1;
      MembersIn(cs, x);
      var ms := Members(cs);
      assert x in ms;
      assert multiset(ms) == multiset(strs);
      assert x in multiset(ms);
    }
  }

  /** A trace that ran to completion ends in one cluster holding every sequence. */
  lemma TraceEnd(strs: seq<string>, trace: seq<seq<seq<string>>>)
    requires Shrinks(strs, trace) && |strs| >= 2 && |trace| == |strs|
    ensures |trace[|trace| - 1]| == 1 && multiset(trace[|trace| - 1][0]) == multiset(strs)
  {
    var last := trace[|trace| - 1];
    assert |last| == 1;
    assert last[..0] == [];
    assert Members(last) == last[0];
  }

  /** One merge of the closest pair extends the trace by the merged clustering. */
  lemma HierStep(d: Metric, strs: seq<string>, k: int, trace: seq<seq<seq<string>>>,
                 clusters: seq<seq<string>>, i: nat, j: nat, next: seq<seq<string>>)
    requires HierInvariant(d, strs, k, trace, clusters) && |clusters| > 1
    requires ClosestPair(d, clusters, i, j) && next == Combined(clusters, i, j, |clusters|)
    ensures Trace(d, strs, trace + [next])
    ensures |next| == |clusters| - 1 && NonEmpty(next) && multiset(Members(next)) == multiset(strs)
  {
    CombinedCounts(clusters, i, j);
    CombinedNonEmpty(clusters, i, j);
    assert MergeOf(d, clusters, next);
    MergesSnoc(d, strs, trace, next);
    ShrinksSnoc(strs, trace, next);
  }

  /**
   * The merge loop of cluster_hierarchically: starting from one cluster per
   * sequence, merge the closest pair until one cluster remains or the list
   * holds k clusterings.
   */
  method MergeLoop(d: Metric, strs: seq<string>, k: int) returns (allClusters: seq<seq<seq<string>>>)
    ensures |allClusters| == Rounds(|strs|, k) && Trace(d, strs, allClusters)
  {
    allClusters := [[]];
    var clusters := Singletons(strs);
    MembersSingletons(strs);
    while |clusters| > 1
      invariant HierInvariant(d, strs, k, allClusters, clusters)
      decreases |clusters|
    {
      var step, i, j := Cluster(d, clusters);
      HierStep(d, strs, k, allClusters, clusters, i, j, step.value.0);
      clusters := step.value.0;
      allClusters := allClusters + [clusters];
      if |allClusters| == k {
        break;
      }
    }
  }

  /**
   * cluster_hierarchically in this copy: the merge loop, with the recorded
   * list mapped to sites.  The sequence clusterings behind it are the
   * ghost trace.
   */
  method ClusterHierarchically(d: Metric, sites: seq<Site>, k: int)
    returns (r: Result<seq<seq<seq<Site>>>>, ghost trace: seq<seq<seq<string>>>)
    ensures r.Ok? <==> AllEncodable(sites)
    ensures r.Err? ==> exists i :: FirstUnencodable(sites, i) && r.error == Encode(sites[i].residues).error
    ensures r.Ok? ==> |r.value| == |trace| == Rounds(|sites|, k) && Trace(d, Encodings(sites), trace)
    ensures r.Ok? ==> forall m :: 0 <= m < |trace| ==> Resolved(sites, trace[m], r.value[m])
  {
    trace := [[]];
    var pool := GetAaSeq(sites);
    if pool.Err? {
      return Err(pool.error), trace;
    }
    var (strs, seqDict) := pool.value;
    var allClusters := MergeLoop(d, strs, k);
    trace := allClusters;
    TraceWithin(d, strs, allClusters);
    ToSites3DResolves(sites, strs, seqDict, allClusters);
    return Ok(ToSites3D(allClusters, seqDict)), trace;
  }
}
