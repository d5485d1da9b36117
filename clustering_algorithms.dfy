/**
 * The copy of the clustering engine in clustering_algorithms/cluster.py:
 * centroid sampling with a distinctness check, partitioning, and the
 * agglomerative variant that scores clusters by the distance between their
 * medoids and merges the first closest pair.
 */
module ClusteringAlgorithms {
  import opened Results
  import opened Encoding
  import opened Medoid
  import opened Clusterings
  import opened Partition
  import opened Sampling

  // ---------------------------------------------------------------- sampling

  /** cents.count(x). */
  function Count(c: seq<string>, x: string): (n: nat)
    ensures n <= |c|
    ensures n > 0 <==> x in c
  {
    if c == [] then 0 else (if c[0] == x then 1 else 0) + Count(c[1..], x)
  }

  /** x occurs at two positions of c exactly when c counts it more than once. */
  lemma {:induction false} CountTwice(c: seq<string>, x: string)
    ensures Count(c, x) > 1 <==> exists a, b :: 0 <= a < b < |c| && c[a] == x && c[b] == x
  {
    if c != [] {
      var rest := c[1..];
      CountTwice(rest, x);
      if Count(c, x) > 1 {
        if c[0] == x {
          var b :| 0 <= b < |rest| && rest[b] == x;
          assert c[0] == x && c[b + 1] == x;
        } else {
          var a, b :| 0 <= a < b < |rest| && rest[a] == x && rest[b] == x;
          assert c[a + 1] == x && c[b + 1] == x;
        }
      }
      if exists a, b :: 0 <= a < b < |c| && c[a] == x && c[b] == x {
        var a, b :| 0 <= a < b < |c| && c[a] == x && c[b] == x;
        if a == 0 {
          assert rest[b - 1] == x;
        } else {
          assert rest[a - 1] == x && rest[b - 1] == x;
        }
      }
    }
  }

  /** `any(cents.count(x) > 1 for x in cents)`. */
  predicate HasDuplicates(c: seq<string>) {
    exists i :: 0 <= i < |c| && Count(c, c[i]) > 1
  }

  /** The duplicate test of the resampling loop is the negation of pairwise distinctness. */
  lemma HasDuplicatesIff(c: seq<string>)
    ensures HasDuplicates(c) <==> !NoDup(c)
  {
    if HasDuplicates(c) {
      var i :| 0 <= i < |c| && Count(c, c[i]) > 1;
      CountTwice(c, c[i]);
    }
    if !NoDup(c) {
      var a, b :| 0 <= a < b < |c| && c[a] == c[b];
      CountTwice(c, c[a]);
    }
  }

  /** Draw t is the first of draws whose items are pairwise distinct. */
  ghost predicate FirstDistinctDraw(strs: seq<string>, draws: seq<seq<nat>>, t: int) {
    && 0 <= t < |draws|
    && (forall u :: 0 <= u <= t ==> InRange(draws[u], |strs|))
    && NoDup(Pick(strs, draws[t]))
    && forall u :: 0 <= u < t ==> !NoDup(Pick(strs, draws[u]))
  }

  /**
   * generate_cents: draw k pool items, and draw again while two of them are
   * equal.  The random draws are the input `draws`, in order, at least one
   * since the first sample is always drawn; when every draw repeats an item
   * the Python loop never stops, and the model reports NoDistinctSample.
   * A sample larger than the pool is refused by random.sample itself.
   */
  method GenerateCents(strs: seq<string>, k: nat, draws: seq<seq<nat>>) returns (r: Result<seq<string>>)
    requires k <= |strs| ==> |draws| > 0
    requires k <= |strs| ==> forall t :: 0 <= t < |draws| ==> InRange(draws[t], |strs|) && IsSample(draws[t], k)
    ensures k > |strs| <==> r == Err(SampleTooLarge)
    ensures r.Err? ==> r.error == SampleTooLarge || r.error == NoDistinctSample
    ensures r.Ok? ==> |r.value| == k && NoDup(r.value) && forall c :: c in r.value ==> c in strs
    ensures r.Ok? ==> k <= |strs|
    ensures r.Ok? ==> exists t :: FirstDistinctDraw(strs, draws, t) && r.value == Pick(strs, draws[t])
    ensures k <= |strs| ==> (r.Err? <==> forall t :: 0 <= t < |draws| ==> !NoDup(Pick(strs, draws[t])))
  {
    if k > |strs| {
      return Err(SampleTooLarge);
    }
    var t := 0;
    var cents := Pick(strs, draws[0]);
    var dups := true;
    while dups
      invariant 0 <= t < |draws| && cents == Pick(strs, draws[t])
      invariant forall u :: 0 <= u < t ==> !NoDup(Pick(strs, draws[u]))
      invariant !dups ==> NoDup(cents)
      decreases |draws| - t, dups
    {
      HasDuplicatesIff(cents);
      if !HasDuplicates(cents) {
        dups := false;
      } else {
        if t + 1 == |draws| {
          return Err(NoDistinctSample);
        }
        t := t + 1;
        cents := Pick(strs, draws[t]);
      }
    }
    return Ok(cents);
  }

  /**
   * cluster_by_partitioning: encode the sites, draw k distinct centroids and
   * run the k-medoids loop; the clusters come back both as sites and as
   * sequences.  Given a metric that is zero exactly on equal sequences, the
   * only failures left are the exhausted draws and passes.
   */
  method ClusterByPartitioning(d: Metric, sites: seq<Site>, k: nat, draws: seq<seq<nat>>, fuel: nat)
    returns (r: Result<(seq<seq<Site>>, seq<seq<string>>)>)
    requires AllEncodable(sites) && k <= |sites| ==> |draws| > 0
    requires AllEncodable(sites) && k <= |sites| ==>
      forall t :: 0 <= t < |draws| ==> InRange(draws[t], |sites|) && IsSample(draws[t], k)
    ensures r.Err? && !AllEncodable(sites) ==> exists i :: FirstUnencodable(sites, i) && r.error == Encode(sites[i].residues).error
    ensures AllEncodable(sites) && k > |sites| ==> r == Err(SampleTooLarge)
    ensures r.Ok? ==> AllEncodable(sites)
    ensures r.Ok? ==> |r.value.1| == k && IsPartition(r.value.1, Encodings(sites)) && NonEmpty(r.value.1)
    ensures r.Ok? ==> Medoids(d, r.value.1).Ok? && (|sites| > 0 ==> k > 0) &&
                      Assigned(d, Encodings(sites), Medoids(d, r.value.1).value, r.value.1)
    ensures r.Ok? ==> Resolved(sites, r.value.1, r.value.0)
    ensures ZeroOnSelf(d) && Separating(d) && AllEncodable(sites) && 0 < k <= |sites| ==>
      r.Ok? || r.error == NoDistinctSample || r.error == NotConverged
  {
    var pool := GetAaSeq(sites);
    if pool.Err? {
      return Err(pool.error);
    }
    var (strs, seqDict) := pool.value;
    var cents := GenerateCents(strs, k, draws);
    if cents.Err? {
      return Err(cents.error);
    }
    var clusters := Converge(d, strs, cents.value, fuel);
    if clusters.Err? {
      return Err(clusters.error);
    }
    ToSitesResolves(sites, strs, seqDict, clusters.value);
    return Ok((ToSites2D(clusters.value, seqDict), clusters.value));
  }

  // ------------------------------------------------------------ agglomerative

  /**
   * single_linkage in this copy: the distance between the two clusters'
   * medoids (not the least distance over all cross pairs).  An empty
   * cluster makes avg_string fail.
   */
  function SingleLinkage(d: Metric, c1: seq<string>, c2: seq<string>): (r: Result<nat>)
    ensures r.Ok? <==> c1 != [] && c2 != []
    ensures r.Err? ==> r.error == EmptyMin
  {
    var m1 := AvgString(d, c1);
    if m1.Err? then Err(m1.error)
    else
      var m2 := AvgString(d, c2);
      if m2.Err? then Err(m2.error)
      else Ok(d(m1.value, m2.value))
  }

  /** The linkage score is the distance between a medoid of the first cluster and a medoid of the second. */
  lemma LinkageOfMedoids(d: Metric, c1: seq<string>, c2: seq<string>)
    requires c1 != [] && c2 != []
    ensures exists a, b :: IsMedoid(d, a, c1) && IsMedoid(d, b, c2) && SingleLinkage(d, c1, c2).value == d(a, b)
  {
    AvgStringFirstMedoid(d, c1);
    AvgStringFirstMedoid(d, c2);
  }

  /** The score find_most_similar records for the pair (a, b). */
  function Score(d: Metric, cs: seq<seq<string>>, a: nat, b: nat): nat
    requires a < |cs| && b < |cs| && cs[a] != [] && cs[b] != []
  {
    SingleLinkage(d, cs[a], cs[b]).value
  }

  /** range(size - 1) has this many elements. */
  function Rows(size: nat): nat {
    if size >= 1 then size - 1 else 0
  }

  /** (a, b) comes before (i, j) in the order the nested loops visit pairs. */
  predicate LexBefore(a: nat, b: nat, i: nat, j: nat) {
    a < i || (a == i && b < j)
  }

  /** The keys the inner loop adds for row a: (a, lo), ..., (a, hi - 1). */
  function Row(a: nat, lo: nat, hi: nat): (r: seq<(nat, nat)>)
    decreases hi
  {
    if hi <= lo then [] else Row(a, lo, hi - 1) + [(a, hi - 1)]
  }

  /** The keys of the first `rows` rows, (a, b) with a < b < last, in loop order. */
  function Pairs(rows: nat, last: nat): seq<(nat, nat)> {
    if rows == 0 then [] else Pairs(rows - 1, last) + Row(rows - 1, rows, last)
  }

  /** Row a is (a, lo), (a, lo + 1), ... in order. */
  lemma {:induction false} RowShape(a: nat, lo: nat, hi: nat)
    ensures |Row(a, lo, hi)| == if lo < hi then hi - lo else 0
    ensures forall t :: 0 <= t < |Row(a, lo, hi)| ==> Row(a, lo, hi)[t] == (a, lo + t)
    decreases hi
  {
    if lo < hi {
      RowShape(a, lo, hi - 1);
    }
  }

  /** Row a holds exactly the pairs (a, b) with lo <= b < hi. */
  lemma {:induction false} RowMembers(a: nat, lo: nat, hi: nat, p: (nat, nat))
    ensures p in Row(a, lo, hi) <==> p.0 == a && lo <= p.1 < hi
    decreases hi
  {
    if lo < hi {
      RowMembers(a, lo, hi - 1, p);
      assert p in Row(a, lo, hi) <==> p in Row(a, lo, hi - 1) || p == (a, hi - 1);
    }
  }

  lemma {:induction false} PairsMembers(rows: nat, last: nat)
    ensures forall p :: p in Pairs(rows, last) <==> p.0 < rows && p.0 < p.1 < last
  {
    if rows > 0 {
      PairsMembers(rows - 1, last);
      var prefix := Pairs(rows - 1, last);
      var row := Row(rows - 1, rows, last);
      forall p: (nat, nat)
        ensures p in prefix + row <==> p.0 < rows && p.0 < p.1 < last
      {
        RowMembers(rows - 1, rows, last, p);
        assert p in prefix + row <==> p in prefix || p in row;
      }
    }
  }

  /** Keys in strictly increasing lexicographic order. */
  ghost predicate Ascending(keys: seq<(nat, nat)>) {
    forall s, t :: 0 <= s < t < |keys| ==> LexBefore(keys[s].0, keys[s].1, keys[t].0, keys[t].1)
  }

  lemma AscendingRow(a: nat, lo: nat, hi: nat)
    ensures Ascending(Row(a, lo, hi))
  {
    RowShape(a, lo, hi);
  }

  /** Every key of xs lies in a row before row a. */
  ghost predicate RowsBefore(xs: seq<(nat, nat)>, a: nat) {
    forall s :: 0 <= s < |xs| ==> xs[s].0 < a
  }

  /** Every key of ys lies in row a. */
  ghost predicate InRow(ys: seq<(nat, nat)>, a: nat) {
    forall t :: 0 <= t < |ys| ==> ys[t].0 == a
  }

  lemma AscendingConcat(xs: seq<(nat, nat)>, ys: seq<(nat, nat)>, a: nat)
    requires Ascending(xs) && Ascending(ys) && RowsBefore(xs, a) && InRow(ys, a)
    ensures Ascending(xs + ys)
  {
    var zs := xs + ys;
    forall s, t | 0 <= s < t < |zs|
      ensures LexBefore(zs[s].0, zs[s].1, zs[t].0, zs[t].1)
    {
      if t < |xs| {
        assert zs[s] == xs[s] && zs[t] == xs[t];
      } else if s < |xs| {
        assert zs[s] == xs[s] && zs[t] == ys[t - |xs|];
      } else {
        assert zs[s] == ys[s - |xs|] && zs[t] == ys[t - |xs|];
      }
    }
  }

  /** The loops visit pairs in strictly increasing lexicographic order. */
  lemma {:induction false} PairsSorted(rows: nat, last: nat)
    ensures Ascending(Pairs(rows, last))
  {
    if rows > 0 {
      var prefix := Pairs(rows - 1, last);
      var row := Row(rows - 1, rows, last);
      assert Ascending(prefix) by { PairsSorted(rows - 1, last); }
      assert Ascending(row) by { AscendingRow(rows - 1, rows, last); }
      assert RowsBefore(prefix, rows - 1) by {
        PairsMembers(rows - 1, last);
        forall s | 0 <= s < |prefix|
          ensures prefix[s].0 < rows - 1
        {
          assert prefix[s] in prefix;
        }
      }
      assert InRow(row, rows - 1) by { RowShape(rows - 1, rows, last); }
      AscendingConcat(prefix, row, rows - 1);
    }
  }

  /** The recorded key p is a pair of clusters and v is its score. */
  ghost predicate ScoredKey(d: Metric, cs: seq<seq<string>>, p: (nat, nat), v: nat) {
    p.0 < p.1 < |cs| && SingleLinkage(d, cs[p.0], cs[p.1]) == Ok(v)
  }

  /** Every recorded key is a pair of clusters and its value is the pair's score. */
  ghost predicate Scored(d: Metric, cs: seq<seq<string>>, keys: seq<(nat, nat)>, vals: seq<nat>) {
    |vals| == |keys| && forall t :: 0 <= t < |keys| ==> ScoredKey(d, cs, keys[t], vals[t])
  }

  lemma ScoredSnoc(d: Metric, cs: seq<seq<string>>, keys: seq<(nat, nat)>, vals: seq<nat>, i: nat, j: nat, v: nat)
    requires Scored(d, cs, keys, vals) && i < j < |cs| && SingleLinkage(d, cs[i], cs[j]) == Ok(v)
    ensures Scored(d, cs, keys + [(i, j)], vals + [v])
  {
    var ks, vs := keys + [(i, j)], vals + [v];
    forall t | 0 <= t < |ks|
      ensures ScoredKey(d, cs, ks[t], vs[t])
    {
      if t < |keys| {
        assert ks[t] == keys[t] && vs[t] == vals[t];
      }
    }
  }

  /** Scores recorded for two runs of keys are scores for the keys together. */
  lemma ScoredConcat(d: Metric, cs: seq<seq<string>>, k1: seq<(nat, nat)>, v1: seq<nat>, k2: seq<(nat, nat)>, v2: seq<nat>)
    requires Scored(d, cs, k1, v1) && Scored(d, cs, k2, v2)
    ensures Scored(d, cs, k1 + k2, v1 + v2)
  {
    var ks, vs := k1 + k2, v1 + v2;
    forall t | 0 <= t < |ks|
      ensures ScoredKey(d, cs, ks[t], vs[t])
    {
      if t < |k1| {
        assert ks[t] == k1[t] && vs[t] == v1[t];
      } else {
        assert ks[t] == k2[t - |k1|] && vs[t] == v2[t - |k1|];
      }
    }
  }

  /** The finished scan has a key exactly when there are three clusters, and then it scored every cluster but the last. */
  lemma ScanCovers(d: Metric, cs: seq<seq<string>>, rows: nat, keys: seq<(nat, nat)>, vals: seq<nat>)
    requires rows == Rows(|cs|)
    requires keys == Pairs(rows, rows) && Scored(d, cs, keys, vals)
    ensures |keys| > 0 <==> |cs| >= 3
    ensures |keys| > 0 ==> forall a :: 0 <= a < |cs| - 1 ==> cs[a] != []
  {
    PairsMembers(rows, rows);
    if rows >= 2 {
      assert (0, 1) in keys;
    }
    if |keys| > 0 {
      forall a | 0 <= a < rows
        ensures cs[a] != []
      {
        var p := if a == 0 then (0, 1) else (0, a);
        assert p in keys;
        var t :| 0 <= t < |keys| && keys[t] == p;
      }
    }
  }

  /** The position of p in keys. */
  function Position(keys: seq<(nat, nat)>, p: (nat, nat)): (t: nat)
    requires p in keys
    ensures t < |keys| && keys[t] == p
  {
    if keys[0] == p then 0 else 1 + Position(keys[1..], p)
  }

  /**
   * min() over the values in key order: the chosen key's value is at most
   * that of every pair, and strictly less than that of every pair the loops
   * visit earlier.
   */
  lemma ScanOrder(rows: nat, keys: seq<(nat, nat)>, vals: seq<nat>, a: nat, b: nat)
    requires keys == Pairs(rows, rows) && |vals| == |keys| && |keys| > 0
    requires a < b < rows
    ensures (a, b) in keys
    ensures vals[FirstMin(vals)] <= vals[Position(keys, (a, b))]
    ensures LexBefore(a, b, keys[FirstMin(vals)].0, keys[FirstMin(vals)].1) ==>
              vals[FirstMin(vals)] < vals[Position(keys, (a, b))]
  {
    PairsMembers(rows, rows);
    PairsSorted(rows, rows);
    var m := FirstMin(vals);
    var t := Position(keys, (a, b));
  }

  /**
   * (i, j) is what find_most_similar should return: a scored pair whose
   * score is the least, and the first such pair in loop order.
   */
  ghost predicate FirstClosest(d: Metric, cs: seq<seq<string>>, i: nat, j: nat) {
    && i < j < |cs| - 1
    && (forall a :: 0 <= a < |cs| - 1 ==> cs[a] != [])
    && forall a, b :: 0 <= a < b < |cs| - 1 ==>
         && Score(d, cs, i, j) <= Score(d, cs, a, b)
         && (LexBefore(a, b, i, j) ==> Score(d, cs, i, j) < Score(d, cs, a, b))
  }

  /** The scan's choice compared with one scored pair. */
  lemma ScanMinAt(d: Metric, cs: seq<seq<string>>, rows: nat, keys: seq<(nat, nat)>, vals: seq<nat>, a: nat, b: nat)
    requires rows == Rows(|cs|)
    requires keys == Pairs(rows, rows) && Scored(d, cs, keys, vals) && |keys| > 0
    requires a < b < rows && forall x :: 0 <= x < rows ==> cs[x] != []
    requires FirstMin(vals) < |keys| && keys[FirstMin(vals)].0 < keys[FirstMin(vals)].1 < rows
    ensures Score(d, cs, keys[FirstMin(vals)].0, keys[FirstMin(vals)].1) <= Score(d, cs, a, b)
    ensures LexBefore(a, b, keys[FirstMin(vals)].0, keys[FirstMin(vals)].1) ==>
              Score(d, cs, keys[FirstMin(vals)].0, keys[FirstMin(vals)].1) < Score(d, cs, a, b)
  {
    ScanOrder(rows, keys, vals, a, b);
    var t := Position(keys, (a, b));
  }

  /** The scan's choice, stated over the clusters' scores. */
  lemma ScanMin(d: Metric, cs: seq<seq<string>>, rows: nat, keys: seq<(nat, nat)>, vals: seq<nat>)
    requires rows == Rows(|cs|)
    requires keys == Pairs(rows, rows) && Scored(d, cs, keys, vals) && |keys| > 0
    ensures FirstClosest(d, cs, keys[FirstMin(vals)].0, keys[FirstMin(vals)].1)
  {
    ScanCovers(d, cs, rows, keys, vals);
    PairsMembers(rows, rows);
    var m := FirstMin(vals);
    assert keys[m] in keys;
    forall a, b | 0 <= a < b < |cs| - 1
      ensures Score(d, cs, keys[m].0, keys[m].1) <= Score(d, cs, a, b)
      ensures LexBefore(a, b, keys[m].0, keys[m].1) ==> Score(d, cs, keys[m].0, keys[m].1) < Score(d, cs, a, b)
    {
      ScanMinAt(d, cs, rows, keys, vals, a, b);
    }
  }

  /** The inner loop `for j in range(i + 1, size - 1)`: score row i. */
  method ScoreRow(d: Metric, clusters: seq<seq<string>>, i: nat, rows: nat) returns (r: Result<(seq<(nat, nat)>, seq<nat>)>)
    requires i < rows <= |clusters|
    ensures r.Ok? ==> r.value.0 == Row(i, i + 1, rows) && Scored(d, clusters, r.value.0, r.value.1)
    ensures r.Err? ==> r.error == EmptyMin && (clusters[i] == [] || exists b :: i < b < rows && clusters[b] == [])
  {
    var keys: seq<(nat, nat)>, vals: seq<nat> := [], [];
    for j: nat := i + 1 to rows
      invariant keys == Row(i, i + 1, j)
      invariant Scored(d, clusters, keys, vals)
    {
      var s := SingleLinkage(d, clusters[i], clusters[j]);
      if s.Err? {
        assert clusters[i] == [] || clusters[j] == [];
        return Err(EmptyMin);
      }
      ScoredSnoc(d, clusters, keys, vals, i, j, s.value);
      keys := keys + [(i, j)];
      vals := vals + [s.value];
    }
    return Ok((keys, vals));
  }

  /** The nested loops of find_most_similar, filling the score dictionary in insertion order. */
  method ScorePairs(d: Metric, clusters: seq<seq<string>>) returns (r: Result<(seq<(nat, nat)>, seq<nat>)>)
    ensures r.Ok? ==> r.value.0 == Pairs(Rows(|clusters|), Rows(|clusters|)) && Scored(d, clusters, r.value.0, r.value.1)
    ensures r.Err? ==> r.error == EmptyMin && exists a :: 0 <= a < |clusters| - 1 && clusters[a] == []
  {
    var rows := Rows(|clusters|);
    var keys: seq<(nat, nat)> := [];
    var vals: seq<nat> := [];
    for i := 0 to rows
      invariant keys == Pairs(i, rows) && Scored(d, clusters, keys, vals)
    {
      var row := ScoreRow(d, clusters, i, rows);
      if row.Err? {
        return Err(row.error);
      }
      ScoredConcat(d, clusters, keys, vals, row.value.0, row.value.1);
      keys, vals := keys + row.value.0, vals + row.value.1;
    }
    return Ok((keys, vals));
  }

  /**
   * find_most_similar: score every pair i < j < size - 1 (so the last
   * cluster is never a candidate) and return the first pair with the least
   * score.  Fewer than three clusters leave no pair and min() fails, as does
   * an empty cluster among the scored ones.
   */
  method FindMostSimilar(d: Metric, clusters: seq<seq<string>>) returns (r: Result<(nat, nat)>)
    ensures r.Ok? <==> |clusters| >= 3 && forall a :: 0 <= a < |clusters| - 1 ==> clusters[a] != []
    ensures r.Err? ==> r.error == EmptyMin
    ensures r.Ok? ==> FirstClosest(d, clusters, r.value.0, r.value.1)
    ensures r.Ok? && |clusters| == 3 ==> r.value == (0, 1)
  {
    var scores := ScorePairs(d, clusters);
    if scores.Err? {
      return Err(scores.error);
    }
    var (keys, vals) := scores.value;
    ScanCovers(d, clusters, Rows(|clusters|), keys, vals);
    if |vals| == 0 {
      return Err(EmptyMin);
    }
    ScanMin(d, clusters, Rows(|clusters|), keys, vals);
    return Ok(keys[FirstMin(vals)]);
  }

  /** The clusters of cs other than a and b, in their order: the filter of merge_clusters. */
  function KeepOthers(cs: seq<seq<string>>, a: seq<string>, b: seq<string>): (r: seq<seq<string>>)
    ensures |r| <= |cs|
    ensures forall c :: c in r <==> c in cs && c != a && c != b
  {
    if cs == [] then []
    else
      var last := cs[|cs| - 1];
      assert cs == cs[..|cs| - 1] + [last];
      KeepOthers(cs[..|cs| - 1], a, b) + (if last != a && last != b then [last] else [])
  }

  /** The filter distributes over concatenation: it keeps the relative order of the clusters it keeps. */
  lemma {:induction false} KeepOthersConcat(x: seq<seq<string>>, y: seq<seq<string>>, a: seq<string>, b: seq<string>)
    ensures KeepOthers(x + y, a, b) == KeepOthers(x, a, b) + KeepOthers(y, a, b)
    decreases |y|
  {
    if y != [] {
      var last := y[|y| - 1];
      var y' := y[..|y| - 1];
      assert (x + y)[..|x + y| - 1] == x + y';
      assert (x + y)[|x + y| - 1] == last;
      KeepOthersConcat(x, y', a, b);
    } else {
      assert x + y == x;
    }
  }

  /** Every copy of a cluster equal to neither chosen one survives the filter; every copy of a chosen one is gone. */
  lemma {:induction false} KeepOthersCounts(cs: seq<seq<string>>, a: seq<string>, b: seq<string>)
    ensures forall c :: multiset(KeepOthers(cs, a, b))[c] == if c == a || c == b then 0 else multiset(cs)[c]
  {
    if cs != [] {
      var last := cs[|cs| - 1];
      var p := cs[..|cs| - 1];
      assert cs == p + [last];
      KeepOthersCounts(p, a, b);
      assert multiset(cs) == multiset(p) + multiset{last};
    }
  }

  /** What merge_clusters returns: the other clusters, then the two chosen ones joined. */
  function Merged(cs: seq<seq<string>>, i: nat, j: nat): seq<seq<string>>
    requires i < |cs| && j < |cs|
  {
    KeepOthers(cs, cs[i], cs[j]) + [cs[i] + cs[j]]
  }

  /** merge_clusters: the append loop that drops every cluster equal to either chosen one. */
  method MergeClusters(clusters: seq<seq<string>>, i: nat, j: nat) returns (r: seq<seq<string>>)
    requires i < |clusters| && j < |clusters|
    ensures r == Merged(clusters, i, j)
  {
    var newClusters: seq<seq<string>> := [];
    for t := 0 to |clusters|
      invariant newClusters == KeepOthers(clusters[..t], clusters[i], clusters[j])
    {
      assert clusters[..t + 1][..t] == clusters[..t];
      if clusters[t] != clusters[i] && clusters[t] != clusters[j] {
        newClusters := newClusters + [clusters[t]];
      }
    }
    assert clusters[..|clusters|] == clusters;
    return newClusters + [clusters[i] + clusters[j]];
  }

  /** The filter drops at least the two chosen positions. */
  lemma {:induction false} KeepOthersDrops(cs: seq<seq<string>>, a: seq<string>, b: seq<string>, i: nat, j: nat)
    requires i < |cs| && j < |cs| && (cs[i] == a || cs[i] == b) && (cs[j] == a || cs[j] == b)
    ensures |KeepOthers(cs, a, b)| <= |cs| - (if i == j then 1 else 2)
  {
    var n := |cs| - 1;
    var p := cs[..n];
    if i == n && j == n {
    } else if i == n {
      assert p[j] == cs[j];
      KeepOthersDrops(p, a, b, j, j);
    } else if j == n {
      assert p[i] == cs[i];
      KeepOthersDrops(p, a, b, i, i);
    } else {
      assert p[i] == cs[i] && p[j] == cs[j];
      KeepOthersDrops(p, a, b, i, j);
    }
  }

  /** With pairwise different clusters the filter drops exactly the two chosen positions. */
  lemma {:induction false} KeepOthersWithout(cs: seq<seq<string>>, i: nat, j: nat)
    requires Distinct(cs) && i < |cs| && j < |cs|
    ensures KeepOthers(cs, cs[i], cs[j]) == Without(cs, i, j)
  {
    KeepOthersWithoutAt(cs, cs[i], cs[j], i, j);
  }

  /** Filtering out a and b drops positions i and j when those are exactly the positions holding a or b. */
  lemma {:induction false} KeepOthersWithoutAt(cs: seq<seq<string>>, a: seq<string>, b: seq<string>, i: nat, j: nat)
    requires forall p :: 0 <= p < |cs| ==> (cs[p] == a || cs[p] == b <==> p == i || p == j)
    ensures KeepOthers(cs, a, b) == Without(cs, i, j)
  {
    if cs != [] {
      var n := |cs| - 1;
      var p := cs[..n];
      assert forall q :: 0 <= q < |p| ==> p[q] == cs[q];
      KeepOthersWithoutAt(p, a, b, i, j);
    }
  }

  /** Merging two different positions of pairwise different clusters loses one cluster and no member. */
  lemma MergedCounts(cs: seq<seq<string>>, i: nat, j: nat)
    requires Distinct(cs) && i < |cs| && j < |cs| && i != j
    ensures |Merged(cs, i, j)| == |cs| - 1
    ensures multiset(Members(Merged(cs, i, j))) == multiset(Members(cs))
  {
    KeepOthersWithout(cs, i, j);
    WithoutSize(cs, i, j);
    WithoutMembers(cs, i, j);
    JoinedPair(cs, i, j);
    MembersSnoc(Without(cs, i, j), cs[i] + cs[j]);
  }

  /** Merging two different positions always shortens the clustering. */
  lemma MergedShrinks(cs: seq<seq<string>>, i: nat, j: nat)
    requires i < |cs| && j < |cs| && i != j
    ensures |Merged(cs, i, j)| < |cs|
  {
    KeepOthersDrops(cs, cs[i], cs[j], i, j);
  }

  /** Whatever the clusters, a merge keeps the set of clustered sequences. */
  lemma MergedKeepsMembers(cs: seq<seq<string>>, i: nat, j: nat)
    requires i < |cs| && j < |cs|
    ensures forall x :: x in Members(Merged(cs, i, j)) <==> x in Members(cs)
  {
    var kept := KeepOthers(cs, cs[i], cs[j]);
    var m := Merged(cs, i, j);
    forall x
      ensures x in Members(m) <==> x in Members(cs)
    {
      MembersIn(m, x);
      MembersIn(cs, x);
      if x in Members(cs) {
        var p :| 0 <= p < |cs| && x in cs[p];
        if cs[p] != cs[i] && cs[p] != cs[j] {
          assert cs[p] in kept;
          var q :| 0 <= q < |kept| && kept[q] == cs[p];
          assert m[q] == cs[p];
        } else {
          assert x in m[|m| - 1];
        }
      }
      if x in Members(m) {
        var q :| 0 <= q < |m| && x in m[q];
        if q < |kept| {
          assert m[q] in kept;
        } else {
          assert x in cs[i] || x in cs[j];
        }
      }
    }
  }

  /** A merge leaves no cluster empty that was not empty before. */
  lemma MergedNonEmpty(cs: seq<seq<string>>, i: nat, j: nat)
    requires i < |cs| && j < |cs| && NonEmpty(cs)
    ensures NonEmpty(Merged(cs, i, j))
  {
    var kept := KeepOthers(cs, cs[i], cs[j]);
    var m := Merged(cs, i, j);
    forall q | 0 <= q < |m|
      ensures m[q] != []
    {
      if q < |kept| {
        assert m[q] in kept;
        assert m[q] in cs;
      } else {
        assert m[q] == cs[i] + cs[j];
      }
    }
  }

  /** convert_to_object_3d, which this copy calls on a single clustering: the nested append loops. */
  method ConvertToObject3D(clusters: seq<seq<string>>, seqDict: map<string, Site>) returns (r: seq<seq<Site>>)
    requires forall i, x :: 0 <= i < |clusters| && x in clusters[i] ==> x in seqDict
    ensures r == ToSites2D(clusters, seqDict)
  {
    var allClusters: seq<seq<Site>> := [];
    for i := 0 to |clusters|
      invariant allClusters == ToSites2D(clusters[..i], seqDict)
    {
      var newCluster: seq<Site> := [];
      for j := 0 to |clusters[i]|
        invariant newCluster == ToSites2D([clusters[i][..j]], seqDict)[0]
      {
        assert clusters[i][j] in clusters[i];
        newCluster := newCluster + [seqDict[clusters[i][j]]];
      }
      assert clusters[i][..|clusters[i]|] == clusters[i];
      allClusters := allClusters + [newCluster];
    }
    assert clusters[..|clusters|] == clusters;
    return allClusters;
  }

  /** What the merge loop of cluster_hierarchically keeps true of its clusters. */
  ghost predicate MergeInvariant(strs: seq<string>, k: int, clusters: seq<seq<string>>) {
    && NonEmpty(clusters)
    && (forall x :: x in Members(clusters) <==> x in strs)
    && |clusters| <= |strs|
    && (|strs| <= k ==> clusters == Singletons(strs))
    && (NoDup(strs) ==> multiset(Members(clusters)) == multiset(strs))
    && (NoDup(strs) && |strs| > k ==> |clusters| >= k && (k < 2 ==> |clusters| > k))
  }

  /** One merge of the closest pair keeps the loop invariant and shortens the clustering. */
  lemma MergeStep(d: Metric, strs: seq<string>, k: int, clusters: seq<seq<string>>, i: nat, j: nat)
    requires MergeInvariant(strs, k, clusters) && |clusters| > k
    requires FirstClosest(d, clusters, i, j)
    ensures MergeInvariant(strs, k, Merged(clusters, i, j))
    ensures |Merged(clusters, i, j)| < |clusters|
  {
    var next := Merged(clusters, i, j);
    MergedShrinks(clusters, i, j);
    MergedKeepsMembers(clusters, i, j);
    MergedNonEmpty(clusters, i, j);
    if NoDup(strs) {
      NoDupMultiset(strs);
      MembersOnceDistinct(clusters);
      MergedCounts(clusters, i, j);
    }
  }

  /** The settled clustering covers the pool; with no repeated sequence it is a partition of it. */
  lemma MergedPartition(strs: seq<string>, k: int, clusters: seq<seq<string>>)
    requires MergeInvariant(strs, k, clusters)
    ensures Within(clusters, strs)
    ensures NoDup(strs) ==> IsPartition(clusters, strs)
  {
    forall i, x | 0 <= i < |clusters| && x in clusters[i]
      ensures x in strs
    {
      MembersIn(clusters, x);
    }
    if NoDup(strs) {
      NoDupMultiset(strs);
      MembersOnceWellFormed(clusters);
      forall x | x in strs
        ensures exists i :: 0 <= i < |clusters| && x in clusters[i]
      {
        MembersIn(clusters, x);
      }
    }
  }

  /**
   * The merge loop of cluster_hierarchically: start from one cluster per
   * sequence and merge the closest pair until at most k clusters remain.
   */
  method MergeUntil(d: Metric, strs: seq<string>, k: int) returns (r: Result<seq<seq<string>>>)
    ensures r.Err? ==> r.error == EmptyMin
    ensures k >= 2 ==> r.Ok?
    ensures |strs| <= k ==> r == Ok(Singletons(strs))
    ensures NoDup(strs) && |strs| > k && k < 2 ==> r.Err?
    ensures r.Ok? ==> MergeInvariant(strs, k, r.value) && (|strs| > k ==> |r.value| <= k)
    ensures r.Ok? && NoDup(strs) && |strs| > k ==> |r.value| == k
  {
    var clusters := Singletons(strs);
    MembersSingletons(strs);
    while |clusters| > k
      invariant MergeInvariant(strs, k, clusters)
      decreases |clusters|
    {
      var pair := FindMostSimilar(d, clusters);
      if pair.Err? {
        return Err(pair.error);
      }
      MergeStep(d, strs, k, clusters, pair.value.0, pair.value.1);
      clusters := MergeClusters(clusters, pair.value.0, pair.value.1);
    }
    return Ok(clusters);
  }

  /**
   * cluster_hierarchically: the merge loop over the sequence pool, with the
   * settled clusters mapped back to sites.
   */
  method ClusterHierarchically(d: Metric, sites: seq<Site>, k: int)
    returns (r: Result<(seq<seq<Site>>, seq<seq<string>>)>)
    ensures r.Err? && !AllEncodable(sites) ==> exists i :: FirstUnencodable(sites, i) && r.error == Encode(sites[i].residues).error
    ensures r.Err? && AllEncodable(sites) ==> r.error == EmptyMin
    ensures AllEncodable(sites) && k >= 2 ==> r.Ok?
    ensures AllEncodable(sites) && |sites| <= k ==> r.Ok? && r.value.1 == Singletons(Encodings(sites))
    ensures AllEncodable(sites) && NoDup(Encodings(sites)) && |sites| > k && k < 2 ==> r.Err?
    ensures r.Ok? ==> AllEncodable(sites) && NonEmpty(r.value.1) && Resolved(sites, r.value.1, r.value.0)
    ensures r.Ok? ==> forall x :: x in Members(r.value.1) <==> x in Encodings(sites)
    ensures r.Ok? ==> |r.value.1| <= |sites| && (|sites| > k ==> |r.value.1| <= k)
    ensures r.Ok? && NoDup(Encodings(sites)) ==>
      IsPartition(r.value.1, Encodings(sites)) && multiset(Members(r.value.1)) == multiset(Encodings(sites))
    ensures r.Ok? && NoDup(Encodings(sites)) && |sites| > k ==> |r.value.1| == k
  {
    var pool := GetAaSeq(sites);
    if pool.Err? {
      return Err(pool.error);
    }
    var (strs, seqDict) := pool.value;
    var merged := MergeUntil(d, strs, k);
    if merged.Err? {
      return Err(merged.error);
    }
    var clusters := merged.value;
    MergedPartition(strs, k, clusters);
    ToSitesResolves(sites, strs, seqDict, clusters);
    var objs := ConvertToObject3D(clusters, seqDict);
    return Ok((objs, clusters));
  }
}
