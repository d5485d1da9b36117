/**
 * Clusterings as both copies of the code hold them: a list of clusters, each
 * a list of sequences.  This module says what a partition of a sequence pool
 * is and proves the counting facts the two algorithms rely on.
 */
module Clusterings {

  /** No sequence occurs twice in c. */
  ghost predicate NoDup(c: seq<string>) {
    forall a, b :: 0 <= a < b < |c| ==> c[a] != c[b]
  }

  /** No sequence is in two clusters. */
  ghost predicate Disjoint(cs: seq<seq<string>>) {
    forall i, j, x :: 0 <= i < |cs| && 0 <= j < |cs| && x in cs[i] && x in cs[j] ==> i == j
  }

  ghost predicate WellFormed(cs: seq<seq<string>>) {
    (forall i :: 0 <= i < |cs| ==> NoDup(cs[i])) && Disjoint(cs)
  }

  /** Every clustered sequence comes from the pool. */
  ghost predicate Within(cs: seq<seq<string>>, strs: seq<string>) {
    forall i, x :: 0 <= i < |cs| && x in cs[i] ==> x in strs
  }

  /** Every sequence of the pool is in some cluster. */
  ghost predicate Covers(cs: seq<seq<string>>, strs: seq<string>) {
    forall x :: x in strs ==> exists i :: 0 <= i < |cs| && x in cs[i]
  }

  /** Each distinct sequence of the pool is in exactly one cluster, once. */
  ghost predicate IsPartition(cs: seq<seq<string>>, strs: seq<string>) {
    WellFormed(cs) && Within(cs, strs) && Covers(cs, strs)
  }

  ghost predicate NonEmpty(cs: seq<seq<string>>) {
    forall i :: 0 <= i < |cs| ==> cs[i] != []
  }

  /** All members of all clusters, cluster after cluster. */
  function Members(cs: seq<seq<string>>): seq<string> {
    if cs == [] then [] else Members(cs[..|cs| - 1]) + cs[|cs| - 1]
  }

  /** The starting clustering of the hierarchical algorithms: one cluster per sequence. */
  function Singletons(strs: seq<string>): (cs: seq<seq<string>>)
    ensures |cs| == |strs|
    ensures forall i :: 0 <= i < |strs| ==> cs[i] == [strs[i]]
  {
    seq(|strs|, i requires 0 <= i < |strs| => [strs[i]])
  }

  /** cs without the clusters at positions i and j, the others in their order. */
  function Without(cs: seq<seq<string>>, i: nat, j: nat): seq<seq<string>> {
    if cs == [] then []
    else Without(cs[..|cs| - 1], i, j) + (if |cs| - 1 == i || |cs| - 1 == j then [] else [cs[|cs| - 1]])
  }

  lemma {:induction false} MembersIn(cs: seq<seq<string>>, x: string)
    ensures x in Members(cs) <==> exists i :: 0 <= i < |cs| && x in cs[i]
  {
    if cs != [] {
      var p := cs[..|cs| - 1];
      MembersIn(p, x);
      assert forall i :: 0 <= i < |p| ==> p[i] == cs[i];
    }
  }

  lemma {:induction false} MembersSingletons(strs: seq<string>)
    ensures Members(Singletons(strs)) == strs
  {
    if strs != [] {
      var p := strs[..|strs| - 1];
      MembersSingletons(p);
      assert Singletons(strs)[..|strs| - 1] == Singletons(p);
    }
  }

  /** Dropping the clusters at i and j removes one cluster per distinct in-range position. */
  lemma {:induction false} WithoutSize(cs: seq<seq<string>>, i: nat, j: nat)
    ensures |Without(cs, i, j)| == |cs| - (if i < |cs| then 1 else 0) - (if j < |cs| && j != i then 1 else 0)
  {
    if cs != [] {
      WithoutSize(cs[..|cs| - 1], i, j);
    }
  }

  /** The clusters at positions i and j, concatenated in position order. */
  function Joined(cs: seq<seq<string>>, i: nat, j: nat): seq<string> {
    if cs == [] then []
    else Joined(cs[..|cs| - 1], i, j) + (if |cs| - 1 == i || |cs| - 1 == j then cs[|cs| - 1] else [])
  }

  /** The merged cluster is the cluster at the lower position followed by the one at the higher. */
  lemma {:induction false} JoinedPair(cs: seq<seq<string>>, i: nat, j: nat)
    requires i < |cs| && j < |cs|
    ensures Joined(cs, i, j) ==
      if i == j then cs[i] else if i < j then cs[i] + cs[j] else cs[j] + cs[i]
  {
    var n := |cs| - 1;
    var p := cs[..n];
    if i == n || j == n {
      var o := if i == n then j else i;
      if o == n {
        JoinedNone(p, i, j);
      } else {
        JoinedOne(p, o, i, j);
      }
    } else {
      JoinedPair(p, i, j);
    }
  }

  /** Positions outside cs join nothing. */
  lemma {:induction false} JoinedNone(cs: seq<seq<string>>, i: nat, j: nat)
    requires i >= |cs| && j >= |cs|
    ensures Joined(cs, i, j) == []
  {
    if cs != [] {
      JoinedNone(cs[..|cs| - 1], i, j);
    }
  }

  /** With only position o inside cs, the join is the cluster at o. */
  lemma {:induction false} JoinedOne(cs: seq<seq<string>>, o: nat, i: nat, j: nat)
    requires o < |cs| && (o == i || o == j) && (i == o || i >= |cs|) && (j == o || j >= |cs|)
    ensures Joined(cs, i, j) == cs[o]
  {
    var n := |cs| - 1;
    var p := cs[..n];
    if o == n {
      JoinedNone(p, i, j);
    } else {
      JoinedOne(p, o, i, j);
    }
  }

  /** Dropping the clusters at i and j loses exactly the members of the joined cluster. */
  lemma {:induction false} WithoutMembers(cs: seq<seq<string>>, i: nat, j: nat)
    ensures multiset(Members(cs)) == multiset(Members(Without(cs, i, j))) + multiset(Joined(cs, i, j))
  {
    if cs != [] {
      var n := |cs| - 1;
      var p := cs[..n];
      WithoutMembers(p, i, j);
      var rest := Without(p, i, j);
      var last := multiset(cs[n]);
      assert multiset(Members(cs)) == multiset(Members(p)) + last;
      if n == i || n == j {
        assert Without(cs, i, j) == rest;
        assert Joined(cs, i, j) == Joined(p, i, j) + cs[n];
        assert multiset(Joined(cs, i, j)) == multiset(Joined(p, i, j)) + last;
      } else {
        assert Without(cs, i, j) == rest + [cs[n]];
        assert Joined(cs, i, j) == Joined(p, i, j);
        MembersSnoc(rest, cs[n]);
        assert multiset(Members(Without(cs, i, j))) == multiset(Members(rest)) + last;
      }
    }
  }

  /** Every kept cluster is one of the clusters of cs. */
  lemma {:induction false} WithoutSubset(cs: seq<seq<string>>, i: nat, j: nat)
    ensures forall c :: c in Without(cs, i, j) ==> c in cs
  {
    if cs != [] {
      WithoutSubset(cs[..|cs| - 1], i, j);
    }
  }

  /** Concatenating disjoint duplicate-free clusters repeats no sequence. */
  lemma {:induction false} MembersNoDup(cs: seq<seq<string>>)
    requires WellFormed(cs)
    ensures NoDup(Members(cs))
  {
    if cs != [] {
      var n := |cs| - 1;
      var p := cs[..n];
      assert forall k :: 0 <= k < |p| ==> p[k] == cs[k];
      MembersNoDup(p);
      var ms := Members(p);
      forall a, b | 0 <= a < b < |Members(cs)|
        ensures Members(cs)[a] != Members(cs)[b]
      {
        if b >= |ms| && a < |ms| {
          var x := Members(cs)[a];
          assert x in ms;
          MembersIn(p, x);
          var k :| 0 <= k < |p| && x in p[k];
          assert Members(cs)[b] in cs[n];
        }
      }
    }
  }

  /** A duplicate-free list has as many distinct elements as positions. */
  lemma {:induction false} NoDupCard(s: seq<string>)
    requires NoDup(s)
    ensures |set x | x in s| == |s|
  {
    if s != [] {
      var p := s[..|s| - 1];
      NoDupCard(p);
      assert (set x | x in s) == (set x | x in p) + {s[|s| - 1]};
      assert s[|s| - 1] !in p;
    }
  }

  lemma {:induction false} MembersAtLeast(cs: seq<seq<string>>)
    requires NonEmpty(cs)
    ensures |Members(cs)| >= |cs|
  {
    if cs != [] {
      MembersAtLeast(cs[..|cs| - 1]);
    }
  }

  /** Non-empty clusters with only as many members as clusters are all singletons. */
  lemma {:induction false} TightSizes(cs: seq<seq<string>>)
    requires NonEmpty(cs) && |Members(cs)| == |cs|
    ensures forall i :: 0 <= i < |cs| ==> |cs[i]| == 1
  {
    if cs != [] {
      var p := cs[..|cs| - 1];
      MembersAtLeast(p);
      TightSizes(p);
      assert forall i :: 0 <= i < |p| ==> p[i] == cs[i];
    }
  }

  /**
   * The two extreme partitions the tests expect: with one cluster it holds
   * every sequence; with as many non-empty clusters as there are distinct
   * sequences, every cluster is a single sequence.
   */
  lemma PartitionExtremes(cs: seq<seq<string>>, strs: seq<string>)
    requires IsPartition(cs, strs) && NonEmpty(cs)
    ensures |cs| == 1 ==> forall x :: x in cs[0] <==> x in strs
    ensures NoDup(strs) && |cs| == |strs| ==> forall i :: 0 <= i < |cs| ==> exists x :: x in strs && cs[i] == [x]
  {
    if NoDup(strs) && |cs| == |strs| {
      MembersNoDup(cs);
      NoDupCard(Members(cs));
      NoDupCard(strs);
      forall x
        ensures x in Members(cs) <==> x in strs
      {
        MembersIn(cs, x);
      }
      assert (set x | x in Members(cs)) == (set x | x in strs);
      TightSizes(cs);
      forall i | 0 <= i < |cs|
        ensures exists x :: x in strs && cs[i] == [x]
      {
        assert cs[i][0] in cs[i];
        assert cs[i] == [cs[i][0]];
      }
    }
  }

  /** No two clusters are equal as lists. */
  ghost predicate Distinct(cs: seq<seq<string>>) {
    forall a, b :: 0 <= a < b < |cs| ==> cs[a] != cs[b]
  }

  lemma MembersSnoc(cs: seq<seq<string>>, c: seq<string>)
    ensures Members(cs + [c]) == Members(cs) + c
  {
    assert (cs + [c])[..|cs|] == cs;
  }

  /** A sequence held by two different clusters occurs twice among the members. */
  lemma {:induction false} MembersTwice(cs: seq<seq<string>>, p: nat, q: nat, x: string)
    requires p < q < |cs| && x in cs[p] && x in cs[q]
    ensures multiset(Members(cs))[x] >= 2
  {
    var n := |cs| - 1;
    var prefix := cs[..n];
    if q == n {
      assert prefix[p] == cs[p];
      MembersIn(prefix, x);
      assert multiset(Members(prefix))[x] >= 1;
      assert multiset(cs[n])[x] >= 1;
    } else {
      assert prefix[p] == cs[p] && prefix[q] == cs[q];
      MembersTwice(prefix, p, q, x);
    }
  }

  /** A duplicate-free list holds every sequence at most once. */
  lemma {:induction false} NoDupMultiset(s: seq<string>)
    requires NoDup(s)
    ensures forall x :: multiset(s)[x] <= 1
  {
    if s != [] {
      var p := s[..|s| - 1];
      NoDupMultiset(p);
      assert s == p + [s[|s| - 1]];
      assert s[|s| - 1] !in p;
    }
  }

  /** Non-empty clusters whose members repeat nothing are pairwise different lists. */
  lemma MembersOnceDistinct(cs: seq<seq<string>>)
    requires NonEmpty(cs) && forall x :: multiset(Members(cs))[x] <= 1
    ensures Distinct(cs)
  {
    forall a, b | 0 <= a < b < |cs|
      ensures cs[a] != cs[b]
    {
      if cs[a] == cs[b] {
        assert cs[a][0] in cs[a];
        MembersTwice(cs, a, b, cs[a][0]);
      }
    }
  }

  /** Each cluster's members are among the members of the clustering, as often. */
  lemma {:induction false} MembersContains(cs: seq<seq<string>>, i: nat)
    requires i < |cs|
    ensures multiset(cs[i]) <= multiset(Members(cs))
  {
    var n := |cs| - 1;
    if i < n {
      MembersContains(cs[..n], i);
    }
  }

  /** A list holding x at two positions holds it at least twice. */
  lemma TwiceAt(s: seq<string>, a: nat, b: nat)
    requires a < b < |s| && s[a] == s[b]
    ensures multiset(s)[s[a]] >= 2
  {
    assert s == s[..b] + s[b..];
    assert s[a] in s[..b];
    assert s[b] in s[b..];
  }

  /**
   * Clusters whose members repeat nothing are well formed: the converse of
   * MembersNoDup.
   */
  lemma MembersOnceWellFormed(cs: seq<seq<string>>)
    requires forall x :: multiset(Members(cs))[x] <= 1
    ensures WellFormed(cs)
  {
    forall i | 0 <= i < |cs|
      ensures NoDup(cs[i])
    {
      MembersContains(cs, i);
      forall a, b | 0 <= a < b < |cs[i]|
        ensures cs[i][a] != cs[i][b]
      {
        if cs[i][a] == cs[i][b] {
          TwiceAt(cs[i], a, b);
        }
      }
    }
    forall i, j, x | 0 <= i < |cs| && 0 <= j < |cs| && x in cs[i] && x in cs[j]
      ensures i == j
    {
      if i < j {
        MembersTwice(cs, i, j, x);
      } else if j < i {
        MembersTwice(cs, j, i, x);
      }
    }
  }
}
