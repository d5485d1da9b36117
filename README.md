# Active-site clustering engine, modelled in Dafny

This project models the clustering engine of a small bioinformatics tool.
The tool reads enzyme active sites and turns each one into a one-letter
amino-acid string. It then clusters those strings by edit distance. The
engine exists in two diverging copies, and both are modelled:

- `clustering_algorithms/cluster.py`. Centroids are sampled and redrawn
  until they are pairwise distinct. This is followed by k-medoids
  partitioning. Agglomerative clustering scores two clusters by the distance
  between their medoids. It merges the first closest pair among the clusters
  `i < j < size - 1` and stops once at most k clusters are left. The merge
  filters out every cluster equal to either chosen one, so when clusters
  repeat a step can drop more than two of them, and the extra copies and
  their members are lost (with d(A, A) = 0, `[[A], [A], [A], [B], [C]]` and
  k = 4 end as `[[B], [C], [A, A]]`: 3 clusters, and one of the three copies
  of A is lost).
- `hw2skeleton/cluster.py`. The centroid sample is taken as drawn. The
  k-medoids loop is the same. Agglomerative clustering uses true single
  linkage and a full square distance matrix whose diagonal is set to
  infinity. It takes the first row-major minimum of that matrix, merges the
  pair into the front of the list, and records every intermediate
  clustering.

Modules, one per part of the engine:

| file | module | what it holds |
|---|---|---|
| `results.dfy` | `Results` | the `Result` type and the Python exceptions the engine can raise |
| `encoding.dfy` | `Encoding` | the residue table, `convert_to_aa_str`, `get_aa_seq` and the sequence-to-site lookup |
| `medoid.dfy` | `Medoid` | the distance parameter and `avg_string` (the medoid, first on ties) |
| `clusterings.dfy` | `Clusterings` | partitions, members, and the "drop two positions / join two positions" operations |
| `sampling.dfy` | `Sampling` | `random.sample` as a list of distinct drawn positions |
| `partition.dfy` | `Partition` | the assignment pass that moves sequences between clusters, the centroid update, the `while change` loop |
| `clustering_algorithms.dfy` | `ClusteringAlgorithms` | `generate_cents`, both drivers, `single_linkage` (medoid distance), `find_most_similar`, `merge_clusters` |
| `hw2skeleton.dfy` | `Hw2Skeleton` | both drivers, `single_linkage` (least cross distance), `minimum_position`, `merge_clusters`, `cluster`, the recorded trace |

The Damerau-Levenshtein distance is a parameter `d: (string, string) -> nat`.
Where a result depends on it, the hypotheses are named predicates:

- `ZeroOnSelf`: `d(a, a) == 0`, which the identical-similarity test checks.
- `Separating`: `d(a, b) == 0` only when `a == b`.
- `Symmetric`.

Python exceptions become `Err` values:

- `UnknownResidue` is the `KeyError` raised on a residue code outside the table.
- `EmptyMin` is the `ValueError` raised by `min()` of an empty list.
- `SampleTooLarge` is raised by `random.sample` when k exceeds the pool.

The model shows two consequences of the code as written:

- In `clustering_algorithms`, the scan in `find_most_similar` leaves out the
  last cluster and needs at least three clusters. So `cluster_hierarchically`
  with `k < 2` fails whenever the sequences are pairwise distinct and there
  are more than k of them. The one-cluster test in `test/test_cluster.py`
  expects success.
- In `hw2skeleton`, a repeated centroid in the sample leaves the later
  copy's cluster empty. `avg_string` then fails on the first centroid update.

## Model

| member | source | states |
|---|---|---|
| Encoding.Encode | clustering_algorithms/cluster.py:59-69 | a residue list encodes exactly when every code is in the 22-entry table; the string has one letter per residue, letter i being the table entry of residue i; otherwise the KeyError names the first unknown code (same code at hw2skeleton/cluster.py:39-51) |
| Encoding.TableInjective | clustering_algorithms/cluster.py:59-62 | no two codes of the table share a letter |
| Encoding.TableInjectiveAll | clustering_algorithms/cluster.py:59-62 | the table is injective over all its codes at once |
| Encoding.EncodeInjective | clustering_algorithms/cluster.py:64-69 | two residue lists with the same encoding have the same residue types |
| Encoding.ConvertToAaStr | clustering_algorithms/cluster.py:64-69 | the accumulating loop returns exactly Encode's result, the KeyError included |
| Encoding.Encodings | clustering_algorithms/cluster.py:82 | the encoding list has one entry per site, in site order |
| Encoding.DictStep | clustering_algorithms/cluster.py:79-80 | one dictionary write keeps every key mapped to the last site so far with that encoding |
| Encoding.GetAaSeq | clustering_algorithms/cluster.py:71-82 | succeeds exactly when every site encodes, else fails with the first failing site's error; the list is the encodings in site order, the dictionary's keys are exactly those encodings and each maps to the last site with that encoding (same code at hw2skeleton/cluster.py:54-60) |
| Encoding.ToSites2D | clustering_algorithms/cluster.py:135-137 | the site clustering has the shape of the sequence clustering, cluster by cluster (same code at hw2skeleton/cluster.py:100-102) |
| Encoding.ToSitesResolves | clustering_algorithms/cluster.py:135-137 | looked up in the pool's dictionary, every clustered sequence becomes the last site that encodes to it |
| Medoid.FirstMin | clustering_algorithms/cluster.py:45 | `min` with a key returns a position whose key is least, and every earlier position has a strictly larger key |
| Medoid.BestIndexFirstMin | clustering_algorithms/cluster.py:45 | the candidate kept by the scan has the least total distance, and every earlier candidate a strictly larger one |
| Medoid.AvgString | clustering_algorithms/cluster.py:37-46 | succeeds exactly on a non-empty list, returns one of its members, and returns the only member of a singleton; an empty list is the `min` ValueError (same code at hw2skeleton/cluster.py:28-37) |
| Medoid.AvgStringFirstMedoid | clustering_algorithms/cluster.py:37-46 | the average string has the least total distance to the list, and every member before it has a strictly larger one |
| Clusterings.MembersSingletons | clustering_algorithms/cluster.py:164 | the one-per-sequence start clustering holds the sequences in order |
| Clusterings.JoinedPair | hw2skeleton/cluster.py:147-149 | the joined cluster of positions i and j is the lower-position cluster followed by the higher one (one copy when i = j) |
| Clusterings.WithoutSize | hw2skeleton/cluster.py:147-151 | dropping positions i and j shortens the clustering by the number of those positions that exist |
| Clusterings.WithoutMembers | hw2skeleton/cluster.py:147-151 | the dropped and the joined parts together hold the members of the clustering, counted with multiplicity |
| Clusterings.PartitionExtremes | clustering_algorithms/cluster.py:102-118 | a partition into one cluster holds every sequence; a partition of distinct sequences into as many clusters as sequences is the singletons |
| Sampling.Pick | clustering_algorithms/cluster.py:123 | the sample has one entry per drawn position, the pool item at that position |
| Sampling.PickDistinct | hw2skeleton/cluster.py:75 | distinct positions of a pool with no repeated sequence give pairwise distinct centroids |
| Partition.DistancesTo | clustering_algorithms/cluster.py:106 | the distance list has one entry per centroid, the distance to that centroid |
| Partition.Nearest | clustering_algorithms/cluster.py:106-107 | the chosen index names a nearest centroid, and every lower index is strictly farther |
| Partition.CentroidNearestItself | clustering_algorithms/cluster.py:105-107 | with distinct centroids and a distance that is zero exactly on equal sequences, each centroid is assigned to its own index |
| Partition.RepeatNeverNearest | hw2skeleton/cluster.py:85-86 | a centroid repeated at a lower index is never the chosen one at the higher index |
| Partition.Remove | clustering_algorithms/cluster.py:114 | `list.remove` takes out one occurrence and keeps every other member; a list without repeats loses s altogether |
| Partition.RemoveAt | clustering_algorithms/cluster.py:114 | `list.remove` drops exactly the first occurrence and keeps the other members in their order |
| Partition.RemoveElsewhere | clustering_algorithms/cluster.py:112-114 | s leaves every cluster except the kept one, and nothing else changes: each other cluster is exactly its `list.remove(s)` when it held s, and itself otherwise |
| Partition.MoveTo | clustering_algorithms/cluster.py:110-114 | appending s to its nearest cluster and removing it from the others extends the pass invariant by one sequence, and yields exactly the appended clusters with s removed elsewhere |
| Partition.PassSkip | clustering_algorithms/cluster.py:105-109 | a sequence already in its nearest cluster leaves the clusters and the flag unchanged |
| Partition.PassAdd | clustering_algorithms/cluster.py:108-114 | appending a missing sequence to its nearest cluster and removing it elsewhere keeps the pass invariant and sets the flag |
| Partition.AssignPass | clustering_algorithms/cluster.py:104-114 | after one pass every cluster holds exactly the pool sequences nearest to its centroid, with no repeats; `change` is set exactly when some sequence was missing from its nearest cluster; an unset flag means the clusters are unchanged (same code at hw2skeleton/cluster.py:82-93) |
| Partition.Medoids | clustering_algorithms/cluster.py:116 | the centroid update succeeds exactly when no cluster is empty, and then gives each cluster's average string |
| Partition.MedoidsDistinct | clustering_algorithms/cluster.py:116 | the medoids of disjoint clusters are pairwise distinct members of their own clusters |
| Partition.DistinctCentroidsFill | clustering_algorithms/cluster.py:105-116 | distinct centroids taken from the pool leave no cluster empty when the distance is zero exactly on equal sequences |
| Partition.RepeatedCentroidStarves | hw2skeleton/cluster.py:75-95 | a repeated centroid leaves some cluster empty after the pass |
| Partition.AssignedPartition | clustering_algorithms/cluster.py:102-114 | a completed assignment with duplicate-free clusters is a partition of the pool |
| Partition.UpdateFailsOnlyOnRepeats | clustering_algorithms/cluster.py:116 | the centroid update cannot fail for distinct initial centroids and a distance that is zero exactly on equal sequences, and does fail on the first pass for repeated ones |
| Partition.ConvergeStep | clustering_algorithms/cluster.py:102-116 | a pass followed by a successful update keeps the loop invariant |
| Partition.Converge | clustering_algorithms/cluster.py:98-116 | a result is a partition of the pool into one non-empty cluster per centroid, and a fixed point: each cluster is exactly the sequences nearest its own medoid; with at least one centroid, all distinct, and a distance that is zero exactly on equal sequences only the pass bound can fail; once a pass is allowed, a repeated centroid always fails (same loop at hw2skeleton/cluster.py:77-95) |
| ClusteringAlgorithms.Count | clustering_algorithms/cluster.py:127 | `count` is positive exactly for members and never exceeds the length |
| ClusteringAlgorithms.CountTwice | clustering_algorithms/cluster.py:127 | a count above one means two positions hold the value, and conversely |
| ClusteringAlgorithms.HasDuplicatesIff | clustering_algorithms/cluster.py:127 | the `any(count > 1)` test holds exactly when the centroids are not pairwise distinct |
| ClusteringAlgorithms.GenerateCents | clustering_algorithms/cluster.py:121-132 | a sample larger than the pool is refused; otherwise the result is the first drawn sample whose centroids are pairwise distinct, k pool members, and there is no result exactly when no draw is distinct |
| ClusteringAlgorithms.ClusterByPartitioning | clustering_algorithms/cluster.py:85-118 | encoding errors and an oversized sample are reported; a result is a partition of the encodings into k non-empty clusters at the medoid fixed point, resolved to sites; with a distance that is zero exactly on equal sequences and k in 1..n only exhausted draws or passes fail |
| ClusteringAlgorithms.SingleLinkage | clustering_algorithms/cluster.py:153-158 | the score exists exactly when both clusters are non-empty |
| ClusteringAlgorithms.LinkageOfMedoids | clustering_algorithms/cluster.py:153-158 | the score is the distance between a medoid of each cluster |
| ClusteringAlgorithms.RowShape | clustering_algorithms/cluster.py:180 | the inner loop of row a visits (a, lo), (a, lo + 1), ... in order |
| ClusteringAlgorithms.RowMembers | clustering_algorithms/cluster.py:180 | row a holds exactly the pairs (a, b) with lo <= b < hi |
| ClusteringAlgorithms.PairsMembers | clustering_algorithms/cluster.py:179-180 | the nested loops record exactly the pairs a < b < size - 1 |
| ClusteringAlgorithms.AscendingRow | clustering_algorithms/cluster.py:180 | one row's keys are in increasing order |
| ClusteringAlgorithms.AscendingConcat | clustering_algorithms/cluster.py:179-180 | rows appended after earlier rows keep the key order increasing |
| ClusteringAlgorithms.PairsSorted | clustering_algorithms/cluster.py:179-180 | the dictionary's insertion order is strictly increasing lexicographic order |
| ClusteringAlgorithms.ScoredSnoc | clustering_algorithms/cluster.py:181 | recording one more pair with its score keeps every entry the score of its pair |
| ClusteringAlgorithms.ScoredConcat | clustering_algorithms/cluster.py:179-181 | appending a scored row to scored rows gives scored rows |
| ClusteringAlgorithms.ScanCovers | clustering_algorithms/cluster.py:179-183 | some pair is scored exactly when there are at least three clusters, and then every cluster but the last was scored as non-empty |
| ClusteringAlgorithms.Position | clustering_algorithms/cluster.py:183 | a recorded key has a position in the insertion order |
| ClusteringAlgorithms.ScanOrder | clustering_algorithms/cluster.py:183 | the key `min` picks has a score no larger than any pair's, and strictly smaller than that of every pair inserted earlier |
| ClusteringAlgorithms.ScanMinAt | clustering_algorithms/cluster.py:183 | the same comparison stated over the clusters' linkage scores for one pair |
| ClusteringAlgorithms.ScanMin | clustering_algorithms/cluster.py:183 | the key `min` picks is the first closest pair in loop order |
| ClusteringAlgorithms.ScoreRow | clustering_algorithms/cluster.py:180-181 | the inner loop records row i in order with each pair's score, or fails because a cluster it scores is empty |
| ClusteringAlgorithms.ScorePairs | clustering_algorithms/cluster.py:179-181 | the nested loops record every pair a < b < size - 1 in loop order with its score, or fail because a scored cluster is empty |
| ClusteringAlgorithms.FindMostSimilar | clustering_algorithms/cluster.py:174-183 | succeeds exactly when there are at least three clusters and none but the last is empty; returns the first pair in loop order with the least score over pairs that exclude the last cluster; with three clusters returns (0, 1) |
| ClusteringAlgorithms.KeepOthers | clustering_algorithms/cluster.py:190-192 | the filter keeps exactly the clusters equal to neither chosen cluster, in order |
| ClusteringAlgorithms.MergeClusters | clustering_algorithms/cluster.py:186-196 | the append loop returns the kept clusters followed by the two chosen clusters joined |
| ClusteringAlgorithms.KeepOthersConcat | clustering_algorithms/cluster.py:190-192 | the filter distributes over concatenation, so the kept clusters stay in their relative order |
| ClusteringAlgorithms.KeepOthersCounts | clustering_algorithms/cluster.py:190-192 | every copy of a cluster equal to neither chosen one survives, and every copy of a chosen one is dropped |
| ClusteringAlgorithms.KeepOthersDrops | clustering_algorithms/cluster.py:190-192 | the filter drops at least the chosen positions |
| ClusteringAlgorithms.KeepOthersWithout | clustering_algorithms/cluster.py:190-192 | with pairwise different clusters the filter drops exactly the two chosen positions and keeps the rest in order |
| ClusteringAlgorithms.KeepOthersWithoutAt | clustering_algorithms/cluster.py:190-192 | when the chosen clusters occur exactly at the chosen positions, the filter drops just those positions |
| ClusteringAlgorithms.MergedCounts | clustering_algorithms/cluster.py:186-196 | merging two positions of pairwise different clusters loses one cluster and keeps the members with their multiplicities |
| ClusteringAlgorithms.MergedShrinks | clustering_algorithms/cluster.py:186-196 | a merge of two positions always shortens the clustering |
| ClusteringAlgorithms.MergedKeepsMembers | clustering_algorithms/cluster.py:186-196 | a merge keeps the set of clustered sequences |
| ClusteringAlgorithms.MergedNonEmpty | clustering_algorithms/cluster.py:186-196 | a merge creates no empty cluster |
| ClusteringAlgorithms.ConvertToObject3D | clustering_algorithms/cluster.py:140-150 | the nested append loops give the same site clustering as the comprehension |
| ClusteringAlgorithms.MergeStep | clustering_algorithms/cluster.py:166-169 | merging the closest pair keeps the merge-loop invariant and shortens the clustering |
| ClusteringAlgorithms.MergedPartition | clustering_algorithms/cluster.py:161-171 | the settled clusters hold only pool sequences, and partition the pool when no sequence repeats |
| ClusteringAlgorithms.MergeUntil | clustering_algorithms/cluster.py:163-169 | k >= 2 always succeeds; at most k sequences stay singletons; for more than k distinct sequences it fails when k < 2 and otherwise stops at exactly k clusters; every result keeps the set of sequences and has no empty cluster |
| ClusteringAlgorithms.ClusterHierarchically | clustering_algorithms/cluster.py:161-171 | encoding errors are reported and `EmptyMin` is the only other failure; the result covers every encoding, is a partition when no encoding repeats, has exactly k clusters when the encodings are distinct and more than k, and resolves to sites |
| Hw2Skeleton.ClusterByPartitioning | hw2skeleton/cluster.py:63-97 | encoding errors and an oversized sample are reported; a result is a partition of the encodings into k non-empty clusters at the medoid fixed point, resolved to sites; once a pass is allowed, a sample with a repeated sequence fails; for k in 1..n, distinct encodings and a distance that is zero exactly on equal sequences, only the pass bound can fail |
| Hw2Skeleton.ClosestTo | hw2skeleton/cluster.py:123-126 | the least distance from a to the cluster is attained and bounds every distance |
| Hw2Skeleton.LeastCross | hw2skeleton/cluster.py:123-126 | the least cross distance is attained by a pair and bounds every pair |
| Hw2Skeleton.SingleLinkage | hw2skeleton/cluster.py:121-126 | defined exactly for two non-empty clusters; the value bounds every cross-pair distance and is attained by a pair |
| Hw2Skeleton.LinkageSymmetric | hw2skeleton/cluster.py:121-126 | with a symmetric distance the linkage does not depend on argument order |
| Hw2Skeleton.ScanRow | hw2skeleton/cluster.py:132-135 | scanning one more row keeps the first least cell so far in row-major order |
| Hw2Skeleton.FirstLeast | hw2skeleton/cluster.py:132-135 | the position found is the first least cell of the matrix in row-major order |
| Hw2Skeleton.MinimumPosition | hw2skeleton/cluster.py:129-138 | the diagonal is overwritten with infinity in place and nothing else changes; returns the first row-major position of the least cell with its value; an empty matrix is the ValueError |
| Hw2Skeleton.MergeClusters | hw2skeleton/cluster.py:141-152 | the loop returns the joined pair first, followed by the other clusters in order |
| Hw2Skeleton.MembersCons | hw2skeleton/cluster.py:152 | putting a cluster in front puts its members in front |
| Hw2Skeleton.CombinedCounts | hw2skeleton/cluster.py:141-152 | size - 1 clusters for i != j and size for i = j; the front cluster is the lower position's followed by the higher one's; the member multiset is unchanged |
| Hw2Skeleton.CombinedNonEmpty | hw2skeleton/cluster.py:141-152 | a merge of non-empty clusters has no empty cluster |
| Hw2Skeleton.ClosestOrdered | hw2skeleton/cluster.py:129-138 | with a symmetric distance the chosen pair has the lower position first |
| Hw2Skeleton.FillRow | hw2skeleton/cluster.py:116-117 | one row of the matrix is filled with the linkages, or the fill fails on an empty cluster; every cell outside that row keeps its value |
| Hw2Skeleton.MatrixClosest | hw2skeleton/cluster.py:113-118 | the first least cell of the filled matrix is the first closest pair of distinct clusters, and holds its linkage |
| Hw2Skeleton.Cluster | hw2skeleton/cluster.py:110-119 | succeeds exactly on a non-empty list of non-empty clusters; one cluster merges with itself at infinity; otherwise merges the first closest pair of distinct clusters and returns its linkage |
| Hw2Skeleton.ToSites3D | hw2skeleton/cluster.py:104-106 | one site clustering per recorded clustering |
| Hw2Skeleton.ToSites3DResolves | hw2skeleton/cluster.py:104-106 | every recorded clustering resolves, entry by entry, to the last site with each encoding |
| Hw2Skeleton.MergesSnoc | hw2skeleton/cluster.py:172-175 | recording the next closest-pair merge keeps the trace a chain of such merges |
| Hw2Skeleton.ShrinksSnoc | hw2skeleton/cluster.py:172-175 | recording a clustering one cluster shorter with the same members keeps the size count |
| Hw2Skeleton.TraceWithin | hw2skeleton/cluster.py:164-175 | every recorded clustering holds only pool sequences |
| Hw2Skeleton.TraceEnd | hw2skeleton/cluster.py:172-179 | a trace that ran to the end finishes with one cluster holding every sequence |
| Hw2Skeleton.HierStep | hw2skeleton/cluster.py:172-175 | one more closest-pair merge extends the trace by a clustering one shorter with the same members |
| Hw2Skeleton.MergeLoop | hw2skeleton/cluster.py:164-177 | the trace starts with an empty clustering; entry m is the closest-pair merge of the one before and has n - m clusters; the trace has k entries for 2 <= k <= n and otherwise n (one when n = 0) |
| Hw2Skeleton.ClusterHierarchically | hw2skeleton/cluster.py:155-179 | fails only on an encoding error; otherwise returns the recorded trace mapped to sites, with the entry count and merge chain of MergeLoop |

## Left out

- The Damerau-Levenshtein library is foreign code. The distance is a parameter, and the properties a result needs are explicit hypotheses.
- `random.sample` is an input: a list of distinct positions, with one list per draw in `generate_cents`.
- `generate_cents` may redraw forever. The model takes a finite list of draws and reports `NoDistinctSample` when every draw repeats a sequence.
- Nothing in the code bounds the `while change` loop of `cluster_by_partitioning`. The model runs it with a pass bound (`fuel`) and reports `NotConverged` when the bound is used up.
- ClusteringAlgorithms.ClusterByPartitioning: takes k as a natural number. A negative k makes `random.sample` raise, and that case is not modelled.
- Hw2Skeleton.ClusterByPartitioning: takes k as a natural number, for the same reason. The sequence clusters are a ghost result; the source returns only the site clusters.
- Medoid.AvgString: compares integer total distances instead of the float averages `sum / len`. All candidates share the divisor, so the order is the same. Float rounding could still make two different large totals tie, and that case is not modelled.
- `minimum_position` works on a numpy float matrix holding `inf`. The model uses a two-dimensional array of `Fin(n) | Inf`, and models `np.where` followed by `[0]` as the first row-major position.
- The `distances` list that hw2 `cluster_hierarchically` fills and never returns, and its unused `max_d` and `max_d_loc`.
- `compute_similarity` and `avg` are modelled only through their callers, as the distance parameter and the integer total distance.
- `assess_clusters.py`, `visualize_clusters.py`, `main.py`, `__main__.py` and the `io` module are not part of this model. They hold biochemical float properties, plotting, argument handling and file I/O, and `jacard_index` has no body to model.
- Partition.AssignPass: the Python cluster lists are mutated in place by `append` and `remove`; the model reassigns sequence values at each step instead. No list is shared between two clusters or with the caller, so no behaviour is lost.
- Sites are a name and the residue type codes. No other part of a PDB record is read by the engine.
