# Clustering: k-means and the PSA partitioner, in Dafny

This project models the core of a small Java clustering library. It has
four parts:

- **Points**: a `Point` owns a fixed-length feature vector. It offers bounds-checked feature access and the Euclidean distance to a point of the same length.
- **PointSets**: a `PointSet` is a set of points that all have one dimension. The first point added fixes the dimension, and membership is by object identity.
- **PSA**: a partitioner. It starts from one partition that holds every point. It then repeatedly takes the partition whose widest feature range is widest (first such partition on ties) and splits it at the middle of that range, until there are `m` partitions.
- **KMeans**: Lloyd's iteration. It can optionally scale features in place first. It seeds `k` clusters with copies of `k` shuffled points. Each pass assigns every point to its first nearest centroid, sums and divides to get the new centroids, and records the largest centroid movement. The do-while loop repeats while that movement reaches the threshold and the pass budget lasts. `computeScaling` derives the factors 1/max per feature.

## Modelling choices

Mutable state is modelled as mutable state:

- Points hold a `const features: array<real>`; scaling writes its cells in place.
- Clusters, partitions and the point set are classes with `modifies`-framed methods.
- Each loop of the source is a `while`/`for` loop with invariants. Each loop is proved against a pure specification function, and that function's properties are proved as lemmas.

KMeans specifics:

- **Pass functions.** On values, one pass is `KMeans.Next`: `Assignment`, then `Groups`, then `Mean`. The centroids after `m` passes are `Iterate`, and the largest movement of pass `m` is `Change`.
- **What `Run` proves.** The imperative loop ends with:
  - the clusters showing `Iterate(seeds, vs, n, nIters)`;
  - the members being the groups of the last assignment;
  - `nIters` being the first pass count at which the loop test fails.
- **Distances are squared.** The source compares square roots. The square root is monotone, so every comparison has the same outcome on squares:
  - `bestDist` starts at `MAX_VALUE²`;
  - the stop test `sqrt(L) >= threshold` becomes `threshold <= 0 || L >= threshold²` (`KMeans.Moved`).
- **Empty clusters.** An empty cluster divides its zero sum by 0, so every feature becomes NaN. The model marks such a centroid `Undefined` (a NaN flag on the cluster). Comparisons with NaN never hold, so an undefined centroid is never the nearest to a point, and its movement never raises `largestChange`.

PSA specifics:

- **Starting values.** `b[j]` starts at `Double.MIN_VALUE`, the smallest *positive* double, and `a[j]` starts at `Double.MAX_VALUE`. Both are kept exactly as written:
  - a feature whose values are all negative gets `MIN_VALUE` as its upper end;
  - an empty partition gets dissimilarity `MIN_VALUE - MAX_VALUE`.
- **Feature snapshot.** `calculateDissimilarity` reads the points' current features, and the contracts relate the cached values to a ghost snapshot `f` of those features. The snapshot is taken when `partition` starts, and nothing changes the points during partitioning.

`Cluster.java` and `Partition.java` are not part of this model. Their fields (`members`, `centroid`; `pj`, `apj`, `dissimilarity`) and their `add` and `size` are inferred from their use in `KMeans.java` and `PSA.java`.

## Model

| member | source | states |
|---|---|---|
| Points.SqDistNonNegative | src/Point.java:61-69 | the squared distance is never negative |
| Points.SqDistSymmetric | src/Point.java:61-69 | the distance from a to b equals the distance from b to a |
| Points.SqDistSelf | src/Point.java:61-69 | a point is at distance zero from itself |
| Points.Point.Zero | src/Point.java:12-14 | `Point(int k)`: a fresh array of k zeros |
| Points.Point.constructor | src/Point.java:20-24 | `Point(double...)`: a fresh array equal to the data, so the point does not alias it |
| Points.Point.Copy | src/Point.java:30-34 | the copy constructor: a fresh array with the same features |
| Points.Point.Length | src/Point.java:51-53 | the number of features, which is the length of the feature array fixed at construction |
| Points.Point.Feature | src/Point.java:41-45 | `Ok(features[i])` exactly when 0 <= i < length, otherwise IndexOutOfRange |
| Points.Point.Distance | src/Point.java:61-69 | DimensionMismatch exactly when the lengths differ, otherwise the sum over the features of the squared differences |
| PointSets.PointSet.constructor | src/PointSet.java:14 | the new set is empty, has dimension -1 and satisfies the invariant |
| PointSets.PointSet.Size | src/PSA.java:15 | `size()`: the number of members |
| PointSets.PointSet.Dimension | src/PointSet.java:24-26 | for a set built by the constructor and `add`: -1 exactly when the set is empty, otherwise the length of every member |
| PointSets.PointSet.Add | src/PointSet.java:16-22 | the invariant is kept; a point of the wrong length is refused with DimensionMismatch and nothing changes; otherwise the first add fixes the dimension, the point joins unless that very object is already in the set, and the result says whether it joined |
| PointSets.IdentityMembership | src/PointSet.java:11-21 | re-adding the same object leaves one member, while a second object with equal features makes two |
| PSA.Partition.constructor | src/PSA.java:13 | `new Partition()`: no members, and the cached values are zero |
| PSA.Partition.Add | src/PSA.java:17-19 | `add(p)`: p is appended to the members, and the cached values are unchanged |
| PSA.LoIsMinimum | src/PSA.java:62-66 | the a[j] scan that starts at MAX_VALUE ends at a member's value that is at most every member's value |
| PSA.ArgMaxIsFirstMax | src/PSA.java:73-77 | pj is a largest delta, and every earlier delta is strictly smaller |
| PSA.SummarisesWidest | src/PSA.java:55-82 | the cached pj is a feature whose range width is dissimilarity; no feature is wider; every earlier feature is strictly narrower; apj is the feature's lowest value |
| PSA.ScanFeature | src/PSA.java:61-69 | the inner loop leaves a[j] at the running minimum from MAX_VALUE and b[j] at the running maximum from MIN_VALUE of feature j |
| PSA.Ranges | src/PSA.java:57-71 | the first loop fills a with the lows and delta with the range widths of every feature |
| PSA.Widest | src/PSA.java:73-77 | the second loop returns the first index of the largest delta |
| PSA.CalculateDissimilarity | src/PSA.java:55-82 | the partition's pj, apj and dissimilarity summarise its members' features; only those three fields change |
| PSA.SelectWidest | src/PSA.java:26-29 | j has the largest dissimilarity, and every earlier partition's is strictly smaller |
| PSA.Split | src/PSA.java:31-39 | two fresh, distinct partitions whose members together are exactly the parent's; a member goes to the first exactly when feature pj is at most apj + dissimilarity/2 |
| PSA.SplitMeasured | src/PSA.java:30-41 | two fresh children, each measured, that split the parent at its midpoint: together they hold its members, the first those whose feature pj is at most apj + dissimilarity/2, the second the others |
| PSA.ReplacedMembers | src/PSA.java:42-44 | after remove/add/add, every partition is an old one or one of the two children, and the member lists are the old ones without the parent's, followed by the children's |
| PSA.SplitStep | src/PSA.java:26-45 | one pass picks j, the first partition of largest dissimilarity; the new list is the old one without entry j, followed by two fresh children that split it at its midpoint; no partition appears twice; every partition is measured; the points held are the same multiset |
| PSA.ChainSnoc | src/PSA.java:25-46 | a pass that widens the last list extends the chain of lists |
| PSA.Widen | src/PSA.java:26-45 | one pass of the loop keeps the loop's state and records the new list and its pick in the history |
| PSA.Start | src/PSA.java:13-23 | the first list holds one fresh, measured partition of every point, and starts the history |
| PSA.Grow | src/PSA.java:24-46 | after the loop there are max(m, 1) fresh partitions, and the history runs from the single partition of every point to the result, each list widening the one before |
| PSA.Gather | src/PSA.java:13-23 | the first partition holds every point of the set and has its cached values |
| PSA.PartitionPoints | src/PSA.java:12-48 | InsufficientPoints exactly when m exceeds the number of points; otherwise max(m, 1) distinct partitions, each measured, whose members together are the point set exactly once; the result is the end of a chain of lists from the single partition of every point, where each list replaces the first widest partition of the one before by its two midpoint halves |
| Seqs.DistinctReplace | src/PSA.java:42-44 | replacing one member of a list without repeats by two new, different ones keeps it without repeats |
| Seqs.ConcatReplace | src/PSA.java:42-44 | replacing a group by two groups that split it keeps the multiset of all elements |
| Seqs.RemoveFirstAt | src/PSA.java:42 | `remove(Object)` removes the selected index when no earlier entry is the same object |
| Seqs.GroupsPartition | src/KMeans.java:55-69 | when every tag names a group, the groups together hold every element exactly once |
| Seqs.GroupsTagged | src/KMeans.java:65 | every member of group c was tagged c |
| Seqs.DistinctPermutation | src/KMeans.java:36-37 | a shuffle of a list without repeats has no repeats |
| Seqs.RunMaxIsMaximum | src/KMeans.java:102-107 | the running maximum is at least its start and every value, and equals the start or one of the values |
| KMeans.SumIsColumnTotal | src/KMeans.java:66-68 | coordinate j of the accumulated centroid is the total of feature j over the group |
| KMeans.Mean | src/KMeans.java:72-74 | the centroid is undefined (NaN) exactly when the group is empty and there is at least one feature |
| KMeans.MeanIsAverage | src/KMeans.java:72-74 | a non-empty group's centroid feature j is the group's total of feature j over its size |
| KMeans.ScanIsFirstMinimum | src/KMeans.java:56-64 | the scan's bestDist is the least distance (or MAX_VALUE²), and best is the first centroid at that distance |
| KMeans.ClosestIsFirstNearest | src/KMeans.java:56-64 | best is a cluster; when a centroid lies within MAX_VALUE, best is nearest, with ties going to the lowest index; when none does, best is 0 |
| KMeans.AssignmentInRange | src/KMeans.java:56-65 | with at least one cluster, every point's tag names a cluster |
| KMeans.EveryPointOnce | src/KMeans.java:55-69 | in a pass the clusters' members together are the points, each once, and each member of cluster c has c as its nearest centroid |
| KMeans.LargestIsMaximum | src/KMeans.java:72-78 | largestChange is at least 0, no defined movement exceeds it, and it is 0 or one of the movements |
| KMeans.TraceSnoc | src/KMeans.java:46-82 | a run of the pass function extends by one pass, and earlier passes keep their largestChange |
| KMeans.TraceIsIterate | src/KMeans.java:46-82 | entry m of a run from the seeds is the centroids after m passes |
| KMeans.ShiftIsChange | src/KMeans.java:72-82 | a run's largestChange of pass m is the model's change of pass m |
| KMeans.PassesSnoc | src/KMeans.java:46-82 | a pass taken because the loop test held keeps the loop's history valid |
| KMeans.Conclude | src/KMeans.java:79-84 | at loop exit the clusters are the model's after nIters passes, the test held after every earlier pass, and it failed after the last |
| KMeans.FinalClusters | src/KMeans.java:79-84 | the returned clusters show the centroids after nIters passes and the members of the last assignment |
| KMeans.FinalTests | src/KMeans.java:82 | the loop test held after every pass before nIters and failed after pass nIters |
| KMeans.Cluster.constructor | src/KMeans.java:39-40 | a new cluster has the given centroid, no members and a defined centroid |
| KMeans.Cluster.Size | src/KMeans.java:74 | `size()`: the number of members |
| KMeans.Cluster.Add | src/KMeans.java:65 | the point is appended to the members |
| KMeans.NewClusters | src/KMeans.java:48-52 | k fresh, distinct clusters with fresh, distinct zero centroids and no members |
| KMeans.NearestCentroid | src/KMeans.java:56-64 | the index chosen is the model's first nearest centroid |
| KMeans.Accumulate | src/KMeans.java:66-68 | the centroid becomes the old centroid plus the point's features |
| KMeans.DivideBy | src/KMeans.java:73-74 | every feature is divided by the size |
| KMeans.Join | src/KMeans.java:65-68 | only cluster best changes: it gains p as a member and p's features in its sum |
| KMeans.Place | src/KMeans.java:56-68 | the point joins the cluster of its first nearest centroid, and the other clusters stay as they were |
| KMeans.Assign | src/KMeans.java:48-69 | the new clusters hold the model's groups and each group's feature sum, and the tags are the model's assignment |
| KMeans.Settle | src/KMeans.java:73-75 | the centroid becomes the group's mean (NaN for an empty group), and the movement is the squared distance to the previous centroid (none when one end is NaN) |
| KMeans.DivideAt | src/KMeans.java:73-77 | one round of the division loop settles cluster i and updates largestChange to the maximum so far |
| KMeans.Divide | src/KMeans.java:72-78 | every new centroid shows the next centroids and the members are unchanged; largestChange is the largest movement |
| KMeans.Step | src/KMeans.java:47-78 | one pass yields the model's next centroids and groups, and its largestChange; the clusters and their centroid arrays are new objects (as `new Cluster[k]` and `new Point(nFeatures)` make them) |
| KMeans.Seed | src/KMeans.java:38-41 | cluster i is fresh and starts with a fresh copy of the i-th point of the shuffled order, and no members |
| KMeans.First | src/KMeans.java:46-80 | the first pass starts the loop's history, with new clusters |
| KMeans.Advance | src/KMeans.java:46-82 | a further pass, entered when the loop test held, extends the history by one pass of the model, with new clusters |
| KMeans.Run | src/KMeans.java:43-84 | the do-while loop returns the model's centroids after nIters passes with the last pass's members; nIters is 1, or at most maxIters + 1; the test held after every earlier pass and failed after the last; the clusters and their centroid arrays are new objects |
| KMeans.ScalePoint | src/KMeans.java:28-29 | every feature of the point is multiplied by its factor |
| KMeans.Scale | src/KMeans.java:26-31 | every point of the set, and nothing else, is scaled in place |
| KMeans.Prepare | src/KMeans.java:25-31 | reads the dimension (0 for an empty set); the points' features are the scaled old ones when a scaling array is given, and the old ones otherwise |
| KMeans.Shuffled | src/KMeans.java:36-37 | the shuffled list has the set's size, no repeats, and only members of the set |
| KMeans.Lloyd | src/KMeans.java:33-84 | seeds from the first k shuffled points, then the loop's result as in Run, with new clusters |
| KMeans.Compute | src/KMeans.java:23-85 | `compute(points, k, threshold, maxIters, scaling)`: the optional in-place scaling, seeds the first k points of the shuffle, and returns the model's clusters after nIters passes, with nIters the first count at which the do-while test fails; the returned clusters and their centroid arrays are new objects, so none is a point's feature array |
| KMeans.ComputeUnscaled | src/KMeans.java:90-92 | the 4-argument overload: the same result as Compute, with new clusters and centroid arrays, and no point's features change |
| KMeans.RaiseTo | src/KMeans.java:103-106 | each factor rises to the point's feature when that feature is strictly larger |
| KMeans.Peaks | src/KMeans.java:101-107 | factor i ends as the running maximum of feature i, starting from 0 |
| KMeans.PeakPositive | src/KMeans.java:102-107 | the peak of a feature that some point has positive is positive |
| KMeans.Invert | src/KMeans.java:108-110 | every factor becomes its reciprocal |
| KMeans.ComputeScaling | src/KMeans.java:100-112 | a fresh array with one factor per feature; factor i is 1 over the (positive) largest feature i of the set |

## Left out

- I/O: the `main` methods, `System.out.println(largestChange)` and `toString` are not modelled.
- IEEE-754 doubles: features are Dafny `real`s, so rounding and infinities are not modelled. NaN appears only where the source produces it, as the `Undefined` centroid of an empty k-means cluster.
- Math.sqrt and Math.pow: distances are kept squared, and the threshold comparison is restated on squares (`KMeans.Moved`).
- Collections.shuffle: randomness becomes the parameter `order`, which must be a permutation of the set's points.
- HashSet iteration order: the model fixes one order, the sequence `PointSet.elems`. `PointSet.Add` appends, so it is insertion order, which a real HashSet does not follow. Every loop over the set follows it. Only the order of member lists (clusters' `members`, partitions' `members`) depends on it: which points go where does not.
- Java equality: the HashSet of points uses identity, since Point defines no `equals`. `S.remove(Aj)` in PSA searches a list of partitions, and `Partition.java` is not part of this model; the model removes by identity. Removal by identity matches the source when Partition's `equals` is identity (Object's), or when it compares the member lists (as ArrayList's does) or the dissimilarity. The selection uses a strict `>`, so every earlier entry has a strictly smaller dissimilarity, and therefore different members too (`Seqs.RemoveFirstAt`). An `equals` that compares less, such as only `pj`, could make `remove` drop an earlier entry, and the model does not cover that.
- PointSets.PointSet: `PointSet` extends `HashSet<Point>` and overrides only `add`. The inherited `remove`, `clear`, `removeAll`, `retainAll`, `removeIf` and `iterator().remove()` are not modelled. None of them resets `dimension`, so after `add(p)` then `clear()` the source reports `p.length()` for an empty set. The invariant `Valid`, and with it "dimension -1 exactly when empty", holds only for sets built by the constructor and `add`.
- KMeans.Compute: requires `k <= size` and `k == 0 ==> size == 0`. The source fails with an exception otherwise (`list.get(i)` past the end; `newClusters[0]` on an empty array).
- KMeans.Compute: requires the scaling array to cover the dimension; the source fails on a short scaling array.
- KMeans.Compute: requires the points to own their feature arrays (`Points.OwnArrays`). Every Point constructor allocates a fresh array, and none of the code modelled here shares one. But `features` is a package-private, non-final field, so other code in the package could make two points share an array; the model does not cover scaling through such sharing.
- KMeans.Compute: requires the scaling array not to be the feature array of a point. Otherwise scaling that point would change the factors halfway through, which the model does not cover.
- KMeans.Compute: requires `maxIters < Integer.MAX_VALUE`. `nIters` is a Java `int`: with `maxIters == Integer.MAX_VALUE`, `nIters++` after pass 2147483647 wraps to -2147483648, so `nIters <= maxIters` never fails. With a threshold of 0, `largestChange >= threshold` always holds too, so the source loops forever. Below that bound `nIters` stays at most `maxIters + 1`, so it never wraps. The same bound applies to KMeans.Run, KMeans.Lloyd and KMeans.ComputeUnscaled.
- KMeans.Compute: `k` is a `nat`. The source fails on a negative `k` with NegativeArraySizeException (`new Cluster[k]`).
- Points.Point.Zero: `k` is a `nat`. The source fails on a negative `k` with NegativeArraySizeException (`new double[k]`).
- KMeans.ComputeScaling: requires a non-empty set (the source fails on `new double[-1]`). It also requires a positive value in every feature: otherwise the source divides by zero and stores an infinity, which the model does not represent.
- PSA.PartitionPoints: when `m` does not exceed the size, it requires a non-empty set with at least one feature. For a set built by the constructor and `add`, the source fails with an exception otherwise: an empty set has dimension -1 (`new double[-1]`), and points with no features leave `a[0]` out of bounds. A set emptied through an inherited HashSet method keeps its dimension, and there `partition(points, 0)` returns one empty partition instead; the model does not cover such sets (see PointSets.PointSet).
- PSA.PartitionPoints: the features are related to a ghost snapshot taken at the start. Aliasing between points and a concurrent change of features during partitioning are not modelled.
- Cluster and Partition are modelled from their use: `Cluster.java` and `Partition.java` are not part of this model.
