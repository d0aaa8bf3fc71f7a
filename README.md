# K-medoids engine, sequential model

This project models `kmedoids-parallel.py`, a k-medoids clustering engine that works on a precomputed N×N distance matrix. Each worker-pool dispatch in the program is modelled as a loop over the dispatched tasks, and results are collected in dispatch order. That is the order in which the program reads them with `p.get()`, so the loop has the same semantics. Distances are integers (`seq<seq<int>>`). Labels and medoid indices are naturals.

The engine does the following:

- It picks k initial medoids by farthest-point ("kmedoids++") initialisation, starting from a seed point.
- It labels every point with its nearest medoid.
- It then repeats `kmedoids_iter` until an iteration leaves the labels unchanged, or until `max_iter` iterations have run. Each iteration has two phases:
  1. **Update phase.** With W ≤ K, each cluster's medoid becomes its 1-median, the member with the smallest summed distance to the cluster. With W > K, the split-and-combine choice described below need not give the 1-median.
  2. **Relabelling phase.** The first ⌊N/W⌋·W points get the nearest of the new medoids. When W does not divide N, the last N mod W points keep their old labels.
- The update phase has two branches:
  - With W ≤ K workers, it runs one task per cluster.
  - With W > K workers, it shares the workers among the clusters in proportion to their sizes. Each cluster's rows are cut into contiguous pieces, one per worker, and the pieces' local results are combined.
- Before anything runs, `main` caps the worker count at N.

Modules, one per concern of the program:

| module | file | models |
|---|---|---|
| `Results` | results.dfy | the ways a phase raises (`Error`), and collection of task results in dispatch order |
| `Matrix` | matrix.dfy | `np.sum`, `np.argmin`, `np.argmax`, and sub-matrices |
| `Medoid` | medoid.dfy | `update_medoids`, `np.array_split`, `candidate_medoids_parallel`, and the split-and-combine choice |
| `Assign` | assign.dfy | the initial full nearest-medoid pass, and the batched relabelling of each iteration |
| `Init` | init.dfy | `better_medoids_initialization` |
| `Workers` | workers.dfy | `thread_distribution` for W > K, and the worker cap |
| `Engine` | engine.dfy | `kmedoids_iter`, `kmedoids`, and `main`'s cap, both as functions and as methods on arrays |

Two parts of the program do something other than what they evidently intend (see "## Findings"). `Engine.Variant` therefore has two values:

- `AsWritten` is what the code does. The array-level driver (`KMedoidsIter`, `KMedoids`, `ClusterMain`) uses it.
- `Corrected` is the intended behaviour. The optimality theorem (`Engine.CorrectedConvergedIsLocalOptimum`) is proved for it.

`Engine.VariantsAgree` proves that the two variants give the same run when W ≤ K and W divides N.

In four places the model follows the code where another reading would be natural:

- **Initialisation.** The usual farthest-point rule takes the argmax over the points not yet chosen. The code takes it over all N points, so a point can be chosen twice. `Init.RepeatOnlyWhenCovered` says when this can happen: only if every point is at distance 0 from the points already chosen.
- **Relabelling.** The comments at lines 154-157 intend every point to be relabelled. Each iteration relabels only the first ⌊N/W⌋·W points.
- **Split-and-combine.** The comments at lines 40-43 intend the row with the smallest sum. The code keeps the position of the smallest local index.
- **k = 0.** k ≥ 1 is the intended precondition. The code with k = 0 still returns the seed point as the one medoid (`range(-1)` is empty), and the model does the same (`Init.MedoidCount`).

Errors are modelled as values (`Results.Error`):

| error | raised when |
|---|---|
| `EmptyArgMin` | `np.argmin` of an empty array: an empty cluster, or an empty piece of a split cluster |
| `NoSections` | `np.array_split` into zero pieces |
| `NoWorkers` | `mp.Pool(processes=0)` |

## Model

| member | source | states |
|---|---|---|
| Results.Collect | kmedoids-parallel.py:95-97 | Collecting task results in dispatch order succeeds exactly when every task succeeds, and then lists their values in order. A failure yields the error of the first failing task. |
| Results.CollectFirstError | kmedoids-parallel.py:95-97 | When task i is the first to fail, the collection fails with task i's error. |
| Matrix.ArgMin | kmedoids-parallel.py:34 | `np.argmin`: an index of a smallest element, and the first one among ties. |
| Matrix.ArgMinIs | kmedoids-parallel.py:34 | Any index that is a first smallest element is the argmin, so the argmin is unique. |
| Matrix.ArgMax | kmedoids-parallel.py:63 | `np.argmax`: an index of a largest element, and the first one among ties. |
| Matrix.ArgMaxIs | kmedoids-parallel.py:63 | Any index that is a first largest element is the argmax. |
| Matrix.SubMatrix | kmedoids-parallel.py:30 | `distmat[cluster][:, cluster]` is a square matrix of the cluster's size. |
| Matrix.RowSums | kmedoids-parallel.py:34 | `np.sum(..., axis=1)`: entry i is the sum of row i. |
| Medoid.Members | kmedoids-parallel.py:29 | `np.where(labels == i)[0]`: every listed index is a point with label i. |
| Medoid.MembersSortedComplete | kmedoids-parallel.py:29 | The member list is strictly increasing, and it contains every point with label i. |
| Medoid.MembersNonEmpty | kmedoids-parallel.py:29 | A cluster has members exactly when some point carries its label. |
| Medoid.RowSumIsCost | kmedoids-parallel.py:30-34 | Row j of the cluster's sub-matrix sums to the summed distance from member j to the whole cluster. |
| Medoid.UpdateMedoid | kmedoids-parallel.py:29-34 | `update_medoids` succeeds exactly when the cluster is non-empty, and fails with `EmptyArgMin` otherwise. On success it returns a point of that cluster. |
| Medoid.UpdateMedoidMinimises | kmedoids-parallel.py:29-34 | The returned medoid's summed distance to its cluster is at most that of any member. It is strictly less than that of every member with a smaller index, so ties go to the first member. |
| Medoid.UpdateMedoidOptimal | kmedoids-parallel.py:34 | The member at the argmin of the row sums is a 1-median of the cluster, and the first one by point index. |
| Medoid.ArraySplit | kmedoids-parallel.py:139-140 | `np.array_split(rows, m)` gives m contiguous pieces. The first n mod m pieces have ⌊n/m⌋+1 rows and the others ⌊n/m⌋. |
| Medoid.PieceStartEnd | kmedoids-parallel.py:139-140 | The m pieces end exactly at the last row, so together they cover every row. |
| Medoid.PieceContaining | kmedoids-parallel.py:139-140 | Every row lies in one of the m pieces. |
| Medoid.PiecesNonEmpty | kmedoids-parallel.py:139-140 | Every piece is non-empty exactly when there are at least as many rows as pieces. |
| Medoid.CandidateMedoid | kmedoids-parallel.py:37-45 | `candidate_medoids_parallel` succeeds exactly when its piece is non-empty. Its result is a local row index whose sum is minimal in the piece, the first such row. |
| Medoid.Candidates | kmedoids-parallel.py:142-143 | The local candidates of all pieces, in piece order. This succeeds exactly when no piece is empty. |
| Medoid.ClusterPieces | kmedoids-parallel.py:137-140 | The cluster's sub-matrix in m pieces. All of them are non-empty exactly when the cluster has at least m members. |
| Medoid.SplitChoice | kmedoids-parallel.py:137-145 | The choice as written succeeds exactly when 1 ≤ m ≤ cluster size. It then returns `cluster[j]` for some j < m, which is a point of the cluster. |
| Medoid.SplitChoiceMissesMedoid | kmedoids-parallel.py:144-145 | On a four-point cluster split in two, the choice as written returns point 0 (summed distance 15). `update_medoids` returns point 2 (summed distance 7). |
| Medoid.IntendedSplitChoice | kmedoids-parallel.py:137-145 | The corrected combine maps each piece's candidate to its cluster row and keeps the one with the smallest row sum. It succeeds under the same condition and then equals `update_medoids`. |
| Medoid.CombineLocalArgMins | kmedoids-parallel.py:142-145 | Contiguous pieces cover all rows, and each piece reports its first local minimum. Mapping those candidates back to rows and keeping the smallest value (the earliest piece among ties) gives the global first argmin. |
| Medoid.ClusterCandidates | kmedoids-parallel.py:142-143 | Each piece's local candidate is, in the whole cluster, the first smallest row sum within that piece. |
| Assign.MedoidDistances | kmedoids-parallel.py:187 | `distmat[p, medoids]`, as used by the full pass and by the batched pass at line 164: entry c is the distance from p to medoid c. |
| Assign.NearestMedoid | kmedoids-parallel.py:187 | `np.argmin(distmat[p, medoids])` is a nearest medoid of p, the lowest cluster index among ties. |
| Assign.NearestUnique | kmedoids-parallel.py:187 | The first-nearest label is unique. |
| Assign.InitialLabels | kmedoids-parallel.py:185-187 | The initial pass gives every point a label in [0, number of medoids) that names a first-nearest medoid. |
| Assign.NearestLabels | kmedoids-parallel.py:185-187 | Any labelling that names a first-nearest medoid for every point is the initial pass's labelling. |
| Assign.InitialAssignment | kmedoids-parallel.py:185-187 | The loop over all points fills a new array with the initial labels. |
| Assign.Relabelled | kmedoids-parallel.py:161-166 | The batched pass as written gives the first ⌊N/W⌋·W points their nearest medoid, and the other points keep their old label. |
| Assign.Relabel | kmedoids-parallel.py:161-166 | The nested batch loop rewrites the labels array in place to the batched pass's result. |
| Assign.Covered | kmedoids-parallel.py:161 | The ⌊N/W⌋ full batches never run past the last point, and they leave fewer than W points out. |
| Assign.CoveredBounds | kmedoids-parallel.py:161 | With W ≤ N at least one full batch runs. |
| Assign.BatchFits | kmedoids-parallel.py:161-165 | Batch i lies inside the array. |
| Assign.RelabelFullWhenDivides | kmedoids-parallel.py:161-166 | When W divides N, the batched pass equals the full pass. |
| Assign.RelabelKeepsNearest | kmedoids-parallel.py:161-166 | Labels that already name every point's nearest medoid are not changed. |
| Assign.RelabelIdempotent | kmedoids-parallel.py:161-166 | Running the batched pass again with the same medoids changes nothing. |
| Assign.RelabelNeverFarther | kmedoids-parallel.py:161-166 | The batched pass never moves a point to a farther medoid. |
| Assign.RelabelSkipsTail | kmedoids-parallel.py:161-166 | Three points, medoids 0 and 2, W = 2: point 2 is a medoid, yet the batched pass leaves it in cluster 0. |
| Init.MedoidCount | kmedoids-parallel.py:59-60 | The initialisation returns at least one medoid, and exactly k when k ≥ 1. |
| Init.MinDistance | kmedoids-parallel.py:61-62 | `np.min(distmat[:, medoids], axis=1)` at p is at most the distance from p to every chosen medoid. |
| Init.MinDistanceIsClosest | kmedoids-parallel.py:61-62 | That minimum is the distance from p to one of the chosen medoids. |
| Init.ClosestDistances | kmedoids-parallel.py:61-62 | One closest-medoid distance per point, for all N points. |
| Init.Farthest | kmedoids-parallel.py:61-63 | The appended point has the largest closest-medoid distance over all N points, the lowest index among ties. |
| Init.FarthestPoints | kmedoids-parallel.py:59-64 | The initialisation returns k medoids (one when k = 0), and each is a point. The first is the seed point. |
| Init.FarthestPointsSteps | kmedoids-parallel.py:60-63 | Every medoid after the first is the farthest point from the medoids before it. |
| Init.FarthestPointsNext | kmedoids-parallel.py:60-63 | One more round of the loop appends the farthest point from the medoids so far. |
| Init.BetterMedoidsInitialization | kmedoids-parallel.py:59-64 | The loop that grows the medoid list with `np.append` returns the farthest-point medoids. |
| Init.ChosenAtZero | kmedoids-parallel.py:61-62 | With non-negative distances and a zero diagonal, closest-medoid distances are non-negative, and a chosen point's is 0. |
| Init.RepeatOnlyWhenCovered | kmedoids-parallel.py:61-63 | The farthest point is an already chosen one only if every point is at distance 0 from the chosen set. |
| Init.DistinctWhenSeparated | kmedoids-parallel.py:59-64 | When distinct points are at positive distance and k ≤ N, the medoids are pairwise distinct. |
| Workers.Sizes | kmedoids-parallel.py:121-122 | Entry c is the number of points labelled c. |
| Workers.SizesSum | kmedoids-parallel.py:121-123 | When every label is a cluster index, the cluster sizes add up to N. |
| Workers.Share | kmedoids-parallel.py:123-125 | Cluster c's proportional share of the W − K extra workers, computed in integers. It is never negative. |
| Workers.ShareIsFloor | kmedoids-parallel.py:123-125 | The share is size·(W−K)/N rounded down. |
| Workers.BaseShares | kmedoids-parallel.py:124-125 | `np.ones(K) + shares`: entry c is 1 plus cluster c's share. |
| Workers.QuotientBounds | kmedoids-parallel.py:123-125 | The truncated proportional shares lose less than one worker per cluster. |
| Workers.LeftoverBounds | kmedoids-parallel.py:127-128 | The leftover W − Σ(1 + share) lies in [0, K). |
| Workers.DescendingOrder | kmedoids-parallel.py:113-114 | The order of `argsort(sizes)[::-1]` holds each cluster index exactly once. |
| Workers.DescendingOrderSorted | kmedoids-parallel.py:113-114 | That order runs from the largest cluster to the smallest. |
| Workers.SortedIsDistinct | kmedoids-parallel.py:113-114 | A descending order has no repeated cluster. |
| Workers.InsertSorted | kmedoids-parallel.py:113-114 | Inserting a cluster into a descending order keeps it descending. |
| Workers.Bump | kmedoids-parallel.py:127-128 | `td[idx] += 1`: each listed cluster gains exactly one worker, and a cluster listed twice also gains one, as numpy's fancy-index increment does. The others are unchanged. |
| Workers.SumBump | kmedoids-parallel.py:127-128 | Adding one at distinct positions raises the total by the number of positions. |
| Workers.TopClusters | kmedoids-parallel.py:127-128 | The clusters that get a leftover worker number fewer than K, and together with the base shares they account for all W workers. |
| Workers.TopClustersDistinct | kmedoids-parallel.py:127-128 | No cluster gets two leftover workers. |
| Workers.ThreadDistribution | kmedoids-parallel.py:121-128 | `thread_distribution`: one worker count per cluster. Its total, bounds and order are the three ThreadDistribution lemmas. |
| Workers.ThreadDistributionTotal | kmedoids-parallel.py:121-128 | `sum(thread_distribution) == W`. |
| Workers.ThreadDistributionShares | kmedoids-parallel.py:124-128 | Every cluster gets at least one worker. It gets 1 + share or 2 + share, where share is ⌊size·(W−K)/N⌋. |
| Workers.ThreadDistributionLargestFirst | kmedoids-parallel.py:113-128 | A cluster that gets a leftover worker is at least as large as one that does not. |
| Workers.AllocateThreads | kmedoids-parallel.py:124-128 | The array of ones plus shares, with the leftover added in place, is the thread distribution. |
| Workers.CapWorkers | kmedoids-parallel.py:233-234 | The capped count is min(W, N): at most both, one of the two, and W itself when W ≤ N. |
| Engine.ClusterWorkers | kmedoids-parallel.py:121-128 | Each of the K clusters gets at least one worker. |
| Engine.SplitMedoid | kmedoids-parallel.py:137-145 | A split cluster's medoid succeeds exactly when 1 ≤ m ≤ cluster size, and it is a point of the cluster. If corrected, it equals `update_medoids`. |
| Engine.MedoidTasks | kmedoids-parallel.py:95-96 | The dispatched task list: task c is `update_medoids` of cluster c, for c < K. |
| Engine.ClusterTasks | kmedoids-parallel.py:94-97 | The W ≤ K branch succeeds exactly when no cluster is empty. It then returns K medoids, medoid c being `update_medoids` of cluster c. |
| Engine.MedoidTasksOkOnlyIf | kmedoids-parallel.py:95-97 | If collecting the per-cluster tasks succeeds, no cluster is empty. |
| Engine.MedoidTasksOkIf | kmedoids-parallel.py:95-97 | If no cluster is empty, collecting the per-cluster tasks succeeds. |
| Engine.SplitMedoidTasks | kmedoids-parallel.py:142-145 | The per-cluster results of the W > K loop: entry c is cluster c's split choice with its thread count. |
| Engine.SplitTasks | kmedoids-parallel.py:134-145 | The W > K branch succeeds exactly when every cluster has at least as many members as workers. Medoid c is then cluster c's split choice. |
| Engine.SplitTasksOkOnlyIf | kmedoids-parallel.py:134-145 | If the split choices all succeed, every cluster has at least as many members as workers. |
| Engine.SplitTasksOkIf | kmedoids-parallel.py:134-145 | If every cluster has at least as many members as workers, the split choices all succeed. |
| Engine.UpdatePhase | kmedoids-parallel.py:90-146 | A successful update phase returns a medoid per cluster that is a point of that cluster, and leaves entries beyond K unchanged. |
| Engine.UpdatePhaseSucceeds | kmedoids-parallel.py:90-146 | The update phase fails exactly when a cluster is empty (W ≤ K), or has fewer members than workers (W > K). |
| Engine.UpdatePhaseOptimal | kmedoids-parallel.py:90-100 | With W ≤ K, or when corrected, every new medoid is a 1-median of its cluster. |
| Engine.UpdatePhaseIgnoresMedoids | kmedoids-parallel.py:90-146 | The update phase depends on the old medoids only beyond position K. |
| Engine.Relabelling | kmedoids-parallel.py:153-166 | The relabelling gives a label naming a medoid to every point. As written, it gives the nearest medoid to the first ⌊N/W⌋·W points and leaves the rest unchanged. Corrected, every point gets its nearest medoid. |
| Engine.Step | kmedoids-parallel.py:79-169 | `kmedoids_iter` fails with `NoWorkers` when W = 0. On success its medoids and labels are again valid. |
| Engine.StepUnchangedLabels | kmedoids-parallel.py:86-169 | An iteration that keeps the labels gives a fixed point: repeating it returns the same medoids and labels. |
| Engine.Iterate | kmedoids-parallel.py:192-203 | The main loop's result, when it succeeds, has valid medoids and labels. |
| Engine.IterateOnce | kmedoids-parallel.py:192-203 | One round of the loop calls `kmedoids_iter` once. It stops with `converged` when the labels equal `labels_old`, fails with that call's error, or continues with one round fewer. |
| Engine.Run | kmedoids-parallel.py:172-211 | A successful run returns MedoidCount(k) medoids, all points, and one valid label per point. |
| Engine.Calls | kmedoids-parallel.py:192-203 | The loop calls `kmedoids_iter` at most `max_iter` times, and at least once when `max_iter` > 0. |
| Engine.RunCalls | kmedoids-parallel.py:192-203 | A whole run calls `kmedoids_iter` at most `max_iter` times, and at least once when `max_iter` > 0. |
| Engine.CallsOnce | kmedoids-parallel.py:192-203 | Each round counts one call, and the count stops at the first call that fails or leaves the labels unchanged. |
| Engine.UnconvergedUsesAllCalls | kmedoids-parallel.py:192-210 | A run that ends without converging made exactly `max_iter` calls. |
| Engine.ConvergedHasFuel | kmedoids-parallel.py:192-203 | Convergence needs at least one iteration. |
| Engine.ConvergedNext | kmedoids-parallel.py:196-203 | A successful loop's first iteration succeeded. Either its labels equal the old ones and the loop stopped there with `converged`, or the loop continued from its result. |
| Engine.ConvergedIsFixedPoint | kmedoids-parallel.py:196-203 | A converged run ends in a fixed point of `kmedoids_iter`. |
| Engine.AsWrittenFixedPoint | kmedoids-parallel.py:79-169 | At a fixed point of the program's iteration, the covered points carry their nearest medoid and every medoid lies in its own cluster. With W ≤ K every medoid is also a 1-median of its cluster. |
| Engine.AsWrittenConverged | kmedoids-parallel.py:172-211 | A converged run of the program has the fixed-point properties just stated (it also implies W > 0). |
| Engine.CorrectedConvergedIsLocalOptimum | kmedoids-parallel.py:172-211 | A converged corrected run labels every point with its nearest medoid, and every medoid is a 1-median of its own cluster. |
| Engine.VariantsAgreeIterate | kmedoids-parallel.py:161-166 | With W ≤ K and W dividing N, the loop as written and the corrected loop agree from any state. |
| Engine.VariantsAgree | kmedoids-parallel.py:172-211 | With W ≤ K and W dividing N, the program's run equals the corrected run. |
| Engine.SingleCluster | kmedoids-parallel.py:172-211 | With one cluster and one worker, a run converges at once. Every label is 0, and the medoid is a 1-median of all points. |
| Engine.SingleClusterStep | kmedoids-parallel.py:79-169 | With one cluster and one worker, one iteration keeps the labels and picks a 1-median. |
| Engine.TwoPairsScenario | kmedoids-parallel.py:172-211 | Four points in two well-separated pairs, k = 2, one worker, seed point 0: the run converges with labels [0, 0, 1, 1] and medoids [0, 2]. |
| Engine.TwoPairsStep | kmedoids-parallel.py:79-169 | In that scenario the first iteration moves medoid 3 to medoid 2 and keeps the pairs. |
| Engine.TwoPairsInitialisation | kmedoids-parallel.py:59-64 | In that scenario the initialisation picks points 0 and 3, and the initial labels are the pairs. |
| Engine.PairMedoid | kmedoids-parallel.py:29-34 | A two-point cluster whose row sums tie has its lower index as medoid. |
| Engine.TwoClustersTasks | kmedoids-parallel.py:94-97 | With two clusters the W ≤ K branch returns the two `update_medoids` results. |
| Engine.SplitChoiceRunExample | kmedoids-parallel.py:137-145 | Four points, one cluster, two workers. The program's run converges at once on medoid 0 (summed distance 15). The corrected run converges on medoid 2 (summed distance 7). |
| Engine.SplitChoiceRaisesCost | kmedoids-parallel.py:144-145 | From seed point 2, which is already the 1-median (summed distance 7), the program's run moves the medoid to point 0 (summed distance 15) and converges there. |
| Engine.KMedoidsIter | kmedoids-parallel.py:79-169 | On arrays: `labels_old` is a fresh copy of the labels on entry. On success the medoids and the in-place relabelled labels are the iteration's result. On failure the error is reported, and the labels are untouched. With 0 < W ≤ K the returned medoids array is new, and with W ≤ K the caller's medoids array is left unchanged; with W > K it is the caller's array. |
| Engine.CopyLabels | kmedoids-parallel.py:86 | `labels.copy()` is a fresh array with the same contents. |
| Engine.UpdateMedoids | kmedoids-parallel.py:89-147 | The update phase on arrays gives the update phase's medoids, or reports its error. With W ≤ K the returned array is new and the caller's medoids array is left unchanged. With W > K it is the old array, overwritten in place. |
| Engine.MedoidsByCluster | kmedoids-parallel.py:94-97 | One task per cluster, collected into a new array, or the error of the first failing task. |
| Engine.MedoidsBySplit | kmedoids-parallel.py:133-146 | The cluster-by-cluster loop writes each split choice into `medoids[c]` and leaves later entries as they were. It stops at the first failing cluster. |
| Engine.OverwriteInOrder | kmedoids-parallel.py:134-145 | Writing `medoids[c]` for c = 0 .. K−1 in turn gives the collected choices followed by the untouched tail, or the first choice's error. |
| Engine.KMedoids | kmedoids-parallel.py:172-211 | The loop with its `converged` flag and early `break` returns the run's medoids, labels and convergence flag, or its error. It counts the `kmedoids_iter` calls made, at most `max_iter`. |
| Engine.ClusterMain | kmedoids-parallel.py:232-241 | `main` runs the clustering with the worker count capped at N. |
| Engine.CappedCoverage | kmedoids-parallel.py:233-234 | After the cap, 0 < W ≤ N. So each relabelling pass covers at least one full batch and leaves fewer than W points out. |

## Left out

- Multiprocessing (`mp.Pool`, `apply_async`, `get`, `close`). Each dispatch is a loop over its tasks in dispatch order, which gives the same result because results are read in that order.
- Argument parsing, reading the distance matrix, `available_cpu`, verbose printing, timing and saving the results: these are I/O. `modules.util` (`parse_args`, `read_distmat`, `input_validation`, `available_cpu`, `printvb`) is not part of this model. So no check of the matrix's shape, symmetry or diagonal, and no check of k against N, is modelled. The lemmas that need such facts state them as preconditions.
- Random numbers: the point drawn by `np.random.randint` after seeding becomes the `seed` parameter (the seed point). `medoids_initialization` (`random.sample`) is not modelled, because `kmedoids` never calls it.
- Workers.Share: it models `cluster_size / np.sum(cluster_size) * (W − K)` truncated to `int32` as the exact quotient ⌊size·(W−K)/N⌋ (`Workers.ShareIsFloor`). Floating-point rounding could differ by one at exact multiples.
- Workers.DescendingOrder: `np.argsort` is not a stable sort. The model fixes one order (reversed stable order, so among equal sizes the higher index comes first). The contracts about the allocation rely only on "each cluster once, sorted by size, largest first" (`Workers.DescendingOrderSorted`, `Workers.ThreadDistributionLargestFirst`).
- Integer widths: labels are `int32` and indices are `int64` in the program. The model uses unbounded naturals, since all values stay below N.
- Engine.KMedoidsIter: on a failure inside the W > K branch, medoid entries before the failing cluster have already been overwritten. The contract reports the error but not those partial writes. The program raises at that point and returns nothing.
- Engine.Run: it has no cost-monotonicity statement. The relabelling never moves a point to a farther medoid (`Assign.RelabelNeverFarther`). With W ≤ K, or with the corrected choice, each new medoid minimises its cluster's summed distance (`Engine.UpdatePhaseOptimal`). The model does not assume a symmetric matrix, so that summed distance (`Medoid.ClusterCost`, a row sum) is not the assignment cost, and the two facts are not combined. As written, the split-and-combine choice can raise the cost (`Engine.SplitChoiceRaisesCost`).
- The model assumes N ≥ 1 (`seed < |d|`) and non-negative cluster, worker and iteration counts (`nat`). With N = 0, `np.random.randint(0)` at line 59 raises. A negative `num_clusters` gets through initialisation (its `range` is empty) and then makes `np.ones(num_clusters)` at line 124 raise in the W > K branch. A negative `num_thread` makes `mp.Pool` raise, and a negative `max_iter` gives an empty loop. None of these cases is modelled.
- Exceptions end the program. The model returns them as `Error` values with a `Failed` status instead.

## Findings

| source | as written | input that shows it | evidently intended | confidence | as-written member | corrected member |
|---|---|---|---|---|---|---|
| kmedoids-parallel.py:144-145 | `medoids[k] = cluster[argmin(local candidates)]`. This takes the position j of the smallest local row index among the pieces and uses it as a position in the whole cluster. | d = [[0,5,5,5],[5,0,1,9],[5,1,0,1],[5,9,1,0]], K = 1, W = 2, seed point 0. Both pieces report local index 0, so the medoid stays at point 0 (summed distance 15), while point 2 has 7. | Map each piece's local index to its cluster row and keep the candidate with the smallest row sum, which gives `update_medoids`' result. | not executed | Medoid.SplitChoiceMissesMedoid, Engine.SplitChoiceRunExample, Engine.SplitChoiceRaisesCost | Medoid.IntendedSplitChoice, with Engine.SplitMedoid (Corrected) |
| kmedoids-parallel.py:161-166 | The loop over `floor(N / W)` batches relabels only the first ⌊N/W⌋·W points. The last N mod W points keep their old labels. | d = [[0,1,5],[1,0,5],[5,5,0]], medoids [0, 2], labels [0, 0, 0], W = 2. Point 2 is medoid 1, but it stays in cluster 0. | Relabel every point with its nearest medoid, as the initial pass does. | not executed | Assign.RelabelSkipsTail, with Assign.Relabelled | Assign.InitialLabels, with Engine.Relabelling (Corrected) and Engine.CorrectedConvergedIsLocalOptimum |
