# k-means clustering engine

A Dafny model of the clustering engine of `program.cpp`: Lloyd's k-means with
Forgy seeding over a cloud of points of fixed dimension.

- `Points` (`points.dfy`) — the `Point` class: an identifier, a coordinate
  vector and a name that never change, and a mutable cluster tag that starts
  at `-1` (`Unassigned`). A cluster stores points by value, so `PointCopy` is
  the datatype of such a copy and `Point.Copy` takes one.
- `Clusters` (`clusters.dfy`) — the `Cluster` class: an identifier, a centroid
  (`seq<real>`) and the list of member copies, with `AddPoint` (append) and
  `RemovePoint` (erase the first member with a given identifier). The
  first-match erase is specified by the functions `IndexOfId` and `RemoveFirst`.
- `Geometry` (`geometry.dfy`) — squared Euclidean distance and `Nearest`, the
  index the source's scan over the centroids keeps: a later centroid replaces
  the best so far only when strictly nearer, so ties go to the lowest index.
- `Means` (`means.dfy`) — the per-coordinate mean of a member list and
  `Recomputed`, the centroid after one recomputation (the mean, or the old
  centroid for an empty cluster), with the facts that the mean does not depend
  on the order of the members and lies between their extremes.
- `Partition` (`partition.dfy`) — `Consistent`: each cluster's member list is,
  as a multiset, exactly the points whose tag names that cluster; lemmas that
  each seeding step and each move of the assignment pass keep it.
- `KMeansEngine` (`kmeans.dfy`) — the `KMeans` class: `GetIDNearestCenter`,
  the seeding loop, the assignment pass, the centroid update and the main loop,
  each a method over the objects whose contract ties the new state to a ghost
  function on values (`SeedFrom`, `PassUpTo`, `RecomputedAll`), and lemmas that
  state what those functions guarantee.

The main loop is specified on values by `Lloyd1` (one iteration: a pass, then
the centroids recomputed, with the pass's `done` flag), `Lloyd` (`n`
iterations) and `LloydDone` (the flag of iteration `m`). `Iterate` and `Run`
return the ghost trace of the states and flags the loop went through;
`LoopIsLloyd` identifies that trace with `Lloyd` and `LloydDone` from the
seeded state, and `FirstStopUnique` shows that the stopping rule (first pass
that changed no tag, or the cap) leaves only one possible iteration count.

Coordinates are exact `real`s and distances are compared squared: the source's
`sqrt` is monotone, so it selects the same centroid. The `rand()` draw of the
seeding loop is a nondeterministic choice among the indices not yet picked
(`FreeIndex` proves one exists while fewer than `k` are picked), which is the
outcome of the source's reject-and-retry loop whenever it ends.

`Run` requires `k >= 1`, an engine with no clusters yet, one `Point` object per
index, distinct point identifiers, `totalValues` coordinates per point and
every point unassigned: the state in which the program's `main` calls it (it
numbers the points `0 .. n-1` and builds them fresh).

Two behaviours of the code worth knowing:

- A count of clusters below 1 is not rejected by the code: with at least one
  point, the assignment pass would read `clusters[0]` of an empty vector (with
  no points the loops do not run and the run stops after one iteration). The
  model requires `k >= 1`.
- When `k` equals the number of points, a point that has the same coordinates
  as the seed of a lower-numbered cluster is reassigned on the first pass to
  the lowest-numbered cluster whose seed it coincides with (ties go to the
  lowest index), so the run need not converge in one pass with singleton
  clusters. `Geometry.TieGoesToFirst` exhibits the tie.

## Model

| member | source | states |
|---|---|---|
| `Points.Point.constructor` | program.cpp:40-50 | a new point keeps its identifier, coordinates and name, has as many values as it was given, and is unassigned (`-1`) |
| `Points.Point.SetCluster` | program.cpp:57-60 | retagging sets the cluster tag |
| `Clusters.Cluster.constructor` | program.cpp:97-107 | a new cluster has the given identifier, its centroid is the seed's coordinates and its members are exactly `[seed]` |
| `Clusters.Cluster.AddPoint` | program.cpp:109-112 | the copy is appended at the end; the centroid is untouched |
| `Clusters.Cluster.RemovePoint` | program.cpp:114-127 | returns true iff some member has the identifier; then exactly the first such member is erased and the others keep their order; otherwise the members are unchanged; the centroid is untouched |
| `Clusters.Cluster.SetCentralValue` | program.cpp:134-137 | exactly one centroid coordinate is overwritten; the members are untouched |
| `Clusters.IndexOfId` | program.cpp:118-125 | the position found is the first member with the identifier, or the length when there is none |
| `Clusters.RemoveFirstCount` | program.cpp:114-127 | erasing lowers the count of the identifier by one when present and leaves every other identifier's count unchanged |
| `Clusters.RemoveFirstMultiset` | program.cpp:114-127 | when the identifier is present, erasing removes exactly that member from the multiset of members |
| `Geometry.SqDist` | program.cpp:169-175 | a squared distance is never negative |
| `Geometry.NearestAmongIsLowest` | program.cpp:177-195 | the scan keeps a centroid at least as near as every centroid scanned and strictly nearer than every one before it |
| `Geometry.NearestIsLowestNearest` | program.cpp:164-198 | the nearest index is a closest centroid with every lower index strictly farther, and it is the only index with that property |
| `Geometry.TieGoesToFirst` | program.cpp:177-195 | when centroids `a < b` coincide, no point is ever assigned to `b`: the scan keeps the lower index |
| `KMeansEngine.SumSquares` | program.cpp:169-173 | the loop's running sum is the squared distance between centroid and point |
| `KMeansEngine.KMeans.GetIDNearestCenter` | program.cpp:164-198 | the result is in `[0, k)`, no centroid is strictly nearer and every lower index is strictly farther |
| `KMeansEngine.KMeans.constructor` | program.cpp:201-207 | the engine keeps its four parameters and has no clusters |
| `KMeansEngine.KMeans.Seed` | program.cpp:214-233 | `k` pairwise-distinct indices in `[0, totalPoints)` are picked, and the points, members and centroids are those of seeding them in order |
| `KMeansEngine.KMeans.AddSeed` | program.cpp:226-229 | one seed is tagged with the next cluster index and a new cluster holding only it is appended |
| `KMeansEngine.KMeans.SeedFromSeeded` | program.cpp:214-233 | after seeding, the `t`-th seed is tagged `t`, is the only member and the centroid of cluster `t`, every point not picked stays `-1`, and tags agree with member lists |
| `KMeansEngine.KMeans.SeedDone` | program.cpp:214-235 | after `k` seeds the run's state is a partition with every centroid equal to the mean of its members |
| `KMeansEngine.FreeIndex` | program.cpp:219-231 | while fewer than `n` indices are picked, some index below `n` is still free, so the retry loop can succeed |
| `KMeansEngine.KMeans.AssignPass` | program.cpp:242-256 | the pass leaves points, members and the `done` flag as `PassUpTo` describes, with the centroids unchanged |
| `KMeansEngine.KMeans.AssignOne` | program.cpp:244-255 | one point is moved to its nearest centroid when its tag differs; `changed` holds exactly when its tag changed, and the pass's `done` flag survives only if it did not |
| `KMeansEngine.KMeans.MovePoint` | program.cpp:247-255 | a moving point is erased from its old cluster (if any), retagged, and appended to the new one; centroids unchanged |
| `KMeansEngine.KMeans.PlaceIn` | program.cpp:252-253 | the point is retagged and its copy appended to the new cluster |
| `KMeansEngine.KMeans.EraseFrom` | program.cpp:249-250 | only the old cluster's member list changes, by the first-match erase |
| `KMeansEngine.KMeans.AppendTo` | program.cpp:253 | only the new cluster's member list changes, by an append |
| `KMeansEngine.KMeans.PassResult` | program.cpp:242-256 | after a pass every point is tagged with its nearest centroid (a tag in `[0, k)`), membership is still a partition, `done` holds iff no tag changed, and when done no member list changed |
| `KMeansEngine.KMeans.PassUpToFixed` | program.cpp:242-256 | a pass from a state where every point already carries its nearest centroid changes no tag and no member list |
| `KMeansEngine.KMeans.RecomputeCluster` | program.cpp:261-272 | a non-empty cluster's centroid becomes the per-coordinate mean of its members; an empty cluster's centroid is unchanged; members untouched |
| `KMeansEngine.KMeans.UpdateCentroids` | program.cpp:259-273 | every cluster's centroid is recomputed from its members, and nothing else changes |
| `KMeansEngine.KMeans.Iteration` | program.cpp:239-273 | one loop body: after it every point is tagged with its nearest centroid as they were during the pass, the state is still a partition, every centroid is the mean of its members, `done` holds iff no tag changed, and when done the centroids did not move and every point is at its nearest centroid; the run's trace grows by exactly this iteration (`Lloyd1` of the state before) |
| `KMeansEngine.KMeans.Iterate` | program.cpp:235-282 | the loop runs between 1 and `maxIterations` iterations (1 when `maxIterations < 1`); its ghost trace starts at the seeded state and ends at the final one, each step one iteration; `converged` is the flag of the last pass and no earlier pass had it set, so the loop stopped at the first pass that changed no tag, or at the cap; every point is tagged with its nearest centroid among those of the last pass, and the final centroids are the means of the final members |
| `KMeansEngine.KMeans.Run` | program.cpp:209-282 | more clusters than points: nothing changes; otherwise `k` distinct seeds are picked and the trace runs from their seeding to the final state, with `converged` the last pass's flag and no earlier pass's flag set; the run finishes with every point tagged in `[0, k)` with its nearest centroid among those of the last pass (ghost result `lastCents`), membership a partition, every centroid the recomputed mean of its members, and on convergence every point at its nearest final centroid |
| `KMeansEngine.KMeans.SeedRun` | program.cpp:214-233 | seeding fresh points picks `k` distinct indices and leaves the state of seeding them, a partition with every centroid the mean of its one member |
| `KMeansEngine.KMeans.TagsInRange` | program.cpp:242-256 | once every point is tagged with its nearest of `k` centroids, every tag is in `[0, k)` |
| `KMeansEngine.TraceIsLloyd` | program.cpp:237-282 | a trace is the run from its first state: its last state is `Lloyd` after that many iterations and each flag is `LloydDone` of its iteration |
| `KMeansEngine.LoopIsLloyd` | program.cpp:235-282 | the loop's trace, stopped at its first set flag or at the cap, ends at `Lloyd(seeded, iterations)`, its last pass used `LastCentroids(seeded, iterations)`, `converged == LloydDone(seeded, iterations)`, and no earlier iteration was done |
| `KMeansEngine.FirstStopUnique` | program.cpp:275-281 | the stopping rule fixes the iteration count: the first iteration whose pass changed no tag, or the cap, whichever comes first |
| `Means.MeanPermutation` | program.cpp:268-270 | the mean of a coordinate does not depend on the order the members were added in |
| `Means.MeanBounds` | program.cpp:268-270 | the mean lies between the least and the greatest member coordinate |
| `Means.RecomputedSingleton` | program.cpp:97-107 | a cluster holding only its seed has the seed as its mean |
| `Means.RecomputedAllStable` | program.cpp:259-273 | after one recomputation no centroid would move again; centroids are stable iff recomputation leaves them unchanged |
| `Partition.SeedKeepsConsistent` | program.cpp:226-229 | tagging an unassigned point with a new cluster that holds only it keeps tags and member lists in agreement |
| `Partition.MoveKeepsConsistent` | program.cpp:247-255 | the erase always finds the moving point in its old cluster, and the move keeps tags and member lists in agreement |
| `Partition.PartitionById` | program.cpp:242-256 | with distinct identifiers, each point's identifier occurs exactly once in the cluster its tag names and in no other |
| `Partition.MemberIsPoint` | program.cpp:94 | every member of a cluster is a copy of a point tagged with that cluster |
| `Partition.RecomputedTagged` | program.cpp:259-273 | recomputing from the member list gives the same centroid as recomputing from the points tagged with the cluster |

## Left out

- Reading the point file, the command line and the usage message of `main`
  (program.cpp:315-406): input and argument handling.
- Printing the iteration at which the loop broke and the final report of
  clusters and centroids (program.cpp:277, 284-310): output only.
- `srand(time(NULL))` and `rand()`: replaced by a nondeterministic choice of an
  index not yet picked. The source's retry loop has no termination guarantee
  under real randomness; the model takes the draw that ends it.
- Floating-point rounding of `pow`, `sqrt` and the division of the mean:
  coordinates are exact reals, so ties that rounding would create or break are
  not modelled.
- `Point::addValue` (program.cpp:77-80): unused by the engine; it would append
  a coordinate without updating `total_values`.
- The one-line getters (`getID`, `getCluster`, `getValue`, `getTotalValues`,
  `getName`, `getCentralValue`, `getPoint`, `getTotalPoints`) are modelled as
  functions without contracts of their own.
- `KMeansEngine.KMeans.Run`: requires `k >= 1`; with `K <= 0` the source reads
  an empty vector of clusters as soon as there is a point, which has no
  meaning to model.
- `KMeansEngine.KMeans.Run`: stated for the first call on fresh points with
  distinct identifiers; a second call on the same engine (which would append
  `k` more clusters) is not modelled.
