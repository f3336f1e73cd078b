/**
 * The k-means engine: seeding, the assignment pass, the centroid update and
 * the iteration loop that alternates the last two.
 */
module KMeansEngine {
  import opened Points
  import opened Clusters
  import opened Geometry
  import opened Means
  import opened Partition

  /** How a run ended: refused because there are fewer points than clusters, or after some iterations. */
  datatype Outcome = TooFewPoints | Finished(iterations: int, converged: bool)

  /** The point objects are pairwise different objects. */
  predicate DistinctPoints(points: seq<Point>)
  {
    forall a, b :: 0 <= a < b < |points| ==> points[a] != points[b]
  }

  /** The first `i` points are tagged with their nearest centroids. */
  predicate NearestUpTo(pts: seq<PointCopy>, centroids: seq<seq<real>>, i: int)
  {
    forall j :: 0 <= j < i && j < |pts| ==>
      1 <= |centroids| && SameDimension(centroids, pts[j].values)
      && pts[j].cluster == Nearest(centroids, pts[j].values)
  }

  /** Every point is tagged with its nearest centroid. */
  predicate AllNearest(pts: seq<PointCopy>, centroids: seq<seq<real>>)
  {
    NearestUpTo(pts, centroids, |pts|)
  }

  /** The first `i` points carry the same tags in both lists. */
  predicate SameTagsUpTo(a: seq<PointCopy>, b: seq<PointCopy>, i: int)
  {
    forall j :: 0 <= j < i && j < |a| && j < |b| ==> a[j].cluster == b[j].cluster
  }

  /** The two lists carry the same tags, position by position. */
  predicate SameTags(a: seq<PointCopy>, b: seq<PointCopy>)
  {
    |a| == |b| && SameTagsUpTo(a, b, |a|)
  }

  /** Tagging point `i` with its nearest centroid extends the tagged prefix by one. */
  lemma NearestStep(pts: seq<PointCopy>, centroids: seq<seq<real>>, i: nat, n: int)
    requires i < |pts| && NearestUpTo(pts, centroids, i)
    requires 1 <= |centroids| && SameDimension(centroids, pts[i].values)
    requires n == Nearest(centroids, pts[i].values)
    ensures NearestUpTo(Retag(pts, i, n), centroids, i + 1)
  {
    var r := Retag(pts, i, n);
    forall j | 0 <= j < i + 1 && j < |r|
      ensures 1 <= |centroids| && SameDimension(centroids, r[j].values)
              && r[j].cluster == Nearest(centroids, r[j].values)
    {
      assert r[j].values == pts[j].values;
    }
  }

  /** Retagging point `i` keeps the tags before it, so the agreeing prefix grows iff the new tag agrees. */
  lemma SameTagsStep(a: seq<PointCopy>, b: seq<PointCopy>, i: nat, n: int)
    requires i < |a| && i < |b|
    ensures SameTagsUpTo(Retag(a, i, n), b, i + 1) <==> SameTagsUpTo(a, b, i) && n == b[i].cluster
  {
    var r := Retag(a, i, n);
    assert forall j :: 0 <= j < i ==> r[j] == a[j];
    assert r[i].cluster == n;
  }

  /** Sums the squared coordinate differences in index order. */
  method SumSquares(centroid: seq<real>, values: seq<real>) returns (sum: real)
    requires |centroid| == |values|
    ensures sum == SqDist(centroid, values)
  {
    sum := 0.0;
    var j := 0;
    while j < |values|
      invariant 0 <= j <= |values|
      invariant sum == SqDist(centroid[..j], values[..j])
    {
      assert centroid[..j + 1][..j] == centroid[..j];
      assert values[..j + 1][..j] == values[..j];
      sum := sum + Square(centroid[j] - values[j]);
      j := j + 1;
    }
    assert centroid[..j] == centroid && values[..j] == values;
  }

  /** The member lists after point `i` is assigned to cluster `n`: moved there unless already tagged `n`. */
  ghost function Assigned(pts: seq<PointCopy>, mems: seq<seq<PointCopy>>, i: int, n: int): seq<seq<PointCopy>>
    requires 0 <= i < |pts| && 0 <= n < |mems| && Unassigned <= pts[i].cluster < |mems|
  {
    if pts[i].cluster != n then MovedMembers(pts, mems, i, n) else mems
  }

  /** Every entry of `picked` is an index below `n`, and no index appears twice. */
  predicate DistinctIndices(picked: seq<int>, n: int)
  {
    && (forall t :: 0 <= t < |picked| ==> 0 <= picked[t] < n)
    && (forall a, b :: 0 <= a < b < |picked| ==> picked[a] != picked[b])
  }

  /**
   * The state of a run right after seeding, in order, the points
   * at the indices `picked` of `pts0`: the `t`-th seed is tagged `t`, and a new
   * cluster `t` is made whose only member and whose centroid it is.
   */
  ghost function SeedFrom(pts0: seq<PointCopy>, picked: seq<int>): (r: RunState)
    requires forall t :: 0 <= t < |picked| ==> 0 <= picked[t] < |pts0|
    ensures |r.pts| == |pts0| && |r.mems| == |picked| && |r.cents| == |picked|
    decreases |picked|
  {
    if picked == [] then RunState(pts0, [], [])
    else
      var RunState(pts, mems, cents) := SeedFrom(pts0, picked[..|picked| - 1]);
      var s := picked[|picked| - 1];
      RunState(Retag(pts, s, |mems|), mems + [[pts[s].(cluster := |mems|)]], cents + [pts[s].values])
  }

  /**
   * `SeedFrom` under a name that is not recursive: the contracts of a whole
   * run name the seeded state through it, so that proofs about a run do not
   * unfold the seeding recursion.
   */
  ghost function SeedState(pts0: seq<PointCopy>, picked: seq<int>): RunState
    requires forall t :: 0 <= t < |picked| ==> 0 <= picked[t] < |pts0|
  {
    SeedFrom(pts0, picked)
  }

  /** Seeding one more index extends the seeding of the ones before it. */
  lemma SeedFromNext(pts0: seq<PointCopy>, picked: seq<int>, s: int)
    requires forall t :: 0 <= t < |picked| ==> 0 <= picked[t] < |pts0|
    requires 0 <= s < |pts0|
    ensures var RunState(pts, mems, cents) := SeedFrom(pts0, picked);
      SeedFrom(pts0, picked + [s])
        == RunState(Retag(pts, s, |mems|), mems + [[pts[s].(cluster := |mems|)]], cents + [pts[s].values])
  {
    assert (picked + [s])[..|picked|] == picked;
  }

  /** Picking one more index not picked before keeps the indices distinct. */
  lemma DistinctIndicesStep(picked: seq<int>, n: int, s: int)
    requires DistinctIndices(picked, n) && 0 <= s < n && s !in picked
    ensures DistinctIndices(picked + [s], n)
  {
  }

  /** Seed `t` of `picked` is tagged `t`, and is the only member and the centroid of cluster `t`. */
  predicate SeedsPlaced(pts: seq<PointCopy>, mems: seq<seq<PointCopy>>, cents: seq<seq<real>>, picked: seq<int>)
  {
    && |mems| == |cents| == |picked|
    && forall t :: 0 <= t < |picked| ==>
         && 0 <= picked[t] < |pts|
         && pts[picked[t]].cluster == t
         && mems[t] == [pts[picked[t]]]
         && cents[t] == pts[picked[t]].values
  }

  /** Placed seeds make clusters of one member each, at the dimension of the points. */
  lemma SeedsPlacedShape(pts: seq<PointCopy>, mems: seq<seq<PointCopy>>, cents: seq<seq<real>>,
                         picked: seq<int>, d: int)
    requires SeedsPlaced(pts, mems, cents, picked)
    requires forall j :: 0 <= j < |pts| ==> |pts[j].values| == d
    ensures Dimensioned(cents, mems, d)
    ensures forall c :: 0 <= c < |mems| ==> |mems[c]| == 1 && mems[c][0].values == cents[c]
  {
    forall c | 0 <= c < |mems|
      ensures |cents[c]| == d && HasDimension(mems[c], d)
    {
      assert |pts[picked[c]].values| == d;
    }
  }

  /** Every point whose index was not picked is untagged. */
  predicate OthersUntagged(pts: seq<PointCopy>, picked: seq<int>)
  {
    forall j :: 0 <= j < |pts| && j !in picked ==> pts[j].cluster == Unassigned
  }

  /** Seeding a point not picked before leaves the earlier seeds in place and places the new one. */
  lemma SeedsPlacedStep(pts: seq<PointCopy>, mems: seq<seq<PointCopy>>, cents: seq<seq<real>>,
                        picked: seq<int>, s: int)
    requires SeedsPlaced(pts, mems, cents, picked) && 0 <= s < |pts| && s !in picked
    ensures SeedsPlaced(Retag(pts, s, |mems|), mems + [[pts[s].(cluster := |mems|)]],
                        cents + [pts[s].values], picked + [s])
  {
    var pts', picked' := Retag(pts, s, |mems|), picked + [s];
    forall t | 0 <= t < |picked|
      ensures pts'[picked'[t]] == pts[picked[t]]
    {
      assert picked'[t] == picked[t] != s;
    }
  }

  /** Tagging a point and adding it to the picked indices keeps the others untagged. */
  lemma OthersUntaggedStep(pts: seq<PointCopy>, picked: seq<int>, s: int, n: int)
    requires OthersUntagged(pts, picked) && 0 <= s < |pts|
    ensures OthersUntagged(Retag(pts, s, n), picked + [s])
  {
    forall j | 0 <= j < |pts| && j !in picked + [s]
      ensures Retag(pts, s, n)[j].cluster == Unassigned
    {
      assert j != s && j !in picked;
    }
  }

  /**
   * The tags and member lists after the first `i` points of an assignment
   * pass at the fixed centroids `cents`, from the tags `pts0` and member
   * lists `mems0`: each point in turn is assigned to its nearest centroid.
   * The third component says whether each of those points already carried
   * that tag.
   */
  ghost function PassUpTo(pts0: seq<PointCopy>, mems0: seq<seq<PointCopy>>, cents: seq<seq<real>>, i: nat)
    : (r: (seq<PointCopy>, seq<seq<PointCopy>>, bool))
    requires i <= |pts0|
    ensures |r.0| == |pts0| && |r.1| == |mems0|
    decreases i
  {
    if i == 0 then (pts0, mems0, true)
    else
      var (pts, mems, kept) := PassUpTo(pts0, mems0, cents, i - 1);
      if 1 <= |cents| == |mems| && SameDimension(cents, pts[i - 1].values)
         && Unassigned <= pts[i - 1].cluster < |mems|
      then
        var n := Nearest(cents, pts[i - 1].values);
        (Retag(pts, i - 1, n), Assigned(pts, mems, i - 1, n), kept && pts[i - 1].cluster == n)
      else
        (pts, mems, kept)
  }

  /** A prefix of the pass keeps every position, and the tags of the points it has not reached. */
  lemma {:induction false} PassUpToShape(pts0: seq<PointCopy>, mems0: seq<seq<PointCopy>>,
                                         cents: seq<seq<real>>, i: nat)
    requires i <= |pts0|
    ensures forall j :: 0 <= j < |pts0| ==> PassUpTo(pts0, mems0, cents, i).0[j].values == pts0[j].values
    ensures forall j :: i <= j < |pts0| ==> PassUpTo(pts0, mems0, cents, i).0[j].cluster == pts0[j].cluster
  {
    if i > 0 {
      PassUpToShape(pts0, mems0, cents, i - 1);
    }
  }

  /** The points, member lists and centroids of a run between two iterations. */
  datatype RunState = RunState(pts: seq<PointCopy>, mems: seq<seq<PointCopy>>, cents: seq<seq<real>>)

  /**
   * One iteration of the main loop on values: an assignment pass at the
   * current centroids, then every centroid recomputed from the new member
   * lists. The flag is the pass's `done`: no tag changed. (Member lists that
   * do not fit the centroids, which no run produces, leave them in place.)
   */
  ghost function Lloyd1(s: RunState): (RunState, bool)
  {
    var (pts, mems, done) := PassUpTo(s.pts, s.mems, s.cents, |s.pts|);
    if Fits(s.cents, mems) then (RunState(pts, mems, RecomputedAll(s.cents, mems)), done)
    else (RunState(pts, mems, s.cents), done)
  }

  /** The state after `n` iterations from `s`. */
  ghost function Lloyd(s: RunState, n: nat): RunState
  {
    if n == 0 then s else Lloyd1(Lloyd(s, n - 1)).0
  }

  /** The centroids the assignment pass of iteration `n` (counted from 1) compared against. */
  ghost function LastCentroids(s: RunState, n: nat): seq<seq<real>>
    requires n >= 1
  {
    Lloyd(s, n - 1).cents
  }

  /** Whether the assignment pass of iteration `m` (counted from 1) changed no tag. */
  ghost function LloydDone(s: RunState, m: nat): bool
    requires m >= 1
  {
    Lloyd1(Lloyd(s, m - 1)).1
  }

  /** `trace` lists successive iterations: each state and flag come from the one before. */
  ghost predicate IsTrace(trace: seq<RunState>, flags: seq<bool>)
    decreases |flags|
  {
    && |trace| == |flags| + 1
    && (|flags| > 0 ==>
          && IsTrace(trace[..|flags|], flags[..|flags| - 1])
          && Lloyd1(trace[|flags| - 1]) == (trace[|flags|], flags[|flags| - 1]))
  }

  /**
   * What a run's trace says about the run from its first state: the final
   * state is the state after `n` iterations, the last pass compared against
   * the centroids left by iteration `n - 1`, the returned flag is that of
   * iteration `n`, and no earlier iteration changed no tag.
   */
  lemma LoopIsLloyd(trace: seq<RunState>, flags: seq<bool>, n: nat)
    requires IsTrace(trace, flags) && 1 <= n == |flags|
    requires true !in flags[..n - 1]
    ensures trace[n] == Lloyd(trace[0], n)
    ensures trace[n - 1].cents == LastCentroids(trace[0], n)
    ensures flags[n - 1] == LloydDone(trace[0], n)
    ensures forall m :: 1 <= m < n ==> !LloydDone(trace[0], m)
  {
    TraceIsLloyd(trace, flags);
    TraceIsLloyd(trace[..n], flags[..n - 1]);
  }

  /** One more iteration from the last state extends a trace. */
  lemma TraceNext(trace: seq<RunState>, flags: seq<bool>, s: RunState, done: bool)
    requires IsTrace(trace, flags) && Lloyd1(trace[|trace| - 1]) == (s, done)
    ensures IsTrace(trace + [s], flags + [done])
  {
  }

  /**
   * A trace of iterations is the run from its first state: its last state
   * is the state after `|flags|` iterations and its `m`-th flag the flag of
   * iteration `m + 1`.
   */
  lemma {:induction false} TraceIsLloyd(trace: seq<RunState>, flags: seq<bool>)
    requires IsTrace(trace, flags)
    ensures trace[|flags|] == Lloyd(trace[0], |flags|)
    ensures forall m :: 1 <= m <= |flags| ==> flags[m - 1] == LloydDone(trace[0], m)
    decreases |flags|
  {
    var n := |flags|;
    if n > 0 {
      TraceIsLloyd(trace[..n], flags[..n - 1]);
      assert trace[..n][0] == trace[0];
    }
  }

  /**
   * The loop's stopping rule picks one iteration count: the first `n` whose
   * pass changed no tag, or the cap if that comes first (at least 1).
   */
  lemma FirstStopUnique(s: RunState, cap: int, n1: nat, n2: nat)
    requires 1 <= n1 && (n1 <= cap || n1 == 1) && (LloydDone(s, n1) || n1 >= cap)
    requires forall m :: 1 <= m < n1 ==> !LloydDone(s, m)
    requires 1 <= n2 && (n2 <= cap || n2 == 1) && (LloydDone(s, n2) || n2 >= cap)
    requires forall m :: 1 <= m < n2 ==> !LloydDone(s, m)
    ensures n1 == n2
  {
  }

  class KMeans {
    const k: int
    const totalValues: int
    const totalPoints: int
    const maxIterations: int
    var clusters: seq<Cluster>

    /** A new engine has its parameters and no clusters yet. */
    constructor (k: int, totalPoints: int, totalValues: int, maxIterations: int)
      ensures this.k == k && this.totalPoints == totalPoints
      ensures this.totalValues == totalValues && this.maxIterations == maxIterations
      ensures clusters == []
    {
      this.k := k;
      this.totalPoints := totalPoints;
      this.totalValues := totalValues;
      this.maxIterations := maxIterations;
      this.clusters := [];
    }

    /** The centroids, cluster by cluster. */
    ghost function Centroids(): (cs: seq<seq<real>>)
      reads this, clusters
      ensures |cs| == |clusters|
      ensures forall c :: 0 <= c < |clusters| ==> cs[c] == clusters[c].centroid
    {
      seq(|clusters|, c requires 0 <= c < |clusters| reads this, clusters => clusters[c].centroid)
    }

    /** The member lists, cluster by cluster. */
    ghost function Members(): (ms: seq<seq<PointCopy>>)
      reads this, clusters
      ensures |ms| == |clusters|
    {
      seq(|clusters|, c requires 0 <= c < |clusters| reads this, clusters => clusters[c].points)
    }

    /** Cluster `c` has identifier `c` (so the clusters are pairwise different objects). */
    ghost predicate IdsAreIndices()
      reads this
    {
      forall c :: 0 <= c < |clusters| ==> clusters[c].id == c
    }

    /**
     * All `k` clusters are present, with identifiers equal to their indices.
     * This holds once seeding is done, not on a new engine (unless `k` is 0).
     */
    ghost predicate ClustersMade()
      reads this
    {
      IdsAreIndices() && |clusters| == k
    }

    /**
     * The state of a run, on values: `k` member lists that agree with the
     * points' tags, distinct point identifiers, and `totalValues`
     * coordinates everywhere.
     */
    ghost predicate Coherent(pts: seq<PointCopy>, mems: seq<seq<PointCopy>>, cents: seq<seq<real>>)
    {
      && |mems| == k
      && Consistent(pts, mems)
      && DistinctIds(pts)
      && Dimensioned(cents, mems, totalValues)
      && (forall j :: 0 <= j < |pts| ==> |pts[j].values| == totalValues)
    }

    /**
     * Every centroid is where recomputing it from its members would put it:
     * the mean of the members, or anywhere when the cluster is empty.
     */
    ghost predicate Stable()
      reads this, clusters
    {
      Fits(Centroids(), Members()) && AllStable(Centroids(), Members())
    }

    /**
     * The cluster whose centroid is nearest to `point`; on equal distances the
     * lowest index wins, because a later centroid replaces the best so far only
     * when it is strictly nearer.
     */
    method GetIDNearestCenter(point: Point) returns (id: int)
      requires 1 <= k == |clusters| && SameDimension(Centroids(), point.values)
      ensures 0 <= id < k
      ensures id == Nearest(Centroids(), point.values)
      ensures IsLowestNearest(Centroids(), point.values, id)
    {
      ghost var cs := Centroids();
      var minDist := SumSquares(clusters[0].centroid, point.values);
      id := 0;
      var i := 1;
      while i < k
        invariant 1 <= i <= k
        invariant id == NearestAmong(cs, point.values, i)
        invariant minDist == SqDist(cs[id], point.values)
      {
        var centroid := clusters[i].centroid;
        assert centroid == cs[i];
        var dist := SumSquares(centroid, point.values);
        NearestAmongNext(cs, point.values, i);
        if dist < minDist {
          minDist := dist;
          id := i;
        }
        i := i + 1;
      }
      NearestIsLowestNearest(cs, point.values, id);
    }

    /**
     * Picks `k` distinct points as seeds: the `t`-th seed is tagged `t` and is
     * the only member, and the position, of the new cluster `t`. The index of
     * each seed is an arbitrary one not picked before.
     */
    method Seed(points: seq<Point>) returns (prohibited: seq<int>, ghost made: set<Cluster>)
      requires clusters == [] && 0 <= k <= totalPoints == |points| && DistinctPoints(points)
      modifies this, points
      ensures ClustersMade() && fresh(made) && forall c :: 0 <= c < |clusters| ==> clusters[c] in made
      ensures |prohibited| == k && DistinctIndices(prohibited, totalPoints)
      ensures Snapshot(points) == SeedFrom(old(Snapshot(points)), prohibited).pts
      ensures Members() == SeedFrom(old(Snapshot(points)), prohibited).mems
      ensures Centroids() == SeedFrom(old(Snapshot(points)), prohibited).cents
    {
      prohibited := [];
      ghost var pts0 := Snapshot(points);
      made := {};
      var i := 0;
      while i < k
        invariant 0 <= i <= k && |clusters| == i && |prohibited| == i
        invariant DistinctIndices(prohibited, totalPoints)
        invariant Snapshot(points) == SeedFrom(pts0, prohibited).pts
        invariant Members() == SeedFrom(pts0, prohibited).mems
        invariant Centroids() == SeedFrom(pts0, prohibited).cents
        invariant IdsAreIndices()
        invariant fresh(made) && forall c :: 0 <= c < |clusters| ==> clusters[c] in made
      {
        FreeIndex(prohibited, totalPoints);
        var indexPoint :| 0 <= indexPoint < totalPoints && indexPoint !in prohibited;
        var cluster := AddSeed(points, indexPoint, pts0, prohibited);
        DistinctIndicesStep(prohibited, totalPoints, indexPoint);
        prohibited := prohibited + [indexPoint];
        made := made + {cluster};
        i := i + 1;
      }
    }

    /**
     * The seeding state on values: the seeds are distinct point indices, seed
     * `t` is tagged `t` and is the only member and the centroid of cluster
     * `t`, every other point is untagged, and the tags agree with the members.
     */
    ghost predicate Seeded(pts: seq<PointCopy>, mems: seq<seq<PointCopy>>, cents: seq<seq<real>>,
                           prohibited: seq<int>)
    {
      && |pts| == totalPoints && DistinctIds(pts)
      && (forall j :: 0 <= j < |pts| ==> |pts[j].values| == totalValues)
      && DistinctIndices(prohibited, totalPoints)
      && SeedsPlaced(pts, mems, cents, prohibited)
      && OthersUntagged(pts, prohibited)
      && Consistent(pts, mems)
    }

    /** Seeding one more untagged point keeps the seeding state. */
    lemma SeedStep(pts: seq<PointCopy>, mems: seq<seq<PointCopy>>, cents: seq<seq<real>>,
                   prohibited: seq<int>, s: int)
      requires Seeded(pts, mems, cents, prohibited)
      requires 0 <= s < totalPoints && s !in prohibited
      ensures Seeded(Retag(pts, s, |mems|), mems + [[pts[s].(cluster := |mems|)]],
                     cents + [pts[s].values], prohibited + [s])
    {
      SeedKeepsConsistent(pts, mems, s);
      RetagKeepsIds(pts, s, |mems|);
      DistinctIndicesStep(prohibited, totalPoints, s);
      SeedsPlacedStep(pts, mems, cents, prohibited, s);
      OthersUntaggedStep(pts, prohibited, s, |mems|);
      assert forall j :: 0 <= j < |pts| ==> |Retag(pts, s, |mems|)[j].values| == totalValues by {
        assert forall j :: 0 <= j < |pts| ==> Retag(pts, s, |mems|)[j].values == pts[j].values;
      }
    }

    /**
     * Seeding distinct indices from untagged points yields the seeding state:
     * seed `t` is tagged `t` and is the only member and the centroid of
     * cluster `t`, and every point not picked stays untagged.
     */
    lemma {:induction false} SeedFromSeeded(pts0: seq<PointCopy>, picked: seq<int>)
      requires |pts0| == totalPoints && DistinctIds(pts0)
      requires forall j :: 0 <= j < |pts0| ==> |pts0[j].values| == totalValues
      requires forall j :: 0 <= j < |pts0| ==> pts0[j].cluster == Unassigned
      requires DistinctIndices(picked, totalPoints)
      ensures Seeded(SeedFrom(pts0, picked).pts, SeedFrom(pts0, picked).mems, SeedFrom(pts0, picked).cents, picked)
    {
      if picked == [] {
        ConsistentInitially(pts0);
      } else {
        var before := picked[..|picked| - 1];
        SeedFromSeeded(pts0, before);
        var RunState(pts, mems, cents) := SeedFrom(pts0, before);
        SeedStep(pts, mems, cents, before, picked[|before|]);
        assert before + [picked[|before|]] == picked;
      }
    }

    /** After `k` seeds the state of a run is coherent and every centroid is stable. */
    lemma SeedDone(pts0: seq<PointCopy>, picked: seq<int>, pts: seq<PointCopy>, mems: seq<seq<PointCopy>>,
                   cents: seq<seq<real>>)
      requires |pts0| == totalPoints && DistinctIds(pts0)
      requires forall j :: 0 <= j < |pts0| ==> |pts0[j].values| == totalValues
      requires forall j :: 0 <= j < |pts0| ==> pts0[j].cluster == Unassigned
      requires DistinctIndices(picked, totalPoints) && |picked| == k
      requires RunState(pts, mems, cents) == SeedFrom(pts0, picked)
      ensures Coherent(pts, mems, cents) && Fits(cents, mems) && AllStable(cents, mems)
    {
      SeedFromSeeded(pts0, picked);
      SeedsPlacedShape(pts, mems, cents, picked, totalValues);
      SeedsStable(cents, mems);
    }

    /**
     * One seeding step: point `indexPoint` is tagged with the next cluster
     * index, and a new cluster is made from it and appended. `pts`, `mems`
     * and `cents` are the values of the points, member lists and centroids.
     */
    method AddSeed(points: seq<Point>, indexPoint: int, ghost pts0: seq<PointCopy>, ghost picked: seq<int>)
      returns (cluster: Cluster)
      requires IdsAreIndices() && DistinctPoints(points) && 0 <= indexPoint < |points| == |pts0|
      requires forall t :: 0 <= t < |picked| ==> 0 <= picked[t] < |pts0|
      requires Snapshot(points) == SeedFrom(pts0, picked).pts && Members() == SeedFrom(pts0, picked).mems
      requires Centroids() == SeedFrom(pts0, picked).cents
      modifies this, points[indexPoint]
      ensures clusters == old(clusters) + [cluster] && fresh(cluster) && IdsAreIndices()
      ensures Snapshot(points) == SeedFrom(pts0, picked + [indexPoint]).pts
      ensures Members() == SeedFrom(pts0, picked + [indexPoint]).mems
      ensures Centroids() == SeedFrom(pts0, picked + [indexPoint]).cents
    {
      ghost var RunState(pts, mems, cents) := SeedFrom(pts0, picked);
      SeedFromNext(pts0, picked, indexPoint);
      points[indexPoint].SetCluster(|clusters|);
      assert Snapshot(points) == Retag(pts, indexPoint, |clusters|);
      cluster := new Cluster(|clusters|, points[indexPoint]);
      clusters := clusters + [cluster];
      assert Members() == mems + [[pts[indexPoint].(cluster := |clusters| - 1)]];
      assert Centroids() == cents + [pts[indexPoint].values];
    }

    /**
     * One assignment pass: every point in turn is tagged with its nearest
     * centroid; a point whose tag changes is erased from its old cluster and
     * appended to the new one. The centroids do not move during the pass, and
     * the pass reports `done` exactly when no tag changed.
     */
    method AssignPass(points: seq<Point>, ghost pts0: seq<PointCopy>,
                      ghost mems0: seq<seq<PointCopy>>, ghost cents: seq<seq<real>>)
      returns (done: bool, ghost pts: seq<PointCopy>, ghost mems: seq<seq<PointCopy>>)
      requires ClustersMade() && k >= 1 && |points| == totalPoints && DistinctPoints(points)
      requires Snapshot(points) == pts0 && Members() == mems0 && Centroids() == cents
      requires Coherent(pts0, mems0, cents)
      modifies points, clusters
      ensures ClustersMade() && clusters == old(clusters)
      ensures Snapshot(points) == pts && Members() == mems && Centroids() == cents
      ensures pts == PassUpTo(pts0, mems0, cents, |pts0|).0 && mems == PassUpTo(pts0, mems0, cents, |pts0|).1
      ensures done == PassUpTo(pts0, mems0, cents, |pts0|).2
    {
      done := true;
      var i := 0;
      while i < totalPoints
        invariant 0 <= i <= totalPoints && ClustersMade() && clusters == old(clusters) && Centroids() == cents
        invariant Snapshot(points) == PassUpTo(pts0, mems0, cents, i).0
        invariant Members() == PassUpTo(pts0, mems0, cents, i).1
        invariant done == PassUpTo(pts0, mems0, cents, i).2
      {
        var changed := AssignOne(points, i, pts0, mems0, cents);
        done := done && !changed;
        i := i + 1;
      }
      pts, mems := Snapshot(points), Members();
    }

    /**
     * The body of the assignment pass for point `i`: when its nearest
     * centroid differs from its tag, the point moves there. `pts0`, `mems0`
     * and `cents` are the values of the points, member lists and centroids
     * when the pass began.
     */
    method AssignOne(points: seq<Point>, i: nat, ghost pts0: seq<PointCopy>,
                     ghost mems0: seq<seq<PointCopy>>, ghost cents: seq<seq<real>>)
      returns (changed: bool)
      requires ClustersMade() && k >= 1 && DistinctPoints(points) && i < |points| == |pts0|
      requires Coherent(pts0, mems0, cents) && Centroids() == cents
      requires Snapshot(points) == PassUpTo(pts0, mems0, cents, i).0
      requires Members() == PassUpTo(pts0, mems0, cents, i).1
      modifies points[i], clusters
      ensures ClustersMade() && clusters == old(clusters) && Centroids() == cents
      ensures Snapshot(points) == PassUpTo(pts0, mems0, cents, i + 1).0
      ensures Members() == PassUpTo(pts0, mems0, cents, i + 1).1
      ensures PassUpTo(pts0, mems0, cents, i + 1).2 == (PassUpTo(pts0, mems0, cents, i).2 && !changed)
      ensures changed <==> old(points[i].cluster) != points[i].cluster
    {
      ghost var (pts, mems, kept) := PassUpTo(pts0, mems0, cents, i);
      PassStep(pts0, mems0, cents, i, pts, mems, kept);
      var idOldCluster := points[i].GetCluster();
      var idNearestCenter := GetIDNearestCenter(points[i]);
      changed := idOldCluster != idNearestCenter;
      if changed {
        MovePoint(points, i, idNearestCenter);
      } else {
        assert pts[i] == points[i].Copy();
        RetagSame(pts, i, idNearestCenter);
      }
    }

    /** Assigning point `i` to a cluster keeps the state of a run coherent. */
    lemma AssignKeepsCoherent(pts: seq<PointCopy>, mems: seq<seq<PointCopy>>, cents: seq<seq<real>>, i: int, n: int)
      requires Coherent(pts, mems, cents) && 0 <= i < |pts| && 0 <= n < k
      ensures Coherent(Retag(pts, i, n), Assigned(pts, mems, i, n), cents)
    {
      RetagKeepsIds(pts, i, n);
      assert forall j :: 0 <= j < |pts| ==> Retag(pts, i, n)[j].values == pts[j].values;
      if pts[i].cluster != n {
        MoveKeepsConsistent(pts, mems, i, n);
        ConsistentDimension(Retag(pts, i, n), MovedMembers(pts, mems, i, n), totalValues);
      } else {
        RetagSame(pts, i, n);
      }
    }

    /** Every prefix of an assignment pass from a coherent state is coherent. */
    lemma {:induction false} PassUpToCoherent(pts0: seq<PointCopy>, mems0: seq<seq<PointCopy>>,
                                              cents: seq<seq<real>>, i: nat)
      requires Coherent(pts0, mems0, cents) && k >= 1 && i <= |pts0|
      ensures Coherent(PassUpTo(pts0, mems0, cents, i).0, PassUpTo(pts0, mems0, cents, i).1, cents)
    {
      if i > 0 {
        PassUpToCoherent(pts0, mems0, cents, i - 1);
        var pts, mems := PassUpTo(pts0, mems0, cents, i - 1).0, PassUpTo(pts0, mems0, cents, i - 1).1;
        assert |pts[i - 1].values| == totalValues;
        var n := Nearest(cents, pts[i - 1].values);
        AssignKeepsCoherent(pts, mems, cents, i - 1, n);
        assert PassUpTo(pts0, mems0, cents, i).0 == Retag(pts, i - 1, n);
        assert PassUpTo(pts0, mems0, cents, i).1 == Assigned(pts, mems, i - 1, n);
      }
    }

    /** A prefix of an assignment pass from a coherent state has tagged each of its points with the nearest centroid. */
    lemma {:induction false} PassUpToNearest(pts0: seq<PointCopy>, mems0: seq<seq<PointCopy>>,
                                             cents: seq<seq<real>>, i: nat)
      requires Coherent(pts0, mems0, cents) && k >= 1 && i <= |pts0|
      ensures NearestUpTo(PassUpTo(pts0, mems0, cents, i).0, cents, i)
    {
      if i > 0 {
        PassUpToNearest(pts0, mems0, cents, i - 1);
        PassUpToNext(pts0, mems0, cents, i - 1);
        var pts, mems, kept := PassUpTo(pts0, mems0, cents, i - 1).0, PassUpTo(pts0, mems0, cents, i - 1).1,
                               PassUpTo(pts0, mems0, cents, i - 1).2;
        var n := Nearest(cents, pts[i - 1].values);
        NearestStep(pts, cents, i - 1, n);
        assert PassUpTo(pts0, mems0, cents, i).0 == Retag(pts, i - 1, n);
      }
    }

    /** A prefix of an assignment pass from a coherent state that has changed no tag has moved no member. */
    lemma {:induction false} PassUpToUnmoved(pts0: seq<PointCopy>, mems0: seq<seq<PointCopy>>,
                                             cents: seq<seq<real>>, i: nat)
      requires Coherent(pts0, mems0, cents) && k >= 1 && i <= |pts0|
      ensures PassUpTo(pts0, mems0, cents, i).2 ==> PassUpTo(pts0, mems0, cents, i).1 == mems0
    {
      if i > 0 {
        PassUpToUnmoved(pts0, mems0, cents, i - 1);
        PassUpToNext(pts0, mems0, cents, i - 1);
        var pts, mems, kept := PassUpTo(pts0, mems0, cents, i - 1).0, PassUpTo(pts0, mems0, cents, i - 1).1,
                               PassUpTo(pts0, mems0, cents, i - 1).2;
        var n := Nearest(cents, pts[i - 1].values);
        assert PassUpTo(pts0, mems0, cents, i).1 == Assigned(pts, mems, i - 1, n);
        assert PassUpTo(pts0, mems0, cents, i).2 == (kept && pts[i - 1].cluster == n);
      }
    }

    /**
     * A prefix of an assignment pass from a coherent state reports that no
     * tag changed exactly when the points it visited carry their old tags.
     */
    lemma {:induction false} PassUpToKept(pts0: seq<PointCopy>, mems0: seq<seq<PointCopy>>,
                                          cents: seq<seq<real>>, i: nat)
      requires Coherent(pts0, mems0, cents) && k >= 1 && i <= |pts0|
      ensures PassUpTo(pts0, mems0, cents, i).2 <==> SameTagsUpTo(PassUpTo(pts0, mems0, cents, i).0, pts0, i)
    {
      if i > 0 {
        PassUpToKept(pts0, mems0, cents, i - 1);
        PassUpToNext(pts0, mems0, cents, i - 1);
        var pts, mems, kept := PassUpTo(pts0, mems0, cents, i - 1).0, PassUpTo(pts0, mems0, cents, i - 1).1,
                               PassUpTo(pts0, mems0, cents, i - 1).2;
        var n := Nearest(cents, pts[i - 1].values);
        SameTagsStep(pts, pts0, i - 1, n);
        assert PassUpTo(pts0, mems0, cents, i).0 == Retag(pts, i - 1, n);
        assert PassUpTo(pts0, mems0, cents, i).2 == (kept && pts[i - 1].cluster == n);
      }
    }

    /**
     * A whole assignment pass from a coherent state ends coherent, with every
     * point tagged with its nearest centroid, and with the member lists as
     * they were when no tag changed.
     */
    lemma PassResult(pts0: seq<PointCopy>, mems0: seq<seq<PointCopy>>, cents: seq<seq<real>>)
      requires Coherent(pts0, mems0, cents) && k >= 1
      ensures Coherent(PassUpTo(pts0, mems0, cents, |pts0|).0, PassUpTo(pts0, mems0, cents, |pts0|).1, cents)
      ensures AllNearest(PassUpTo(pts0, mems0, cents, |pts0|).0, cents)
      ensures PassUpTo(pts0, mems0, cents, |pts0|).2 <==> SameTags(PassUpTo(pts0, mems0, cents, |pts0|).0, pts0)
      ensures PassUpTo(pts0, mems0, cents, |pts0|).2 ==> PassUpTo(pts0, mems0, cents, |pts0|).1 == mems0
      ensures forall j :: 0 <= j < |pts0| ==> 0 <= PassUpTo(pts0, mems0, cents, |pts0|).0[j].cluster < k
    {
      PassUpToCoherent(pts0, mems0, cents, |pts0|);
      PassUpToNearest(pts0, mems0, cents, |pts0|);
      PassUpToUnmoved(pts0, mems0, cents, |pts0|);
      PassUpToKept(pts0, mems0, cents, |pts0|);
    }

    /** Tags that name nearest centroids name clusters. */
    lemma TagsInRange(points: seq<Point>, cents: seq<seq<real>>)
      requires |cents| == k && AllNearest(Snapshot(points), cents)
      ensures forall i :: 0 <= i < |points| ==> 0 <= points[i].cluster < k
    {
      forall i | 0 <= i < |points| ensures 0 <= points[i].cluster < k {
        assert Snapshot(points)[i] == points[i].Copy();
      }
    }

    /**
     * A pass from a state in which every point already carries its nearest
     * centroid's index changes no tag and moves no member: such a state is a
     * fixed point of the assignment pass.
     */
    lemma {:induction false} PassUpToFixed(pts0: seq<PointCopy>, mems0: seq<seq<PointCopy>>,
                                           cents: seq<seq<real>>, i: nat)
      requires Coherent(pts0, mems0, cents) && k >= 1 && AllNearest(pts0, cents) && i <= |pts0|
      ensures PassUpTo(pts0, mems0, cents, i).0 == pts0
      ensures PassUpTo(pts0, mems0, cents, i).1 == mems0
      ensures PassUpTo(pts0, mems0, cents, i).2
    {
      if i > 0 {
        PassUpToFixed(pts0, mems0, cents, i - 1);
        PassUpToNext(pts0, mems0, cents, i - 1);
        var n := Nearest(cents, pts0[i - 1].values);
        assert pts0[i - 1].cluster == n;
        RetagSame(pts0, i - 1, n);
        assert PassUpTo(pts0, mems0, cents, i).0 == Retag(pts0, i - 1, n);
        assert PassUpTo(pts0, mems0, cents, i).1 == Assigned(pts0, mems0, i - 1, n);
        assert PassUpTo(pts0, mems0, cents, i).2 == (PassUpTo(pts0, mems0, cents, i - 1).2 && pts0[i - 1].cluster == n);
      }
    }

    /** What the pass needs to know of point `i` when it reaches it. */
    lemma PassUpToNext(pts0: seq<PointCopy>, mems0: seq<seq<PointCopy>>, cents: seq<seq<real>>, i: nat)
      requires Coherent(pts0, mems0, cents) && k >= 1 && i < |pts0|
      ensures 1 <= |cents| == |mems0| == k
      ensures SameDimension(cents, PassUpTo(pts0, mems0, cents, i).0[i].values)
      ensures Unassigned <= PassUpTo(pts0, mems0, cents, i).0[i].cluster < k
      ensures PassUpTo(pts0, mems0, cents, i).0[i].cluster == pts0[i].cluster
    {
      PassUpToCoherent(pts0, mems0, cents, i);
      PassUpToShape(pts0, mems0, cents, i);
      var pts := PassUpTo(pts0, mems0, cents, i).0;
      assert |pts[i].values| == totalValues;
    }

    /**
     * One step of the pass, on values: what it needs of point `i`, and the
     * state after it.
     */
    lemma PassStep(pts0: seq<PointCopy>, mems0: seq<seq<PointCopy>>, cents: seq<seq<real>>, i: nat,
                   pts: seq<PointCopy>, mems: seq<seq<PointCopy>>, kept: bool)
      requires Coherent(pts0, mems0, cents) && k >= 1 && i < |pts0|
      requires (pts, mems, kept) == PassUpTo(pts0, mems0, cents, i)
      ensures 1 <= |cents| == |mems| == k && i < |pts|
      ensures SameDimension(cents, pts[i].values) && Unassigned <= pts[i].cluster < k
      ensures PassUpTo(pts0, mems0, cents, i + 1)
        == (Retag(pts, i, Nearest(cents, pts[i].values)), Assigned(pts, mems, i, Nearest(cents, pts[i].values)),
            kept && pts[i].cluster == Nearest(cents, pts[i].values))
    {
      PassUpToNext(pts0, mems0, cents, i);
    }

    /**
     * Moves point `i` to cluster `n`: it is erased from the cluster its tag
     * names (if any), retagged, and a copy is appended to cluster `n`.
     */
    method MovePoint(points: seq<Point>, i: int, n: int)
      requires IdsAreIndices() && DistinctPoints(points)
      requires 0 <= i < |points| && 0 <= n < |clusters|
      requires Unassigned <= points[i].cluster < |clusters|
      modifies points[i], clusters
      ensures clusters == old(clusters)
      ensures Centroids() == old(Centroids())
      ensures Snapshot(points) == Retag(old(Snapshot(points)), i, n)
      ensures Members() == MovedMembers(old(Snapshot(points)), old(Members()), i, n)
    {
      ghost var pts, mems := Snapshot(points), Members();
      var idOldCluster := points[i].GetCluster();
      if idOldCluster != Unassigned {
        EraseFrom(idOldCluster, points[i].GetID());
      }
      assert Snapshot(points) == pts;
      PlaceIn(points, i, n);
    }

    /** Retags point `i` with `n` and appends a copy of it to cluster `n`. */
    method PlaceIn(points: seq<Point>, i: int, n: int)
      requires IdsAreIndices() && DistinctPoints(points)
      requires 0 <= i < |points| && 0 <= n < |clusters|
      modifies points[i], clusters[n]
      ensures clusters == old(clusters)
      ensures Centroids() == old(Centroids())
      ensures Snapshot(points) == Retag(old(Snapshot(points)), i, n)
      ensures Members() == old(Members())[n := old(Members())[n] + [old(Snapshot(points))[i].(cluster := n)]]
    {
      ghost var pts := Snapshot(points);
      points[i].SetCluster(n);
      assert Snapshot(points) == Retag(pts, i, n);
      AppendTo(n, points[i]);
      assert Snapshot(points) == Retag(pts, i, n);
    }

    /** `clusters[c].removePoint(idPoint)`, seen from the engine. */
    method EraseFrom(c: int, idPoint: int)
      requires IdsAreIndices() && 0 <= c < |clusters|
      modifies clusters[c]
      ensures clusters == old(clusters)
      ensures Centroids() == old(Centroids())
      ensures Members() == old(Members())[c := RemoveFirst(old(Members())[c], idPoint)]
    {
      var removed := clusters[c].RemovePoint(idPoint);
      forall d | 0 <= d < |clusters| ensures clusters[d].centroid == old(clusters[d].centroid) {
      }
      assert Centroids() == old(Centroids());
    }

    /** `clusters[c].addPoint(point)`, seen from the engine. */
    method AppendTo(c: int, point: Point)
      requires IdsAreIndices() && 0 <= c < |clusters|
      modifies clusters[c]
      ensures clusters == old(clusters)
      ensures Centroids() == old(Centroids())
      ensures Members() == old(Members())[c := old(Members())[c] + [point.Copy()]]
    {
      clusters[c].AddPoint(point);
      forall d | 0 <= d < |clusters| ensures clusters[d].centroid == old(clusters[d].centroid) {
      }
      assert Centroids() == old(Centroids());
    }

    /**
     * Moves the centroid of `cluster` to the mean of its members, coordinate by
     * coordinate; an empty cluster keeps its centroid.
     */
    method RecomputeCluster(cluster: Cluster)
      requires |cluster.centroid| == totalValues && HasDimension(cluster.points, totalValues)
      modifies cluster
      ensures cluster.points == old(cluster.points)
      ensures cluster.centroid == Recomputed(old(cluster.centroid), cluster.points)
    {
      ghost var start := cluster.centroid;
      var j := 0;
      while j < totalValues
        invariant 0 <= j <= totalValues
        invariant cluster.points == old(cluster.points) && |cluster.centroid| == totalValues
        invariant forall t :: 0 <= t < j ==> cluster.centroid[t] == Recomputed(start, cluster.points)[t]
        invariant forall t :: j <= t < totalValues ==> cluster.centroid[t] == start[t]
      {
        var totalPointsCluster := cluster.GetTotalPoints();
        var sum := 0.0;
        if totalPointsCluster > 0 {
          var p := 0;
          while p < totalPointsCluster
            invariant 0 <= p <= totalPointsCluster
            invariant sum == SumCoord(cluster.points[..p], j)
          {
            assert cluster.points[..p + 1][..p] == cluster.points[..p];
            sum := sum + cluster.GetPoint(p).values[j];
            p := p + 1;
          }
          assert cluster.points[..p] == cluster.points;
          cluster.SetCentralValue(j, sum / totalPointsCluster as real);
        }
        j := j + 1;
      }
    }

    /**
     * Recomputes every centroid from its members. Afterwards every centroid is
     * stable: recomputing again would not move it.
     */
    method UpdateCentroids(ghost points: seq<Point>, ghost pts: seq<PointCopy>,
                           ghost mems: seq<seq<PointCopy>>, ghost cents: seq<seq<real>>)
      requires ClustersMade() && Snapshot(points) == pts && Members() == mems && Centroids() == cents
      requires Dimensioned(cents, mems, totalValues)
      modifies clusters
      ensures ClustersMade() && clusters == old(clusters)
      ensures Snapshot(points) == pts && Members() == mems
      ensures Centroids() == RecomputedAll(cents, mems)
    {
      var i := 0;
      while i < k
        invariant 0 <= i <= k && ClustersMade() && clusters == old(clusters)
        invariant Snapshot(points) == pts && Members() == mems && |Centroids()| == k
        invariant forall c :: 0 <= c < i ==> Centroids()[c] == Recomputed(cents[c], mems[c])
        invariant forall c :: i <= c < k ==> Centroids()[c] == cents[c]
      {
        ghost var before := Centroids();
        assert Members()[i] == clusters[i].points;
        RecomputeCluster(clusters[i]);
        forall c | 0 <= c < k
          ensures Centroids()[c] == if c == i then Recomputed(before[c], mems[c]) else before[c]
        {
        }
        assert Members() == mems;
        i := i + 1;
      }
      assert Centroids() == RecomputedAll(cents, mems);
    }

    /**
     * The whole clustering. Nothing happens when there are more clusters than
     * points. Otherwise `k` seeds are picked and assignment passes alternate
     * with centroid updates until a pass changes no tag or `maxIterations`
     * passes have run (at least one pass always runs).
     */
    method Run(points: seq<Point>)
      returns (outcome: Outcome, ghost picked: seq<int>, ghost trace: seq<RunState>, ghost flags: seq<bool>,
               ghost lastCents: seq<seq<real>>)
      requires clusters == [] && k >= 1 && |points| == totalPoints
      requires DistinctPoints(points) && DistinctIds(Snapshot(points))
      requires forall i :: 0 <= i < |points| ==> |points[i].values| == totalValues
      requires forall i :: 0 <= i < |points| ==> points[i].cluster == Unassigned
      modifies this, points
      ensures k > totalPoints ==> outcome == TooFewPoints && clusters == [] && unchanged(points)
      ensures k <= totalPoints ==> outcome.Finished?
      ensures outcome.Finished? ==>
                && 1 <= outcome.iterations
                && (outcome.iterations <= maxIterations || outcome.iterations == 1)
                && (outcome.converged || outcome.iterations >= maxIterations)
      ensures outcome.Finished? ==>
                && ClustersMade() && Stable()
                && Coherent(Snapshot(points), Members(), Centroids())
                && (forall i :: 0 <= i < |points| ==> 0 <= points[i].cluster < k)
      ensures outcome.Finished? ==>
                && Fits(lastCents, Members()) && AllNearest(Snapshot(points), lastCents)
                && Centroids() == RecomputedAll(lastCents, Members())
      ensures outcome.Finished? && outcome.converged ==> AllNearest(Snapshot(points), Centroids())
      ensures outcome.Finished? && outcome.converged ==> PassUpTo(Snapshot(points), Members(), Centroids(), |points|).2
      ensures outcome.Finished? ==>
                && |picked| == k && DistinctIndices(picked, totalPoints) && |trace| >= 1
                && trace[0] == SeedState(old(Snapshot(points)), picked)
      ensures outcome.Finished? ==>
                && IsTrace(trace, flags) && |flags| == outcome.iterations
                && trace[outcome.iterations] == RunState(Snapshot(points), Members(), Centroids())
                && lastCents == trace[outcome.iterations - 1].cents
                && outcome.converged == flags[outcome.iterations - 1]
                && true !in flags[..outcome.iterations - 1]
    {
      if k > totalPoints {
        return TooFewPoints, [], [], [], [];
      }
      ghost var seeded;
      picked, seeded := SeedRun(points);
      var iterations, converged;
      iterations, converged, trace, flags := Iterate(points, seeded);
      outcome := Finished(iterations, converged);
      lastCents := trace[iterations - 1].cents;
      TagsInRange(points, lastCents);
      if converged {
        PassUpToFixed(Snapshot(points), Members(), Centroids(), |points|);
      }
    }

    /**
     * The seeding part of a run on fresh points: `k` distinct indices are
     * picked, and the new state, the seeding of those indices, is ready for
     * the first iteration.
     */
    method SeedRun(points: seq<Point>) returns (picked: seq<int>, ghost seeded: RunState)
      requires clusters == [] && 1 <= k <= totalPoints == |points|
      requires DistinctPoints(points) && DistinctIds(Snapshot(points))
      requires forall i :: 0 <= i < |points| ==> |points[i].values| == totalValues
      requires forall i :: 0 <= i < |points| ==> points[i].cluster == Unassigned
      modifies this, points
      ensures ClustersMade() && forall c :: 0 <= c < |clusters| ==> fresh(clusters[c])
      ensures |picked| == k && DistinctIndices(picked, totalPoints)
      ensures seeded == SeedState(old(Snapshot(points)), picked)
      ensures RunState(Snapshot(points), Members(), Centroids()) == seeded
      ensures Coherent(seeded.pts, seeded.mems, seeded.cents)
      ensures Fits(seeded.cents, seeded.mems) && AllStable(seeded.cents, seeded.mems)
    {
      ghost var pts0 := Snapshot(points);
      ghost var made;
      picked, made := Seed(points);
      seeded := RunState(Snapshot(points), Members(), Centroids());
      SeedDone(pts0, picked, seeded.pts, seeded.mems, seeded.cents);
    }

    /**
     * The iteration loop of a run, from seeded clusters: assignment passes
     * alternate with centroid updates until a pass changes no tag or
     * `maxIterations` passes have run. The ghost `trace` and `flags` record
     * the state after each iteration and the `done` flag of each pass.
     */
    method Iterate(points: seq<Point>, ghost s0: RunState)
      returns (iterations: int, converged: bool, ghost trace: seq<RunState>, ghost flags: seq<bool>)
      requires ClustersMade() && k >= 1 && |points| == totalPoints && DistinctPoints(points)
      requires Snapshot(points) == s0.pts && Members() == s0.mems && Centroids() == s0.cents
      requires Coherent(s0.pts, s0.mems, s0.cents) && Fits(s0.cents, s0.mems) && AllStable(s0.cents, s0.mems)
      modifies points, clusters
      ensures 1 <= iterations && (iterations <= maxIterations || iterations == 1)
      ensures converged || iterations >= maxIterations
      ensures ClustersMade() && Stable()
      ensures Coherent(Snapshot(points), Members(), Centroids())
      ensures IsTrace(trace, flags) && |flags| == iterations
      ensures trace[0] == s0
      ensures trace[iterations] == RunState(Snapshot(points), Members(), Centroids())
      ensures converged == flags[iterations - 1]
      ensures true !in flags[..iterations - 1]
      ensures Fits(trace[iterations - 1].cents, Members())
      ensures AllNearest(Snapshot(points), trace[iterations - 1].cents)
      ensures Centroids() == RecomputedAll(trace[iterations - 1].cents, Members())
      ensures converged ==> AllNearest(Snapshot(points), Centroids())
    {
      ghost var pts, mems, cents := s0.pts, s0.mems, s0.cents;
      trace, flags := [s0], [];
      iterations := 1;
      while true
        invariant 1 <= iterations && (iterations <= maxIterations || iterations == 1)
        invariant ClustersMade() && clusters == old(clusters)
        invariant Snapshot(points) == pts && Members() == mems && Centroids() == cents
        invariant Coherent(pts, mems, cents) && Fits(cents, mems) && AllStable(cents, mems)
        invariant IsTrace(trace, flags) && |flags| == iterations - 1
        invariant trace[0] == s0
        invariant trace[iterations - 1] == RunState(pts, mems, cents)
        invariant true !in flags
        decreases maxIterations - iterations
      {
        converged, pts, mems, cents, trace, flags := Iteration(points, pts, mems, cents, trace, flags);
        if converged || iterations >= maxIterations {
          return;
        }
        iterations := iterations + 1;
      }
    }

    /**
     * One iteration: an assignment pass, then every centroid recomputed from
     * the new member lists. When the pass changed no tag, the centroids do
     * not move and every point is tagged with its nearest centroid.
     */
    method Iteration(points: seq<Point>, ghost pts: seq<PointCopy>, ghost mems: seq<seq<PointCopy>>,
                     ghost cents: seq<seq<real>>, ghost trace: seq<RunState>, ghost flags: seq<bool>)
      returns (done: bool, ghost pts': seq<PointCopy>, ghost mems': seq<seq<PointCopy>>,
               ghost cents': seq<seq<real>>, ghost trace': seq<RunState>, ghost flags': seq<bool>)
      requires ClustersMade() && k >= 1 && |points| == totalPoints && DistinctPoints(points)
      requires Snapshot(points) == pts && Members() == mems && Centroids() == cents
      requires Coherent(pts, mems, cents) && Fits(cents, mems) && AllStable(cents, mems)
      requires IsTrace(trace, flags) && trace[|trace| - 1] == RunState(pts, mems, cents)
      modifies points, clusters
      ensures ClustersMade() && clusters == old(clusters)
      ensures Snapshot(points) == pts' && Members() == mems' && Centroids() == cents'
      ensures trace' == trace + [RunState(pts', mems', cents')] && flags' == flags + [done]
      ensures IsTrace(trace', flags')
      ensures pts' == PassUpTo(pts, mems, cents, |pts|).0 && mems' == PassUpTo(pts, mems, cents, |pts|).1
      ensures Coherent(pts', mems', cents) && Fits(cents, mems')
      ensures cents' == RecomputedAll(cents, mems')
      ensures Coherent(pts', mems', cents') && Fits(cents', mems') && AllStable(cents', mems')
      ensures forall j :: 0 <= j < |pts'| ==> 0 <= pts'[j].cluster < k
      ensures AllNearest(pts', cents)
      ensures done == PassUpTo(pts, mems, cents, |pts|).2
      ensures done <==> SameTags(pts', pts)
      ensures done ==> cents' == cents && AllNearest(pts', cents')
    {
      done, pts', mems' := AssignPass(points, pts, mems, cents);
      PassResult(pts, mems, cents);
      RecomputedAllDimensioned(cents, mems', totalValues);
      RecomputedAllStable(cents, mems');
      UpdateCentroids(points, pts', mems', cents);
      cents' := RecomputedAll(cents, mems');
      TraceNext(trace, flags, RunState(pts', mems', cents'), done);
      trace', flags' := trace + [RunState(pts', mems', cents')], flags + [done];
    }
  }

  /** Fewer than `n` picks cannot cover every index below `n`. */
  lemma {:induction false} FreeIndex(picked: seq<int>, n: int)
    requires |picked| < n
    ensures exists x :: 0 <= x < n && x !in picked
  {
    if n - 1 in picked {
      var j :| 0 <= j < |picked| && picked[j] == n - 1;
      var rest := picked[..j] + picked[j + 1..];
      FreeIndex(rest, n - 1);
      var x :| 0 <= x < n - 1 && x !in rest;
      assert picked == picked[..j] + [picked[j]] + picked[j + 1..];
      assert x !in picked;
    } else {
      assert 0 <= n - 1 < n;
    }
  }
}
