/** Centroids as per-coordinate means of the member copies of a cluster. */
module Means {
  import opened Points
  import Clusters

  /** Every copy in `ms` has exactly `d` coordinates. */
  predicate HasDimension(ms: seq<PointCopy>, d: int)
  {
    forall k :: 0 <= k < |ms| ==> |ms[k].values| == d
  }

  /** Sum of coordinate `j` over the copies in `ms`, added in list order. */
  function SumCoord(ms: seq<PointCopy>, j: nat): real
    requires forall k :: 0 <= k < |ms| ==> j < |ms[k].values|
  {
    if ms == [] then 0.0 else SumCoord(ms[..|ms| - 1], j) + ms[|ms| - 1].values[j]
  }

  /** Arithmetic mean of coordinate `j` over a non-empty list of copies. */
  function Mean(ms: seq<PointCopy>, j: nat): real
    requires ms != [] && forall k :: 0 <= k < |ms| ==> j < |ms[k].values|
  {
    SumCoord(ms, j) / |ms| as real
  }

  /**
   * The centroid after one recomputation: the mean of the members in every
   * coordinate, or the previous centroid when the cluster has no member.
   */
  function Recomputed(centroid: seq<real>, ms: seq<PointCopy>): (r: seq<real>)
    requires HasDimension(ms, |centroid|)
    ensures |r| == |centroid|
  {
    if ms == [] then centroid
    else seq(|centroid|, j requires 0 <= j < |centroid| => Mean(ms, j))
  }

  /** Sums split over concatenation. */
  lemma {:induction false} SumAppend(a: seq<PointCopy>, b: seq<PointCopy>, j: nat)
    requires forall k :: 0 <= k < |a| ==> j < |a[k].values|
    requires forall k :: 0 <= k < |b| ==> j < |b[k].values|
    ensures SumCoord(a + b, j) == SumCoord(a, j) + SumCoord(b, j)
  {
    if b != [] {
      var n := |b| - 1;
      assert (a + b)[..|a + b| - 1] == a + b[..n];
      SumAppend(a, b[..n], j);
    } else {
      assert a + b == a;
    }
  }

  /** Taking one member out of the list takes its coordinate out of the sum. */
  lemma SumRemoveAt(b: seq<PointCopy>, i: nat, j: nat)
    requires i < |b|
    requires forall k :: 0 <= k < |b| ==> j < |b[k].values|
    ensures SumCoord(b, j) == SumCoord(b[..i] + b[i + 1..], j) + b[i].values[j]
  {
    var x := b[i];
    assert b == (b[..i] + [x]) + b[i + 1..];
    SumAppend(b[..i] + [x], b[i + 1..], j);
    SumAppend(b[..i], [x], j);
    SumAppend(b[..i], b[i + 1..], j);
    assert SumCoord([x], j) == x.values[j] by { assert [x][..0] == []; }
  }

  /** Cancelling the same element from two equal multisets leaves them equal. */
  lemma MultisetCancel(a: seq<PointCopy>, b: seq<PointCopy>, i: nat)
    requires multiset(a) == multiset(b) && a != []
    requires i < |b| && b[i] == a[|a| - 1]
    ensures multiset(a[..|a| - 1]) == multiset(b[..i] + b[i + 1..])
  {
    var n := |a| - 1;
    Clusters.DropAtMultiset(a, n);
    assert a[..n] + a[n + 1..] == a[..n];
    Clusters.DropAtMultiset(b, i);
  }

  /** The sum of a coordinate does not depend on the order the members were added in. */
  lemma {:induction false} SumPermutation(a: seq<PointCopy>, b: seq<PointCopy>, j: nat)
    requires multiset(a) == multiset(b)
    requires forall k :: 0 <= k < |a| ==> j < |a[k].values|
    requires forall k :: 0 <= k < |b| ==> j < |b[k].values|
    ensures SumCoord(a, j) == SumCoord(b, j)
  {
    if a != [] {
      var n := |a| - 1;
      assert a[n] in multiset(b) by { assert a[n] in a; }
      var i :| 0 <= i < |b| && b[i] == a[n];
      var rest := b[..i] + b[i + 1..];
      MultisetCancel(a, b, i);
      forall k | 0 <= k < |rest| ensures j < |rest[k].values| {
        assert rest[k] == if k < i then b[k] else b[k + 1];
      }
      SumPermutation(a[..n], rest, j);
      SumRemoveAt(b, i, j);
    }
  }

  /** A permutation of the members has the same mean. */
  lemma MeanPermutation(a: seq<PointCopy>, b: seq<PointCopy>, j: nat)
    requires multiset(a) == multiset(b) && a != []
    requires forall k :: 0 <= k < |a| ==> j < |a[k].values|
    requires forall k :: 0 <= k < |b| ==> j < |b[k].values|
    ensures b != []
    ensures Mean(a, j) == Mean(b, j)
  {
    SumPermutation(a, b, j);
    assert |a| == |multiset(a)| == |b|;
  }

  /** Bounds on every member's coordinate bound the sum. */
  lemma {:induction false} SumBounds(ms: seq<PointCopy>, j: nat, lo: real, hi: real)
    requires forall k :: 0 <= k < |ms| ==> j < |ms[k].values| && lo <= ms[k].values[j] <= hi
    ensures |ms| as real * lo <= SumCoord(ms, j) <= |ms| as real * hi
  {
    if ms != [] {
      SumBounds(ms[..|ms| - 1], j, lo, hi);
    }
  }

  /** The mean lies between the smallest and the largest member coordinate. */
  lemma MeanBounds(ms: seq<PointCopy>, j: nat, lo: real, hi: real)
    requires ms != []
    requires forall k :: 0 <= k < |ms| ==> j < |ms[k].values| && lo <= ms[k].values[j] <= hi
    ensures lo <= Mean(ms, j) <= hi
  {
    SumBounds(ms, j, lo, hi);
    DivideBounds(SumCoord(ms, j), |ms| as real, lo, hi);
  }

  /** Dividing by a positive count keeps bounds scaled by that count. */
  lemma DivideBounds(s: real, n: real, lo: real, hi: real)
    requires n > 0.0 && n * lo <= s <= n * hi
    ensures lo <= s / n <= hi
  {
    assert lo == (n * lo) / n;
    assert hi == (n * hi) / n;
  }

  /** A single member is its own centroid. */
  lemma RecomputedSingleton(centroid: seq<real>, p: PointCopy)
    requires p.values == centroid
    ensures Recomputed(centroid, [p]) == centroid
  {
    forall j | 0 <= j < |centroid| ensures Recomputed(centroid, [p])[j] == centroid[j] {
      assert [p][..0] == [];
      assert SumCoord([p], j) == p.values[j];
    }
  }

  /**
   * Recomputing twice over the same members changes nothing the second time:
   * a centroid that is already the mean of its members stays where it is.
   */
  lemma RecomputedIdempotent(centroid: seq<real>, ms: seq<PointCopy>)
    requires HasDimension(ms, |centroid|)
    ensures Recomputed(Recomputed(centroid, ms), ms) == Recomputed(centroid, ms)
  {
  }

  /** One member list per centroid, each member with the dimension of its centroid. */
  predicate Fits(cents: seq<seq<real>>, mems: seq<seq<PointCopy>>)
  {
    |cents| == |mems| && forall c :: 0 <= c < |cents| ==> HasDimension(mems[c], |cents[c]|)
  }

  /**
   * The members fit their centroids, and every centroid has `d` coordinates:
   * `Fits` with one dimension shared by all clusters, as in a run.
   */
  predicate Dimensioned(cents: seq<seq<real>>, mems: seq<seq<PointCopy>>, d: int)
  {
    && |cents| == |mems|
    && (forall c :: 0 <= c < |cents| ==> |cents[c]| == d)
    && (forall c :: 0 <= c < |mems| ==> HasDimension(mems[c], d))
  }

  /** Every centroid recomputed from its cluster's members. */
  function RecomputedAll(cents: seq<seq<real>>, mems: seq<seq<PointCopy>>): (r: seq<seq<real>>)
    requires Fits(cents, mems)
    ensures |r| == |cents| && forall c :: 0 <= c < |r| ==> |r[c]| == |cents[c]|
  {
    seq(|cents|, c requires 0 <= c < |cents| => Recomputed(cents[c], mems[c]))
  }

  /** Recomputing would move no centroid. */
  predicate AllStable(cents: seq<seq<real>>, mems: seq<seq<PointCopy>>)
    requires Fits(cents, mems)
  {
    forall c :: 0 <= c < |cents| ==> cents[c] == Recomputed(cents[c], mems[c])
  }

  /**
   * After one recomputation every centroid is stable, and stable centroids are
   * exactly the fixed points of recomputation.
   */
  lemma RecomputedAllStable(cents: seq<seq<real>>, mems: seq<seq<PointCopy>>)
    requires Fits(cents, mems)
    ensures Fits(RecomputedAll(cents, mems), mems)
    ensures AllStable(RecomputedAll(cents, mems), mems)
    ensures AllStable(cents, mems) <==> RecomputedAll(cents, mems) == cents
  {
    var r := RecomputedAll(cents, mems);
    forall c | 0 <= c < |cents| ensures r[c] == Recomputed(r[c], mems[c]) {
      RecomputedIdempotent(cents[c], mems[c]);
    }
    if AllStable(cents, mems) {
      assert r == cents;
    }
  }

  /** Recomputing keeps every centroid at the dimension of the points. */
  lemma RecomputedAllDimensioned(cents: seq<seq<real>>, mems: seq<seq<PointCopy>>, d: int)
    requires Dimensioned(cents, mems, d)
    ensures Fits(cents, mems) && Dimensioned(RecomputedAll(cents, mems), mems, d)
  {
  }

  /** Clusters that hold only their own seed are stable. */
  lemma SeedsStable(cents: seq<seq<real>>, mems: seq<seq<PointCopy>>)
    requires |cents| == |mems|
    requires forall c :: 0 <= c < |mems| ==> |mems[c]| == 1 && mems[c][0].values == cents[c]
    ensures Fits(cents, mems) && AllStable(cents, mems)
  {
    forall c | 0 <= c < |cents| ensures cents[c] == Recomputed(cents[c], mems[c]) {
      assert mems[c] == [mems[c][0]];
      RecomputedSingleton(cents[c], mems[c][0]);
    }
  }
}
