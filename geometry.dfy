/**
 * Euclidean geometry used by the engine: squared distances and the
 * nearest-centroid choice with its lowest-index tie-break.
 */
module Geometry {

  function Square(x: real): real
  {
    x * x
  }

  /**
   * Squared Euclidean distance, summed coordinate by coordinate in index
   * order. The square root of the Euclidean distance is left out: it is monotone, so
   * comparing squared distances picks the same centroid.
   */
  function SqDist(a: seq<real>, b: seq<real>): (d: real)
    requires |a| == |b|
    ensures d >= 0.0
  {
    if |a| == 0 then 0.0
    else SqDist(a[..|a| - 1], b[..|b| - 1]) + Square(a[|a| - 1] - b[|b| - 1])
  }

  /** All centroids have the dimension of `x`. */
  predicate SameDimension(centroids: seq<seq<real>>, x: seq<real>)
  {
    forall c :: 0 <= c < |centroids| ==> |centroids[c]| == |x|
  }

  /**
   * The centroid among the first `n` that the scan over indices 0, 1, ..., n-1
   * keeps: a later centroid replaces the current best only when it is strictly
   * closer.
   */
  function NearestAmong(centroids: seq<seq<real>>, x: seq<real>, n: nat): (r: nat)
    requires 1 <= n <= |centroids| && SameDimension(centroids, x)
    ensures r < n
  {
    if n == 1 then 0
    else
      var best := NearestAmong(centroids, x, n - 1);
      if SqDist(centroids[n - 1], x) < SqDist(centroids[best], x) then n - 1 else best
  }

  /**
   * The scan over the first `n` centroids keeps one at least as close as each
   * of them and strictly closer than each before it.
   */
  lemma {:induction false} NearestAmongIsLowest(centroids: seq<seq<real>>, x: seq<real>, n: nat)
    requires 1 <= n <= |centroids| && SameDimension(centroids, x)
    ensures forall i :: 0 <= i < n ==>
      SqDist(centroids[NearestAmong(centroids, x, n)], x) <= SqDist(centroids[i], x)
    ensures forall i :: 0 <= i < NearestAmong(centroids, x, n) ==>
      SqDist(centroids[NearestAmong(centroids, x, n)], x) < SqDist(centroids[i], x)
  {
    if n > 1 {
      NearestAmongIsLowest(centroids, x, n - 1);
    }
  }

  /** Scanning one more centroid replaces the best so far only when the new one is strictly closer. */
  lemma NearestAmongNext(centroids: seq<seq<real>>, x: seq<real>, n: nat)
    requires 1 <= n < |centroids| && SameDimension(centroids, x)
    ensures NearestAmong(centroids, x, n + 1)
      == if SqDist(centroids[n], x) < SqDist(centroids[NearestAmong(centroids, x, n)], x)
         then n else NearestAmong(centroids, x, n)
  {
  }

  /** The index of the nearest centroid, ties going to the lowest index. */
  function Nearest(centroids: seq<seq<real>>, x: seq<real>): nat
    requires 1 <= |centroids| && SameDimension(centroids, x)
  {
    NearestAmong(centroids, x, |centroids|)
  }

  /** `r` is a closest centroid and every lower index is strictly farther. */
  predicate IsLowestNearest(centroids: seq<seq<real>>, x: seq<real>, r: int)
    requires SameDimension(centroids, x)
  {
    && 0 <= r < |centroids|
    && (forall i :: 0 <= i < |centroids| ==> SqDist(centroids[r], x) <= SqDist(centroids[i], x))
    && (forall i :: 0 <= i < r ==> SqDist(centroids[r], x) < SqDist(centroids[i], x))
  }

  /**
   * `Nearest` is characterised by `IsLowestNearest`: it satisfies it, and it is
   * the only index that does.
   */
  lemma NearestIsLowestNearest(centroids: seq<seq<real>>, x: seq<real>, r: int)
    requires 1 <= |centroids| && SameDimension(centroids, x)
    ensures IsLowestNearest(centroids, x, Nearest(centroids, x))
    ensures IsLowestNearest(centroids, x, r) <==> r == Nearest(centroids, x)
  {
    NearestAmongIsLowest(centroids, x, |centroids|);
  }

  /**
   * Of two centroids at the same position, the later one is never the
   * nearest: the scan keeps the earlier one, or one nearer still. So a point
   * that coincides with the seeds of several clusters goes, on the first
   * pass, to the lowest-numbered of them.
   */
  lemma TieGoesToFirst(centroids: seq<seq<real>>, x: seq<real>, a: nat, b: nat)
    requires 1 <= |centroids| && SameDimension(centroids, x)
    requires a < b < |centroids| && centroids[a] == centroids[b]
    ensures Nearest(centroids, x) != b
  {
    NearestIsLowestNearest(centroids, x, b);
  }
}
