/** Clusters: a centroid and the list of point copies currently assigned. */
module Clusters {
  import opened Points

  /** Position of the first copy carrying `idPoint`, or `|ms|` when no copy does. */
  function IndexOfId(ms: seq<PointCopy>, idPoint: int): (k: nat)
    ensures k <= |ms|
    ensures forall j :: 0 <= j < k ==> ms[j].id != idPoint
    ensures k < |ms| ==> ms[k].id == idPoint
  {
    if ms == [] then 0
    else if ms[0].id == idPoint then 0
    else 1 + IndexOfId(ms[1..], idPoint)
  }

  /** `ms` with its first copy carrying `idPoint` erased (unchanged when there is none). */
  function RemoveFirst(ms: seq<PointCopy>, idPoint: int): seq<PointCopy>
  {
    var k := IndexOfId(ms, idPoint);
    if k < |ms| then ms[..k] + ms[k + 1..] else ms
  }

  /** How many copies in `ms` carry the identifier `idPoint`. */
  function CountId(ms: seq<PointCopy>, idPoint: int): nat
  {
    if ms == [] then 0
    else (if ms[0].id == idPoint then 1 else 0) + CountId(ms[1..], idPoint)
  }

  /**
   * Erasing the first copy with `idPoint` lowers the number of copies with that
   * identifier by one when there was one, and leaves every other identifier's
   * count alone.
   */
  lemma {:induction false} RemoveFirstCount(ms: seq<PointCopy>, idPoint: int, x: int)
    ensures CountId(RemoveFirst(ms, idPoint), x) ==
      if x == idPoint && CountId(ms, idPoint) > 0 then CountId(ms, x) - 1 else CountId(ms, x)
  {
    var k := IndexOfId(ms, idPoint);
    if k < |ms| {
      var pre, post := ms[..k], ms[k + 1..];
      assert ms == pre + ([ms[k]] + post);
      CountIdConcat(pre, [ms[k]] + post, x);
      CountIdConcat(pre, [ms[k]] + post, idPoint);
      CountIdConcat([ms[k]], post, x);
      CountIdConcat([ms[k]], post, idPoint);
      CountIdConcat(pre, post, x);
      assert [ms[k]][1..] == [];
    } else {
      CountIdNone(ms, idPoint);
    }
  }

  /** Counting identifiers distributes over concatenation. */
  lemma {:induction false} CountIdConcat(a: seq<PointCopy>, b: seq<PointCopy>, x: int)
    ensures CountId(a + b, x) == CountId(a, x) + CountId(b, x)
  {
    if a == [] {
      assert a + b == b;
    } else {
      CountIdConcat(a[1..], b, x);
      assert (a + b)[1..] == a[1..] + b;
    }
  }

  /** A list in which no copy carries `x` counts none. */
  lemma {:induction false} CountIdNone(ms: seq<PointCopy>, x: int)
    requires forall j :: 0 <= j < |ms| ==> ms[j].id != x
    ensures CountId(ms, x) == 0
  {
    if ms != [] {
      CountIdNone(ms[1..], x);
    }
  }

  /** Erasing a present copy takes exactly that copy out of the multiset of members. */
  lemma RemoveFirstMultiset(ms: seq<PointCopy>, idPoint: int)
    requires IndexOfId(ms, idPoint) < |ms|
    ensures multiset(RemoveFirst(ms, idPoint)) == multiset(ms) - multiset{ms[IndexOfId(ms, idPoint)]}
  {
    var k := IndexOfId(ms, idPoint);
    DropAtMultiset(ms, k);
    assert RemoveFirst(ms, idPoint) == ms[..k] + ms[k + 1..];
  }

  /** Dropping the element at position `k` takes exactly that element out of the multiset. */
  lemma DropAtMultiset(ms: seq<PointCopy>, k: nat)
    requires k < |ms|
    ensures multiset(ms[..k] + ms[k + 1..]) == multiset(ms) - multiset{ms[k]}
  {
    assert ms == ms[..k] + [ms[k]] + ms[k + 1..];
  }

  class Cluster {
    const id: int
    var centroid: seq<real>
    var points: seq<PointCopy>

    /** A cluster starts at its seed point, which is its only member. */
    constructor (idCluster: int, point: Point)
      ensures id == idCluster
      ensures centroid == point.values
      ensures points == [point.Copy()]
    {
      id := idCluster;
      centroid := point.values;
      points := [point.Copy()];
    }

    /** Appends a copy of `point`; duplicates are not checked for. */
    method AddPoint(point: Point)
      modifies this
      ensures points == old(points) + [point.Copy()]
      ensures centroid == old(centroid)
    {
      points := points + [point.Copy()];
    }

    /**
     * Erases the first member whose identifier is `idPoint`, keeping the order
     * of the others, and reports whether one was found.
     */
    method RemovePoint(idPoint: int) returns (removed: bool)
      modifies this
      ensures removed <==> exists k :: 0 <= k < |old(points)| && old(points)[k].id == idPoint
      ensures removed ==> exists k :: 0 <= k < |old(points)| && old(points)[k].id == idPoint
                                      && (forall j :: 0 <= j < k ==> old(points)[j].id != idPoint)
                                      && points == old(points)[..k] + old(points)[k + 1..]
      ensures !removed ==> points == old(points)
      ensures points == RemoveFirst(old(points), idPoint)
      ensures centroid == old(centroid)
    {
      var totalPoints := |points|;
      var i := 0;
      while i < totalPoints
        invariant 0 <= i <= totalPoints == |points|
        invariant forall j :: 0 <= j < i ==> points[j].id != idPoint
      {
        if points[i].id == idPoint {
          assert IndexOfId(points, idPoint) == i by { IndexOfIdIs(points, idPoint, i); }
          points := points[..i] + points[i + 1..];
          return true;
        }
        i := i + 1;
      }
      assert IndexOfId(points, idPoint) == |points| by { IndexOfIdIs(points, idPoint, |points|); }
      return false;
    }

    function GetCentralValue(index: int): real
      reads this
      requires 0 <= index < |centroid|
    {
      centroid[index]
    }

    /** Overwrites one coordinate of the centroid; the members are untouched. */
    method SetCentralValue(index: int, value: real)
      requires 0 <= index < |centroid|
      modifies this
      ensures centroid == old(centroid)[index := value]
      ensures points == old(points)
    {
      centroid := centroid[index := value];
    }

    function GetPoint(index: int): PointCopy
      reads this
      requires 0 <= index < |points|
    {
      points[index]
    }

    function GetTotalPoints(): int
      reads this
    {
      |points|
    }

    function GetID(): int
    {
      id
    }
  }

  /** A position that satisfies the first-match description is the one `IndexOfId` finds. */
  lemma {:induction false} IndexOfIdIs(ms: seq<PointCopy>, idPoint: int, k: nat)
    requires k <= |ms|
    requires forall j :: 0 <= j < k ==> ms[j].id != idPoint
    requires k < |ms| ==> ms[k].id == idPoint
    ensures IndexOfId(ms, idPoint) == k
  {
    if ms != [] && ms[0].id != idPoint {
      IndexOfIdIs(ms[1..], idPoint, k - 1);
    }
  }
}
