/** Points of the cloud: a fixed coordinate vector and a mutable cluster tag. */
module Points {

  /** The tag a point carries before the engine assigns it to a cluster. */
  const Unassigned: int := -1

  /**
   * A point held by value. A cluster keeps copies of the points it contains,
   * so what it stores is the state of the point at the moment it was copied.
   */
  datatype PointCopy = PointCopy(id: int, values: seq<real>, cluster: int, name: string)

  /** One point of the cloud; only its cluster tag changes after construction. */
  class Point {
    const id: int
    const values: seq<real>
    const totalValues: int
    const name: string
    var cluster: int

    /** A new point is unassigned and has as many coordinates as it was given. */
    constructor (id: int, values: seq<real>, name: string)
      ensures this.id == id && this.values == values && this.name == name
      ensures totalValues == |values|
      ensures cluster == Unassigned
    {
      this.id := id;
      this.totalValues := |values|;
      this.values := values;
      this.name := name;
      this.cluster := Unassigned;
    }

    function GetID(): int
    {
      id
    }

    /** Retags the point; nothing else about it changes. */
    method SetCluster(idCluster: int)
      modifies this
      ensures cluster == idCluster
    {
      cluster := idCluster;
    }

    function GetCluster(): int
      reads this
    {
      cluster
    }

    function GetValue(index: int): real
      requires 0 <= index < |values|
    {
      values[index]
    }

    function GetTotalValues(): int
    {
      totalValues
    }

    function GetName(): string
    {
      name
    }

    /** The value a cluster stores when it is handed this point. */
    function Copy(): PointCopy
      reads this
    {
      PointCopy(id, values, cluster, name)
    }
  }

  /** The copies of a whole sequence of points, index by index. */
  ghost function Snapshot(points: seq<Point>): (s: seq<PointCopy>)
    reads points
    ensures |s| == |points|
    ensures forall i :: 0 <= i < |points| ==> s[i] == points[i].Copy()
  {
    seq(|points|, i requires 0 <= i < |points| reads points => points[i].Copy())
  }

  /** Point identifiers are pairwise distinct. */
  predicate DistinctIds(pts: seq<PointCopy>)
  {
    forall i, j :: 0 <= i < j < |pts| ==> pts[i].id != pts[j].id
  }
}
