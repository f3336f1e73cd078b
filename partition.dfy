/**
 * The relation between the points' cluster tags and the clusters' member
 * lists. A point records its cluster in its tag, and that cluster separately
 * keeps a copy of it; the engine keeps the two sides in step.
 */
module Partition {
  import opened Points
  import opened Clusters
  import opened Means

  /** The points tagged `c`, in index order. */
  function Tagged(pts: seq<PointCopy>, c: int): seq<PointCopy>
  {
    if pts == [] then []
    else (if pts[0].cluster == c then [pts[0]] else []) + Tagged(pts[1..], c)
  }

  /** A copy is listed under `c` exactly when it is one of the points and is tagged `c`. */
  lemma {:induction false} TaggedContains(pts: seq<PointCopy>, c: int, m: PointCopy)
    ensures m in Tagged(pts, c) <==> m in pts && m.cluster == c
  {
    if pts != [] {
      TaggedContains(pts[1..], c, m);
      assert pts == [pts[0]] + pts[1..];
    }
  }

  /**
   * Tags and member lists agree: every tag is unassigned or names a cluster,
   * and each cluster holds exactly the points tagged with its index, each
   * once, in some order.
   */
  predicate Consistent(pts: seq<PointCopy>, mems: seq<seq<PointCopy>>)
  {
    && (forall i :: 0 <= i < |pts| ==> Unassigned <= pts[i].cluster < |mems|)
    && (forall c {:trigger Tagged(pts, c)} :: 0 <= c < |mems| ==> multiset(mems[c]) == multiset(Tagged(pts, c)))
  }

  /** The point `pts[i]` retagged to `n`. */
  function Retag(pts: seq<PointCopy>, i: nat, n: int): seq<PointCopy>
    requires i < |pts|
  {
    pts[i := pts[i].(cluster := n)]
  }

  /**
   * Retagging one point moves its copy out of the list of its old tag and into
   * the list of its new tag; every other list is unchanged.
   */
  lemma TaggedRetag(pts: seq<PointCopy>, i: nat, n: int, c: int)
    requires i < |pts|
    ensures multiset(Tagged(Retag(pts, i, n), c))
              + (if pts[i].cluster == c then multiset{pts[i]} else multiset{})
            == multiset(Tagged(pts, c))
              + (if n == c then multiset{pts[i].(cluster := n)} else multiset{})
  {
    var p, p' := pts[i], pts[i].(cluster := n);
    var pre, post := pts[..i], pts[i + 1..];
    assert pts == pre + [p] + post;
    assert Retag(pts, i, n) == pre + [p'] + post;
    TaggedAppend(pre + [p], post, c);
    TaggedAppend(pre, [p], c);
    TaggedAppend(pre + [p'], post, c);
    TaggedAppend(pre, [p'], c);
    TaggedSingle(p, c);
    TaggedSingle(p', c);
  }

  /** Listing the points of a concatenation lists those of each part in turn. */
  lemma {:induction false} TaggedAppend(a: seq<PointCopy>, b: seq<PointCopy>, c: int)
    ensures Tagged(a + b, c) == Tagged(a, c) + Tagged(b, c)
  {
    if a == [] {
      assert a + b == b;
    } else {
      var head := if a[0].cluster == c then [a[0]] else [];
      assert (a + b)[0] == a[0] && (a + b)[1..] == a[1..] + b;
      assert Tagged(a + b, c) == head + Tagged(a[1..] + b, c);
      TaggedAppend(a[1..], b, c);
    }
  }

  lemma TaggedSingle(p: PointCopy, c: int)
    ensures Tagged([p], c) == if p.cluster == c then [p] else []
  {
    assert [p][1..] == [];
  }

  /** No point is tagged `c`, so nothing is listed under it. */
  lemma {:induction false} TaggedNone(pts: seq<PointCopy>, c: int)
    requires forall i :: 0 <= i < |pts| ==> pts[i].cluster != c
    ensures Tagged(pts, c) == []
  {
    if pts != [] {
      TaggedNone(pts[1..], c);
    }
  }

  /** Before seeding, every point is unassigned and there are no clusters. */
  lemma ConsistentInitially(pts: seq<PointCopy>)
    requires forall i :: 0 <= i < |pts| ==> pts[i].cluster == Unassigned
    ensures Consistent(pts, [])
  {
  }

  /**
   * Seeding step (program.cpp:226-229): an unassigned point `s` is tagged with
   * the next cluster index and becomes the only member of a new cluster.
   */
  lemma SeedKeepsConsistent(pts: seq<PointCopy>, mems: seq<seq<PointCopy>>, s: nat)
    requires Consistent(pts, mems)
    requires s < |pts| && pts[s].cluster == Unassigned
    ensures Consistent(Retag(pts, s, |mems|), mems + [[pts[s].(cluster := |mems|)]])
  {
    var k := |mems|;
    var q := Retag(pts, s, k);
    var mems' := mems + [[pts[s].(cluster := k)]];
    forall c | 0 <= c < |mems'|
      ensures multiset(mems'[c]) == multiset(Tagged(q, c))
    {
      if c == k {
        TaggedNone(pts, k);
        TaggedRetagIn(pts, s, k);
      } else {
        assert mems'[c] == mems[c];
        TaggedRetagOther(pts, s, k, c);
      }
    }
  }

  /** The member a cluster erases when point `i` leaves it is the copy of point `i`. */
  lemma RemoveFindsPoint(pts: seq<PointCopy>, ms: seq<PointCopy>, i: nat)
    requires DistinctIds(pts) && i < |pts|
    requires multiset(ms) == multiset(Tagged(pts, pts[i].cluster))
    ensures IndexOfId(ms, pts[i].id) < |ms|
    ensures ms[IndexOfId(ms, pts[i].id)] == pts[i]
  {
    var o := pts[i].cluster;
    TaggedContains(pts, o, pts[i]);
    assert pts[i] in multiset(ms);
    var k :| 0 <= k < |ms| && ms[k] == pts[i];
    var f := IndexOfId(ms, pts[i].id);
    assert f <= k;
    assert ms[f] in multiset(Tagged(pts, o));
    TaggedContains(pts, o, ms[f]);
    var j :| 0 <= j < |pts| && pts[j] == ms[f];
    assert pts[j].id == pts[i].id;
  }

  /** Member lists after point `i` moves from its current cluster to cluster `n`. */
  function MovedMembers(pts: seq<PointCopy>, mems: seq<seq<PointCopy>>, i: nat, n: nat): seq<seq<PointCopy>>
    requires i < |pts| && n < |mems| && Unassigned <= pts[i].cluster < |mems|
  {
    var o := pts[i].cluster;
    var left := if o != Unassigned then mems[o := RemoveFirst(mems[o], pts[i].id)] else mems;
    left[n := left[n] + [pts[i].(cluster := n)]]
  }

  /**
   * Assignment step (program.cpp:247-255): retagging a point to a different
   * cluster, erasing it from its old cluster and appending it to the new one
   * keeps tags and member lists consistent; the erase always finds the point.
   */
  lemma MoveKeepsConsistent(pts: seq<PointCopy>, mems: seq<seq<PointCopy>>, i: nat, n: nat)
    requires Consistent(pts, mems) && DistinctIds(pts)
    requires i < |pts| && n < |mems| && pts[i].cluster != n
    ensures pts[i].cluster != Unassigned ==>
              IndexOfId(mems[pts[i].cluster], pts[i].id) < |mems[pts[i].cluster]|
    ensures Consistent(Retag(pts, i, n), MovedMembers(pts, mems, i, n))
  {
    var o := pts[i].cluster;
    if o != Unassigned {
      RemoveFindsPoint(pts, mems[o], i);
    }
    var mems' := MovedMembers(pts, mems, i, n);
    forall c | 0 <= c < |mems'|
      ensures multiset(mems'[c]) == multiset(Tagged(Retag(pts, i, n), c))
    {
      assert multiset(mems[c]) == multiset(Tagged(pts, c));
      if c == n {
        assert mems'[c] == mems[c] + [pts[i].(cluster := n)];
        MoveIntoList(pts, mems[c], i, n);
      } else if c == o {
        assert mems'[c] == RemoveFirst(mems[c], pts[i].id);
        MoveOutOfList(pts, mems[c], i, n);
      } else {
        assert mems'[c] == mems[c];
        TaggedRetagOther(pts, i, n, c);
      }
    }
  }

  /** The cluster a point moves into gains exactly that point, retagged. */
  lemma MoveIntoList(pts: seq<PointCopy>, ms: seq<PointCopy>, i: nat, n: int)
    requires i < |pts| && pts[i].cluster != n
    requires multiset(ms) == multiset(Tagged(pts, n))
    ensures multiset(ms + [pts[i].(cluster := n)]) == multiset(Tagged(Retag(pts, i, n), n))
  {
    TaggedRetagIn(pts, i, n);
  }

  /** The cluster a point leaves loses exactly that point. */
  lemma MoveOutOfList(pts: seq<PointCopy>, ms: seq<PointCopy>, i: nat, n: int)
    requires DistinctIds(pts) && i < |pts| && pts[i].cluster != n
    requires multiset(ms) == multiset(Tagged(pts, pts[i].cluster))
    ensures multiset(RemoveFirst(ms, pts[i].id)) == multiset(Tagged(Retag(pts, i, n), pts[i].cluster))
  {
    var p := pts[i];
    RemoveFindsPoint(pts, ms, i);
    RemoveFirstMultiset(ms, p.id);
    var removed := multiset(RemoveFirst(ms, p.id));
    assert removed == multiset(ms) - multiset{p};
    TaggedRetagOut(pts, i, n);
  }

  /** Retagging a point away from its tag takes exactly its copy out of that tag's list. */
  lemma TaggedRetagOut(pts: seq<PointCopy>, i: nat, n: int)
    requires i < |pts| && pts[i].cluster != n
    ensures multiset(Tagged(Retag(pts, i, n), pts[i].cluster))
            == multiset(Tagged(pts, pts[i].cluster)) - multiset{pts[i]}
  {
    var o := pts[i].cluster;
    var after, before := multiset(Tagged(Retag(pts, i, n), o)), multiset(Tagged(pts, o));
    TaggedRetag(pts, i, n, o);
    assert after + multiset{pts[i]} == before + multiset{};
    MultisetTakeBack(after, before, pts[i]);
  }

  /** Retagging a point to `n` adds exactly its retagged copy to the list of `n`. */
  lemma TaggedRetagIn(pts: seq<PointCopy>, i: nat, n: int)
    requires i < |pts| && pts[i].cluster != n
    ensures multiset(Tagged(Retag(pts, i, n), n))
            == multiset(Tagged(pts, n)) + multiset{pts[i].(cluster := n)}
  {
    var after, before := multiset(Tagged(Retag(pts, i, n), n)), multiset(Tagged(pts, n));
    TaggedRetag(pts, i, n, n);
    assert after + multiset{} == before + multiset{pts[i].(cluster := n)};
    assert after + multiset{} == after;
  }

  /** Retagging a point leaves the list of every third tag alone. */
  lemma TaggedRetagOther(pts: seq<PointCopy>, i: nat, n: int, c: int)
    requires i < |pts| && pts[i].cluster != c && n != c
    ensures multiset(Tagged(Retag(pts, i, n), c)) == multiset(Tagged(pts, c))
  {
    var after, before := multiset(Tagged(Retag(pts, i, n), c)), multiset(Tagged(pts, c));
    TaggedRetag(pts, i, n, c);
    assert after + multiset{} == before + multiset{};
    assert after + multiset{} == after && before + multiset{} == before;
  }

  lemma MultisetTakeBack(a: multiset<PointCopy>, b: multiset<PointCopy>, p: PointCopy)
    requires a + multiset{p} == b + multiset{}
    ensures a == b - multiset{p}
  {
    assert b + multiset{} == b;
  }

  /** Retagging a point with the tag it already has changes nothing. */
  lemma RetagSame(pts: seq<PointCopy>, i: nat, n: int)
    requires i < |pts| && pts[i].cluster == n
    ensures Retag(pts, i, n) == pts
  {
    assert pts[i].(cluster := n) == pts[i];
  }

  /** Retagging only changes the tag, so ids stay distinct. */
  lemma RetagKeepsIds(pts: seq<PointCopy>, i: nat, n: int)
    requires i < |pts| && DistinctIds(pts)
    ensures DistinctIds(Retag(pts, i, n))
  {
  }

  /**
   * Partition, stated with identifiers: under consistency and distinct ids,
   * point `i`'s identifier occurs exactly once in the member list of the
   * cluster its tag names and in no other cluster.
   */
  lemma PartitionById(pts: seq<PointCopy>, mems: seq<seq<PointCopy>>, i: nat, c: nat)
    requires Consistent(pts, mems) && DistinctIds(pts)
    requires i < |pts| && c < |mems|
    ensures CountId(mems[c], pts[i].id) == if pts[i].cluster == c then 1 else 0
  {
    forall k | 0 <= k < |mems[c]| && mems[c][k].id == pts[i].id
      ensures mems[c][k] == pts[i]
    {
      assert mems[c][k] in multiset(Tagged(pts, c));
      TaggedContains(pts, c, mems[c][k]);
    }
    CountIdMultiplicity(mems[c], pts[i]);
    TaggedMultiplicity(pts, i, c);
  }

  /** When every copy with `x`'s id is `x` itself, counting ids counts copies of `x`. */
  lemma {:induction false} CountIdMultiplicity(ms: seq<PointCopy>, x: PointCopy)
    requires forall k :: 0 <= k < |ms| && ms[k].id == x.id ==> ms[k] == x
    ensures CountId(ms, x.id) == multiset(ms)[x]
  {
    if ms != [] {
      assert ms == [ms[0]] + ms[1..];
      CountIdMultiplicity(ms[1..], x);
    }
  }

  /** With distinct ids, point `i` is listed once under its own tag and nowhere else. */
  lemma {:induction false} TaggedMultiplicity(pts: seq<PointCopy>, i: nat, c: int)
    requires DistinctIds(pts) && i < |pts|
    ensures multiset(Tagged(pts, c))[pts[i]] == if pts[i].cluster == c then 1 else 0
  {
    var head := if pts[0].cluster == c then [pts[0]] else [];
    assert Tagged(pts, c) == head + Tagged(pts[1..], c);
    if i == 0 {
      assert pts[0] !in pts[1..];
      TaggedContains(pts[1..], c, pts[0]);
    } else {
      TaggedMultiplicity(pts[1..], i - 1, c);
      assert pts[0] != pts[i];
    }
  }

  /** Every member of a cluster is the copy of a point tagged with that cluster. */
  lemma MemberIsPoint(pts: seq<PointCopy>, mems: seq<seq<PointCopy>>, c: nat, m: PointCopy)
    requires Consistent(pts, mems) && c < |mems| && m in mems[c]
    ensures m.cluster == c
    ensures exists i :: 0 <= i < |pts| && pts[i] == m
  {
    assert m in multiset(Tagged(pts, c));
    TaggedContains(pts, c, m);
  }

  /**
   * The centroid recomputed from a cluster's member list equals the one
   * recomputed from the points tagged with it, whatever order they were added in.
   */
  lemma RecomputedTagged(pts: seq<PointCopy>, mems: seq<seq<PointCopy>>, c: nat, centroid: seq<real>)
    requires Consistent(pts, mems) && c < |mems|
    requires HasDimension(mems[c], |centroid|)
    ensures HasDimension(Tagged(pts, c), |centroid|)
    ensures Recomputed(centroid, mems[c]) == Recomputed(centroid, Tagged(pts, c))
  {
    var a, b := mems[c], Tagged(pts, c);
    forall k | 0 <= k < |b| ensures |b[k].values| == |centroid| {
      assert b[k] in multiset(a);
    }
    assert |a| == |multiset(a)| == |b|;
    if a != [] {
      forall j | 0 <= j < |centroid|
        ensures Recomputed(centroid, a)[j] == Recomputed(centroid, b)[j]
      {
        MeanPermutation(a, b, j);
      }
    }
  }

  /** When all points have `d` coordinates, so do all members of every cluster. */
  lemma ConsistentDimension(pts: seq<PointCopy>, mems: seq<seq<PointCopy>>, d: int)
    requires Consistent(pts, mems)
    requires forall i :: 0 <= i < |pts| ==> |pts[i].values| == d
    ensures forall c :: 0 <= c < |mems| ==> HasDimension(mems[c], d)
  {
    forall c, k | 0 <= c < |mems| && 0 <= k < |mems[c]| ensures |mems[c][k].values| == d {
      MemberIsPoint(pts, mems, c, mems[c][k]);
    }
  }
}
