/**
 * The closest-`n` search of playground/simple_pykdtree.py next to what its
 * naive counterpart promises. As written (`SimpleKdTree.Walk`), a node prunes
 * its far child whenever the split lies beyond the helper's current
 * `maxDistance`, even while the helper holds fewer than `n` points, so the
 * search can return too few points (`WalkStopsShort`). The corrected search
 * here also descends into the far child while the helper has room, and then
 * returns an `n`-closest choice from all the points of the tree.
 */
module ClosestSearch {
  import Geometry
  import opened SimpleKdTree

  // ---------------------------------------------------------------------------
  // The search as written returns too few points
  // ---------------------------------------------------------------------------

  /** The empty helper: no entries, `maxDistance` and `maxIndex` at -1. */
  const EmptyList: ListState := ListState([], -1.0, -1)

  /** The point one along x from `o`. */
  function Beside(o: Vector): Vector {
    Vector(o.x + 1.0, o.y, o.z)
  }

  /** The tree over `o` and `Beside(o)`: a node on x split one above `o` with one point in each leaf. */
  lemma BuildPair(o: Vector)
    ensures Build([o, Beside(o)], X) == Node(X, o.x + 1.0, Leaf([o]), Leaf([Beside(o)]))
  {
    var p := Beside(o);
    var key := v => Coordinate(v, X);
    assert [o, p][1..] == [p];
    assert [p][1..] == [];
    assert SortBy([p], key) == [p];
    assert SortByDimension([o, p], X) == InsertBy(o, [p], key) == [o, p];
    assert [o, p][..1] == [o] && [o, p][1..] == [p];
  }

  /** Showing `o`, measured from itself, to the empty helper with room for 2. */
  lemma ShowSelf(o: Vector)
    ensures OfferAll([o], EmptyList, o, 2) == ListState([Entry(o, 0.0)], 0.0, 0)
  {
    var e := Entry(o, DistanceSquared(o, o));
    assert e.distance == 0.0 by {
      assert Geometry.Square(o.x - o.x) == 0.0;
      assert Geometry.Square(o.y - o.y) == 0.0;
      assert Geometry.Square(o.z - o.z) == 0.0;
    }
    assert [o][..0] == [];
    assert OfferAll([o], EmptyList, o, 2) == Offer(EmptyList, 2, e);
  }

  /** The walk over that tree from `o`, 2 asked for: the left leaf alone. */
  lemma WalkPair(o: Vector)
    ensures Walk(Node(X, o.x + 1.0, Leaf([o]), Leaf([Beside(o)])), EmptyList, o, 2) ==
            ListState([Entry(o, 0.0)], 0.0, 0)
  {
    ShowSelf(o);
    assert !Geometry.ReachesUp(o.x, o.x + 1.0, 0.0) by {
      assert Geometry.Square(1.0) == 1.0;
    }
  }

  /**
   * Two points one apart on x, the nearest 2 asked for from the first: the
   * tree is a node whose left leaf holds the first point; showing it sets
   * `maxDistance` to 0, the split one farther on is out of reach, and the
   * search returns the first point alone, which is not a nearest-2 choice.
   */
  lemma WalkStopsShort(o: Vector)
    ensures EntryPoints(Walk(Build([o, Beside(o)], X), EmptyList, o, 2).entries) == [o]
    ensures !NearestChoice([o], [o, Beside(o)], o, 2)
  {
    BuildPair(o);
    WalkPair(o);
    assert EntryPoints([Entry(o, 0.0)]) == [o];
  }

  // ---------------------------------------------------------------------------
  // The corrected search
  // ---------------------------------------------------------------------------

  /**
   * A point at or above the split of a node, seen from a center strictly
   * below it, is no closer than `maxSq` when the split is out of reach.
   */
  lemma AboveIsFar(center: Vector, d: Dimension, split: real, maxSq: real, q: Vector)
    requires Coordinate(center, d) < split <= Coordinate(q, d)
    requires !Geometry.ReachesUp(Coordinate(center, d), split, maxSq)
    ensures maxSq <= DistanceSquared(center, q)
  {
    if 0.0 <= maxSq {
      var gap, reach := Coordinate(q, d) - Coordinate(center, d), split - Coordinate(center, d);
      Geometry.SquareMonotone(reach, gap);
      assert Geometry.Square(Coordinate(center, d) - Coordinate(q, d)) == Geometry.Square(gap);
    }
  }

  /**
   * A point at or below the split of a node, seen from a center at or above
   * it, is no closer than `maxSq` when the split is out of reach.
   */
  lemma BelowIsFar(center: Vector, d: Dimension, split: real, maxSq: real, q: Vector)
    requires Coordinate(q, d) <= split <= Coordinate(center, d)
    requires !Geometry.ReachesDown(Coordinate(center, d), split, maxSq)
    ensures maxSq <= DistanceSquared(center, q)
  {
    if 0.0 <= maxSq {
      var gap, reach := Coordinate(center, d) - Coordinate(q, d), Coordinate(center, d) - split;
      Geometry.SquareMonotone(reach, gap);
    }
  }

  /**
   * What the corrected search leaves behind: `shown` went to the helper,
   * `pruned` holds the rest of the points, and `pruned` is non-empty only
   * with a full list none of whose left-out points is closer than its
   * `maxDistance`.
   */
  ghost predicate Covered(s: ListState, shown: seq<Vector>, pruned: seq<Vector>, all: seq<Vector>, center: Vector, maxLength: nat) {
    multiset(shown) + multiset(pruned) == multiset(all) &&
    (pruned != [] ==> |s.entries| >= maxLength) &&
    forall q :: q in pruned ==> s.maxDistance <= DistanceSquared(center, q)
  }

  /**
   * A node after its near child and, when `visit`, its far child: covered by
   * the concatenations, the points pruned under the near child still rightly
   * pruned as the list settled, and the whole far child pruned otherwise.
   */
  lemma NodeCovered(visit: bool, s0: ListState, s1: ListState, s2: ListState, c0: seq<Vector>, c1: seq<Vector>, c2: seq<Vector>,
                    near: seq<Vector>, nearPruned: seq<Vector>, nearAll: seq<Vector>,
                    far: seq<Vector>, farPruned: seq<Vector>, farAll: seq<Vector>, all: seq<Vector>,
                    center: Vector, maxLength: nat)
    requires Covered(s1, near, nearPruned, nearAll, center, maxLength) && Settled(s0, s1, maxLength) && c1 == c0 + near
    requires visit ==> Covered(s2, far, farPruned, farAll, center, maxLength) && Settled(s1, s2, maxLength) && c2 == c1 + far
    requires !visit ==> s2 == s1 && c2 == c1 && far == [] && |s1.entries| >= maxLength
    requires !visit ==> forall q :: q in farAll ==> s1.maxDistance <= DistanceSquared(center, q)
    requires multiset(all) == multiset(nearAll) + multiset(farAll)
    ensures Covered(s2, near + far, nearPruned + (if visit then farPruned else farAll), all, center, maxLength)
    ensures Settled(s0, s2, maxLength) && c2 == c0 + (near + far)
  {
  }

  /** Below the split of a node and out of reach of it: every point of the right child is no closer than `maxSq`. */
  lemma RightIsFar(t: Tree, center: Vector, maxSq: real)
    requires t.Node? && Splits(t) && Coordinate(center, t.dimension) < t.splitPosition
    requires !Geometry.ReachesUp(Coordinate(center, t.dimension), t.splitPosition, maxSq)
    ensures forall q :: q in Points(t.right) ==> maxSq <= DistanceSquared(center, q)
  {
    forall q | q in Points(t.right)
      ensures maxSq <= DistanceSquared(center, q)
    {
      AboveIsFar(center, t.dimension, t.splitPosition, maxSq, q);
    }
  }

  /** At or above the split of a node and out of reach of it: every point of the left child is no closer than `maxSq`. */
  lemma LeftIsFar(t: Tree, center: Vector, maxSq: real)
    requires t.Node? && Splits(t) && Coordinate(center, t.dimension) >= t.splitPosition
    requires !Geometry.ReachesDown(Coordinate(center, t.dimension), t.splitPosition, maxSq)
    ensures forall q :: q in Points(t.left) ==> maxSq <= DistanceSquared(center, q)
  {
    forall q | q in Points(t.left)
      ensures maxSq <= DistanceSquared(center, q)
    {
      BelowIsFar(center, t.dimension, t.splitPosition, maxSq, q);
    }
  }

  /**
   * A valid helper that has seen `shown`, with the rest of `points` pruned
   * rightly, holds an `n`-closest choice from all of `points`.
   */
  lemma CoveredIsNearest(s: ListState, shown: seq<Vector>, pruned: seq<Vector>, points: seq<Vector>, center: Vector, n: nat)
    requires Keeps(s, shown, center, n) && Covered(s, shown, pruned, points, center, n)
    ensures NearestChoice(EntryPoints(s.entries), points, center, n)
  {
    var held := EntryPoints(s.entries);
    assert |held| <= |shown| by {
      assert |multiset(held)| <= |multiset(shown)|;
    }
    assert |shown| <= |points| by {
      assert |multiset(shown)| <= |multiset(points)|;
    }
    assert multiset(points) - multiset(held) == multiset(shown) - multiset(held) + multiset(pruned);
    forall p, q | p in held && q in multiset(points) - multiset(held)
      ensures DistanceSquared(center, p) <= DistanceSquared(center, q)
    {
      var i :| 0 <= i < |held| && held[i] == p;
      assert s.entries[i].distance <= s.maxDistance;
      if q !in multiset(shown) - multiset(held) {
        assert q in multiset(pruned);
      }
    }
  }

  /**
   * `findClosestNPoints(helper)` with the far child searched also while the
   * helper holds fewer than `maxLength` points.
   */
  method FindClosestIn(t: Tree, helper: ClosestNPointsList) returns (ghost shown: seq<Vector>, ghost pruned: seq<Vector>)
    requires helper.Valid() && Splits(t)
    modifies helper
    ensures helper.Valid()
    ensures helper.considered == old(helper.considered) + shown
    ensures Covered(helper.State(), shown, pruned, Points(t), helper.center, helper.maxLength)
    ensures Settled(old(helper.State()), helper.State(), helper.maxLength)
    decreases t, 3
  {
    match t
    case Leaf(points) =>
      ConsiderAll(points, helper);
      shown, pruned := points, [];
    case Node(d, split, _, _) =>
      if Coordinate(helper.center, d) < split {
        shown, pruned := NearLeft(t, helper);
      } else {
        shown, pruned := NearRight(t, helper);
      }
  }

  /** A node whose split lies above the center: the left child, then the right one unless full and out of reach. */
  method NearLeft(t: Tree, helper: ClosestNPointsList) returns (ghost shown: seq<Vector>, ghost pruned: seq<Vector>)
    requires t.Node? && Splits(t) && helper.Valid() && Coordinate(helper.center, t.dimension) < t.splitPosition
    modifies helper
    ensures helper.Valid()
    ensures helper.considered == old(helper.considered) + shown
    ensures Covered(helper.State(), shown, pruned, Points(t), helper.center, helper.maxLength)
    ensures Settled(old(helper.State()), helper.State(), helper.maxLength)
    decreases t, 2
  {
    ghost var c0, s0 := helper.considered, helper.State();
    ghost var near, nearPruned := Side(t, true, helper);
    shown, pruned := FarRight(t, helper, c0, s0, near, nearPruned);
  }

  /**
   * The rest of `NearLeft`: the right child unless the list is full and its
   * `maxDistance` does not reach the split.
   */
  method FarRight(t: Tree, helper: ClosestNPointsList, ghost c0: seq<Vector>, ghost s0: ListState,
                  ghost near: seq<Vector>, ghost nearPruned: seq<Vector>) returns (ghost shown: seq<Vector>, ghost pruned: seq<Vector>)
    requires t.Node? && Splits(t) && helper.Valid() && Coordinate(helper.center, t.dimension) < t.splitPosition
    requires helper.considered == c0 + near && Settled(s0, helper.State(), helper.maxLength)
    requires Covered(helper.State(), near, nearPruned, Points(t.left), helper.center, helper.maxLength)
    modifies helper
    ensures helper.Valid()
    ensures helper.considered == c0 + shown
    ensures Covered(helper.State(), shown, pruned, Points(t), helper.center, helper.maxLength)
    ensures Settled(s0, helper.State(), helper.maxLength)
    decreases t, 1
  {
    ghost var c1, s1 := helper.considered, helper.State();
    var visit := |helper.pointsWithDistance| < helper.maxLength ||
                 Geometry.ReachesUp(Coordinate(helper.center, t.dimension), t.splitPosition, helper.maxDistance);
    ghost var far, farPruned: seq<Vector> := [], [];
    if visit {
      far, farPruned := Side(t, false, helper);
    } else {
      RightIsFar(t, helper.center, helper.maxDistance);
    }
    NodeCovered(visit, s0, s1, helper.State(), c0, c1, helper.considered, near, nearPruned, Points(t.left),
                far, farPruned, Points(t.right), Points(t), helper.center, helper.maxLength);
    shown, pruned := near + far, nearPruned + (if visit then farPruned else Points(t.right));
  }

  /** A node whose split lies at or below the center: the right child, then the left one unless full and out of reach. */
  method NearRight(t: Tree, helper: ClosestNPointsList) returns (ghost shown: seq<Vector>, ghost pruned: seq<Vector>)
    requires t.Node? && Splits(t) && helper.Valid() && Coordinate(helper.center, t.dimension) >= t.splitPosition
    modifies helper
    ensures helper.Valid()
    ensures helper.considered == old(helper.considered) + shown
    ensures Covered(helper.State(), shown, pruned, Points(t), helper.center, helper.maxLength)
    ensures Settled(old(helper.State()), helper.State(), helper.maxLength)
    decreases t, 2
  {
    ghost var c0, s0 := helper.considered, helper.State();
    ghost var near, nearPruned := Side(t, false, helper);
    shown, pruned := FarLeft(t, helper, c0, s0, near, nearPruned);
  }

  /**
   * The rest of `NearRight`: the left child unless the list is full and its
   * `maxDistance` does not reach the split.
   */
  method FarLeft(t: Tree, helper: ClosestNPointsList, ghost c0: seq<Vector>, ghost s0: ListState,
                  ghost near: seq<Vector>, ghost nearPruned: seq<Vector>) returns (ghost shown: seq<Vector>, ghost pruned: seq<Vector>)
    requires t.Node? && Splits(t) && helper.Valid() && Coordinate(helper.center, t.dimension) >= t.splitPosition
    requires helper.considered == c0 + near && Settled(s0, helper.State(), helper.maxLength)
    requires Covered(helper.State(), near, nearPruned, Points(t.right), helper.center, helper.maxLength)
    modifies helper
    ensures helper.Valid()
    ensures helper.considered == c0 + shown
    ensures Covered(helper.State(), shown, pruned, Points(t), helper.center, helper.maxLength)
    ensures Settled(s0, helper.State(), helper.maxLength)
    decreases t, 1
  {
    ghost var c1, s1 := helper.considered, helper.State();
    var visit := |helper.pointsWithDistance| < helper.maxLength ||
                 Geometry.ReachesDown(Coordinate(helper.center, t.dimension), t.splitPosition, helper.maxDistance);
    ghost var far, farPruned: seq<Vector> := [], [];
    if visit {
      far, farPruned := Side(t, true, helper);
    } else {
      LeftIsFar(t, helper.center, helper.maxDistance);
    }
    NodeCovered(visit, s0, s1, helper.State(), c0, c1, helper.considered, near, nearPruned, Points(t.right),
                far, farPruned, Points(t.left), Points(t), helper.center, helper.maxLength);
    shown, pruned := near + far, nearPruned + (if visit then farPruned else Points(t.left));
  }

  /** The corrected search on the left (`goLeft`) or right child of a node. */
  method Side(t: Tree, goLeft: bool, helper: ClosestNPointsList) returns (ghost shown: seq<Vector>, ghost pruned: seq<Vector>)
    requires t.Node? && Splits(t) && helper.Valid()
    modifies helper
    ensures helper.Valid()
    ensures helper.considered == old(helper.considered) + shown
    ensures Covered(helper.State(), shown, pruned, Points(if goLeft then t.left else t.right), helper.center, helper.maxLength)
    ensures Settled(old(helper.State()), helper.State(), helper.maxLength)
    decreases t, 0
  {
    shown, pruned := FindClosestIn(if goLeft then t.left else t.right, helper);
  }

  /**
   * `KDTree.findClosestNPoints(center, n)` with the corrected descent: an
   * `n`-closest choice from all the points of the tree, as
   * `naiveSearchClosestN` returns.
   */
  method FindClosestNPoints(tree: KDTree, center: Vector, n: nat) returns (closest: seq<Vector>)
    requires tree.Valid()
    ensures NearestChoice(closest, tree.points, center, n)
  {
    var helper := new ClosestNPointsList(center, n);
    ghost var shown, pruned := FindClosestIn(tree.root, helper);
    assert multiset(Points(tree.root)) == multiset(tree.points);
    CoveredIsNearest(helper.State(), shown, pruned, tree.points, center, n);
    closest := helper.GetPoints();
  }
}
