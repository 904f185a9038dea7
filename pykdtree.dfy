/**
 * The Python port of the flat-buffer tree, playground/pykdtree2.py. It sorts
 * the caller's list in place on construction with drawn pivots
 * (`randrange`), and a range is a leaf when `left + bucketSize >= right`,
 * i.e. when it holds at most `bucketSize + 1` points. The radius query uses a
 * `CollectInRadiusHelper`, which also counts the points it is shown.
 */
module PyKdTree {
  import opened Geometry
  import opened Selection
  import opened FlatTree
  import opened Collectors

  /** `KDTree(points, dimensions, bucketSize)` over the caller's list. */
  class KDTree {
    const points: array<Point>
    const dimensions: nat
    const bucketSize: nat
    /** A range is a leaf when it holds at most this many points. */
    const leafSize: nat := bucketSize + 1

    /** Every point has `dimensions` coordinates; `depth % dimensions` needs `dimensions >= 1`. */
    ghost predicate Valid()
      reads this, points
    {
      dimensions >= 1 && Dimensioned(points[..], dimensions)
    }

    /** The median-split invariant `sortPoints` establishes, at the Python leaf size. */
    ghost predicate Sorted()
      reads this, points
      requires Valid()
    {
      Balanced(points[..], 0, points.Length - 1, 0, dimensions, leafSize)
    }

    /** `__init__`: keep the list and sort it. */
    constructor (points: array<Point>, dimensions: nat, bucketSize: nat, rand: nat -> nat, t: nat)
      requires dimensions >= 1 && Dimensioned(points[..], dimensions)
      modifies points
      ensures this.points == points && this.dimensions == dimensions && this.bucketSize == bucketSize
      ensures Valid() && Sorted()
      ensures multiset(points[..]) == multiset(old(points[..]))
    {
      this.points := points;
      this.dimensions := dimensions;
      this.bucketSize := bucketSize;
      new;
      var _ := SortPoints(rand, t);
    }

    /**
     * `sortPoints()`: `recursiveSort(0, len(points) - 1, 0)`, whose
     * `quickselect` draws its pivots from `randrange` (outputs `rand(t)`, `rand(t + 1)`, ...).
     */
    method SortPoints(rand: nat -> nat, t: nat) returns (next: nat)
      requires Valid()
      modifies points
      ensures Valid() && Sorted()
      ensures t <= next
      ensures multiset(points[..]) == multiset(old(points[..]))
    {
      next := SortDrawn(points, 0, points.Length - 1, 0, dimensions, leafSize, rand, t);
      DimensionedPermutation(old(points[..]), points[..], dimensions);
    }

    /** The leaf case of `recursiveSearch`: show the helper every point of the range. */
    method ConsiderLeaf(left: int, right: int, helper: CollectInRadiusHelper, ghost s: seq<Point>)
      requires Valid() && s == points[..]
      requires 0 <= left <= right + 1 <= points.Length
      requires |helper.origin| == dimensions
      modifies helper
      ensures helper.points == old(helper.points) + BucketKept(s, left, right, helper.origin, helper.radius)
      ensures helper.consideredAmount == old(helper.consideredAmount) + (right - left + 1)
    {
      ghost var start, count := helper.points, helper.consideredAmount;
      for i := left to right + 1
        invariant helper.points == start + BucketKept(s, left, i - 1, helper.origin, helper.radius)
        invariant helper.consideredAmount == count + (i - left)
      {
        var p := points[i];
        assert p == s[i] && |p| == dimensions;
        ghost var mid := helper.points;
        helper.Consider(p);
        assert helper.points == mid + Keep(helper.origin, s[i], helper.radius);
      }
    }

    /**
     * `recursiveSearch(left, right, depth)` of `collectInRadius`: a leaf shows
     * its bucket; an internal range shows its median point, then each half
     * the radius reaches. The helper keeps what `RadiusKept` says and counts
     * every point `RadiusConsidered` lists.
     */
    method RecursiveSearch(left: int, right: int, depth: nat, helper: CollectInRadiusHelper, ghost s: seq<Point>)
      requires Valid() && s == points[..]
      requires 0 <= left <= right + 1 <= points.Length
      requires |helper.origin| == dimensions
      modifies helper
      ensures helper.points == old(helper.points)
        + RadiusKept(s, left, right, depth, dimensions, leafSize, helper.origin, helper.radius)
      ensures helper.consideredAmount == old(helper.consideredAmount)
        + |RadiusConsidered(s, left, right, depth, dimensions, leafSize, helper.origin, helper.radius)|
      decreases right - left + 1, 1
    {
      var origin, radius := helper.origin, helper.radius;
      if left + bucketSize >= right {
        ConsiderLeaf(left, right, helper, s);
        return;
      }
      var axis := Axis(depth, dimensions);
      var originCoordinate := origin[axis];
      var medianIndex := MedianIndex(left, right);
      var medianPoint := points[medianIndex];
      assert medianPoint == s[medianIndex] && |medianPoint| == dimensions;
      var split := medianPoint[axis];
      assert split == Key(s[medianIndex], axis) && originCoordinate == Key(origin, axis);
      ghost var c0, n0 := helper.points, helper.consideredAmount;
      helper.Consider(medianPoint);
      ghost var c1 := helper.points;
      var goLow := originCoordinate - radius <= split;
      var goHigh := originCoordinate + radius >= split;
      ghost var low, lowCount := SearchLow(left, medianIndex, depth, helper, goLow, s);
      ghost var c2 := helper.points;
      ghost var high, highCount := SearchHigh(medianIndex, right, depth, helper, goHigh, s);
      RadiusKeptNode(s, left, right, depth, dimensions, leafSize, origin, radius, goLow, goHigh, low, high);
      RadiusConsideredNode(s, left, right, depth, dimensions, leafSize, origin, radius, goLow, goHigh,
                           lowCount, highCount);
      Assemble(c0, c1, c2, helper.points, Keep(origin, medianPoint, radius), low, high);
    }

    /** The left half of an internal range in `recursiveSearch`: searched only when `go`. */
    method SearchLow(left: int, m: int, depth: nat, helper: CollectInRadiusHelper, go: bool, ghost s: seq<Point>)
      returns (ghost low: seq<Point>, ghost shown: seq<Point>)
      requires Valid() && s == points[..]
      requires 0 <= left <= m < points.Length
      requires |helper.origin| == dimensions
      modifies helper
      ensures low == if go then RadiusKept(s, left, m - 1, depth + 1, dimensions, leafSize, helper.origin, helper.radius) else []
      ensures shown == if go then RadiusConsidered(s, left, m - 1, depth + 1, dimensions, leafSize, helper.origin, helper.radius) else []
      ensures helper.points == old(helper.points) + low
      ensures helper.consideredAmount == old(helper.consideredAmount) + |shown|
      decreases m - left + 1, 0
    {
      low, shown := [], [];
      if go {
        RecursiveSearch(left, m - 1, depth + 1, helper, s);
        low := RadiusKept(s, left, m - 1, depth + 1, dimensions, leafSize, helper.origin, helper.radius);
        shown := RadiusConsidered(s, left, m - 1, depth + 1, dimensions, leafSize, helper.origin, helper.radius);
      }
    }

    /** The right half of an internal range in `recursiveSearch`: searched only when `go`. */
    method SearchHigh(m: int, right: int, depth: nat, helper: CollectInRadiusHelper, go: bool, ghost s: seq<Point>)
      returns (ghost high: seq<Point>, ghost shown: seq<Point>)
      requires Valid() && s == points[..]
      requires 0 <= m <= right < points.Length
      requires |helper.origin| == dimensions
      modifies helper
      ensures high == if go then RadiusKept(s, m + 1, right, depth + 1, dimensions, leafSize, helper.origin, helper.radius) else []
      ensures shown == if go then RadiusConsidered(s, m + 1, right, depth + 1, dimensions, leafSize, helper.origin, helper.radius) else []
      ensures helper.points == old(helper.points) + high
      ensures helper.consideredAmount == old(helper.consideredAmount) + |shown|
      decreases right - m + 1, 0
    {
      high, shown := [], [];
      if go {
        RecursiveSearch(m + 1, right, depth + 1, helper, s);
        high := RadiusKept(s, m + 1, right, depth + 1, dimensions, leafSize, helper.origin, helper.radius);
        shown := RadiusConsidered(s, m + 1, right, depth + 1, dimensions, leafSize, helper.origin, helper.radius);
      }
    }

    /**
     * `collectInRadius(origin, radius)`: the helper's points, each of the
     * points shown that lies in the ball; on a sorted list they are, as a
     * multiset, what `collectInRadius_Naive` finds. The helper's
     * `consideredAmount` is returned beside them: it never exceeds the
     * length of the list.
     */
    method CollectInRadius(origin: Point, radius: real) returns (found: seq<Point>, consideredAmount: nat)
      requires Valid()
      requires |origin| == dimensions
      ensures found == Within(RadiusConsidered(points[..], 0, points.Length - 1, 0, dimensions, leafSize, origin, radius),
                              origin, radius)
      ensures consideredAmount <= points.Length
      ensures Balanced(points[..], 0, points.Length - 1, 0, dimensions, leafSize) ==>
                multiset(found) == multiset(Within(points[..], origin, radius))
    {
      ghost var s := points[..];
      var helper := new CollectInRadiusHelper(origin, radius);
      RecursiveSearch(0, points.Length - 1, 0, helper, s);
      found, consideredAmount := helper.points, helper.consideredAmount;
      SearchOutcome(s, dimensions, leafSize, origin, radius, found, consideredAmount);
      assert points[..] == s;
    }
  }

  /** What the whole-list walk of `collectInRadius` keeps and counts, stated against the list. */
  lemma SearchOutcome(s: seq<Point>, ndim: nat, leafSize: nat, origin: Point, radius: real,
                      found: seq<Point>, count: nat)
    requires ndim >= 1 && |origin| == ndim
    requires found == RadiusKept(s, 0, |s| - 1, 0, ndim, leafSize, origin, radius)
    requires count == |RadiusConsidered(s, 0, |s| - 1, 0, ndim, leafSize, origin, radius)|
    ensures found == Within(RadiusConsidered(s, 0, |s| - 1, 0, ndim, leafSize, origin, radius), origin, radius)
    ensures count <= |s|
    ensures Balanced(s, 0, |s| - 1, 0, ndim, leafSize) ==> multiset(found) == multiset(Within(s, origin, radius))
  {
    RadiusKeptIsWithin(s, 0, |s| - 1, 0, ndim, leafSize, origin, radius);
    RadiusConsideredFromRange(s, 0, |s| - 1, 0, ndim, leafSize, origin, radius);
    if Balanced(s, 0, |s| - 1, 0, ndim, leafSize) {
      RadiusQueryMatchesNaive(s, 0, |s| - 1, 0, ndim, leafSize, origin, radius);
      assert s[0..|s|] == s;
    }
  }

  /** `collectInRadius_Naive(points, origin, radius)`: every point at distance at most `radius`, in list order. */
  method CollectInRadiusNaive(points: seq<Point>, origin: Point, radius: real) returns (found: seq<Point>)
    requires Dimensioned(points, |origin|)
    ensures found == Within(points, origin, radius)
  {
    found := [];
    for i := 0 to |points|
      invariant found == Within(points[..i], origin, radius)
    {
      var point := points[i];
      assert points[..i + 1][..i] == points[..i];
      var d := DistanceSquared(origin, point);
      if 0.0 <= radius && d <= radius * radius {
        found := found + [point];
      }
    }
    assert points[..|points|] == points;
  }
}
