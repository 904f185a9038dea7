/**
 * Points and distances shared by every k-d tree variant.
 *
 * Coordinates are reals. Every variant measures Euclidean distance,
 * `sqrt(sum over axes of (a[i] - b[i])^2)`; the model keeps the squared
 * distance `SqDist` and rewrites each comparison that involves the square root
 * into an exactly equivalent one on squares (`WithinRadius`, `ReachesUp`,
 * `ReachesDown`); the lemmas `RadiusTestOnSquares` and `ReachTestOnSquares`
 * prove the rewriting sound for any non-negative root.
 */
module Geometry {

  type Point = seq<real>

  /** Every point of `ps` has the dimension `n`. */
  ghost predicate Dimensioned(ps: seq<Point>, n: nat) {
    forall i :: 0 <= i < |ps| ==> |ps[i]| == n
  }

  /** A permutation keeps every point's dimension. */
  lemma DimensionedPermutation(s: seq<Point>, t: seq<Point>, n: nat)
    requires multiset(s) == multiset(t)
    requires Dimensioned(s, n)
    ensures Dimensioned(t, n)
  {
    forall i | 0 <= i < |t| ensures |t[i]| == n {
      assert t[i] in multiset(t);
      var j :| 0 <= j < |s| && s[j] == t[i];
    }
  }

  function Square(x: real): real { x * x }

  /** Sum of squared coordinate differences over all axes (kdtree/main.cc `distanceSquared`). */
  function SqDist(a: Point, b: Point): (d: real)
    requires |a| == |b|
    ensures d >= 0.0
  {
    SqDistUpTo(a, b, |a|)
  }

  /** The sum over the first `n` axes. */
  function SqDistUpTo(a: Point, b: Point, n: nat): (d: real)
    requires n <= |a| == |b|
    ensures d >= 0.0
  {
    if n == 0 then 0.0
    else
      SquareNonNegative(a[n - 1] - b[n - 1]);
      SqDistUpTo(a, b, n - 1) + Square(a[n - 1] - b[n - 1])
  }

  /** `distance(origin, p) <= radius`, on squares: sqrt(d) <= r iff r >= 0 and d <= r*r. */
  predicate WithinRadius(origin: Point, p: Point, radius: real)
    requires |origin| == |p|
  {
    0.0 <= radius && SqDist(origin, p) <= radius * radius
  }

  /**
   * `originPos + maxDistance >= splitPos` where maxDistance is the root of
   * `maxSq`, or the sentinel -1 (then `maxSq` is -1 too) while nothing is held.
   */
  predicate ReachesUp(originPos: real, splitPos: real, maxSq: real) {
    if maxSq < 0.0 then originPos + maxSq >= splitPos
    else splitPos - originPos <= 0.0 || Square(splitPos - originPos) <= maxSq
  }

  /** `originPos - maxDistance <= splitPos`, in the same terms as `ReachesUp`. */
  predicate ReachesDown(originPos: real, splitPos: real, maxSq: real) {
    if maxSq < 0.0 then originPos - maxSq <= splitPos
    else originPos - splitPos <= 0.0 || Square(originPos - splitPos) <= maxSq
  }

  lemma MulPositive(a: real, b: real)
    requires 0.0 < a
    requires 0.0 < b
    ensures 0.0 < a * b
  {
  }

  lemma SquareNonNegative(x: real)
    ensures Square(x) >= 0.0
  {
    if x < 0.0 {
      MulPositive(-x, -x);
    }
  }

  /** Squaring is strictly monotone on non-negative reals. */
  lemma SquareMonotone(x: real, y: real)
    requires 0.0 <= x
    requires 0.0 <= y
    ensures (x <= y) == (Square(x) <= Square(y))
    ensures (x < y) == (Square(x) < Square(y))
  {
    if x < y {
      SquareStrict(x, y);
    } else if y < x {
      SquareStrict(y, x);
    }
  }

  lemma SquareStrict(x: real, y: real)
    requires 0.0 <= x < y
    ensures Square(x) < Square(y)
  {
    var d, s := y - x, y + x;
    MulPositive(d, s);
    assert d * s == y * y - x * x;
  }

  /** The radius test on squares agrees with the test on the root `dist`. */
  lemma RadiusTestOnSquares(dist: real, radius: real)
    requires 0.0 <= dist
    ensures (dist <= radius) == (0.0 <= radius && Square(dist) <= radius * radius)
  {
    if 0.0 <= radius {
      SquareMonotone(dist, radius);
    }
  }

  /** The far-side tests on squares agree with the tests on the root `m` of `maxSq`. */
  lemma ReachTestOnSquares(originPos: real, splitPos: real, m: real)
    requires 0.0 <= m
    ensures (originPos + m >= splitPos) == ReachesUp(originPos, splitPos, Square(m))
    ensures (originPos - m <= splitPos) == ReachesDown(originPos, splitPos, Square(m))
  {
    SquareNonNegative(m);
    if splitPos - originPos > 0.0 {
      SquareMonotone(splitPos - originPos, m);
    }
    if originPos - splitPos > 0.0 {
      SquareMonotone(originPos - splitPos, m);
    }
  }

  lemma SqDistSymmetric(a: Point, b: Point)
    requires |a| == |b|
    ensures SqDist(a, b) == SqDist(b, a)
  {
    SqDistUpToSymmetric(a, b, |a|);
  }

  lemma {:induction false} SqDistUpToSymmetric(a: Point, b: Point, n: nat)
    requires n <= |a| == |b|
    ensures SqDistUpTo(a, b, n) == SqDistUpTo(b, a, n)
  {
    if n > 0 {
      SqDistUpToSymmetric(a, b, n - 1);
      assert Square(a[n - 1] - b[n - 1]) == Square(b[n - 1] - a[n - 1]);
    }
  }

  lemma SqDistSelf(a: Point)
    ensures SqDist(a, a) == 0.0
  {
    SqDistUpToSelf(a, |a|);
  }

  lemma {:induction false} SqDistUpToSelf(a: Point, n: nat)
    requires n <= |a|
    ensures SqDistUpTo(a, a, n) == 0.0
  {
    if n > 0 {
      SqDistUpToSelf(a, n - 1);
    }
  }

  /** The squared distance is at least the squared difference on any single axis. */
  lemma SqDistAtLeastAxis(a: Point, b: Point, axis: nat)
    requires |a| == |b|
    requires axis < |a|
    ensures SqDist(a, b) >= Square(a[axis] - b[axis])
  {
    SqDistUpToAtLeastAxis(a, b, |a|, axis);
  }

  lemma {:induction false} SqDistUpToAtLeastAxis(a: Point, b: Point, n: nat, axis: nat)
    requires n <= |a| == |b|
    requires axis < n
    ensures SqDistUpTo(a, b, n) >= Square(a[axis] - b[axis])
  {
    if axis < n - 1 {
      SqDistUpToAtLeastAxis(a, b, n - 1, axis);
      SquareNonNegative(a[n - 1] - b[n - 1]);
    }
  }

  /**
   * A point whose coordinate on `axis` lies more than `radius` away from the
   * origin's is not within the radius: the pruning argument of every radius query.
   */
  lemma FarOnAxisIsOutside(origin: Point, p: Point, radius: real, axis: nat)
    requires |origin| == |p|
    requires axis < |origin|
    requires origin[axis] - radius > p[axis] || origin[axis] + radius < p[axis]
    ensures !WithinRadius(origin, p, radius)
  {
    if 0.0 <= radius {
      var d := if origin[axis] > p[axis] then origin[axis] - p[axis] else p[axis] - origin[axis];
      assert Square(d) == Square(origin[axis] - p[axis]);
      SquareMonotone(radius, d);
      SqDistAtLeastAxis(origin, p, axis);
    }
  }

  /** kdtree/main.cc `distanceSquared`: the loop that accumulates `sum`. */
  method DistanceSquared(a: Point, b: Point) returns (sum: real)
    requires |a| == |b|
    ensures sum == SqDist(a, b)
  {
    sum := 0.0;
    for i := 0 to |a|
      invariant sum == SqDistUpTo(a, b, i)
    {
      var value := a[i] - b[i];
      sum := sum + value * value;
    }
  }
}
