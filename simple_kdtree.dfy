/**
 * The explicit-node tree of playground/simple_pykdtree.py: three-dimensional
 * `Vector`s, nodes built by sorting and halving a copy of the list
 * (`KDTreeNode`), buckets of at most `stopSize` points (`KDTreeLeaf`), a radius
 * generator and a closest-`n` search driven by a `ClosestNPointsList`.
 *
 * Distances are squared: `distance(a, b) <= radius` is `0 <= radius &&
 * DistanceSquared(a, b) <= radius * radius`, and the list's `maxDistance`
 * holds the square of the largest held distance (or the sentinel -1), which
 * orders every comparison the source makes exactly as the square roots do.
 */
module SimpleKdTree {
  import Geometry

  /** `Vector(x, y, z)`. */
  datatype Vector = Vector(x: real, y: real, z: real)

  /** The attribute names `"x"`, `"y"`, `"z"` the tree splits on. */
  datatype Dimension = X | Y | Z

  /** `dimensions = ["x", "y", "z"]`. */
  const Dimensions: seq<Dimension> := [X, Y, Z]

  /** `stopSize`: a child with at most this many points is a leaf. */
  const StopSize: nat := 10

  /** `getattr(v, dimension)`. */
  function Coordinate(v: Vector, d: Dimension): real {
    match d
    case X => v.x
    case Y => v.y
    case Z => v.z
  }

  /** `dimensions.index(dimension)`. */
  function IndexOf(d: Dimension): (i: nat)
    ensures i < |Dimensions| && Dimensions[i] == d
  {
    match d
    case X => 0
    case Y => 1
    case Z => 2
  }

  /** `nextDimension(dimension)`: the next name in the list, wrapping around: x, then y, then z, then x. */
  function NextDimension(d: Dimension): (r: Dimension)
    ensures d == X ==> r == Y
    ensures d == Y ==> r == Z
    ensures d == Z ==> r == X
  {
    Dimensions[(IndexOf(d) + 1) % |Dimensions|]
  }

  /** The square of `Vector.distance(a, b)`: bounded below by the square of each coordinate difference. */
  function DistanceSquared(a: Vector, b: Vector): (r: real)
    ensures 0.0 <= r
    ensures forall d :: 0.0 <= Geometry.Square(Coordinate(a, d) - Coordinate(b, d)) <= r
  {
    Geometry.SquareNonNegative(a.x - b.x);
    Geometry.SquareNonNegative(a.y - b.y);
    Geometry.SquareNonNegative(a.z - b.z);
    assert forall d :: Coordinate(a, d) - Coordinate(b, d) in {a.x - b.x, a.y - b.y, a.z - b.z};
    Geometry.Square(a.x - b.x) + Geometry.Square(a.y - b.y) + Geometry.Square(a.z - b.z)
  }

  /** `Vector.distance(p, center) <= radius`. */
  predicate Near(p: Vector, center: Vector, radius: real) {
    0.0 <= radius && DistanceSquared(p, center) <= radius * radius
  }

  lemma DistanceSymmetric(a: Vector, b: Vector)
    ensures DistanceSquared(a, b) == DistanceSquared(b, a)
  {
    assert Geometry.Square(a.x - b.x) == Geometry.Square(b.x - a.x);
    assert Geometry.Square(a.y - b.y) == Geometry.Square(b.y - a.y);
    assert Geometry.Square(a.z - b.z) == Geometry.Square(b.z - a.z);
  }

  /** A point farther than `radius` from `center` along one axis is not `Near`. */
  lemma FarOnAxis(p: Vector, center: Vector, radius: real, d: Dimension)
    requires radius < Coordinate(center, d) - Coordinate(p, d) || radius < Coordinate(p, d) - Coordinate(center, d)
    ensures !Near(p, center, radius)
  {
    if 0.0 <= radius {
      var gap := Coordinate(p, d) - Coordinate(center, d);
      var g := if gap < 0.0 then -gap else gap;
      Geometry.SquareStrict(radius, g);
      assert Geometry.Square(g) == Geometry.Square(gap);
    }
  }

  // ---------------------------------------------------------------------------
  // `sorted(points, key = ...)`
  // ---------------------------------------------------------------------------

  ghost predicate SortedBy<T>(s: seq<T>, key: T -> real) {
    forall i, j :: 0 <= i < j < |s| ==> key(s[i]) <= key(s[j])
  }

  /** One step of a stable insertion sort: `x` goes before the first element whose key is not smaller. */
  function InsertBy<T>(x: T, s: seq<T>, key: T -> real): (r: seq<T>)
    requires SortedBy(s, key)
    ensures SortedBy(r, key)
    ensures multiset(r) == multiset(s) + multiset{x}
    ensures |r| == |s| + 1 && (r[0] == x || (0 < |s| && r[0] == s[0]))
  {
    if |s| == 0 || key(x) <= key(s[0]) then [x] + s
    else
      var rest := InsertBy(x, s[1..], key);
      assert s == [s[0]] + s[1..];
      [s[0]] + rest
  }

  /** `sorted(s, key = key)`: a permutation of `s` in non-decreasing key order. */
  function SortBy<T>(s: seq<T>, key: T -> real): (r: seq<T>)
    ensures SortedBy(r, key)
    ensures multiset(r) == multiset(s)
    ensures |r| == |s|
  {
    if |s| == 0 then []
    else
      assert s == [s[0]] + s[1..];
      InsertBy(s[0], SortBy(s[1..], key), key)
  }

  /** `sortByDimension(points, dimension)`. */
  function SortByDimension(points: seq<Vector>, d: Dimension): (r: seq<Vector>)
    ensures multiset(r) == multiset(points) && |r| == |points|
    ensures forall i, j :: 0 <= i < j < |r| ==> Coordinate(r[i], d) <= Coordinate(r[j], d)
  {
    SortBy(points, v => Coordinate(v, d))
  }

  // ---------------------------------------------------------------------------
  // The tree
  // ---------------------------------------------------------------------------

  /** `KDTreeNode(dimension, splitPosition, left, right)` and `KDTreeLeaf(points)`. */
  datatype Tree =
    | Node(dimension: Dimension, splitPosition: real, left: Tree, right: Tree)
    | Leaf(points: seq<Vector>)

  /** Every point stored under `t`, left to right. */
  function Points(t: Tree): seq<Vector> {
    match t
    case Leaf(points) => points
    case Node(_, _, left, right) => Points(left) + Points(right)
  }

  /**
   * Each node separates its subtrees on its dimension: left coordinates are
   * at most the split position, right coordinates at least.
   */
  ghost predicate Splits(t: Tree) {
    match t
    case Leaf(_) => true
    case Node(d, split, left, right) =>
      (forall p :: p in Points(left) ==> Coordinate(p, d) <= split) &&
      (forall p :: p in Points(right) ==> split <= Coordinate(p, d)) &&
      Splits(left) && Splits(right)
  }

  /** A child of `d` built from `points`: a leaf iff it has at most `StopSize` points, else a node on the next dimension. */
  ghost predicate ChildShaped(c: Tree, d: Dimension)
    decreases c, 1
  {
    (c.Leaf? <==> |Points(c)| <= StopSize) && (c.Node? ==> c.dimension == NextDimension(d) && Shaped(c))
  }

  /** The shape of a built tree: every child of a node is `ChildShaped`. */
  ghost predicate Shaped(t: Tree)
    decreases t, 0
  {
    match t
    case Leaf(_) => true
    case Node(d, _, left, right) => ChildShaped(left, d) && ChildShaped(right, d)
  }

  /**
   * `KDTreeNode(points, dimension)`: sort a copy, split it at `len // 2`,
   * take the first coordinate of the right half as the split position. The
   * source needs a non-empty list (`rightPoints[0]`).
   */
  function Build(points: seq<Vector>, dimension: Dimension): (t: Tree)
    requires |points| >= 1
    ensures t.Node? && t.dimension == dimension
    ensures multiset(Points(t)) == multiset(points)
    ensures Splits(t) && Shaped(t)
    decreases 2 * |points|
  {
    var sorted := SortByDimension(points, dimension);
    var half := |points| / 2;
    var leftPoints, rightPoints := sorted[..half], sorted[half..];
    var split := Coordinate(rightPoints[0], dimension);
    var left, right := Child(leftPoints, dimension), Child(rightPoints, dimension);
    NodeSplits(sorted, half, dimension, left, right);
    Node(dimension, split, left, right)
  }

  /** A node over the two halves of a list sorted on `d`, split at `sorted[half]`, holds the list and separates its halves. */
  lemma NodeSplits(sorted: seq<Vector>, half: nat, d: Dimension, left: Tree, right: Tree)
    requires half < |sorted|
    requires forall i, j :: 0 <= i < j < |sorted| ==> Coordinate(sorted[i], d) <= Coordinate(sorted[j], d)
    requires multiset(Points(left)) == multiset(sorted[..half]) && Splits(left)
    requires multiset(Points(right)) == multiset(sorted[half..]) && Splits(right)
    ensures multiset(Points(Node(d, Coordinate(sorted[half], d), left, right))) == multiset(sorted)
    ensures Splits(Node(d, Coordinate(sorted[half], d), left, right))
  {
    assert sorted == sorted[..half] + sorted[half..];
    HalvesSplit(sorted, half, d);
    assert forall p :: p in Points(left) ==> p in multiset(sorted[..half]);
    assert forall p :: p in Points(right) ==> p in multiset(sorted[half..]);
  }

  /** The child built from one half: a `KDTreeLeaf` when small, else a `KDTreeNode` on the next dimension. */
  function Child(points: seq<Vector>, dimension: Dimension): (c: Tree)
    ensures multiset(Points(c)) == multiset(points)
    ensures Splits(c) && ChildShaped(c, dimension)
    decreases if |points| <= StopSize then 0 else 2 * |points| + 1
  {
    if |points| <= StopSize then Leaf(points) else Build(points, NextDimension(dimension))
  }

  /** In a list sorted on `d`, the part before `half` lies at or below, the part from `half` on at or above, `sorted[half]`. */
  lemma HalvesSplit(sorted: seq<Vector>, half: nat, d: Dimension)
    requires half < |sorted|
    requires forall i, j :: 0 <= i < j < |sorted| ==> Coordinate(sorted[i], d) <= Coordinate(sorted[j], d)
    ensures forall p :: p in multiset(sorted[..half]) ==> Coordinate(p, d) <= Coordinate(sorted[half], d)
    ensures forall p :: p in multiset(sorted[half..]) ==> Coordinate(sorted[half], d) <= Coordinate(p, d)
  {
    forall p | p in multiset(sorted[..half])
      ensures Coordinate(p, d) <= Coordinate(sorted[half], d)
    {
      var i :| 0 <= i < half && sorted[..half][i] == p;
    }
    forall p | p in multiset(sorted[half..])
      ensures Coordinate(sorted[half], d) <= Coordinate(p, d)
    {
      var i :| 0 <= i < |sorted| - half && sorted[half..][i] == p;
    }
  }

  // ---------------------------------------------------------------------------
  // Radius search
  // ---------------------------------------------------------------------------

  /** The points of `points` within `radius` of `center`, in list order. */
  function NearPoints(points: seq<Vector>, center: Vector, radius: real): (r: seq<Vector>)
    ensures forall p :: p in r ==> p in points && Near(p, center, radius)
  {
    if |points| == 0 then []
    else
      var last := points[|points| - 1];
      NearPoints(points[..|points| - 1], center, radius) + (if Near(last, center, radius) then [last] else [])
  }

  lemma {:induction false} NearPointsConcat(a: seq<Vector>, b: seq<Vector>, center: Vector, radius: real)
    ensures NearPoints(a + b, center, radius) == NearPoints(a, center, radius) + NearPoints(b, center, radius)
    decreases |b|
  {
    if |b| > 0 {
      var last := b[|b| - 1];
      assert (a + b)[..|a + b| - 1] == a + b[..|b| - 1];
      NearPointsConcat(a, b[..|b| - 1], center, radius);
    } else {
      assert a + b == a;
    }
  }

  /** How often `p` occurs among the near points: as often as in the list when it is near, else never. */
  lemma {:induction false} NearPointsCount(points: seq<Vector>, center: Vector, radius: real, p: Vector)
    ensures multiset(NearPoints(points, center, radius))[p] == if Near(p, center, radius) then multiset(points)[p] else 0
  {
    if |points| > 0 {
      var init := points[..|points| - 1];
      assert points == init + [points[|points| - 1]];
      NearPointsCount(init, center, radius, p);
    }
  }

  /** The near points of two permutations of a list are permutations of each other. */
  lemma NearPointsPermutation(a: seq<Vector>, b: seq<Vector>, center: Vector, radius: real)
    requires multiset(a) == multiset(b)
    ensures multiset(NearPoints(a, center, radius)) == multiset(NearPoints(b, center, radius))
  {
    forall p
      ensures multiset(NearPoints(a, center, radius))[p] == multiset(NearPoints(b, center, radius))[p]
    {
      NearPointsCount(a, center, radius, p);
      NearPointsCount(b, center, radius, p);
    }
  }

  /** A list none of whose points is near has no near points. */
  lemma {:induction false} NoneNear(points: seq<Vector>, center: Vector, radius: real)
    requires forall p :: p in points ==> !Near(p, center, radius)
    ensures NearPoints(points, center, radius) == []
  {
    if |points| > 0 {
      assert points[|points| - 1] in points;
      NoneNear(points[..|points| - 1], center, radius);
    }
  }

  /**
   * `iterPointsInRadius(center, radius)`: a leaf yields its near points; a node
   * yields from its left child when `position - radius <= splitPosition`,
   * then from its right child when `position + radius >= splitPosition`.
   */
  function InRadius(t: Tree, center: Vector, radius: real): seq<Vector> {
    match t
    case Leaf(points) => NearPoints(points, center, radius)
    case Node(d, split, left, right) =>
      var position := Coordinate(center, d);
      (if position - radius <= split then InRadius(left, center, radius) else []) +
      (if position + radius >= split then InRadius(right, center, radius) else [])
  }

  /** On a tree whose nodes separate their subtrees, the pruned walk finds exactly the near points it stores. */
  lemma {:induction false} InRadiusIsNear(t: Tree, center: Vector, radius: real)
    requires Splits(t)
    ensures multiset(InRadius(t, center, radius)) == multiset(NearPoints(Points(t), center, radius))
    decreases t, 1
  {
    if t.Node? {
      NearPointsConcat(Points(t.left), Points(t.right), center, radius);
      LowSide(t, center, radius);
      HighSide(t, center, radius);
    }
  }

  /** The left child of a node: searched and matched, or pruned and holding nothing near. */
  lemma {:induction false} LowSide(t: Tree, center: Vector, radius: real)
    requires t.Node? && Splits(t)
    ensures (if Coordinate(center, t.dimension) - radius <= t.splitPosition then multiset(InRadius(t.left, center, radius)) else multiset{})
         == multiset(NearPoints(Points(t.left), center, radius))
    decreases t, 0
  {
    var position := Coordinate(center, t.dimension);
    if position - radius <= t.splitPosition {
      InRadiusIsNear(t.left, center, radius);
    } else {
      forall p | p in Points(t.left) ensures !Near(p, center, radius) {
        FarOnAxis(p, center, radius, t.dimension);
      }
      NoneNear(Points(t.left), center, radius);
    }
  }

  /** The right child of a node: searched and matched, or pruned and holding nothing near. */
  lemma {:induction false} HighSide(t: Tree, center: Vector, radius: real)
    requires t.Node? && Splits(t)
    ensures (if Coordinate(center, t.dimension) + radius >= t.splitPosition then multiset(InRadius(t.right, center, radius)) else multiset{})
         == multiset(NearPoints(Points(t.right), center, radius))
    decreases t, 0
  {
    var position := Coordinate(center, t.dimension);
    if position + radius >= t.splitPosition {
      InRadiusIsNear(t.right, center, radius);
    } else {
      forall p | p in Points(t.right) ensures !Near(p, center, radius) {
        FarOnAxis(p, center, radius, t.dimension);
      }
      NoneNear(Points(t.right), center, radius);
    }
  }

  /** `naiveSearchInRadius(points, center, radius)`: the linear scan. */
  method NaiveSearchInRadius(points: seq<Vector>, center: Vector, radius: real) returns (nearPoints: seq<Vector>)
    ensures nearPoints == NearPoints(points, center, radius)
  {
    nearPoints := [];
    for i := 0 to |points|
      invariant nearPoints == NearPoints(points[..i], center, radius)
    {
      var point := points[i];
      assert points[..i + 1][..i] == points[..i];
      var distanceSquared := DistanceSquared(point, center);
      if 0.0 <= radius && distanceSquared <= radius * radius {
        nearPoints := nearPoints + [point];
      }
    }
    assert points[..|points|] == points;
  }

  // ---------------------------------------------------------------------------
  // Closest n points
  // ---------------------------------------------------------------------------

  /** A `(point, distance)` tuple of `pointsWithDistance`; `distance` is squared. */
  datatype Entry = Entry(point: Vector, distance: real)

  /** `[p for (p, _) in entries]`. */
  function EntryPoints(entries: seq<Entry>): (r: seq<Vector>)
    ensures |r| == |entries|
    ensures forall i :: 0 <= i < |entries| ==> r[i] == entries[i].point
  {
    if |entries| == 0 then [] else EntryPoints(entries[..|entries| - 1]) + [entries[|entries| - 1].point]
  }

  /**
   * `maxIndex` and `maxDistance` describe `entries`: -1 and -1 when it is
   * empty, else the first index of greatest distance and that distance.
   */
  ghost predicate MaxTracked(entries: seq<Entry>, maxIndex: int, maxDistance: real) {
    if |entries| == 0 then maxIndex == -1 && maxDistance == -1.0
    else
      0 <= maxIndex < |entries| && maxDistance == entries[maxIndex].distance &&
      (forall i :: 0 <= i < |entries| ==> entries[i].distance <= maxDistance) &&
      (forall i :: 0 <= i < maxIndex ==> entries[i].distance < maxDistance)
  }

  function Min(a: nat, b: nat): nat {
    if a <= b then a else b
  }

  /**
   * `chosen` is an `n`-closest choice from `points`: as many as `n` allows,
   * drawn from `points`, and no point left out is closer to `center` than a
   * chosen one.
   */
  ghost predicate NearestChoice(chosen: seq<Vector>, points: seq<Vector>, center: Vector, n: nat) {
    |chosen| == Min(n, |points|) &&
    multiset(chosen) <= multiset(points) &&
    forall p, q :: p in chosen && q in multiset(points) - multiset(chosen) ==>
      DistanceSquared(center, p) <= DistanceSquared(center, q)
  }

  /** Every entry's distance is its point's squared distance from `center`. */
  ghost predicate Measured(entries: seq<Entry>, center: Vector) {
    forall i :: 0 <= i < |entries| ==> entries[i].distance == DistanceSquared(center, entries[i].point)
  }

  /**
   * `held` keeps the closest `maxLength` of `considered`: all of them while
   * there are at most `maxLength`, else exactly `maxLength` of them, and no
   * point left out is closer than `maxDistance`.
   */
  ghost predicate ClosestKept(held: seq<Vector>, considered: seq<Vector>, maxDistance: real, center: Vector, maxLength: nat) {
    (|considered| <= maxLength ==> held == considered) &&
    (|considered| >= maxLength ==> |held| == maxLength) &&
    multiset(held) <= multiset(considered) &&
    forall q :: q in multiset(considered) - multiset(held) ==> maxDistance <= DistanceSquared(center, q)
  }

  /** Appending while there is room keeps every point considered. */
  lemma AppendKeepsClosest(held: seq<Vector>, considered: seq<Vector>, maxDistance: real, center: Vector, maxLength: nat,
                           p: Vector, newMax: real)
    requires ClosestKept(held, considered, maxDistance, center, maxLength) && |held| < maxLength
    ensures ClosestKept(held + [p], considered + [p], newMax, center, maxLength)
  {
    assert held == considered;
  }

  /** Replacing the farthest held point by a strictly closer one moves the farthest into the left-out part. */
  lemma ReplaceKeepsClosest(held: seq<Vector>, considered: seq<Vector>, maxDistance: real, center: Vector, maxLength: nat,
                            i: nat, p: Vector, newMax: real)
    requires ClosestKept(held, considered, maxDistance, center, maxLength)
    requires |held| == maxLength && i < |held| && DistanceSquared(center, held[i]) == maxDistance
    requires DistanceSquared(center, p) < maxDistance && newMax <= maxDistance
    ensures ClosestKept(held[i := p], considered + [p], newMax, center, maxLength)
  {
    var worst := held[i];
    var next := held[i := p];
    assert multiset(next) == multiset(held) - multiset{worst} + multiset{p};
    assert worst in multiset(held);
    assert multiset(considered + [p]) - multiset(next) == multiset(considered) - multiset(held) + multiset{worst};
  }

  /** Passing over a point no closer than the farthest held puts it in the left-out part. */
  lemma KeepKeepsClosest(held: seq<Vector>, considered: seq<Vector>, maxDistance: real, center: Vector, maxLength: nat,
                         p: Vector)
    requires ClosestKept(held, considered, maxDistance, center, maxLength)
    requires |held| == maxLength && maxDistance <= DistanceSquared(center, p)
    ensures ClosestKept(held, considered + [p], maxDistance, center, maxLength)
  {
    assert multiset(considered + [p]) - multiset(held) == multiset(considered) - multiset(held) + multiset{p};
  }

  /** Appending an entry: the maximum moves to it exactly when it is strictly farther. */
  lemma AppendTracked(entries: seq<Entry>, maxIndex: int, maxDistance: real, e: Entry)
    requires MaxTracked(entries, maxIndex, maxDistance) && 0.0 <= e.distance
    ensures e.distance > maxDistance ==> MaxTracked(entries + [e], |entries|, e.distance)
    ensures e.distance <= maxDistance ==> MaxTracked(entries + [e], maxIndex, maxDistance)
  {
  }

  /** Appending a measured entry keeps the list measured and appends its point. */
  lemma MeasuredAppend(entries: seq<Entry>, center: Vector, e: Entry)
    requires Measured(entries, center) && e.distance == DistanceSquared(center, e.point)
    ensures Measured(entries + [e], center)
    ensures EntryPoints(entries + [e]) == EntryPoints(entries) + [e.point]
  {
    assert (entries + [e])[..|entries|] == entries;
  }

  /** Overwriting one entry by a measured one keeps the list measured (so never negative) and overwrites its point. */
  lemma MeasuredUpdate(entries: seq<Entry>, center: Vector, i: nat, e: Entry)
    requires Measured(entries, center) && e.distance == DistanceSquared(center, e.point) && i < |entries|
    ensures Measured(entries[i := e], center)
    ensures var r := entries[i := e]; forall j :: 0 <= j < |r| ==> 0.0 <= r[j].distance
    ensures EntryPoints(entries[i := e]) == EntryPoints(entries)[i := e.point]
  {
  }

  /**
   * What the rescan of `findMax` finds in `entries`: the first index of
   * greatest distance and that distance, or -1 and -1 for an empty list.
   */
  function ScanMax(entries: seq<Entry>): (r: (int, real))
    ensures (forall i :: 0 <= i < |entries| ==> 0.0 <= entries[i].distance) ==> MaxTracked(entries, r.0, r.1)
  {
    if |entries| == 0 then (-1, -1.0)
    else
      var init := entries[..|entries| - 1];
      var last := entries[|entries| - 1];
      var (i, m) := ScanMax(init);
      assert forall j :: 0 <= j < |init| ==> init[j] == entries[j];
      if last.distance > m then (|entries| - 1, last.distance) else (i, m)
  }

  /** The fields of a `ClosestNPointsList` that `consider` changes. */
  datatype ListState = ListState(entries: seq<Entry>, maxDistance: real, maxIndex: int)

  /**
   * `consider` on the state, given the new entry: append while shorter than
   * `maxLength` (taking over the maximum when strictly farther); when full,
   * overwrite the entry at `maxIndex` by a strictly closer one and rescan;
   * otherwise nothing changes.
   */
  function Offer(s: ListState, maxLength: nat, e: Entry): (r: ListState)
    ensures |r.entries| == if |s.entries| < maxLength then |s.entries| + 1 else |s.entries|
  {
    if |s.entries| < maxLength then
      var grown := s.entries + [e];
      if e.distance > s.maxDistance then ListState(grown, e.distance, |grown| - 1)
      else ListState(grown, s.maxDistance, s.maxIndex)
    else if e.distance < s.maxDistance && 0 <= s.maxIndex < |s.entries| then
      var replaced := s.entries[s.maxIndex := e];
      var (i, m) := ScanMax(replaced);
      ListState(replaced, m, i)
    else s
  }

  /**
   * The list invariant: entries measured from `center`, the maximum tracked,
   * and the closest `maxLength` of `considered` kept.
   */
  ghost predicate Keeps(s: ListState, considered: seq<Vector>, center: Vector, maxLength: nat) {
    Measured(s.entries, center) &&
    MaxTracked(s.entries, s.maxIndex, s.maxDistance) &&
    ClosestKept(EntryPoints(s.entries), considered, s.maxDistance, center, maxLength)
  }

  /**
   * From `before` to `after` the list never shrinks, and once it holds
   * `maxLength` entries it keeps that many and its `maxDistance` never grows.
   */
  ghost predicate Settled(before: ListState, after: ListState, maxLength: nat) {
    |before.entries| <= |after.entries| &&
    (|before.entries| >= maxLength ==> |after.entries| == |before.entries| && after.maxDistance <= before.maxDistance)
  }

  /** `consider` keeps the list invariant. */
  lemma OfferKeeps(s: ListState, considered: seq<Vector>, center: Vector, maxLength: nat, point: Vector)
    requires Keeps(s, considered, center, maxLength)
    ensures Keeps(Offer(s, maxLength, Entry(point, DistanceSquared(center, point))), considered + [point], center, maxLength)
    ensures Settled(s, Offer(s, maxLength, Entry(point, DistanceSquared(center, point))), maxLength)
  {
    var e := Entry(point, DistanceSquared(center, point));
    if |s.entries| < maxLength {
      OfferKeepsAppend(s, considered, center, maxLength, e);
    } else if e.distance < s.maxDistance {
      OfferKeepsReplace(s, considered, center, maxLength, e);
    } else {
      KeepKeepsClosest(EntryPoints(s.entries), considered, s.maxDistance, center, maxLength, point);
    }
  }

  /** The append branch of `consider` keeps the list invariant. */
  lemma OfferKeepsAppend(s: ListState, considered: seq<Vector>, center: Vector, maxLength: nat, e: Entry)
    requires Keeps(s, considered, center, maxLength)
    requires e.distance == DistanceSquared(center, e.point) && |s.entries| < maxLength
    ensures Keeps(Offer(s, maxLength, e), considered + [e.point], center, maxLength)
  {
    AppendTracked(s.entries, s.maxIndex, s.maxDistance, e);
    MeasuredAppend(s.entries, center, e);
    AppendKeepsClosest(EntryPoints(s.entries), considered, s.maxDistance, center, maxLength, e.point,
                       Offer(s, maxLength, e).maxDistance);
  }

  /** The replace branch of `consider` keeps the list invariant. */
  lemma OfferKeepsReplace(s: ListState, considered: seq<Vector>, center: Vector, maxLength: nat, e: Entry)
    requires Keeps(s, considered, center, maxLength)
    requires e.distance == DistanceSquared(center, e.point) && |s.entries| >= maxLength && e.distance < s.maxDistance
    ensures Keeps(Offer(s, maxLength, e), considered + [e.point], center, maxLength)
    ensures Offer(s, maxLength, e).maxDistance <= s.maxDistance
  {
    var i := s.maxIndex;
    assert 0 <= i < |s.entries|;
    var replaced := s.entries[i := e];
    var r := Offer(s, maxLength, e);
    assert r == ListState(replaced, ScanMax(replaced).1, ScanMax(replaced).0);
    assert Measured(replaced, center) && MaxTracked(replaced, r.maxIndex, r.maxDistance) &&
           EntryPoints(replaced) == EntryPoints(s.entries)[i := e.point] by {
      MeasuredUpdate(s.entries, center, i, e);
    }
    assert r.maxDistance <= s.maxDistance by {
      ReplacedMaxNoLarger(s.entries, i, s.maxDistance, e, r.maxIndex, r.maxDistance);
    }
    ReplaceKeepsClosest(EntryPoints(s.entries), considered, s.maxDistance, center, maxLength, i, e.point, r.maxDistance);
  }

  /** After replacing the entry at a maximum by a closer one, the maximum cannot grow. */
  lemma ReplacedMaxNoLarger(entries: seq<Entry>, i: int, oldMax: real, e: Entry, newIndex: int, newMax: real)
    requires MaxTracked(entries, i, oldMax) && 0 <= i < |entries| && e.distance < oldMax
    requires MaxTracked(entries[i := e], newIndex, newMax)
    ensures newMax <= oldMax
  {
  }

  /** `ClosestNPointsList(center, maxLength)`. */
  class ClosestNPointsList {
    const center: Vector
    const maxLength: nat
    var pointsWithDistance: seq<Entry>
    var maxDistance: real
    var maxIndex: int
    /** The points passed to `consider` so far, in order. */
    ghost var considered: seq<Vector>

    function State(): ListState
      reads this
    {
      ListState(pointsWithDistance, maxDistance, maxIndex)
    }

    ghost predicate Valid()
      reads this
    {
      Keeps(State(), considered, center, maxLength)
    }

    /** `__init__(center, maxLength)`: empty, with the -1 sentinels. */
    constructor (center: Vector, maxLength: nat)
      ensures this.center == center && this.maxLength == maxLength
      ensures State() == ListState([], -1.0, -1) && considered == []
      ensures Valid()
    {
      this.center := center;
      this.maxLength := maxLength;
      pointsWithDistance := [];
      maxDistance := -1.0;
      maxIndex := -1;
      considered := [];
    }

    /** `getPoints()`. */
    function GetPoints(): (r: seq<Vector>)
      reads this
      ensures |r| == |pointsWithDistance|
      ensures forall i :: 0 <= i < |r| ==> r[i] == pointsWithDistance[i].point
    {
      EntryPoints(pointsWithDistance)
    }

    /** A valid list holds a `maxLength`-closest choice from the points considered. */
    lemma HeldAreNearest()
      requires Valid()
      ensures NearestChoice(GetPoints(), considered, center, maxLength)
    {
      var held := GetPoints();
      forall p, q | p in held && q in multiset(considered) - multiset(held)
        ensures DistanceSquared(center, p) <= DistanceSquared(center, q)
      {
        var i :| 0 <= i < |held| && held[i] == p;
      }
    }

    /** `findMax()`: rescan the list for its first entry of greatest distance. */
    method FindMax()
      modifies this
      ensures pointsWithDistance == old(pointsWithDistance) && considered == old(considered)
      ensures (maxIndex, maxDistance) == ScanMax(pointsWithDistance)
    {
      var index, best := -1, -1.0;
      for i := 0 to |pointsWithDistance|
        invariant (index, best) == ScanMax(pointsWithDistance[..i])
      {
        assert pointsWithDistance[..i + 1][..i] == pointsWithDistance[..i];
        if pointsWithDistance[i].distance > best {
          index, best := i, pointsWithDistance[i].distance;
        }
      }
      assert pointsWithDistance[..|pointsWithDistance|] == pointsWithDistance;
      maxIndex, maxDistance := index, best;
    }

    /**
     * `consider(point)`: measure the point and offer it; the list stays
     * valid and has now seen `point`.
     */
    method Consider(point: Vector)
      requires Valid()
      modifies this
      ensures Valid()
      ensures considered == old(considered) + [point]
      ensures State() == Offer(old(State()), maxLength, Entry(point, DistanceSquared(center, point)))
      ensures Settled(old(State()), State(), maxLength)
    {
      var distance := DistanceSquared(center, point);
      OfferKeeps(State(), considered, center, maxLength, point);
      considered := considered + [point];
      Admit(Entry(point, distance));
    }

    /** The body of `consider` once the distance is known. */
    method Admit(e: Entry)
      modifies this
      ensures State() == Offer(old(State()), maxLength, e)
      ensures considered == old(considered)
    {
      if |pointsWithDistance| < maxLength {
        pointsWithDistance := pointsWithDistance + [e];
        if e.distance > maxDistance {
          maxDistance := e.distance;
          maxIndex := |pointsWithDistance| - 1;
        }
      } else if e.distance < maxDistance && 0 <= maxIndex < |pointsWithDistance| {
        pointsWithDistance := pointsWithDistance[maxIndex := e];
        FindMax();
      }
    }
  }

  // ---------------------------------------------------------------------------
  // Searches from the tree, and the naive searches
  // ---------------------------------------------------------------------------

  /** The list state after `consider` of each of `points` in turn, starting from `s`. */
  function OfferAll(points: seq<Vector>, s: ListState, center: Vector, maxLength: nat): ListState
    decreases |points|
  {
    if |points| == 0 then s
    else
      var last := points[|points| - 1];
      Offer(OfferAll(points[..|points| - 1], s, center, maxLength), maxLength, Entry(last, DistanceSquared(center, last)))
  }

  /**
   * The list state after `findClosestNPoints(helper)` on `t`, starting from
   * `s`, as the source writes it: the far child of a node is searched only
   * when the split is within the current `maxDistance`, however few points
   * the list holds.
   */
  function Walk(t: Tree, s: ListState, center: Vector, maxLength: nat): ListState
    decreases t
  {
    match t
    case Leaf(points) => OfferAll(points, s, center, maxLength)
    case Node(d, split, left, right) =>
      var position := Coordinate(center, d);
      if position < split then
        var s1 := Walk(left, s, center, maxLength);
        if Geometry.ReachesUp(position, split, s1.maxDistance) then Walk(right, s1, center, maxLength) else s1
      else
        var s1 := Walk(right, s, center, maxLength);
        if Geometry.ReachesDown(position, split, s1.maxDistance) then Walk(left, s1, center, maxLength) else s1
  }

  /** `KDTreeLeaf.findClosestNPoints(helper)`: show the helper every point of the bucket. */
  method ConsiderAll(points: seq<Vector>, helper: ClosestNPointsList)
    requires helper.Valid()
    modifies helper
    ensures helper.Valid()
    ensures helper.considered == old(helper.considered) + points
    ensures helper.State() == OfferAll(points, old(helper.State()), helper.center, helper.maxLength)
    ensures Settled(old(helper.State()), helper.State(), helper.maxLength)
  {
    ghost var start := helper.considered;
    ghost var startState := helper.State();
    assert points[..|points|] == points;
    for i := 0 to |points|
      invariant helper.Valid()
      invariant helper.considered == start + points[..i]
      invariant helper.State() == OfferAll(points[..i], startState, helper.center, helper.maxLength)
      invariant Settled(startState, helper.State(), helper.maxLength)
    {
      ShowNext(points, i, helper, start, startState);
    }
  }

  /** One pass of the loop of `ConsiderAll`. */
  method ShowNext(points: seq<Vector>, i: nat, helper: ClosestNPointsList, ghost start: seq<Vector>,
                  ghost startState: ListState)
    requires i < |points|
    requires helper.Valid() && helper.considered == start + points[..i]
    requires helper.State() == OfferAll(points[..i], startState, helper.center, helper.maxLength)
    requires Settled(startState, helper.State(), helper.maxLength)
    modifies helper
    ensures helper.Valid() && helper.considered == start + points[..i + 1]
    ensures helper.State() == OfferAll(points[..i + 1], startState, helper.center, helper.maxLength)
    ensures Settled(startState, helper.State(), helper.maxLength)
  {
    ghost var c, before := helper.considered, helper.State();
    helper.Consider(points[i]);
    OfferAllStep(points, i, start, c, helper.considered, startState, before, helper.State(), helper.center, helper.maxLength);
  }

  /** One more `consider` at the end of a run of them. */
  lemma OfferAllStep(points: seq<Vector>, i: nat, start: seq<Vector>, c: seq<Vector>, c': seq<Vector>,
                     s: ListState, before: ListState, after: ListState, center: Vector, maxLength: nat)
    requires i < |points|
    requires c == start + points[..i] && c' == c + [points[i]]
    requires before == OfferAll(points[..i], s, center, maxLength) && Settled(s, before, maxLength)
    requires after == Offer(before, maxLength, Entry(points[i], DistanceSquared(center, points[i])))
    requires Settled(before, after, maxLength)
    ensures c' == start + points[..i + 1]
    ensures after == OfferAll(points[..i + 1], s, center, maxLength) && Settled(s, after, maxLength)
  {
    assert points[..i + 1] == points[..i] + [points[i]];
    assert points[..i + 1][..i] == points[..i];
  }

  /**
   * `findClosestNPoints(helper)` on a node: descend first on the side of the
   * split the center lies on, then on the far side only when the split is
   * within the helper's current `maxDistance` (which is still -1 while the
   * helper is empty). The helper is shown each stored point at most once.
   */
  method FindClosestIn(t: Tree, helper: ClosestNPointsList) returns (ghost shown: seq<Vector>)
    requires helper.Valid()
    modifies helper
    ensures helper.Valid()
    ensures helper.considered == old(helper.considered) + shown
    ensures multiset(shown) <= multiset(Points(t))
    ensures helper.State() == Walk(t, old(helper.State()), helper.center, helper.maxLength)
    decreases t, 2
  {
    match t
    case Leaf(points) =>
      ConsiderAll(points, helper);
      shown := points;
    case Node(d, split, _, _) =>
      if Coordinate(helper.center, d) < split {
        shown := NearLeft(t, helper);
      } else {
        shown := NearRight(t, helper);
      }
  }

  /** A node whose split lies above the center: the left child, then the right one if within reach. */
  method NearLeft(t: Tree, helper: ClosestNPointsList) returns (ghost shown: seq<Vector>)
    requires t.Node? && helper.Valid() && Coordinate(helper.center, t.dimension) < t.splitPosition
    modifies helper
    ensures helper.Valid()
    ensures helper.considered == old(helper.considered) + shown
    ensures multiset(shown) <= multiset(Points(t))
    ensures helper.State() == Walk(t, old(helper.State()), helper.center, helper.maxLength)
    decreases t, 1
  {
    ghost var c0, s0 := helper.considered, helper.State();
    ghost var near := Side(t, true, helper);
    ghost var c1, s1 := helper.considered, helper.State();
    ghost var far: seq<Vector> := [];
    if Geometry.ReachesUp(Coordinate(helper.center, t.dimension), t.splitPosition, helper.maxDistance) {
      far := Side(t, false, helper);
    }
    WalkNode(t, s0, s1, helper.State(), helper.center, helper.maxLength);
    Appended(c0, c1, helper.considered, near, far);
    shown := near + far;
  }

  /** A node whose split lies at or below the center: the right child, then the left one if within reach. */
  method NearRight(t: Tree, helper: ClosestNPointsList) returns (ghost shown: seq<Vector>)
    requires t.Node? && helper.Valid() && Coordinate(helper.center, t.dimension) >= t.splitPosition
    modifies helper
    ensures helper.Valid()
    ensures helper.considered == old(helper.considered) + shown
    ensures multiset(shown) <= multiset(Points(t))
    ensures helper.State() == Walk(t, old(helper.State()), helper.center, helper.maxLength)
    decreases t, 1
  {
    ghost var c0, s0 := helper.considered, helper.State();
    ghost var near := Side(t, false, helper);
    ghost var c1, s1 := helper.considered, helper.State();
    ghost var far: seq<Vector> := [];
    if Geometry.ReachesDown(Coordinate(helper.center, t.dimension), t.splitPosition, helper.maxDistance) {
      far := Side(t, true, helper);
    }
    WalkNode(t, s0, s1, helper.State(), helper.center, helper.maxLength);
    Appended(c0, c1, helper.considered, near, far);
    shown := near + far;
  }

  /** The walk on a node: the near child from `s` to `s1`, then the far child from `s1` when the split is within reach. */
  lemma WalkNode(t: Tree, s: ListState, s1: ListState, s2: ListState, center: Vector, maxLength: nat)
    requires t.Node?
    requires var position := Coordinate(center, t.dimension);
      if position < t.splitPosition then
        s1 == Walk(t.left, s, center, maxLength) &&
        s2 == if Geometry.ReachesUp(position, t.splitPosition, s1.maxDistance) then Walk(t.right, s1, center, maxLength) else s1
      else
        s1 == Walk(t.right, s, center, maxLength) &&
        s2 == if Geometry.ReachesDown(position, t.splitPosition, s1.maxDistance) then Walk(t.left, s1, center, maxLength) else s1
    ensures s2 == Walk(t, s, center, maxLength)
  {
  }

  lemma Appended<T>(c0: seq<T>, c1: seq<T>, c2: seq<T>, a: seq<T>, b: seq<T>)
    requires c1 == c0 + a && c2 == c1 + b
    ensures c2 == c0 + (a + b)
  {
  }

  /** `findClosestNPoints(helper)` on the left (`goLeft`) or right child of a node. */
  method Side(t: Tree, goLeft: bool, helper: ClosestNPointsList) returns (ghost shown: seq<Vector>)
    requires t.Node? && helper.Valid()
    modifies helper
    ensures helper.Valid()
    ensures helper.considered == old(helper.considered) + shown
    ensures multiset(shown) <= multiset(Points(if goLeft then t.left else t.right))
    ensures helper.State() == Walk(if goLeft then t.left else t.right, old(helper.State()), helper.center, helper.maxLength)
    decreases t, 0
  {
    shown := FindClosestIn(if goLeft then t.left else t.right, helper);
  }

  /** `KDTree(points)`: the root node, on dimension x, of a non-empty list. */
  class KDTree {
    ghost const points: seq<Vector>
    const root: Tree

    ghost predicate Valid() {
      |points| >= 1 && root == Build(points, X)
    }

    constructor (points: seq<Vector>)
      requires |points| >= 1
      ensures this.points == points && Valid()
    {
      this.points := points;
      root := Build(points, X);
    }

    /** `findPointsInRadius(center, radius)`: what the generator yields, as a multiset the naive scan's result. */
    method FindPointsInRadius(center: Vector, radius: real) returns (found: seq<Vector>)
      requires Valid()
      ensures found == InRadius(root, center, radius)
      ensures multiset(found) == multiset(NearPoints(points, center, radius))
    {
      found := InRadius(root, center, radius);
      InRadiusIsNear(root, center, radius);
      NearPointsPermutation(Points(root), points, center, radius);
    }

    /**
     * `findClosestNPoints(center, n)`: the points the walk leaves in a fresh
     * helper; at most `n` of them, the closest `n` of the points the walk
     * showed the helper, each of them shown once at most.
     */
    method FindClosestNPoints(center: Vector, n: nat) returns (closest: seq<Vector>, ghost considered: seq<Vector>)
      requires Valid()
      ensures |closest| <= n
      ensures multiset(considered) <= multiset(points)
      ensures NearestChoice(closest, considered, center, n)
      ensures closest == EntryPoints(Walk(root, ListState([], -1.0, -1), center, n).entries)
    {
      var helper := new ClosestNPointsList(center, n);
      considered := FindClosestIn(root, helper);
      helper.HeldAreNearest();
      closest := helper.GetPoints();
    }
  }

  /** `naiveSearchInRadius` and `naiveSearchClosestN` key: `Vector.distance(p, center)`, squared. */
  function NaiveSearchClosestN(points: seq<Vector>, center: Vector, n: nat): seq<Vector> {
    var sortedPoints := SortBy(points, p => DistanceSquared(p, center));
    sortedPoints[..Min(n, |sortedPoints|)]
  }

  /** `naiveSearchClosestN` makes a closest-`n` choice. */
  lemma NaiveClosestIsNearest(points: seq<Vector>, center: Vector, n: nat)
    ensures NearestChoice(NaiveSearchClosestN(points, center, n), points, center, n)
  {
    var s := SortBy(points, p => DistanceSquared(p, center));
    SortedByDistance(s, center);
    NearestPrefix(points, s, center, n);
  }

  /** Sorted on the distance to `center` is sorted on the distance from it. */
  lemma SortedByDistance(s: seq<Vector>, center: Vector)
    requires SortedBy(s, p => DistanceSquared(p, center))
    ensures forall i, j :: 0 <= i < j < |s| ==> DistanceSquared(center, s[i]) <= DistanceSquared(center, s[j])
  {
    forall i, j | 0 <= i < j < |s|
      ensures DistanceSquared(center, s[i]) <= DistanceSquared(center, s[j])
    {
      DistanceSymmetric(center, s[i]);
      DistanceSymmetric(center, s[j]);
    }
  }

  /** The first `n` of a reordering of `points` sorted by distance from `center` are a closest-`n` choice. */
  lemma NearestPrefix(points: seq<Vector>, s: seq<Vector>, center: Vector, n: nat)
    requires multiset(s) == multiset(points)
    requires forall i, j :: 0 <= i < j < |s| ==> DistanceSquared(center, s[i]) <= DistanceSquared(center, s[j])
    ensures NearestChoice(s[..Min(n, |s|)], points, center, n)
  {
    var k := Min(n, |s|);
    assert |s| == |points| by {
      assert |multiset(s)| == |multiset(points)|;
    }
    assert s == s[..k] + s[k..];
    assert multiset(points) - multiset(s[..k]) == multiset(s[k..]);
    PrefixIsNearest(s, k, center);
  }

  /** In a list sorted by distance from `center`, each point of a prefix is no farther than any point after it. */
  lemma PrefixIsNearest(s: seq<Vector>, k: nat, center: Vector)
    requires k <= |s|
    requires forall i, j :: 0 <= i < j < |s| ==> DistanceSquared(center, s[i]) <= DistanceSquared(center, s[j])
    ensures forall p, q :: p in s[..k] && q in multiset(s[k..]) ==> DistanceSquared(center, p) <= DistanceSquared(center, q)
  {
    forall p, q | p in s[..k] && q in multiset(s[k..])
      ensures DistanceSquared(center, p) <= DistanceSquared(center, q)
    {
      var i :| 0 <= i < k && s[i] == p;
      var j :| k <= j < |s| && s[j] == q;
    }
  }

  /** `naiveSearchClosestN2(points, center, n)`: show a fresh helper every point. */
  method NaiveSearchClosestN2(points: seq<Vector>, center: Vector, n: nat) returns (closest: seq<Vector>)
    ensures NearestChoice(closest, points, center, n)
  {
    var helper := new ClosestNPointsList(center, n);
    ConsiderAll(points, helper);
    helper.HeldAreNearest();
    closest := helper.GetPoints();
  }
}
