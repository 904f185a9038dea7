/**
 * The k-nearest descent of source/kdtree.hpp `collectKNearest`, and the
 * same descent with the defect at source/kdtree.hpp:301 and :306 removed.
 *
 * As written, the far half of an internal range is visited only when
 * `maxDistance` reaches across the split plane. While the collector holds
 * fewer than `k` points, `maxDistance` is the distance of its farthest one,
 * so the far half can be skipped although every one of its points would
 * still have been taken (`KNearestStopsShort`). `FixedWalk` also visits the
 * far half while the collector is not full, and `FixedWalkIsNearest` proves
 * that it then returns a k-nearest choice of the whole buffer.
 */
module NearestSearch {
  import opened Geometry
  import opened Selection
  import opened FlatTree
  import opened Collectors
  import opened KdTree

  // ---------------------------------------------------------------------------
  // The descent as written
  // ---------------------------------------------------------------------------

  /**
   * A balanced 1-D buffer `[0, 1, 2]` with buckets of one point, queried for
   * its 3 nearest points to `0`: the walk shows `0`, skips the high half
   * because the distance `1` to the split does not fit in `maxDistance` `0`,
   * and shows the split `1`. It returns two points where three exist.
   */
  lemma KNearestStopsShort()
    ensures Balanced([[0.0], [1.0], [2.0]], 0, 2, 0, 1, 1)
    ensures |NearestWalk([[0.0], [1.0], [2.0]], 0, 2, 0, 1, 1, 3, [0.0], Empty).queue| == 2
    ensures !KNearestOf(Points(Drain(NearestWalk([[0.0], [1.0], [2.0]], 0, 2, 0, 1, 1, 3, [0.0], Empty).queue)),
                        [[0.0], [1.0], [2.0]], [0.0], 3)
  {
    ExampleBalanced();
    ExampleWalk();
    var r := NearestWalk([[0.0], [1.0], [2.0]], 0, 2, 0, 1, 1, 3, [0.0], Empty);
    assert |Points(Drain(r.queue))| == |r.queue|;
  }

  /** The example buffer is balanced: `1` splits it, and each half is a bucket. */
  lemma ExampleBalanced()
    ensures Balanced([[0.0], [1.0], [2.0]], 0, 2, 0, 1, 1)
  {
    var s: seq<Point> := [[0.0], [1.0], [2.0]];
    assert MedianIndex(0, 2) == 1 && Axis(0, 1) == 0;
    assert Selected(s, 0, 2, 1, 0);
    BalancedLeaf(s, 0, 0, 1, 1, 1);
    BalancedLeaf(s, 2, 2, 1, 1, 1);
    BalancedNode(s, 0, 2, 1, 0, 0, 1, 1);
  }

  /** The walk of the example: the low bucket, no high half, then the split point. */
  lemma ExampleWalk()
    ensures |NearestWalk([[0.0], [1.0], [2.0]], 0, 2, 0, 1, 1, 3, [0.0], Empty).queue| == 2
  {
    var s: seq<Point> := [[0.0], [1.0], [2.0]];
    var low := ExampleLowBucket();
    assert !ReachesUp(0.0, 1.0, low.maxDistance);
    WalkNode(s, 0, 2, 0, 1, 1, 3, [0.0], Empty);
    LowFirstWalk(s, 0, 2, 0, 1, 1, 3, [0.0], 1, 0.0, 1.0, Empty);
    assert NearestFarHigh(s, 1, 2, 0, 1, 1, 3, [0.0], 0.0, 1.0, low) == low;
  }

  /** The low bucket of the example: the point `0` at distance `0`. */
  lemma ExampleLowBucket() returns (low: KState)
    ensures low == NearestWalk([[0.0], [1.0], [2.0]], 0, 0, 1, 1, 1, 3, [0.0], Empty)
    ensures low == KState([Entry([0.0], 0.0)], 0.0)
  {
    var s: seq<Point> := [[0.0], [1.0], [2.0]];
    assert SqDistUpTo([0.0], [0.0], 1) == SqDistUpTo([0.0], [0.0], 0) + Square(0.0 - 0.0) == 0.0;
    assert Measure(s, 0, 1, [0.0]) == [Entry([0.0], 0.0)];
    low := NearestWalk(s, 0, 0, 1, 1, 1, 3, [0.0], Empty);
  }

  // ---------------------------------------------------------------------------
  // The corrected descent
  // ---------------------------------------------------------------------------

  /**
   * `collectKNearest(left, right, depth, collector)` with the far half also
   * visited while the collector holds fewer than `k` points: a leaf shows its
   * bucket in order; an internal range walks the half on the origin's side,
   * then the far half unless the collector is full and its `maxDistance`
   * does not reach the split, then shows the split point.
   */
  ghost function FixedWalk(s: seq<Point>, left: int, right: int, depth: nat, ndim: nat, leafSize: nat,
                           k: nat, origin: Point, st: KState): (r: KState)
    requires 0 <= left <= right + 1 <= |s|
    requires ndim >= 1 && |origin| == ndim && Dimensioned(s, ndim)
    requires KValid(st, k)
    ensures KValid(r, k)
    decreases right - left + 1, 3
  {
    if IsLeaf(left, right, leafSize) then OfferAll(st, k, Measure(s, left, right + 1, origin))
    else FixedInner(s, left, right, depth, ndim, leafSize, k, origin, st)
  }

  /** An internal range of `FixedWalk`: the near half, the far half as decided, then the split point. */
  ghost function FixedInner(s: seq<Point>, left: int, right: int, depth: nat, ndim: nat, leafSize: nat,
                            k: nat, origin: Point, st: KState): (r: KState)
    requires 0 <= left <= right + 1 <= |s|
    requires ndim >= 1 && |origin| == ndim && Dimensioned(s, ndim)
    requires KValid(st, k) && !IsLeaf(left, right, leafSize)
    ensures KValid(r, k)
    decreases right - left + 1, 2
  {
    var m := MedianIndex(left, right);
    var axis := Axis(depth, ndim);
    var before :=
      if origin[axis] <= s[m][axis]
      then FixedLowFirst(s, left, right, depth, ndim, leafSize, k, origin, m, origin[axis], s[m][axis], st)
      else FixedHighFirst(s, left, right, depth, ndim, leafSize, k, origin, m, origin[axis], s[m][axis], st);
    var e := Entry(s[m], SqDist(origin, s[m]));
    OfferKeepsValid(before, k, e);
    Offer(before, k, e)
  }

  /** The low half, then the high half as `FixedFarHigh` decides. */
  ghost function FixedLowFirst(s: seq<Point>, left: int, right: int, depth: nat, ndim: nat, leafSize: nat,
                               k: nat, origin: Point, m: int, originPos: real, splitPos: real, st: KState): (r: KState)
    requires 0 <= left <= m <= right < |s|
    requires ndim >= 1 && |origin| == ndim && Dimensioned(s, ndim)
    requires KValid(st, k)
    ensures KValid(r, k)
    decreases right - left + 1, 1
  {
    FixedFarHigh(s, m, right, depth, ndim, leafSize, k, origin, originPos, splitPos,
                 FixedWalk(s, left, m - 1, depth + 1, ndim, leafSize, k, origin, st))
  }

  /** The high half, then the low half as `FixedFarLow` decides. */
  ghost function FixedHighFirst(s: seq<Point>, left: int, right: int, depth: nat, ndim: nat, leafSize: nat,
                                k: nat, origin: Point, m: int, originPos: real, splitPos: real, st: KState): (r: KState)
    requires 0 <= left <= m <= right < |s|
    requires ndim >= 1 && |origin| == ndim && Dimensioned(s, ndim)
    requires KValid(st, k)
    ensures KValid(r, k)
    decreases right - left + 1, 1
  {
    FixedFarLow(s, left, m, depth, ndim, leafSize, k, origin, originPos, splitPos,
                FixedWalk(s, m + 1, right, depth + 1, ndim, leafSize, k, origin, st))
  }

  /** `FixedLowFirst` walks the low half, then decides on the high half. */
  lemma FixedLowFirstOpens(s: seq<Point>, left: int, right: int, depth: nat, ndim: nat, leafSize: nat,
                           k: nat, origin: Point, m: int, originPos: real, splitPos: real, st: KState)
    requires 0 <= left <= m <= right < |s|
    requires ndim >= 1 && |origin| == ndim && Dimensioned(s, ndim)
    requires KValid(st, k)
    ensures FixedLowFirst(s, left, right, depth, ndim, leafSize, k, origin, m, originPos, splitPos, st) ==
            FixedFarHigh(s, m, right, depth, ndim, leafSize, k, origin, originPos, splitPos,
                         FixedWalk(s, left, m - 1, depth + 1, ndim, leafSize, k, origin, st))
  {
  }

  /** `FixedHighFirst` walks the high half, then decides on the low half. */
  lemma FixedHighFirstOpens(s: seq<Point>, left: int, right: int, depth: nat, ndim: nat, leafSize: nat,
                            k: nat, origin: Point, m: int, originPos: real, splitPos: real, st: KState)
    requires 0 <= left <= m <= right < |s|
    requires ndim >= 1 && |origin| == ndim && Dimensioned(s, ndim)
    requires KValid(st, k)
    ensures FixedHighFirst(s, left, right, depth, ndim, leafSize, k, origin, m, originPos, splitPos, st) ==
            FixedFarLow(s, left, m, depth, ndim, leafSize, k, origin, originPos, splitPos,
                        FixedWalk(s, m + 1, right, depth + 1, ndim, leafSize, k, origin, st))
  {
  }

  /** The high half walked second: while the collector is not full, or when `maxDistance` reaches up across the split. */
  ghost function FixedFarHigh(s: seq<Point>, m: int, right: int, depth: nat, ndim: nat, leafSize: nat,
                              k: nat, origin: Point, originPos: real, splitPos: real, st: KState): (r: KState)
    requires 0 <= m <= right < |s|
    requires ndim >= 1 && |origin| == ndim && Dimensioned(s, ndim)
    requires KValid(st, k)
    ensures KValid(r, k)
    decreases right - m + 1, 0
  {
    if |st.queue| < k || ReachesUp(originPos, splitPos, st.maxDistance)
    then FixedWalk(s, m + 1, right, depth + 1, ndim, leafSize, k, origin, st)
    else st
  }

  /** The low half walked second: while the collector is not full, or when `maxDistance` reaches down across the split. */
  ghost function FixedFarLow(s: seq<Point>, left: int, m: int, depth: nat, ndim: nat, leafSize: nat,
                             k: nat, origin: Point, originPos: real, splitPos: real, st: KState): (r: KState)
    requires 0 <= left <= m < |s|
    requires ndim >= 1 && |origin| == ndim && Dimensioned(s, ndim)
    requires KValid(st, k)
    ensures KValid(r, k)
    decreases m - left + 1, 0
  {
    if |st.queue| < k || ReachesDown(originPos, splitPos, st.maxDistance)
    then FixedWalk(s, left, m - 1, depth + 1, ndim, leafSize, k, origin, st)
    else st
  }

  /** `FixedFarHigh` walks the high half exactly when `visit` says the collector is not full or reaches across the split. */
  lemma FixedFarHighOpens(s: seq<Point>, m: int, right: int, depth: nat, ndim: nat, leafSize: nat,
                          k: nat, origin: Point, originPos: real, splitPos: real, st: KState, visit: bool)
    requires 0 <= m <= right < |s|
    requires ndim >= 1 && |origin| == ndim && Dimensioned(s, ndim)
    requires KValid(st, k)
    requires visit == (|st.queue| < k || ReachesUp(originPos, splitPos, st.maxDistance))
    ensures FixedFarHigh(s, m, right, depth, ndim, leafSize, k, origin, originPos, splitPos, st) ==
            if visit then FixedWalk(s, m + 1, right, depth + 1, ndim, leafSize, k, origin, st) else st
  {
  }

  /** `FixedFarLow` walks the low half exactly when `visit` says the collector is not full or reaches across the split. */
  lemma FixedFarLowOpens(s: seq<Point>, left: int, m: int, depth: nat, ndim: nat, leafSize: nat,
                         k: nat, origin: Point, originPos: real, splitPos: real, st: KState, visit: bool)
    requires 0 <= left <= m < |s|
    requires ndim >= 1 && |origin| == ndim && Dimensioned(s, ndim)
    requires KValid(st, k)
    requires visit == (|st.queue| < k || ReachesDown(originPos, splitPos, st.maxDistance))
    ensures FixedFarLow(s, left, m, depth, ndim, leafSize, k, origin, originPos, splitPos, st) ==
            if visit then FixedWalk(s, left, m - 1, depth + 1, ndim, leafSize, k, origin, st) else st
  {
  }

  /** An internal range of the corrected walk: the near half, the far half as decided, then the split point. */
  lemma FixedNode(s: seq<Point>, left: int, right: int, depth: nat, ndim: nat, leafSize: nat,
                  k: nat, origin: Point, st: KState)
    requires 0 <= left <= right + 1 <= |s|
    requires ndim >= 1 && |origin| == ndim && Dimensioned(s, ndim)
    requires KValid(st, k) && !IsLeaf(left, right, leafSize)
    ensures var m := MedianIndex(left, right);
            var axis := Axis(depth, ndim);
            var before :=
              if origin[axis] <= s[m][axis]
              then FixedFarHigh(s, m, right, depth, ndim, leafSize, k, origin, origin[axis], s[m][axis],
                                FixedWalk(s, left, m - 1, depth + 1, ndim, leafSize, k, origin, st))
              else FixedFarLow(s, left, m, depth, ndim, leafSize, k, origin, origin[axis], s[m][axis],
                               FixedWalk(s, m + 1, right, depth + 1, ndim, leafSize, k, origin, st));
            FixedWalk(s, left, right, depth, ndim, leafSize, k, origin, st) == Offer(before, k, Entry(s[m], SqDist(origin, s[m])))
  {
    FixedNodeSplit(s, left, right, depth, ndim, leafSize, k, origin, st);
    var m := MedianIndex(left, right);
    var axis := Axis(depth, ndim);
    if origin[axis] <= s[m][axis] {
      FixedLowFirstOpens(s, left, right, depth, ndim, leafSize, k, origin, m, origin[axis], s[m][axis], st);
    } else {
      FixedHighFirstOpens(s, left, right, depth, ndim, leafSize, k, origin, m, origin[axis], s[m][axis], st);
    }
  }

  /** The same, one layer at a time: the near half and the far half together as `FixedLowFirst` or `FixedHighFirst`. */
  lemma FixedNodeSplit(s: seq<Point>, left: int, right: int, depth: nat, ndim: nat, leafSize: nat,
                       k: nat, origin: Point, st: KState)
    requires 0 <= left <= right + 1 <= |s|
    requires ndim >= 1 && |origin| == ndim && Dimensioned(s, ndim)
    requires KValid(st, k) && !IsLeaf(left, right, leafSize)
    ensures var m := MedianIndex(left, right);
            var axis := Axis(depth, ndim);
            var before :=
              if origin[axis] <= s[m][axis]
              then FixedLowFirst(s, left, right, depth, ndim, leafSize, k, origin, m, origin[axis], s[m][axis], st)
              else FixedHighFirst(s, left, right, depth, ndim, leafSize, k, origin, m, origin[axis], s[m][axis], st);
            FixedWalk(s, left, right, depth, ndim, leafSize, k, origin, st) == Offer(before, k, Entry(s[m], SqDist(origin, s[m])))
  {
  }

  /**
   * `collectKNearest(left, right, depth, collector)` with the corrected
   * descent, on the tree's buffer: it leaves the collector as `FixedWalk` does.
   */
  method CollectKNearestRangeFixed(tree: KDTree, left: int, right: int, depth: nat, collector: KNearestCollector,
                                   ghost s: seq<Point>)
    requires tree.Valid() && s == tree.points[..] && collector.Valid()
    requires 0 <= left <= right + 1 <= tree.points.Length
    requires |collector.origin| == tree.ndim
    modifies collector
    ensures collector.Valid()
    ensures KState(collector.queue, collector.maxDistance) ==
            FixedWalk(s, left, right, depth, tree.ndim, tree.bucketSize, collector.k, collector.origin,
                      old(KState(collector.queue, collector.maxDistance)))
    decreases right - left + 1, 3
  {
    if IsLeaf(left, right, tree.bucketSize) {
      tree.ConsiderBucketNearest(left, right, collector, s);
      return;
    }
    var axis := Axis(depth, tree.ndim);
    var medianIndex := MedianIndex(left, right);
    var splitPoint := tree.points[medianIndex];
    assert splitPoint == s[medianIndex] && |splitPoint| == tree.ndim;
    var splitPos := splitPoint[axis];
    var originPos := collector.origin[axis];
    FixedNodeSplit(s, left, right, depth, tree.ndim, tree.bucketSize, collector.k, collector.origin,
                   KState(collector.queue, collector.maxDistance));
    if originPos <= splitPos {
      CollectKNearestLowFirstFixed(tree, left, right, depth, medianIndex, originPos, splitPos, collector, s);
    } else {
      CollectKNearestHighFirstFixed(tree, left, right, depth, medianIndex, originPos, splitPos, collector, s);
    }
    Show(collector, splitPoint);
  }

  /** The corrected descent with the origin on the low side of the split: the low half, then the high half as decided. */
  method CollectKNearestLowFirstFixed(tree: KDTree, left: int, right: int, depth: nat, m: int, originPos: real, splitPos: real,
                                      collector: KNearestCollector, ghost s: seq<Point>)
    requires tree.Valid() && s == tree.points[..] && collector.Valid()
    requires 0 <= left <= m <= right < tree.points.Length
    requires |collector.origin| == tree.ndim
    modifies collector
    ensures collector.Valid()
    ensures KState(collector.queue, collector.maxDistance) ==
            FixedLowFirst(s, left, right, depth, tree.ndim, tree.bucketSize, collector.k, collector.origin, m, originPos, splitPos,
                          old(KState(collector.queue, collector.maxDistance)))
    decreases right - left + 1, 2
  {
    FixedLowFirstOpens(s, left, right, depth, tree.ndim, tree.bucketSize, collector.k, collector.origin, m, originPos, splitPos,
                       KState(collector.queue, collector.maxDistance));
    CollectKNearestRangeFixed(tree, left, m - 1, depth + 1, collector, s);
    CollectKNearestFarHighFixed(tree, m, right, depth, originPos, splitPos, collector, s);
  }

  /** The same with the origin on the high side: the high half first, then the low half as decided. */
  method CollectKNearestHighFirstFixed(tree: KDTree, left: int, right: int, depth: nat, m: int, originPos: real, splitPos: real,
                                       collector: KNearestCollector, ghost s: seq<Point>)
    requires tree.Valid() && s == tree.points[..] && collector.Valid()
    requires 0 <= left <= m <= right < tree.points.Length
    requires |collector.origin| == tree.ndim
    modifies collector
    ensures collector.Valid()
    ensures KState(collector.queue, collector.maxDistance) ==
            FixedHighFirst(s, left, right, depth, tree.ndim, tree.bucketSize, collector.k, collector.origin, m, originPos, splitPos,
                           old(KState(collector.queue, collector.maxDistance)))
    decreases right - left + 1, 2
  {
    FixedHighFirstOpens(s, left, right, depth, tree.ndim, tree.bucketSize, collector.k, collector.origin, m, originPos, splitPos,
                        KState(collector.queue, collector.maxDistance));
    CollectKNearestRangeFixed(tree, m + 1, right, depth + 1, collector, s);
    CollectKNearestFarLowFixed(tree, left, m, depth, originPos, splitPos, collector, s);
  }

  /** The high half walked second: while the collector is not full, or when `maxDistance` reaches up across the split. */
  method CollectKNearestFarHighFixed(tree: KDTree, m: int, right: int, depth: nat, originPos: real, splitPos: real,
                                     collector: KNearestCollector, ghost s: seq<Point>)
    requires tree.Valid() && s == tree.points[..] && collector.Valid()
    requires 0 <= m <= right < tree.points.Length
    requires |collector.origin| == tree.ndim
    modifies collector
    ensures collector.Valid()
    ensures KState(collector.queue, collector.maxDistance) ==
            FixedFarHigh(s, m, right, depth, tree.ndim, tree.bucketSize, collector.k, collector.origin, originPos, splitPos,
                         old(KState(collector.queue, collector.maxDistance)))
    decreases right - m + 1, 1
  {
    var visit := VisitHigh(tree, m, right, depth, originPos, splitPos, collector, s);
    WalkIf(tree, m + 1, right, depth + 1, visit, collector, s);
  }

  /** The low half walked second: while the collector is not full, or when `maxDistance` reaches down across the split. */
  method CollectKNearestFarLowFixed(tree: KDTree, left: int, m: int, depth: nat, originPos: real, splitPos: real,
                                    collector: KNearestCollector, ghost s: seq<Point>)
    requires tree.Valid() && s == tree.points[..] && collector.Valid()
    requires 0 <= left <= m < tree.points.Length
    requires |collector.origin| == tree.ndim
    modifies collector
    ensures collector.Valid()
    ensures KState(collector.queue, collector.maxDistance) ==
            FixedFarLow(s, left, m, depth, tree.ndim, tree.bucketSize, collector.k, collector.origin, originPos, splitPos,
                        old(KState(collector.queue, collector.maxDistance)))
    decreases m - left + 1, 1
  {
    var visit := VisitLow(tree, left, m, depth, originPos, splitPos, collector, s);
    WalkIf(tree, left, m - 1, depth + 1, visit, collector, s);
  }

  /** Whether the corrected descent walks the high half: the collector is not full, or `maxDistance` reaches up across the split. */
  method VisitHigh(tree: KDTree, m: int, right: int, depth: nat, originPos: real, splitPos: real,
                   collector: KNearestCollector, ghost s: seq<Point>) returns (visit: bool)
    requires tree.Valid() && s == tree.points[..] && collector.Valid()
    requires 0 <= m <= right < tree.points.Length
    requires |collector.origin| == tree.ndim
    ensures visit == (|collector.queue| < collector.k || ReachesUp(originPos, splitPos, collector.maxDistance))
    ensures FixedFarHigh(s, m, right, depth, tree.ndim, tree.bucketSize, collector.k, collector.origin, originPos, splitPos,
                         KState(collector.queue, collector.maxDistance)) ==
            if visit
            then FixedWalk(s, m + 1, right, depth + 1, tree.ndim, tree.bucketSize, collector.k, collector.origin,
                           KState(collector.queue, collector.maxDistance))
            else KState(collector.queue, collector.maxDistance)
  {
    visit := |collector.queue| < collector.k || ReachesUp(originPos, splitPos, collector.maxDistance);
    FixedFarHighOpens(s, m, right, depth, tree.ndim, tree.bucketSize, collector.k, collector.origin, originPos, splitPos,
                      KState(collector.queue, collector.maxDistance), visit);
  }

  /** Whether the corrected descent walks the low half: the collector is not full, or `maxDistance` reaches down across the split. */
  method VisitLow(tree: KDTree, left: int, m: int, depth: nat, originPos: real, splitPos: real,
                  collector: KNearestCollector, ghost s: seq<Point>) returns (visit: bool)
    requires tree.Valid() && s == tree.points[..] && collector.Valid()
    requires 0 <= left <= m < tree.points.Length
    requires |collector.origin| == tree.ndim
    ensures visit == (|collector.queue| < collector.k || ReachesDown(originPos, splitPos, collector.maxDistance))
    ensures FixedFarLow(s, left, m, depth, tree.ndim, tree.bucketSize, collector.k, collector.origin, originPos, splitPos,
                        KState(collector.queue, collector.maxDistance)) ==
            if visit
            then FixedWalk(s, left, m - 1, depth + 1, tree.ndim, tree.bucketSize, collector.k, collector.origin,
                           KState(collector.queue, collector.maxDistance))
            else KState(collector.queue, collector.maxDistance)
  {
    visit := |collector.queue| < collector.k || ReachesDown(originPos, splitPos, collector.maxDistance);
    FixedFarLowOpens(s, left, m, depth, tree.ndim, tree.bucketSize, collector.k, collector.origin, originPos, splitPos,
                     KState(collector.queue, collector.maxDistance), visit);
  }

  /** Walk `left .. right` with the corrected descent when `visit` holds; otherwise leave the collector alone. */
  method WalkIf(tree: KDTree, left: int, right: int, depth: nat, visit: bool, collector: KNearestCollector,
                ghost s: seq<Point>)
    requires tree.Valid() && s == tree.points[..] && collector.Valid()
    requires 0 <= left <= right + 1 <= tree.points.Length
    requires |collector.origin| == tree.ndim
    modifies collector
    ensures collector.Valid()
    ensures KState(collector.queue, collector.maxDistance) ==
            if visit
            then FixedWalk(s, left, right, depth, tree.ndim, tree.bucketSize, collector.k, collector.origin,
                           old(KState(collector.queue, collector.maxDistance)))
            else old(KState(collector.queue, collector.maxDistance))
    decreases right - left + 2, 0
  {
    if visit {
      CollectKNearestRangeFixed(tree, left, right, depth, collector, s);
    }
  }

  /**
   * `collectKNearest(origin, k)` with the corrected descent, on a balanced
   * tree: a k-nearest choice of the whole buffer, farthest first, as
   * `collectKNearest_Naive` returns.
   */
  method CollectKNearestFixed(tree: KDTree, origin: Point, k: nat) returns (result: seq<Point>, ghost entries: seq<Entry>)
    requires tree.Valid() && |origin| == tree.ndim
    requires Balanced(tree.points[..], 0, tree.points.Length - 1, 0, tree.ndim, tree.bucketSize)
    ensures entries == Drain(FixedWalk(tree.points[..], 0, tree.points.Length - 1, 0, tree.ndim, tree.bucketSize, k, origin, Empty).queue)
    ensures result == Points(entries)
    ensures NonIncreasing(entries)
    ensures KNearestOf(result, tree.points[..], origin, k)
  {
    ghost var s := tree.points[..];
    ghost var walked := FixedWalk(s, 0, |s| - 1, 0, tree.ndim, tree.bucketSize, k, origin, Empty);
    FixedWalkIsNearest(s, tree.ndim, tree.bucketSize, k, origin);
    var collector := new KNearestCollector(origin, k);
    CollectKNearestRangeFixed(tree, 0, tree.points.Length - 1, 0, collector, s);
    assert collector.queue == walked.queue;
    entries := Drain(collector.queue);
    result := collector.GetPoints();
    assert result == Points(Drain(walked.queue));
    assert KNearestOf(result, s, origin, k) && NonIncreasing(entries);
    assert tree.points[..] == s;
  }

  // ---------------------------------------------------------------------------
  // Why the corrected walk finds the k nearest points
  // ---------------------------------------------------------------------------

  /**
   * What a walk of a range leaves behind: the entries `shown` and the points
   * `pruned` together make up the range `all`, and points were pruned only
   * by a full collector none of whose left-out points is nearer than its
   * `maxDistance`.
   */
  ghost predicate Covered(st: KState, k: nat, shown: seq<Entry>, pruned: seq<Point>, all: seq<Point>, origin: Point) {
    multiset(Points(shown)) + multiset(pruned) == multiset(all) &&
    (pruned != [] ==> |st.queue| >= k) &&
    forall q :: q in pruned ==> |q| == |origin| && st.maxDistance <= SqDist(origin, q)
  }

  /** `consider` on each entry of a run keeps the collector tracking what it was shown. */
  lemma {:induction false} OfferAllTracks(st: KState, k: nat, considered: seq<Entry>, evicted: seq<Entry>, es: seq<Entry>)
    returns (evicted': seq<Entry>)
    requires Tracks(st, k, considered, evicted)
    requires forall i :: 0 <= i < |es| ==> es[i].distance >= 0.0
    ensures Tracks(OfferAll(st, k, es), k, considered + es, evicted')
    decreases |es|
  {
    if |es| == 0 {
      assert considered + es == considered;
      evicted' := evicted;
    } else {
      var init, last := es[..|es| - 1], es[|es| - 1];
      var ev := OfferAllTracks(st, k, considered, evicted, init);
      var before := OfferAll(st, k, init);
      OfferTracks(before, k, considered + init, ev, last);
      assert considered + init + [last] == considered + es;
      evicted' := ev + Evicted(before, k, last);
    }
  }

  /**
   * A walk from `st` to `r` over the range `all`: the collector tracks the
   * entries `considered + shown`, each shown entry carries its squared
   * distance, the range is covered and the collector settled.
   */
  ghost predicate Walked(st: KState, r: KState, k: nat, considered: seq<Entry>, shown: seq<Entry>, evicted: seq<Entry>,
                         pruned: seq<Point>, all: seq<Point>, origin: Point) {
    Tracks(r, k, considered + shown, evicted) && Measured(shown, origin) &&
    Covered(r, k, shown, pruned, all, origin) && Settled(st, r, k)
  }

  /** A bucket: every point of it is shown, none pruned. */
  lemma LeafCovers(s: seq<Point>, left: int, right: int, k: nat, origin: Point,
                   st: KState, considered: seq<Entry>, evicted: seq<Entry>)
    returns (shown: seq<Entry>, evicted': seq<Entry>, pruned: seq<Point>)
    requires 0 <= left <= right + 1 <= |s|
    requires Dimensioned(s, |origin|)
    requires Tracks(st, k, considered, evicted)
    ensures Walked(st, OfferAll(st, k, Measure(s, left, right + 1, origin)), k, considered, shown, evicted', pruned,
                   s[left..right + 1], origin)
  {
    shown, pruned := Measure(s, left, right + 1, origin), [];
    MeasureFacts(s, left, right + 1, origin);
    evicted' := OfferAllTracks(st, k, considered, evicted, shown);
    OfferAllSettles(st, k, shown);
  }

  /** Settling is transitive. */
  lemma SettledChain(a: KState, b: KState, c: KState, k: nat)
    requires Settled(a, b, k) && Settled(b, c, k)
    ensures Settled(a, c, k)
  {
  }

  /** Points pruned before the collector settled further stay rightly pruned. */
  lemma CoveredSettles(st: KState, st': KState, k: nat, shown: seq<Entry>, pruned: seq<Point>, all: seq<Point>, origin: Point)
    requires Covered(st, k, shown, pruned, all, origin) && Settled(st, st', k)
    ensures Covered(st', k, shown, pruned, all, origin)
  {
  }

  /**
   * From an origin at or below a split that a full collector's
   * `maxDistance` does not reach, every point at or above the split is no
   * nearer than `maxDistance`.
   */
  lemma AboveIsFar(origin: Point, axis: nat, splitPos: real, maxSq: real, q: Point)
    requires axis < |origin| == |q|
    requires origin[axis] <= splitPos <= q[axis]
    requires !ReachesUp(origin[axis], splitPos, maxSq)
    ensures maxSq <= SqDist(origin, q)
  {
    SqDistAtLeastAxis(origin, q, axis);
    SquareNonNegative(origin[axis] - q[axis]);
    if 0.0 <= maxSq {
      SquareMonotone(splitPos - origin[axis], q[axis] - origin[axis]);
      assert Square(origin[axis] - q[axis]) == Square(q[axis] - origin[axis]);
    }
  }

  /** The mirror image of `AboveIsFar`. */
  lemma BelowIsFar(origin: Point, axis: nat, splitPos: real, maxSq: real, q: Point)
    requires axis < |origin| == |q|
    requires q[axis] <= splitPos < origin[axis]
    requires !ReachesDown(origin[axis], splitPos, maxSq)
    ensures maxSq <= SqDist(origin, q)
  {
    SqDistAtLeastAxis(origin, q, axis);
    SquareNonNegative(origin[axis] - q[axis]);
    if 0.0 <= maxSq {
      SquareMonotone(origin[axis] - splitPos, origin[axis] - q[axis]);
    }
  }

  /** A high half skipped by a full collector: all of it is rightly pruned. */
  lemma HighHalfFar(s: seq<Point>, m: int, right: int, axis: nat, origin: Point, st: KState, k: nat)
    requires 0 <= m <= right < |s| && axis < |origin| && Dimensioned(s, |origin|)
    requires AtLeast(s, m + 1, right, axis, Key(s[m], axis))
    requires origin[axis] <= s[m][axis]
    requires |st.queue| >= k && !ReachesUp(origin[axis], s[m][axis], st.maxDistance)
    ensures Covered(st, k, [], s[m + 1..right + 1], s[m + 1..right + 1], origin)
  {
    forall q | q in s[m + 1..right + 1] ensures |q| == |origin| && st.maxDistance <= SqDist(origin, q) {
      var i :| m + 1 <= i <= right && s[i] == q;
      assert Key(s[i], axis) >= Key(s[m], axis);
      AboveIsFar(origin, axis, s[m][axis], st.maxDistance, q);
    }
  }

  /** A low half skipped by a full collector: all of it is rightly pruned. */
  lemma LowHalfFar(s: seq<Point>, left: int, m: int, axis: nat, origin: Point, st: KState, k: nat)
    requires 0 <= left <= m < |s| && axis < |origin| && Dimensioned(s, |origin|)
    requires AtMost(s, left, m - 1, axis, Key(s[m], axis))
    requires s[m][axis] < origin[axis]
    requires |st.queue| >= k && !ReachesDown(origin[axis], s[m][axis], st.maxDistance)
    ensures Covered(st, k, [], s[left..m], s[left..m], origin)
  {
    forall q | q in s[left..m] ensures |q| == |origin| && st.maxDistance <= SqDist(origin, q) {
      var i :| left <= i < m && s[i] == q;
      assert Key(s[i], axis) <= Key(s[m], axis);
      BelowIsFar(origin, axis, s[m][axis], st.maxDistance, q);
    }
  }

  /**
   * The corrected walk of a balanced range leaves the collector tracking
   * the entries it showed, covering the range, and settled.
   */
  lemma {:induction false} FixedCovers(s: seq<Point>, left: int, right: int, depth: nat, ndim: nat, leafSize: nat,
                                       k: nat, origin: Point, st: KState, considered: seq<Entry>, evicted: seq<Entry>)
    returns (shown: seq<Entry>, evicted': seq<Entry>, pruned: seq<Point>)
    requires 0 <= left <= right + 1 <= |s|
    requires ndim >= 1 && |origin| == ndim && Dimensioned(s, ndim)
    requires Balanced(s, left, right, depth, ndim, leafSize)
    requires Tracks(st, k, considered, evicted)
    ensures Walked(st, FixedWalk(s, left, right, depth, ndim, leafSize, k, origin, st), k, considered, shown, evicted', pruned,
                   s[left..right + 1], origin)
    decreases right - left + 1, 3
  {
    if IsLeaf(left, right, leafSize) {
      shown, evicted', pruned := LeafCovers(s, left, right, k, origin, st, considered, evicted);
    } else {
      var m := MedianIndex(left, right);
      var axis := Axis(depth, ndim);
      FixedNode(s, left, right, depth, ndim, leafSize, k, origin, st);
      if origin[axis] <= s[m][axis] {
        shown, evicted', pruned := LowFirstCovers(s, left, right, depth, ndim, leafSize, k, origin, m, st, considered, evicted);
      } else {
        shown, evicted', pruned := HighFirstCovers(s, left, right, depth, ndim, leafSize, k, origin, m, st, considered, evicted);
      }
    }
  }

  /** The parts of a balanced internal range: the median separates it, and both halves are balanced. */
  lemma BalancedParts(s: seq<Point>, left: int, right: int, depth: nat, ndim: nat, leafSize: nat, m: int)
    requires 0 <= left <= right < |s| && ndim >= 1 && !IsLeaf(left, right, leafSize)
    requires m == MedianIndex(left, right) && Balanced(s, left, right, depth, ndim, leafSize)
    ensures AtMost(s, left, m - 1, Axis(depth, ndim), Key(s[m], Axis(depth, ndim)))
    ensures AtLeast(s, m + 1, right, Axis(depth, ndim), Key(s[m], Axis(depth, ndim)))
    ensures Balanced(s, left, m - 1, depth + 1, ndim, leafSize) && Balanced(s, m + 1, right, depth + 1, ndim, leafSize)
  {
  }

  /** An internal range with the origin on the low side: the low half, the high half as decided, the split point. */
  lemma {:induction false} LowFirstCovers(s: seq<Point>, left: int, right: int, depth: nat, ndim: nat, leafSize: nat,
                                          k: nat, origin: Point, m: int, st: KState, considered: seq<Entry>, evicted: seq<Entry>)
    returns (shown: seq<Entry>, evicted': seq<Entry>, pruned: seq<Point>)
    requires 0 <= left <= right < |s| && m == MedianIndex(left, right)
    requires ndim >= 1 && |origin| == ndim && Dimensioned(s, ndim)
    requires !IsLeaf(left, right, leafSize) && Balanced(s, left, right, depth, ndim, leafSize)
    requires origin[Axis(depth, ndim)] <= s[m][Axis(depth, ndim)]
    requires Tracks(st, k, considered, evicted)
    ensures var axis := Axis(depth, ndim);
            var mid := FixedWalk(s, left, m - 1, depth + 1, ndim, leafSize, k, origin, st);
            var before := FixedFarHigh(s, m, right, depth, ndim, leafSize, k, origin, origin[axis], s[m][axis], mid);
            Walked(st, Offer(before, k, Entry(s[m], SqDist(origin, s[m]))), k, considered, shown, evicted', pruned,
                   s[left..right + 1], origin)
    decreases right - left + 1, 2
  {
    var axis := Axis(depth, ndim);
    BalancedParts(s, left, right, depth, ndim, leafSize, m);
    var near, nearEv, nearPruned := FixedCovers(s, left, m - 1, depth + 1, ndim, leafSize, k, origin, st, considered, evicted);
    assert m - 1 + 1 == m;
    var mid := FixedWalk(s, left, m - 1, depth + 1, ndim, leafSize, k, origin, st);
    var far, farEv, farPruned := FarHighCovers(s, m, right, depth, ndim, leafSize, k, origin, mid, considered + near, nearEv);
    var before := FixedFarHigh(s, m, right, depth, ndim, leafSize, k, origin, origin[axis], s[m][axis], mid);
    SplitRange(s, left, m, right);
    shown, evicted', pruned := NodeCovers(s[left..right + 1], s[left..m], s[m + 1..right + 1], Entry(s[m], SqDist(origin, s[m])),
                                          k, origin, st, mid, before, considered, near, nearEv, nearPruned, far, farEv, farPruned);
  }

  /** An internal range with the origin on the high side: the high half, the low half as decided, the split point. */
  lemma {:induction false} HighFirstCovers(s: seq<Point>, left: int, right: int, depth: nat, ndim: nat, leafSize: nat,
                                           k: nat, origin: Point, m: int, st: KState, considered: seq<Entry>, evicted: seq<Entry>)
    returns (shown: seq<Entry>, evicted': seq<Entry>, pruned: seq<Point>)
    requires 0 <= left <= right < |s| && m == MedianIndex(left, right)
    requires ndim >= 1 && |origin| == ndim && Dimensioned(s, ndim)
    requires !IsLeaf(left, right, leafSize) && Balanced(s, left, right, depth, ndim, leafSize)
    requires s[m][Axis(depth, ndim)] < origin[Axis(depth, ndim)]
    requires Tracks(st, k, considered, evicted)
    ensures var axis := Axis(depth, ndim);
            var mid := FixedWalk(s, m + 1, right, depth + 1, ndim, leafSize, k, origin, st);
            var before := FixedFarLow(s, left, m, depth, ndim, leafSize, k, origin, origin[axis], s[m][axis], mid);
            Walked(st, Offer(before, k, Entry(s[m], SqDist(origin, s[m]))), k, considered, shown, evicted', pruned,
                   s[left..right + 1], origin)
    decreases right - left + 1, 2
  {
    var axis := Axis(depth, ndim);
    BalancedParts(s, left, right, depth, ndim, leafSize, m);
    var near, nearEv, nearPruned := FixedCovers(s, m + 1, right, depth + 1, ndim, leafSize, k, origin, st, considered, evicted);
    var mid := FixedWalk(s, m + 1, right, depth + 1, ndim, leafSize, k, origin, st);
    var far, farEv, farPruned := FarLowCovers(s, left, m, depth, ndim, leafSize, k, origin, mid, considered + near, nearEv);
    var before := FixedFarLow(s, left, m, depth, ndim, leafSize, k, origin, origin[axis], s[m][axis], mid);
    SplitRange(s, left, m, right);
    SwapHalves(multiset(s[left..right + 1]), multiset(s[left..m]), multiset{s[m]}, multiset(s[m + 1..right + 1]));
    shown, evicted', pruned := NodeCovers(s[left..right + 1], s[m + 1..right + 1], s[left..m], Entry(s[m], SqDist(origin, s[m])),
                                          k, origin, st, mid, before, considered, near, nearEv, nearPruned, far, farEv, farPruned);
  }

  /** The high half walked second by the corrected walk: shown, or rightly pruned as a whole. */
  lemma {:induction false} FarHighCovers(s: seq<Point>, m: int, right: int, depth: nat, ndim: nat, leafSize: nat,
                                         k: nat, origin: Point, st: KState, considered: seq<Entry>, evicted: seq<Entry>)
    returns (shown: seq<Entry>, evicted': seq<Entry>, pruned: seq<Point>)
    requires 0 <= m <= right < |s|
    requires ndim >= 1 && |origin| == ndim && Dimensioned(s, ndim)
    requires AtLeast(s, m + 1, right, Axis(depth, ndim), Key(s[m], Axis(depth, ndim)))
    requires origin[Axis(depth, ndim)] <= s[m][Axis(depth, ndim)]
    requires Balanced(s, m + 1, right, depth + 1, ndim, leafSize)
    requires Tracks(st, k, considered, evicted)
    ensures Walked(st, FixedFarHigh(s, m, right, depth, ndim, leafSize, k, origin, origin[Axis(depth, ndim)], s[m][Axis(depth, ndim)], st),
                   k, considered, shown, evicted', pruned, s[m + 1..right + 1], origin)
    decreases right - m + 1, 1
  {
    var axis := Axis(depth, ndim);
    if |st.queue| < k || ReachesUp(origin[axis], s[m][axis], st.maxDistance) {
      shown, evicted', pruned := FarHighVisited(s, m, right, depth, ndim, leafSize, k, origin, st, considered, evicted);
    } else {
      shown, evicted', pruned := [], evicted, s[m + 1..right + 1];
      FarHighSkipped(s, m, right, depth, ndim, leafSize, k, origin, st, considered, evicted);
    }
  }

  /** The high half visited: the corrected walk of it. */
  lemma {:induction false} FarHighVisited(s: seq<Point>, m: int, right: int, depth: nat, ndim: nat, leafSize: nat,
                                          k: nat, origin: Point, st: KState, considered: seq<Entry>, evicted: seq<Entry>)
    returns (shown: seq<Entry>, evicted': seq<Entry>, pruned: seq<Point>)
    requires 0 <= m <= right < |s|
    requires ndim >= 1 && |origin| == ndim && Dimensioned(s, ndim)
    requires Balanced(s, m + 1, right, depth + 1, ndim, leafSize)
    requires Tracks(st, k, considered, evicted)
    requires |st.queue| < k || ReachesUp(origin[Axis(depth, ndim)], s[m][Axis(depth, ndim)], st.maxDistance)
    ensures Walked(st, FixedFarHigh(s, m, right, depth, ndim, leafSize, k, origin, origin[Axis(depth, ndim)], s[m][Axis(depth, ndim)], st),
                   k, considered, shown, evicted', pruned, s[m + 1..right + 1], origin)
    decreases right - m + 1, 0
  {
    shown, evicted', pruned := FixedCovers(s, m + 1, right, depth + 1, ndim, leafSize, k, origin, st, considered, evicted);
  }

  /** The high half skipped by a full collector out of reach: all of it rightly pruned. */
  lemma FarHighSkipped(s: seq<Point>, m: int, right: int, depth: nat, ndim: nat, leafSize: nat,
                       k: nat, origin: Point, st: KState, considered: seq<Entry>, evicted: seq<Entry>)
    requires 0 <= m <= right < |s|
    requires ndim >= 1 && |origin| == ndim && Dimensioned(s, ndim)
    requires AtLeast(s, m + 1, right, Axis(depth, ndim), Key(s[m], Axis(depth, ndim)))
    requires origin[Axis(depth, ndim)] <= s[m][Axis(depth, ndim)]
    requires Tracks(st, k, considered, evicted)
    requires !(|st.queue| < k || ReachesUp(origin[Axis(depth, ndim)], s[m][Axis(depth, ndim)], st.maxDistance))
    ensures Walked(st, FixedFarHigh(s, m, right, depth, ndim, leafSize, k, origin, origin[Axis(depth, ndim)], s[m][Axis(depth, ndim)], st),
                   k, considered, [], evicted, s[m + 1..right + 1], s[m + 1..right + 1], origin)
  {
    HighHalfFar(s, m, right, Axis(depth, ndim), origin, st, k);
    assert considered + [] == considered;
  }

  /** The low half walked second by the corrected walk: shown, or rightly pruned as a whole. */
  lemma {:induction false} FarLowCovers(s: seq<Point>, left: int, m: int, depth: nat, ndim: nat, leafSize: nat,
                                        k: nat, origin: Point, st: KState, considered: seq<Entry>, evicted: seq<Entry>)
    returns (shown: seq<Entry>, evicted': seq<Entry>, pruned: seq<Point>)
    requires 0 <= left <= m < |s|
    requires ndim >= 1 && |origin| == ndim && Dimensioned(s, ndim)
    requires AtMost(s, left, m - 1, Axis(depth, ndim), Key(s[m], Axis(depth, ndim)))
    requires s[m][Axis(depth, ndim)] < origin[Axis(depth, ndim)]
    requires Balanced(s, left, m - 1, depth + 1, ndim, leafSize)
    requires Tracks(st, k, considered, evicted)
    ensures Walked(st, FixedFarLow(s, left, m, depth, ndim, leafSize, k, origin, origin[Axis(depth, ndim)], s[m][Axis(depth, ndim)], st),
                   k, considered, shown, evicted', pruned, s[left..m], origin)
    decreases m - left + 1, 1
  {
    var axis := Axis(depth, ndim);
    if |st.queue| < k || ReachesDown(origin[axis], s[m][axis], st.maxDistance) {
      shown, evicted', pruned := FarLowVisited(s, left, m, depth, ndim, leafSize, k, origin, st, considered, evicted);
    } else {
      shown, evicted', pruned := [], evicted, s[left..m];
      FarLowSkipped(s, left, m, depth, ndim, leafSize, k, origin, st, considered, evicted);
    }
  }

  /** The low half visited: the corrected walk of it. */
  lemma {:induction false} FarLowVisited(s: seq<Point>, left: int, m: int, depth: nat, ndim: nat, leafSize: nat,
                                         k: nat, origin: Point, st: KState, considered: seq<Entry>, evicted: seq<Entry>)
    returns (shown: seq<Entry>, evicted': seq<Entry>, pruned: seq<Point>)
    requires 0 <= left <= m < |s|
    requires ndim >= 1 && |origin| == ndim && Dimensioned(s, ndim)
    requires Balanced(s, left, m - 1, depth + 1, ndim, leafSize)
    requires Tracks(st, k, considered, evicted)
    requires |st.queue| < k || ReachesDown(origin[Axis(depth, ndim)], s[m][Axis(depth, ndim)], st.maxDistance)
    ensures Walked(st, FixedFarLow(s, left, m, depth, ndim, leafSize, k, origin, origin[Axis(depth, ndim)], s[m][Axis(depth, ndim)], st),
                   k, considered, shown, evicted', pruned, s[left..m], origin)
    decreases m - left + 1, 0
  {
    shown, evicted', pruned := FixedCovers(s, left, m - 1, depth + 1, ndim, leafSize, k, origin, st, considered, evicted);
    assert m - 1 + 1 == m;
  }

  /** The low half skipped by a full collector out of reach: all of it rightly pruned. */
  lemma FarLowSkipped(s: seq<Point>, left: int, m: int, depth: nat, ndim: nat, leafSize: nat,
                      k: nat, origin: Point, st: KState, considered: seq<Entry>, evicted: seq<Entry>)
    requires 0 <= left <= m < |s|
    requires ndim >= 1 && |origin| == ndim && Dimensioned(s, ndim)
    requires AtMost(s, left, m - 1, Axis(depth, ndim), Key(s[m], Axis(depth, ndim)))
    requires s[m][Axis(depth, ndim)] < origin[Axis(depth, ndim)]
    requires Tracks(st, k, considered, evicted)
    requires !(|st.queue| < k || ReachesDown(origin[Axis(depth, ndim)], s[m][Axis(depth, ndim)], st.maxDistance))
    ensures Walked(st, FixedFarLow(s, left, m, depth, ndim, leafSize, k, origin, origin[Axis(depth, ndim)], s[m][Axis(depth, ndim)], st),
                   k, considered, [], evicted, s[left..m], s[left..m], origin)
  {
    LowHalfFar(s, left, m, Axis(depth, ndim), origin, st, k);
    assert considered + [] == considered;
  }

  /**
   * An internal range: the near half `nearAll` walked from `st` to `mid`,
   * the far half `farAll` from `mid` to `before`, then the split entry `e`
   * shown. The range `all` is covered by the entries of both halves and `e`.
   */
  lemma NodeCovers(all: seq<Point>, nearAll: seq<Point>, farAll: seq<Point>, e: Entry, k: nat, origin: Point,
                   st: KState, mid: KState, before: KState, considered: seq<Entry>,
                   near: seq<Entry>, nearEv: seq<Entry>, nearPruned: seq<Point>,
                   far: seq<Entry>, farEv: seq<Entry>, farPruned: seq<Point>)
    returns (shown: seq<Entry>, evicted': seq<Entry>, pruned: seq<Point>)
    requires multiset(all) == multiset(nearAll) + multiset{e.point} + multiset(farAll)
    requires |e.point| == |origin| && e.distance == SqDist(origin, e.point)
    requires Walked(st, mid, k, considered, near, nearEv, nearPruned, nearAll, origin)
    requires Walked(mid, before, k, considered + near, far, farEv, farPruned, farAll, origin)
    ensures Walked(st, Offer(before, k, e), k, considered, shown, evicted', pruned, all, origin)
  {
    var r := Offer(before, k, e);
    OfferTracks(before, k, considered + near + far, farEv, e);
    OfferSettles(before, k, e);
    shown, evicted', pruned := near + far + [e], farEv + Evicted(before, k, e), nearPruned + farPruned;
    Reassociate(considered, near, far, [e]);
    MeasuredJoin(near, far, e, origin);
    SettledChain(mid, before, r, k);
    CoveredSettles(mid, r, k, near, nearPruned, nearAll, origin);
    CoveredSettles(before, r, k, far, farPruned, farAll, origin);
    SettledChain(st, mid, r, k);
    CoverJoin(all, nearAll, farAll, r, k, origin, near, nearPruned, far, farPruned, e);
  }

  /** Concatenation regrouped. */
  lemma Reassociate<T>(a: seq<T>, b: seq<T>, c: seq<T>, d: seq<T>)
    ensures a + b + c + d == a + (b + c + d)
  {
  }

  /** The halves of a range in the other order. */
  lemma SwapHalves<T>(all: multiset<T>, low: multiset<T>, mid: multiset<T>, high: multiset<T>)
    requires all == low + mid + high
    ensures all == high + mid + low
  {
  }

  /** Both halves covered and the split point shown: the whole range covered. */
  lemma CoverJoin(all: seq<Point>, nearAll: seq<Point>, farAll: seq<Point>, r: KState, k: nat, origin: Point,
                  near: seq<Entry>, nearPruned: seq<Point>, far: seq<Entry>, farPruned: seq<Point>, e: Entry)
    requires multiset(all) == multiset(nearAll) + multiset{e.point} + multiset(farAll)
    requires Covered(r, k, near, nearPruned, nearAll, origin)
    requires Covered(r, k, far, farPruned, farAll, origin)
    ensures Covered(r, k, near + far + [e], nearPruned + farPruned, all, origin)
  {
    PointsJoin(near, far, e);
    CountsJoin(multiset(Points(near)), multiset(Points(far)), multiset{e.point}, multiset(nearPruned), multiset(farPruned),
               multiset(nearAll), multiset(farAll));
    assert multiset(nearPruned + farPruned) == multiset(nearPruned) + multiset(farPruned);
  }

  /** The points of both halves' entries and the split entry. */
  lemma PointsJoin(near: seq<Entry>, far: seq<Entry>, e: Entry)
    ensures multiset(Points(near + far + [e])) == multiset(Points(near)) + multiset(Points(far)) + multiset{e.point}
  {
    PointsConcat(near, far);
    PointsConcat(near + far, [e]);
    assert Points([e]) == [e.point] + Points([]);
  }

  /** Shown and pruned parts of two halves, and the split point, add up to the range. */
  lemma CountsJoin<T>(a: multiset<T>, b: multiset<T>, x: multiset<T>, pa: multiset<T>, pb: multiset<T>,
                      na: multiset<T>, nb: multiset<T>)
    requires a + pa == na && b + pb == nb
    ensures a + b + x + (pa + pb) == na + x + nb
  {
  }

  /**
   * The corrected descent is exact: on a balanced buffer it leaves the
   * collector holding a k-nearest choice of the whole buffer, which is what
   * `collectKNearest_Naive` returns (`KdTree.NaiveResult`).
   */
  lemma FixedWalkIsNearest(s: seq<Point>, ndim: nat, leafSize: nat, k: nat, origin: Point)
    requires ndim >= 1 && |origin| == ndim && Dimensioned(s, ndim)
    requires Balanced(s, 0, |s| - 1, 0, ndim, leafSize)
    ensures KNearestOf(Points(Drain(FixedWalk(s, 0, |s| - 1, 0, ndim, leafSize, k, origin, Empty).queue)), s, origin, k)
    ensures NonIncreasing(Drain(FixedWalk(s, 0, |s| - 1, 0, ndim, leafSize, k, origin, Empty).queue))
  {
    var r := FixedWalk(s, 0, |s| - 1, 0, ndim, leafSize, k, origin, Empty);
    EmptyTracksNothing(k);
    var shown, evicted, pruned := FixedCovers(s, 0, |s| - 1, 0, ndim, leafSize, k, origin, Empty, [], []);
    assert [] + shown == shown;
    assert s[0..|s| - 1 + 1] == s;
    TrackedAreNearest(r, k, shown, evicted, pruned, s, origin);
    DrainIsNonIncreasing(r.queue);
  }
}
