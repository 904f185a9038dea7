# cg2 k-d trees and mesh helpers, in Dafny

This project models the computational core of the cg2 graphics playground:

- **The flat-buffer k-d tree** (`KdTree`, `FlatTree`, `Selection`, `Collectors`, `NearestSearch`).
  It covers the templated C++ trees in source/kdtree.hpp, source/kdtree.h and kdtree/main.cc.
  - The tree reorders the caller's point buffer in place with a quickselect.
    Afterwards the median of every internal range `[left, right]` splits the range on axis `depth % ndim`.
    A range is a bucket when it holds at most `bucketSize` points.
  - Radius queries and k-nearest queries walk those ranges and feed a collector.
  - `NearestSearch` holds a counterexample to the k-nearest walk as written, and a corrected walk proved to return the k nearest points.
  - Box walks record the bounding box of each range they visit.
- **The Python port of that tree** (`PyKdTree`, playground/pykdtree2.py).
  It has a leaf threshold of `bucketSize + 1` and a drawn pivot.
- **The explicit-node Python tree** (`SimpleKdTree`, `ClosestSearch`, playground/simple_pykdtree.py).
  It builds nodes by sorting and halving, and keeps a bounded `ClosestNPointsList`.
- **Pivot hash** (`Random`, source/random.hpp): 32-bit integer arithmetic.
- **Bounding-box scan** (`BoundingBoxes`, source/bounding_box.hpp).
- **Grid, box and normal index builders** (`MeshUtils`, source/intern/mesh_utils.cpp).
- **Marching squares over an implicit curve** (`ImplicitCurves`, source/intern/implicit_curve.cpp).
- **Resource paths and OFF/NOFF line acceptance** (`Resources`, source/intern/resources.cpp).

## Modelling choices

**Points and distances.**
- Coordinates are `real`.
- Distances are compared as squares: `distance(a, b) <= r` becomes `0 <= r && SqDist(a, b) <= r * r`.
  `Geometry.RadiusTestOnSquares` proves the two tests are the same.
- The k-nearest far-side test `origin + maxDistance >= split` is written as `Geometry.ReachesUp` over the squared maximum.
  It keeps the `-1` sentinel. `Geometry.ReachTestOnSquares` proves it equivalent to the source's test.

**Buffer and collectors.**
- The point buffer is an `array<Point>`. Sorting swaps its elements in place.
- The collectors are classes whose `seq` fields the methods extend.
- `std::priority_queue` is a sequence, and `pop` removes the first entry of largest distance.

**Pivots.**
- The hash pivot of source/kdtree.hpp and source/kdtree.h is computed with `Random.RandomIntPositive` on `bv32`.
- `rand()` in kdtree/main.cc and `randrange` in playground/pykdtree2.py are a stream `rand: nat -> nat` with a counter. Each draw is a non-negative integer.
- C++ `(left + right) / 2` truncates toward zero. Dafny's `/` is Euclidean, but the two agree on every range with `left >= 0`.
- The sums `left + right` and `left + bucketSize` are computed on `int`. `FlatTree.MedianIndexInt` and `FlatTree.IsLeafInt` wrap them to 32 bits. They agree with the unbounded `MedianIndex` and `IsLeaf` only while both sums fit (`FlatTree.IntArithmeticAgrees`). On a tree of at most `2^30` points that holds on every range the descent reaches (`FlatTree.TreeSumsFit`), so the tree requires that bound.

**Values that come from outside.**
- The file readers take their `sscanf`/`stoi`/`getline` results as inputs.
- `glm::triangleNormal`, `glm::normalize`, `curve.evaluate` and `box.mapToBox` are function parameters.
- IEEE infinities and NaN in the bounding-box scan are an explicit `Ext` datatype.

**Pruning rule.** The k-nearest and closest-`n` walks prune by rules equivalent to the source's, re-expressed on squared distances.

## Model

| member | source | states |
|---|---|---|
| `Random.RandomIntPositive` | source/random.hpp:8-10 | the masked hash is below 2^31 |
| `Random.ClearSignBitKeepsLowBits` | source/random.hpp:9 | `& 0x7fffffff` keeps the low 31 bits, clears bit 31, and changes nothing exactly when the sign bit was clear |
| `Random.SampleValues` | source/random.hpp:3-10 | the 32-bit wrap-around hash of 0 and 3 gives the values the C++ `int` arithmetic gives |
| `Selection.HashPivotIndex` | source/kdtree.hpp:176-178 | `left + randomInt_Positive(left ^ right) % (right - left)` lies in `[left, right)` |
| `Selection.DrawnPivotIndex` | kdtree/main.cc:206-208 | for any non-negative draw, `left + draw % (right - left)` lies in `[left, right)` |
| `Selection.MedianIndex` | source/kdtree.hpp:25-27 | the median index lies in the range, with the lower half no longer than the upper |
| `Selection.Swap` | source/kdtree.hpp:386-390 | exchanges two entries, leaves all others, and permutes the buffer |
| `Selection.LomutoPartition` | source/kdtree.hpp:148-164 | the pivot lands at `index` in `[left, right]`, keys before it are smaller and keys after it are not smaller; the buffer is permuted and unchanged outside the range |
| `Selection.Partition` | source/kdtree.hpp:148-174 | as `LomutoPartition`, and the equal-run advance steps only over keys equal to the pivot, stops at the median, and stops early only when the next key differs |
| `Selection.QuickselectStep` | source/kdtree.hpp:138-144 | dropping the side of the split that does not hold `k` keeps every dropped key on the correct side of the pivot; a split on `k` selects it |
| `Selection.SelectionRound` | source/kdtree.hpp:135-145 | one iteration of the selection loop keeps the bounds already established and adds the new ones |
| `Selection.QuickselectIterative` | source/kdtree.hpp:134-146 | after the loop, the key at `k` is at least every key in `[left, k)` and at most every key in `(k, right]`; the buffer is permuted only inside the range |
| `Selection.QuickselectDrawn` | kdtree/main.cc:166-175 | the recursive quickselect with drawn pivots selects `k` in the same sense |
| `Selection.SelectedLeftOfSplit` | kdtree/main.cc:170-171 | selection in the lower sub-range, after a split above `k`, is selection in the whole range |
| `Selection.SelectedRightOfSplit` | kdtree/main.cc:172-173 | selection in the upper sub-range, after a split below `k`, is selection in the whole range |
| `Selection.FixateMedian` | source/kdtree.hpp:127-131 | returns `(left + right) / 2` with the median selected on that axis |
| `Selection.FixateMedianDrawn` | kdtree/main.cc:152-156 | the same with drawn pivots |
| `FlatTree.IsLeaf` | source/kdtree.hpp:378-380 | a range is a leaf iff it holds at most the leaf size |
| `FlatTree.WrapInt` | source/kdtree.hpp:25-27 | an `int` result lies in `[-2^31, 2^31)`, is congruent to the exact value modulo `2^32`, and equals it when it fits |
| `FlatTree.IntArithmeticAgrees` | source/kdtree.hpp:25-27 | where `left + right` and `left + bucketSize` fit an `int`, the 32-bit `getMedianIndex` and `isLeaf` give the unbounded results |
| `FlatTree.HalvesSumsFit` | source/kdtree.hpp:378-380 | below `2^30`, both halves beside the median of an internal range keep their sums within `int` |
| `FlatTree.RangeSumsFit` | source/kdtree.hpp:25-27 | below `2^30`, a range whose sums fit reaches only ranges whose sums fit |
| `FlatTree.TreeSumsFit` | source/kdtree.hpp:55-58 | with at most `2^30` points and an `int` bucket size, no range the descent from `[0, length - 1]` reaches overflows either sum |
| `FlatTree.MedianOverflowsBeyondBound` | source/kdtree.hpp:25-27 | with `2^31 - 1` points and buckets of one, the internal high half `[2^30, 2^31 - 2]` gets a negative 32-bit median index |
| `FlatTree.Axis` | source/kdtree.hpp:382-384 | the axis is below `ndim` and equals the depth on the first `ndim` levels |
| `FlatTree.AxisIsRemainder` | source/kdtree.hpp:382-384 | the axis walk equals `depth % ndim` |
| `FlatTree.AxisCycles` | source/kdtree.hpp:382-384 | the axis advances by one per level, wraps to 0 after `ndim - 1`, and repeats every `ndim` levels |
| `FlatTree.BalancedNode` | source/kdtree.hpp:111-125 | a selected median over two balanced halves makes a balanced range |
| `FlatTree.SortStep` | source/kdtree.hpp:111-125 | sorting the low half and then the high half keeps the median selected and gives a balanced range |
| `FlatTree.SortHashed` | source/kdtree.hpp:111-125 | the sequential `sort` permutes the range, leaves the rest of the buffer, and makes every internal range median-split on `depth % ndim` |
| `FlatTree.SortDrawn` | kdtree/main.cc:143-150 | the same for the drawn-pivot `sort` |
| `FlatTree.BucketKeptIsWithin` | source/kdtree.hpp:363-368 | a bucket keeps exactly the points of its slice within the radius |
| `FlatTree.WithinMembers` | source/kdtree.hpp:195-199 | a point is kept iff it is offered and lies within the radius |
| `FlatTree.WithinSubmultiset` | source/kdtree.hpp:195-199 | the kept points are a sub-multiset of those offered |
| `FlatTree.WithinConcat` | source/kdtree.hpp:195-199 | filtering distributes over concatenation |
| `FlatTree.RadiusConsideredFromRange` | source/kdtree.hpp:206-227 | the radius walk shows each point of the range at most once |
| `FlatTree.RadiusKeptIsWithin` | source/kdtree.hpp:206-227 | what the walk collects is what the collector keeps of the points shown to it |
| `FlatTree.BelowPlaneOutside` | source/kdtree.hpp:221-223 | when `origin - radius > split`, no point of the lower half is within the radius |
| `FlatTree.AbovePlaneOutside` | source/kdtree.hpp:224-226 | when `origin + radius < split`, no point of the upper half is within the radius |
| `FlatTree.RadiusQueryMatchesNaive` | source/kdtree.hpp:206-227 | on a balanced range the pruned walk keeps the same multiset as a scan of the whole range |
| `Geometry.SqDist` | kdtree/main.cc:58-65 | the squared distance is non-negative |
| `Geometry.DistanceSquared` | kdtree/main.cc:58-65 | the accumulating loop computes the sum of squared differences over all axes |
| `Geometry.SqDistSymmetric` | kdtree/main.cc:58-65 | the squared distance is symmetric |
| `Geometry.SqDistSelf` | kdtree/main.cc:58-65 | a point is at distance 0 from itself |
| `Geometry.SqDistAtLeastAxis` | kdtree/main.cc:58-65 | the squared distance is at least the squared difference on any single axis |
| `Geometry.FarOnAxisIsOutside` | source/kdtree.hpp:221-226 | a point farther than the radius on one axis is outside the ball |
| `Geometry.RadiusTestOnSquares` | kdtree/main.cc:221-225 | `sqrt(d2) <= radius` holds iff `radius >= 0` and `d2 <= radius^2` |
| `Geometry.ReachTestOnSquares` | source/kdtree.hpp:301-306 | `origin ± maxDistance` compared with the split is the same test on the squared maximum |
| `Geometry.DimensionedPermutation` | source/kdtree.hpp:386-390 | swapping points keeps every point's dimension |
| `BoundingBoxes.Size` | source/bounding_box.hpp:14-16 | the size is `max - min` on finite bounds |
| `BoundingBoxes.Sub` | source/bounding_box.hpp:14-16 | float subtraction is exact on finite values and NaN only for NaN operands or equal infinities |
| `BoundingBoxes.MaxSize` | source/bounding_box.hpp:18-24 | the running maximum is at least 0, not below any axis size, and is 0 or one of the sizes |
| `BoundingBoxes.FindBoundingBox` | source/bounding_box.hpp:46-63 | the nested min/max loops compute the box of the points |
| `BoundingBoxes.IncludePoint` | source/bounding_box.hpp:55-59 | the inner loop widens the box by one point |
| `BoundingBoxes.BoxOf` | source/bounding_box.hpp:46-63 | the scanned box has one bound per axis and no NaN bound |
| `BoundingBoxes.EmptyScan` | source/bounding_box.hpp:49-52 | with no points, min stays +infinity and max stays -infinity on every axis |
| `BoundingBoxes.BoxOfContains` | source/bounding_box.hpp:54-60 | every point lies inside the box on every axis |
| `BoundingBoxes.BoxOfAttained` | source/bounding_box.hpp:54-60 | with at least one point, each bound is some point's coordinate |
| `BoundingBoxes.BelowTransitive` | source/bounding_box.hpp:57-58 | the float `<` on extended values is transitive |
| `BoundingBoxes.NotAboveTransitive` | source/bounding_box.hpp:57-58 | the float `<=` on extended values is transitive |
| `BoundingBoxes.Total` | source/bounding_box.hpp:57-58 | on non-NaN values, not `a < b` means `b <= a` |
| `Collectors.InRadiusCollector.constructor` | source/kdtree.hpp:190-193 | a fresh collector holds nothing |
| `Collectors.InRadiusCollector.Consider` | source/kdtree.hpp:195-199 | appends the point iff it lies within the radius |
| `Collectors.CollectInRadiusHelper.constructor` | playground/pykdtree2.py:78-82 | a fresh helper holds nothing and has counted nothing |
| `Collectors.CollectInRadiusHelper.Consider` | playground/pykdtree2.py:84-87 | counts one more point and appends it iff it lies within the radius |
| `Collectors.TopIndex` | source/kdtree.hpp:271-273 | `queue.top()` is an entry of largest distance |
| `Collectors.Pop` | source/kdtree.hpp:265 | `pop` removes exactly the top entry and keeps the rest in order |
| `Collectors.PopRemovesTop` | source/kdtree.hpp:265 | `pop` loses the top entry and nothing else |
| `Collectors.Offer` | source/kdtree.hpp:259-269 | `consider` grows the queue by one while fewer than `k` are held, else keeps its size |
| `Collectors.OfferKeepsValid` | source/kdtree.hpp:259-273 | the queue never holds more than `k` entries, and once non-empty `maxDistance` is its largest distance |
| `Collectors.Evicted` | source/kdtree.hpp:264-267 | one `consider` evicts at most one entry |
| `Collectors.OfferKeepsClosest` | source/kdtree.hpp:259-269 | no entry is lost, nothing is evicted before the queue is full, and every held entry is at least as close as every evicted one |
| `Collectors.ReplaceKeepsClosest` | source/kdtree.hpp:264-267 | replacing the top with a strictly closer entry keeps that property |
| `Collectors.RejectKeepsClosest` | source/kdtree.hpp:264 | rejecting an entry that is not closer keeps that property |
| `Collectors.OfferReplacesOnlyCloser` | source/kdtree.hpp:264-267 | a full queue changes only for a strictly smaller distance |
| `Collectors.OfferZeroStoresNothing` | source/kdtree.hpp:261 | with `k == 0` the collector never stores anything |
| `Collectors.Drain` | source/kdtree.hpp:275-282 | draining yields one entry per held entry |
| `Collectors.DrainIsPermutation` | source/kdtree.hpp:275-282 | `getPoints` returns exactly the held entries |
| `Collectors.DrainIsNonIncreasing` | source/kdtree.hpp:275-282 | `getPoints` returns them farthest first |
| `Collectors.OfferTracks` | source/kdtree.hpp:259-269 | after any sequence of `consider` calls, the queue holds `min(k, considered)` entries plus an evicted remainder, and none evicted is closer than one held |
| `Collectors.EmptyTracksNothing` | source/kdtree.hpp:252-257 | a fresh collector tracks the empty sequence |
| `Collectors.DrainedAreClosest` | source/kdtree.hpp:246-283 | the drained result is `min(k, considered)` entries of those considered, counted with multiplicity, none farther than an entry considered and left out |
| `Collectors.KNearestCollector.constructor` | source/kdtree.hpp:252-257 | a fresh collector is empty and valid |
| `Collectors.KNearestCollector.Consider` | source/kdtree.hpp:259-269 | the new state is `Offer` of the old one, and the point is recorded as considered |
| `Collectors.KNearestCollector.Admit` | source/kdtree.hpp:261-268 | once the distance is known, the queue and `maxDistance` become `Offer` of the old state, and the records are untouched |
| `Collectors.KNearestCollector.GetPoints` | source/kdtree.hpp:275-282 | returns the drained points and leaves the queue empty |
| `KdTree.KDTree.constructor` | source/kdtree.hpp:41-50 | needs `ndim >= 1` and `bucketSize >= 1`, stores the buffer unchanged, and no range the descent reaches overflows its index sums |
| `KdTree.KDTree.Balance` | source/kdtree.hpp:55-58 | `balance` permutes the buffer and balances it |
| `KdTree.KDTree.BalanceDrawn` | kdtree/main.cc:135-139 | the same with drawn pivots |
| `KdTree.KDTree.ConsiderBucket` | source/kdtree.hpp:363-368 | a bucket adds exactly its in-radius points |
| `KdTree.KDTree.CollectInRadiusRange` | source/kdtree.hpp:206-227 | the recursive query adds exactly the pruned walk's kept points |
| `KdTree.KDTree.CollectInRadius` | source/kdtree.hpp:60-64 | returns the in-radius points of the walk; on a balanced buffer it returns them as the same multiset as the naive scan |
| `KdTree.KDTree.CollectInRadiusNaive` | source/kdtree.hpp:72-74 | returns the in-radius points of the buffer, in buffer order |
| `KdTree.KDTree.ConsiderBucketNearest` | source/kdtree.hpp:363-368 | a bucket shows its points in order, each with its squared distance |
| `KdTree.KDTree.ReachUp` | source/kdtree.hpp:301 | the high half is walked second iff `originPos + maxDistance >= splitPos` on squares, and that decides the step of `NearestFarHigh` |
| `KdTree.KDTree.ReachDown` | source/kdtree.hpp:306 | the low half is walked second iff `originPos - maxDistance <= splitPos` on squares, and that decides the step of `NearestFarLow` |
| `KdTree.KDTree.CollectKNearestRange` | source/kdtree.hpp:285-312 | the recursive walk shows the collector a sub-multiset of the range, each entry measured, the split point after both halves |
| `KdTree.KDTree.CollectKNearest` | source/kdtree.hpp:66-70 | the drained `NearestWalk` queue, farthest first: exactly `min(k, shown)` of the points the walk showed, a sub-multiset of them and of the buffer, none farther than a shown point left out |
| `KdTree.KDTree.CollectKNearestNaive` | source/kdtree.hpp:76-78 | a k-nearest choice of the buffer, farthest first: exactly `min(k, length)` points, a sub-multiset of the buffer, none farther than a buffer point left out |
| `KdTree.NaiveResult` | source/kdtree.hpp:370-376 | showing the collector the whole buffer leaves, farthest first, `min(k, length)` buffer points counted with multiplicity, none farther than a point left out |
| `KdTree.TrackedAreNearest` | source/kdtree.hpp:259-282 | a collector that was shown some points and passed over the rest only while full and only beyond its `maxDistance` drains to a k-nearest choice of all of them |
| `KdTree.MeasureFacts` | source/kdtree.hpp:363-368 | showing a range records its points in order, each with its squared distance |
| `KdTree.KDTree.GetBoundingBox` | source/kdtree.hpp:101-103 | the box of the buffer |
| `KdTree.BelowSplit` | source/kdtree.hpp:326-327 | the left child box differs from its parent only in `max[axis]`, which becomes the split value |
| `KdTree.AboveSplit` | source/kdtree.hpp:330-331 | the right child box differs from its parent only in `min[axis]`, which becomes the split value |
| `KdTree.KDTree.InsertBoxesAll` | source/kdtree.hpp:318-333 | appends one box per range visited, leaves included, in pre-order |
| `KdTree.KDTree.GetBoundingBoxesAll` | source/kdtree.hpp:88-92 | the boxes of every range, starting from the buffer's box |
| `KdTree.KDTree.InsertBoxesRadius` | source/kdtree.hpp:335-357 | appends the boxes of the ranges the radius tests enter |
| `KdTree.KDTree.GetBoundingBoxesRadius` | source/kdtree.hpp:94-99 | the boxes of the radius walk, starting from the buffer's box |
| `KdTree.KDTree.InsertBoxes` | source/kdtree.h:87-103 | appends the boxes of internal ranges only, because the leaf test comes before the push |
| `KdTree.KDTree.GetBoundingBoxes` | source/kdtree.h:80-85 | the internal-range boxes from a given outer box |
| `KdTree.RadiusBoxesRecorded` | source/kdtree.hpp:335-357 | the boxes appended are those of the radius walk's visits |
| `KdTree.RadiusVisitsMatchQuery` | source/kdtree.hpp:347-355 | the box walk visits exactly the ranges `collectInRadius` visits, because it uses the same tests |
| `KdTree.RadiusVisitsAreVisits` | source/kdtree.hpp:335-357 | every radius visit is also a visit of the full walk, with the same box |
| `KdTree.InternalVisitsAreInternalOfAll` | source/kdtree.h:87-103 | `insertBoundingBoxes` records exactly the internal ranges `insertBoundingBoxes_All` records, in the same order with the same boxes |
| `KdTree.ChildBoxesEnclose` | source/kdtree.hpp:326-331 | if the parent box encloses its range, each child box encloses its half |
| `KdTree.VisitBoxesEnclose` | source/kdtree.hpp:318-333 | on a balanced buffer every recorded box encloses the points of its range |
| `PyKdTree.KDTree.constructor` | playground/pykdtree2.py:23-28 | construction sorts the list into a permutation that is balanced with leaf size `bucketSize + 1` |
| `PyKdTree.KDTree.SortPoints` | playground/pykdtree2.py:31-43 | `recursiveSort` permutes the list and makes it balanced |
| `PyKdTree.KDTree.ConsiderLeaf` | playground/pykdtree2.py:48-51 | a leaf adds its in-radius points and counts every point of the range |
| `PyKdTree.KDTree.RecursiveSearch` | playground/pykdtree2.py:47-61 | adds the pruned walk's kept points and counts exactly the points shown |
| `PyKdTree.KDTree.CollectInRadius` | playground/pykdtree2.py:46-65 | returns the in-radius points of the walk, counts at most `len(points)`, and on a balanced list returns the same multiset as the naive scan |
| `PyKdTree.SearchOutcome` | playground/pykdtree2.py:63-65 | the query facts from the walk's result and count |
| `PyKdTree.CollectInRadiusNaive` | playground/pykdtree2.py:139-144 | the in-radius points in list order |
| `SimpleKdTree.NextDimension` | playground/simple_pykdtree.py:159-160 | the dimension cycles x, y, z, x |
| `SimpleKdTree.IndexOf` | playground/simple_pykdtree.py:160 | `dimensions.index(d)` finds `d` in the list |
| `SimpleKdTree.DistanceSquared` | playground/simple_pykdtree.py:25-26 | the distance is non-negative and at least every single-axis squared difference |
| `SimpleKdTree.DistanceSymmetric` | playground/simple_pykdtree.py:25-26 | the distance is symmetric |
| `SimpleKdTree.SortBy` | playground/simple_pykdtree.py:156-157 | `sorted` with a key returns a sorted permutation |
| `SimpleKdTree.SortByDimension` | playground/simple_pykdtree.py:156-157 | the copy is a permutation, sorted on the dimension |
| `SimpleKdTree.Build` | playground/simple_pykdtree.py:92-107 | a node on the given dimension holding the same multiset of points; children are leaves iff they hold at most `stopSize` points; left coordinates are at most the split and right ones at least |
| `SimpleKdTree.HalvesSplit` | playground/simple_pykdtree.py:93-97 | after sorting, the lower half lies at or below `rightPoints[0]` and the upper half at or above |
| `SimpleKdTree.KDTree.constructor` | playground/simple_pykdtree.py:72-73 | needs at least one point and builds the root on x |
| `SimpleKdTree.NearPoints` | playground/simple_pykdtree.py:142-145 | a leaf yields only its own points within the radius |
| `SimpleKdTree.NearPointsCount` | playground/simple_pykdtree.py:142-145 | a near point is yielded as often as it occurs and a far point never |
| `SimpleKdTree.InRadiusIsNear` | playground/simple_pykdtree.py:109-115 | on a split tree the pruned generator yields the same multiset as filtering all its points |
| `SimpleKdTree.KDTree.FindPointsInRadius` | playground/simple_pykdtree.py:76-77 | the tree's answer, and it equals the naive search as a multiset |
| `SimpleKdTree.NaiveSearchInRadius` | playground/simple_pykdtree.py:176-181 | the points within the radius, in list order |
| `SimpleKdTree.ScanMax` | playground/simple_pykdtree.py:57-65 | `findMax` yields the first entry of largest distance, or -1 and -1 for an empty list |
| `SimpleKdTree.Offer` | playground/simple_pykdtree.py:45-55 | `consider` grows the list while it has room, else keeps its length |
| `SimpleKdTree.OfferKeeps` | playground/simple_pykdtree.py:45-55 | the list stays within `maxLength`, tracks its maximum, and keeps the closest `maxLength` of the points considered; it never shrinks, and once full its maximum never grows |
| `SimpleKdTree.OfferKeepsReplace` | playground/simple_pykdtree.py:52-55 | a full list replaces at `maxIndex` only for a strictly smaller distance, and its maximum does not grow |
| `SimpleKdTree.AppendTracked` | playground/simple_pykdtree.py:47-51 | after an append, `maxIndex` and `maxDistance` still identify a maximum entry |
| `SimpleKdTree.ClosestNPointsList.constructor` | playground/simple_pykdtree.py:38-43 | an empty list with both markers at -1 |
| `SimpleKdTree.ClosestNPointsList.FindMax` | playground/simple_pykdtree.py:57-65 | the loop sets the markers to the linear scan's maximum and changes nothing else |
| `SimpleKdTree.ClosestNPointsList.Consider` | playground/simple_pykdtree.py:45-55 | the new state is `Offer` of the old one, and the invariant holds |
| `SimpleKdTree.ClosestNPointsList.Admit` | playground/simple_pykdtree.py:47-55 | once the distance is known, the list and its markers become `Offer` of the old state |
| `SimpleKdTree.ClosestNPointsList.GetPoints` | playground/simple_pykdtree.py:67-68 | the held points in list order |
| `SimpleKdTree.ClosestNPointsList.HeldAreNearest` | playground/simple_pykdtree.py:45-68 | the held points are an `n`-closest choice from everything considered |
| `SimpleKdTree.ConsiderAll` | playground/simple_pykdtree.py:147-149 | a leaf offers its points in order |
| `SimpleKdTree.FindClosestIn` | playground/simple_pykdtree.py:117-126 | the descent as written: the helper ends in the state `Walk` gives, after being shown a sub-multiset of the subtree |
| `SimpleKdTree.KDTree.FindClosestNPoints` | playground/simple_pykdtree.py:80-83 | at most `n` points, an `n`-closest choice among the points the walk showed, equal to the as-written walk's result |
| `SimpleKdTree.NaiveClosestIsNearest` | playground/simple_pykdtree.py:184-186 | the first `n` points sorted by distance are an `n`-closest choice |
| `SimpleKdTree.NearestPrefix` | playground/simple_pykdtree.py:185-186 | any prefix of a distance-sorted permutation is a closest choice of its length |
| `SimpleKdTree.NaiveSearchClosestN2` | playground/simple_pykdtree.py:188-192 | feeding the helper every point gives an `n`-closest choice from all points |
| `ClosestSearch.WalkStopsShort` | playground/simple_pykdtree.py:117-126 | for points `o` and `o + (1, 0, 0)`, center `o` and `n = 2`, the search as written returns `[o]`, which is not a 2-closest choice |
| `ClosestSearch.AboveIsFar` | playground/simple_pykdtree.py:121-122 | a point beyond the split on the far side is no closer than `maxDistance` when the reach test fails |
| `ClosestSearch.BelowIsFar` | playground/simple_pykdtree.py:125-126 | the mirror image for the lower side |
| `ClosestSearch.CoveredIsNearest` | playground/simple_pykdtree.py:80-83 | if every pruned point is no closer than the final maximum and the list is full whenever something was pruned, the held points are an `n`-closest choice of all the points |
| `ClosestSearch.FindClosestIn` | playground/simple_pykdtree.py:117-126 | the corrected descent shows or prunes every point of the subtree, prunes only beyond the maximum and only when the list is full |
| `ClosestSearch.FindClosestNPoints` | playground/simple_pykdtree.py:80-83 | the corrected search returns an `n`-closest choice from all points of the tree |
| `NearestSearch.KNearestStopsShort` | source/kdtree.hpp:299-309 | on the balanced buffer `[0], [1], [2]` with buckets of one, origin `[0]` and `k = 3`, the walk as written keeps two points, and its result is not a 3-nearest choice |
| `NearestSearch.ExampleBalanced` | source/kdtree.hpp:285-312 | that buffer is balanced: `[1]` splits it and each half is a bucket |
| `NearestSearch.ExampleWalk` | source/kdtree.hpp:299-303 | the as-written walk of that buffer shows the low bucket, skips the high half, and ends with two entries |
| `NearestSearch.ExampleLowBucket` | source/kdtree.hpp:286-288 | the low bucket leaves the entry `[0]` at distance 0 and `maxDistance` 0 |
| `NearestSearch.FixedNode` | source/kdtree.hpp:291-311 | an internal range of the corrected walk: the near half, the far half unless the collector is full and out of reach, then the split point |
| `NearestSearch.CollectKNearestRangeFixed` | source/kdtree.hpp:285-312 | the corrected recursive walk leaves the collector in the state `FixedWalk` gives |
| `NearestSearch.CollectKNearestLowFirstFixed` | source/kdtree.hpp:299-303 | origin on the low side: the low half, then the high half as the corrected test decides |
| `NearestSearch.CollectKNearestHighFirstFixed` | source/kdtree.hpp:304-308 | origin on the high side: the high half, then the low half as the corrected test decides |
| `NearestSearch.VisitHigh` | source/kdtree.hpp:301 | the corrected test visits the high half iff the collector holds fewer than `k` or `maxDistance` reaches the split |
| `NearestSearch.VisitLow` | source/kdtree.hpp:306 | the mirror image for the low half |
| `NearestSearch.CollectKNearestFarHighFixed` | source/kdtree.hpp:301-303 | the high half is walked exactly when the corrected test says so |
| `NearestSearch.CollectKNearestFarLowFixed` | source/kdtree.hpp:306-308 | the low half is walked exactly when the corrected test says so |
| `NearestSearch.CollectKNearestFixed` | source/kdtree.hpp:66-70 | on a balanced tree the corrected query returns a k-nearest choice of the whole buffer, farthest first, as `collectKNearest_Naive` does |
| `NearestSearch.AboveIsFar` | source/kdtree.hpp:301 | when `maxDistance` does not reach the split, every point at or above it is no nearer than `maxDistance` |
| `NearestSearch.BelowIsFar` | source/kdtree.hpp:306 | the mirror image below the split |
| `NearestSearch.HighHalfFar` | source/kdtree.hpp:301-303 | a high half skipped by a full collector is rightly pruned, point by point |
| `NearestSearch.LowHalfFar` | source/kdtree.hpp:306-308 | a low half skipped by a full collector is rightly pruned, point by point |
| `NearestSearch.FixedCovers` | source/kdtree.hpp:285-312 | the corrected walk of a balanced range shows or rightly prunes every point of the range, and the collector keeps tracking what it was shown |
| `NearestSearch.BalancedParts` | source/kdtree.hpp:291-296 | in a balanced internal range the median separates the halves, and both halves are balanced |
| `NearestSearch.FixedWalkIsNearest` | source/kdtree.hpp:66-78 | on a balanced buffer the corrected walk drains to a k-nearest choice of the whole buffer, farthest first, which is what the naive query gives |
| `MeshUtils.CalcGridEdges` | source/intern/mesh_utils.cpp:155-172 | the loops emit all row edges, then all column edges |
| `MeshUtils.GridEdgesShape` | source/intern/mesh_utils.cpp:155-172 | `div1*(div2-1)` row edges joining `v` and `v+1`, then `div2*(div1-1)` column edges joining `v` and `v+div2`, all below `div1*div2` |
| `MeshUtils.CalcGridTriangleIndices` | source/intern/mesh_utils.cpp:174-190 | the loops emit two triangles per cell, cell by cell |
| `MeshUtils.GridTrianglesShape` | source/intern/mesh_utils.cpp:174-190 | `6*(div1-1)*(div2-1)` indices, all below `div1*div2`, each cell's two triangles sharing the diagonal `(v, v+1+div2)` |
| `MeshUtils.AppendBoxTriangles` | source/intern/mesh_utils.cpp:108-137 | appends the eight corners and the 36 side indices offset by the old vertex count, leaving existing elements untouched |
| `MeshUtils.AppendCorners` | source/intern/mesh_utils.cpp:112-121 | the corner loop appends exactly `BoxCorners(box)`, in order, after the old vertices |
| `MeshUtils.AppendSide` | source/intern/mesh_utils.cpp:130-135 | side `i` appends its two triangles, `side[0..3)` then `side[1..4)`, each offset and wrapped to 32 bits |
| `MeshUtils.CornerBits` | source/intern/mesh_utils.cpp:112-119 | corner `i` takes max x iff bit 2 of `i` is set, max y iff bit 1, and max z iff bit 0 |
| `MeshUtils.SidesAreFaces` | source/intern/mesh_utils.cpp:123-127 | each of the six index quads is the face where one coordinate bit is fixed |
| `MeshUtils.BoxIndicesInRange` | source/intern/mesh_utils.cpp:129-136 | every new index lies in `[oldSize, oldSize + 8)` |
| `MeshUtils.CalculateFaceNormals` | source/intern/mesh_utils.cpp:4-16 | one normal per index triple, from that triple's corners |
| `MeshUtils.CalculateVertexNormals` | source/intern/mesh_utils.cpp:18-41 | one normal per point: the normalized sum of the normals of the faces using it |
| `MeshUtils.AccumulateCorner` | source/intern/mesh_utils.cpp:30-34 | one `+=` step moves every buffer entry from the normal sums before corner `3i+j` to the sums including it |
| `MeshUtils.NormalSumSingle` | source/intern/mesh_utils.cpp:30-34 | a point used by exactly one corner accumulates that face's normal |
| `MeshUtils.NormalSumUnreferenced` | source/intern/mesh_utils.cpp:25-34 | a point no face uses stays at the zero vector |
| `MeshUtils.CalculateVertexNormalsOfMesh` | source/intern/mesh_utils.cpp:43-49 | the vertex normals of the face normals of the mesh |
| `MeshUtils.CalculateTriangleVertexNormals` | source/intern/mesh_utils.cpp:51-63 | one normal per point, the normal of its triangle |
| `MeshUtils.CreateVertexPVector` | source/intern/mesh_utils.cpp:65-71 | one vertex per position, in order |
| `MeshUtils.CreateVertexPNVector` | source/intern/mesh_utils.cpp:73-81 | equal-length inputs zipped into one vertex per position |
| `MeshUtils.ExtractPNVertices` | source/intern/mesh_utils.cpp:83-87 | positions paired with their vertex normals |
| `ImplicitCurves.SameSignIsProductTest` | source/intern/implicit_curve.cpp:4-6 | the sign test is `a * b >= 0` |
| `ImplicitCurves.EdgeVertexOnEdge` | source/intern/implicit_curve.cpp:8-16 | the midpoint for equal signs, a zero sample counting as either sign; otherwise a point between `pos1` and `pos2` where the linear interpolant is zero |
| `ImplicitCurves.ZeroSampleCrossesAtMidpoint` | source/intern/implicit_curve.cpp:4-16 | samples `0, -1, -1, -1`: the lookup index marks edge 0 as crossed, but `edgeVertexPosition` treats `0` and `-1` as one sign and returns that edge's midpoint |
| `ImplicitCurves.TablesValid` | source/intern/implicit_curve.cpp:18-45 | every line entry is -1 or an edge in `[0,6)`, every edge corner is in `[0,4)`, a leading -1 is followed by -1, and patterns 0 and 15 emit nothing |
| `ImplicitCurves.LinesFollowSignChanges` | source/intern/implicit_curve.cpp:18-45 | the lines of each pattern use exactly the cell edges whose two corners differ in sign |
| `ImplicitCurves.LookupIndex` | source/intern/implicit_curve.cpp:73-76 | the index is below 16 and bit `i` is set iff `gridValues[i] < 0` |
| `ImplicitCurves.PatternBits` | source/intern/implicit_curve.cpp:73-76 | an index with those bits is the sign pattern |
| `ImplicitCurves.EmitLines` | source/intern/implicit_curve.cpp:78-89 | the line loop pushes both ends of each table line, stopping at -1 |
| `ImplicitCurves.EmitLine` | source/intern/implicit_curve.cpp:84-88 | pushes the edge points of both ends of one table line, in order |
| `ImplicitCurves.EmitCell` | source/intern/implicit_curve.cpp:56-89 | one cell appends exactly its positions `CellAt` |
| `ImplicitCurves.EmitColumn` | source/intern/implicit_curve.cpp:55-90 | the inner loop appends the cells of column `x` in order of `y` |
| `ImplicitCurves.CellLine` | source/intern/implicit_curve.cpp:80-88 | line `i` of a cell contributes the edge points its table entries name |
| `ImplicitCurves.LinesFromImplicitCurve` | source/intern/implicit_curve.cpp:47-94 | the nested loops push every cell's positions, column by column |
| `ImplicitCurves.CellCount` | source/intern/implicit_curve.cpp:78-89 | a cell pushes two positions per line it has |
| `ImplicitCurves.CurveSize` | source/intern/implicit_curve.cpp:51-89 | the total is even and at most `4 * resolution^2` |
| `ImplicitCurves.CellPointsOnCrossedEdges` | source/intern/implicit_curve.cpp:66-89 | every pushed position is the edge point of an edge the curve crosses |
| `Resources.LastSeparator` | source/intern/resources.cpp:15 | `find_last_of("/\\")`: the last separator position, or -1 when there is none |
| `Resources.ResourceDirectory.constructor` | source/intern/resources.cpp:10 | `subPath` starts empty |
| `Resources.ResourceDirectory.Init` | source/intern/resources.cpp:12-19 | `subPath` is `argv[0]` up to and including its last separator, then `resources/`, or just `resources/` without a separator |
| `Resources.ResourceDirectory.GetPath` | source/intern/resources.cpp:21-26 | the path is `subPath` followed by the argument |
| `Resources.PathInsideResources` | source/intern/resources.cpp:15-23 | a resource path is the program's directory, `resources/`, then the relative path |
| `Resources.ToUnsigned` | source/intern/resources.cpp:86-88 | pushing an `int` into `vector<unsigned int>` wraps it modulo 2^32 |
| `Resources.LoadIndices` | source/intern/resources.cpp:75-90 | succeeds iff four integers parse with a count of 3, then appends `v1, v2, v3` in order; on failure leaves the indices unchanged |
| `Resources.LoadPosition` | source/intern/resources.cpp:56-63 | appends iff three floats parse, else changes nothing |
| `Resources.LoadPositionAndNormal` | source/intern/resources.cpp:65-73 | appends to both positions and normals iff six floats parse, else to neither |
| `Resources.GetlineReadsLine` | source/intern/resources.cpp:100-125 | the `(k+1)`-th `getline` from the start of a file yields `Line(file, k)`: line `k`, or past the end the last line again without a final newline, or the empty string with one |
| `Resources.RereadsLastLine` | source/intern/resources.cpp:115-121 | `OFF`, `2 0`, `1 2 3` with no final newline loads the position `(1, 2, 3)` twice |
| `Resources.OffFileData.constructor` | source/intern/resources.cpp:106 | a fresh record has no positions and no indices |
| `Resources.NOffFileData.constructor` | source/intern/resources.cpp:151 | a fresh record has no positions, normals or indices |
| `Resources.LoadPositions` | source/intern/resources.cpp:114-121 | succeeds iff every vertex line parses, after appending them all |
| `Resources.LoadPositionsAndNormals` | source/intern/resources.cpp:159-166 | succeeds iff every vertex line yields six floats, after appending their positions and normals |
| `Resources.LoadFaces` | source/intern/resources.cpp:123-130 | succeeds iff every face line is a triangle, after appending their indices |
| `Resources.LoadOffResource` | source/intern/resources.cpp:92-135 | throws iff the file opened, line 0 is exactly `OFF` and `stoi` throws on line 1, and then returns nothing; otherwise non-null iff every vertex and face line `getline` yields is accepted, then holding exactly their positions and indices |
| `Resources.LoadNOffResource` | source/intern/resources.cpp:137-180 | throws iff the file opened, line 0 is exactly `NOFF` and `stoi` throws on line 1, and then returns nothing; otherwise non-null iff every line `getline` yields is accepted, then holding exactly their positions, normals and indices |
| `Resources.OffSizes` | source/intern/resources.cpp:114-130 | an accepted OFF file has one position per vertex and three indices per face |
| `Resources.NOffSizes` | source/intern/resources.cpp:159-175 | an accepted NOFF file has one position and one normal per vertex and three indices per face |

## Left out

- Threads in `sort` (source/kdtree.hpp:117-120, source/kdtree.h:116-119), `threadDepth` and `getCpuCoreCount`. Only the sequential branch is modelled. The two sub-ranges are disjoint, so the result is the same.
- Floating point. Coordinates are reals, and `sqrt` distances are compared through their squares. Rounding, and float overflow in the hash-to-float conversion, are not modelled.
- `randomFloat_Range` (float scaling), `mapBetween0And1`, `mapToBox` and `operator<<` of source/bounding_box.hpp. The curve's grid coordinates enter as the parameters `gridX` and `gridY`.
- `calcXYGridPoints`, `generateXYGridLinesMesh`, `createLineSegmentsMesh` and the GPU mesh constructors of source/intern/mesh_utils.cpp (float grids and GPU objects).
- The vector overload of `findBoundingBox`, which only forwards to the array-and-length overload. The k-d tree's `getBoundingBox` uses the scan directly.
- `TIMEIT`/`Timer`, `timeit`, `measureTime`, `generateRandomVectors`, `createPoints`, `createRandomTuples`, the `main` functions, the module-level benchmark code, `__repr__`/`iterReprLines`, `getDimensionMin` and `getDimensionMax`. They are timing, test-data and printing code.
- File streams. `fs.good()` is the flag `good`, and the file is its lines with a flag for a final newline. `getline` is modelled on that text (`Resources.Getline`); past the end it leaves the last line in place, or yields the empty string when the file ends with a newline. `loadTextResource`, `loadShaderResource` and the `loadRel*` forwarders are I/O only.
- The count line. What the two `stoi` calls make of line 1 is the parameter `scanCounts`, which also says when `stoi` throws. `find(" ")` and the offset `c_str() + split` are not taken apart: a line without a space (`split == npos`) is whatever `scanCounts` says.
- `sscanf` and its float and integer conversions are the parameters `scanPosition`, `scanVertex` and `scanFace`.
- The allocation that the loaders leak when `stoi` throws, and the `std::cerr` messages. A thrown exception is the out-parameter `thrown`, with no record returned.
- KdTree.KDTree.CollectKNearest: promises a k-nearest choice of the points the walk showed, not of the whole buffer. The far-side test of source/kdtree.hpp:301 and 306 uses `maxDistance` while the collector holds fewer than `k` points, so it can skip points a full answer needs (see Findings). `NearestSearch.CollectKNearestFixed` makes the full promise for the corrected test.
- SimpleKdTree.KDTree.FindClosestNPoints: states the as-written result. The stronger promise is made by `ClosestSearch.FindClosestNPoints` (see Findings).
- The order among entries of equal distance in `std::priority_queue`, which the C++ library leaves unspecified. The model pops the first entry of largest distance. No contract depends on that order.
- KdTree.KDTree.constructor: requires at most `2^30` points and `bucketSize < 2^31`. Beyond that bound `left + right` in `getMedianIndex` (source/kdtree.hpp:25-27, source/kdtree.h:352-354, kdtree/main.cc:286-288) overflows an `int`, which is undefined in C++ (`FlatTree.MedianOverflowsBeyondBound`). Within it, `FlatTree.TreeSumsFit` shows the 32-bit sums are exact.
- SimpleKdTree.KDTree.constructor: requires a non-empty list. The source indexes `rightPoints[0]` and fails on an empty one.
- 32-bit overflow of the grid and index arithmetic in source/intern/mesh_utils.cpp and of `i * div2 + j` products. The index builders use unbounded integers. Pushing a negative `int` into `vector<unsigned int>` is modelled (`Resources.ToUnsigned`), which the OFF loaders use.
- `glm::triangleNormal`, `glm::normalize` and `ImplicitCurve::evaluate` are function parameters. Their vector maths is not modelled.
- The character type of `lookupIndex` and `lines`. It is `bv8`, and the `(unsigned int)` casts are no-ops because every value is non-negative.

## Findings

| source | as written | input that shows it | evidently intended | confidence | as-written member | corrected member |
|---|---|---|---|---|---|---|
| playground/simple_pykdtree.py:117-126 | the far child is pruned whenever the split lies beyond `helper.maxDistance`, even while the helper holds fewer than `n` points | points `o` and `o + (1, 0, 0)`, center `o`, `n = 2`: the walk returns `[o]` only | also search the far child while `len(pointsWithDistance) < maxLength`, so the result matches `naiveSearchClosestN` as the comparison at line 220 expects | not executed | `ClosestSearch.WalkStopsShort` | `ClosestSearch.FindClosestNPoints` |
| source/kdtree.hpp:299-309 | the far half is skipped whenever `originPos ± maxDistance` does not reach the split, even while the collector holds fewer than `k` points | the balanced 1-D buffer `[0], [1], [2]` with `bucketSize = 1`, origin `[0]`, `k = 3`: the walk returns two points | also walk the far half while `queue.size() < k`, so the result is a k-nearest choice as `collectKNearest_Naive` gives | not executed | `NearestSearch.KNearestStopsShort` | `NearestSearch.CollectKNearestFixed` |
