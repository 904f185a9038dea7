/**
 * The implicit tree over a point buffer shared by every flat-buffer variant:
 * an inclusive index range `[left, right]` at depth `d` is a leaf when it
 * holds at most `leafSize` points; otherwise its median index holds the split
 * point on axis `d % ndim` and the two halves beside it are the children.
 *
 * `leafSize` is `bucketSize` in the C++ trees (`left + bucketSize > right`)
 * and `bucketSize + 1` in playground/pykdtree2.py (`left + bucketSize >= right`).
 */
module FlatTree {
  import opened Geometry
  import opened Selection

  /** `isLeaf(left, right)`: `left + leafSize > right`. */
  function IsLeaf(left: int, right: int, leafSize: nat): (leaf: bool)
    ensures leaf <==> right - left + 1 <= leafSize
  {
    left + leafSize > right
  }

  // ---------------------------------------------------------------------------
  // The index sums on `int`
  // ---------------------------------------------------------------------------

  /**
   * A C++ `int` result wrapped into `[-2^31, 2^31)`. Signed overflow is
   * undefined in C++; two's-complement wrap-around is what the hardware gives.
   */
  function WrapInt(v: int): (r: int)
    ensures -0x8000_0000 <= r < 0x8000_0000
    ensures (r - v) % 0x1_0000_0000 == 0
    ensures -0x8000_0000 <= v < 0x8000_0000 ==> r == v
  {
    (v + 0x8000_0000) % 0x1_0000_0000 - 0x8000_0000
  }

  /** `getMedianIndex(left, right)` on `int`: the sum wraps, then the division truncates toward zero. */
  function MedianIndexInt(left: int, right: int): int {
    var sum := WrapInt(left + right);
    if sum >= 0 then sum / 2 else -((-sum) / 2)
  }

  /** `isLeaf(left, right)` on `int`: `left + bucketSize` wraps. */
  function IsLeafInt(left: int, right: int, leafSize: nat): bool {
    WrapInt(left + leafSize) > right
  }

  /** Both sums the descent computes on a range fit an `int`. */
  predicate SumsFit(left: int, right: int, leafSize: nat) {
    -0x8000_0000 <= left + right < 0x8000_0000 && -0x8000_0000 <= left + leafSize < 0x8000_0000
  }

  /** Where the sums fit, the `int` arithmetic is the unbounded one. */
  lemma IntArithmeticAgrees(left: int, right: int, leafSize: nat)
    requires SumsFit(left, right, leafSize)
    ensures MedianIndexInt(left, right) == MedianIndex(left, right)
    ensures IsLeafInt(left, right, leafSize) == IsLeaf(left, right, leafSize)
  {
  }

  /**
   * Every range the descent of `sort`, `collectInRadius`, `collectKNearest`
   * and `insertBoundingBoxes` reaches from `[left, right]`: the range itself,
   * and the two halves beside the median of every internal one.
   */
  ghost predicate ReachedSumsFit(left: int, right: int, leafSize: nat)
    requires 0 <= left <= right + 1
    decreases right - left + 1
  {
    SumsFit(left, right, leafSize) &&
    (IsLeaf(left, right, leafSize) ||
     var m := MedianIndex(left, right);
     ReachedSumsFit(left, m - 1, leafSize) && ReachedSumsFit(m + 1, right, leafSize))
  }

  /** Below `2^30`, the halves of an internal range have fitting sums. */
  lemma HalvesSumsFit(left: int, right: int, leafSize: nat)
    requires 0 <= left <= right < 0x4000_0000 && !IsLeaf(left, right, leafSize)
    ensures SumsFit(left, MedianIndex(left, right) - 1, leafSize)
    ensures SumsFit(MedianIndex(left, right) + 1, right, leafSize)
  {
  }

  /** Below `2^30`, a range with fitting sums reaches only ranges with fitting sums. */
  lemma {:induction false} RangeSumsFit(left: int, right: int, leafSize: nat)
    requires 0 <= left <= right + 1 <= 0x4000_0000 && SumsFit(left, right, leafSize)
    ensures ReachedSumsFit(left, right, leafSize)
    decreases right - left + 1
  {
    if !IsLeaf(left, right, leafSize) {
      var m := MedianIndex(left, right);
      HalvesSumsFit(left, right, leafSize);
      RangeSumsFit(left, m - 1, leafSize);
      RangeSumsFit(m + 1, right, leafSize);
    }
  }

  /**
   * A buffer of at most `2^30` points with an `int` bucket size: no range
   * the descent reaches overflows `left + right` or `left + bucketSize`.
   */
  lemma TreeSumsFit(length: int, leafSize: nat)
    requires 0 <= length <= 0x4000_0000 && leafSize < 0x8000_0000
    ensures ReachedSumsFit(0, length - 1, leafSize)
  {
    RangeSumsFit(0, length - 1, leafSize);
  }

  /**
   * Above that bound the sums do overflow: a buffer of `2^31 - 1` points with
   * buckets of one splits at `2^30 - 1`, and its internal high half
   * `[2^30, 2^31 - 2]` gets a negative median index.
   */
  lemma MedianOverflowsBeyondBound()
    ensures !IsLeaf(0, 0x7FFF_FFFE, 1) && MedianIndex(0, 0x7FFF_FFFE) == 0x3FFF_FFFF
    ensures !IsLeaf(0x4000_0000, 0x7FFF_FFFE, 1)
    ensures MedianIndexInt(0x4000_0000, 0x7FFF_FFFE) < 0
  {
  }

  /**
   * `getAxis(depth)`: `depth % ndim`, written as repeated subtraction (see
   * `AxisIsRemainder`).
   */
  function Axis(depth: nat, ndim: nat): (axis: nat)
    requires ndim >= 1
    ensures axis < ndim
    ensures depth < ndim ==> axis == depth
    decreases depth
  {
    if depth < ndim then depth else Axis(depth - ndim, ndim)
  }

  /** `Axis` is the remainder `depth % ndim`. */
  lemma {:induction false} AxisIsRemainder(depth: nat, ndim: nat)
    requires ndim >= 1
    ensures Axis(depth, ndim) == depth % ndim
    decreases depth
  {
    if depth >= ndim {
      AxisIsRemainder(depth - ndim, ndim);
      RemainderUnique(depth, ndim, (depth - ndim) / ndim + 1, (depth - ndim) % ndim);
    }
  }

  /** Going one level deeper moves to the next axis, wrapping after the last one. */
  lemma {:induction false} AxisCycles(depth: nat, ndim: nat)
    requires ndim >= 1
    ensures Axis(depth + 1, ndim) == if Axis(depth, ndim) + 1 == ndim then 0 else Axis(depth, ndim) + 1
    ensures Axis(depth + ndim, ndim) == Axis(depth, ndim)
    decreases depth
  {
    if depth + 1 == ndim {
      assert Axis(depth + 1, ndim) == Axis(0, ndim);
    } else if depth >= ndim {
      AxisCycles(depth - ndim, ndim);
      assert depth + 1 - ndim == depth - ndim + 1;
    }
  }

  /** The remainder of `x` by `n` is the `r` of any decomposition `x == q * n + r` with `0 <= r < n`. */
  lemma RemainderUnique(x: int, n: int, q: int, r: int)
    requires 0 <= r < n
    requires x == q * n + r
    ensures x % n == r
  {
    var q', r' := x / n, x % n;
    assert x == q' * n + r';
    assert (q - q') * n == r' - r;
    if q > q' {
      assert (q - q') * n >= n by { MulAtLeast(q - q', n); }
    } else if q < q' {
      assert (q' - q) * n >= n by { MulAtLeast(q' - q, n); }
    }
  }

  /** A positive multiple of `n` is at least `n`. */
  lemma MulAtLeast(k: int, n: int)
    requires k >= 1 && n >= 0
    ensures k * n >= n
  {
    assert k * n == (k - 1) * n + n;
    assert (k - 1) * n >= 0;
  }

  /**
   * The median-split invariant: on every internal range the median element
   * separates the range on that depth's axis.
   */
  ghost predicate Balanced(s: seq<Point>, left: int, right: int, depth: nat, ndim: nat, leafSize: nat)
    requires 0 <= left <= right + 1 <= |s|
    requires ndim >= 1
    decreases right - left + 1
  {
    IsLeaf(left, right, leafSize) ||
    var m := MedianIndex(left, right);
    Selected(s, left, right, m, Axis(depth, ndim)) &&
    Balanced(s, left, m - 1, depth + 1, ndim, leafSize) &&
    Balanced(s, m + 1, right, depth + 1, ndim, leafSize)
  }

  /** The invariant of a range depends only on the elements inside it. */
  lemma {:induction false} BalancedFrame(s: seq<Point>, t: seq<Point>, left: int, right: int,
                                         depth: nat, ndim: nat, leafSize: nat)
    requires 0 <= left <= right + 1 <= |s| == |t|
    requires ndim >= 1
    requires forall i :: left <= i <= right ==> s[i] == t[i]
    requires Balanced(s, left, right, depth, ndim, leafSize)
    ensures Balanced(t, left, right, depth, ndim, leafSize)
    decreases right - left + 1
  {
    if !IsLeaf(left, right, leafSize) {
      var m := MedianIndex(left, right);
      BalancedFrame(s, t, left, m - 1, depth + 1, ndim, leafSize);
      BalancedFrame(s, t, m + 1, right, depth + 1, ndim, leafSize);
    }
  }

  /** A leaf is balanced whatever it holds. */
  lemma BalancedLeaf(s: seq<Point>, left: int, right: int, depth: nat, ndim: nat, leafSize: nat)
    requires 0 <= left <= right + 1 <= |s| && ndim >= 1 && IsLeaf(left, right, leafSize)
    ensures Balanced(s, left, right, depth, ndim, leafSize)
  {
  }

  /** One level of `Balanced` on an internal range. */
  lemma BalancedNode(s: seq<Point>, left: int, right: int, m: int, axis: nat, depth: nat, ndim: nat, leafSize: nat)
    requires 0 <= left <= right < |s| && ndim >= 1 && !IsLeaf(left, right, leafSize)
    requires m == MedianIndex(left, right) && axis == Axis(depth, ndim)
    requires Selected(s, left, right, m, axis)
    requires Balanced(s, left, m - 1, depth + 1, ndim, leafSize) && Balanced(s, m + 1, right, depth + 1, ndim, leafSize)
    ensures Balanced(s, left, right, depth, ndim, leafSize)
  {
  }

  /**
   * One level of `sort`: the median was fixed in `s1`, then the left half
   * was sorted (`s2`), then the right half (`s3`); the whole range is balanced.
   */
  lemma SortStep(s1: seq<Point>, s2: seq<Point>, s3: seq<Point>, left: int, right: int, m: int, axis: nat,
                 depth: nat, ndim: nat, leafSize: nat)
    requires 0 <= left <= right < |s1|
    requires ndim >= 1
    requires !IsLeaf(left, right, leafSize)
    requires m == MedianIndex(left, right) && axis == Axis(depth, ndim)
    requires Selected(s1, left, right, m, axis)
    requires multiset(s1) == multiset(s2)
    requires SameOutside(s1, s2, left, m - 1)
    requires Balanced(s2, left, m - 1, depth + 1, ndim, leafSize)
    requires multiset(s2) == multiset(s3)
    requires SameOutside(s2, s3, m + 1, right)
    requires Balanced(s3, m + 1, right, depth + 1, ndim, leafSize)
    ensures Balanced(s3, left, right, depth, ndim, leafSize)
  {
    MedianSettled(s1, s2, s3, left, m, right, axis);
    BalancedFrame(s2, s3, left, m - 1, depth + 1, ndim, leafSize);
    BalancedNode(s3, left, right, m, axis, depth, ndim, leafSize);
  }

  /** The median fixed in `s1` still separates the range after both halves are sorted. */
  lemma MedianSettled(s1: seq<Point>, s2: seq<Point>, s3: seq<Point>, left: int, m: int, right: int, axis: nat)
    requires 0 <= left <= m <= right < |s1|
    requires Selected(s1, left, right, m, axis)
    requires multiset(s1) == multiset(s2) && SameOutside(s1, s2, left, m - 1)
    requires multiset(s2) == multiset(s3) && SameOutside(s2, s3, m + 1, right)
    ensures Selected(s3, left, right, m, axis)
  {
    var pv := Key(s1[m], axis);
    LowHalfSettled(s1, s2, s3, left, m, right, axis, pv);
    HighHalfSettled(s1, s2, s3, left, m, right, axis, pv);
    assert s3[m] == s2[m] == s1[m];
  }

  /** The bound below the median survives sorting the left half and then the right half. */
  lemma LowHalfSettled(s1: seq<Point>, s2: seq<Point>, s3: seq<Point>, left: int, m: int, right: int, axis: nat, pv: real)
    requires 0 <= left <= m <= right < |s1|
    requires multiset(s1) == multiset(s2) && SameOutside(s1, s2, left, m - 1) && SameOutside(s2, s3, m + 1, right)
    requires AtMost(s1, left, m - 1, axis, pv)
    ensures AtMost(s3, left, m - 1, axis, pv)
  {
    RangePermutation(s1, s2, left, m - 1);
    BoundsSurvivePermutation(s1, s2, left, m - 1, axis, pv);
    assert forall i :: left <= i <= m - 1 ==> s3[i] == s2[i];
  }

  /** The bound above the median survives sorting the left half and then the right half. */
  lemma HighHalfSettled(s1: seq<Point>, s2: seq<Point>, s3: seq<Point>, left: int, m: int, right: int, axis: nat, pv: real)
    requires 0 <= left <= m <= right < |s1|
    requires SameOutside(s1, s2, left, m - 1)
    requires multiset(s2) == multiset(s3) && SameOutside(s2, s3, m + 1, right)
    requires AtLeast(s1, m + 1, right, axis, pv)
    ensures AtLeast(s3, m + 1, right, axis, pv)
  {
    assert forall i :: m + 1 <= i <= right ==> s1[i] == s2[i];
    assert AtLeast(s2, m + 1, right, axis, pv);
    RangePermutation(s2, s3, m + 1, right);
    BoundsSurvivePermutation(s2, s3, m + 1, right, axis, pv);
  }

  /** Fixing the median and then sorting each half permutes the buffer and moves nothing outside the range. */
  lemma FrameChain(s0: seq<Point>, s1: seq<Point>, s2: seq<Point>, s3: seq<Point>, left: int, m: int, right: int)
    requires left <= m <= right
    requires multiset(s0) == multiset(s1) && SameOutside(s0, s1, left, right)
    requires multiset(s1) == multiset(s2) && SameOutside(s1, s2, left, m - 1)
    requires multiset(s2) == multiset(s3) && SameOutside(s2, s3, m + 1, right)
    ensures multiset(s0) == multiset(s3) && SameOutside(s0, s3, left, right)
  {
  }

  /**
   * `sort(left, right, depth)` of source/kdtree.hpp and source/kdtree.h (the
   * sequential branch): fix the median with the hash pivot, then sort both halves.
   */
  method SortHashed(a: array<Point>, left: int, right: int, depth: nat, ndim: nat, leafSize: nat)
    requires ndim >= 1
    requires 0 <= left <= right + 1 <= a.Length
    requires right < 0x8000_0000
    modifies a
    ensures multiset(a[..]) == multiset(old(a[..]))
    ensures SameOutside(old(a[..]), a[..], left, right)
    ensures Balanced(a[..], left, right, depth, ndim, leafSize)
    decreases right - left + 1, 1
  {
    if IsLeaf(left, right, leafSize) {
      BalancedLeaf(a[..], left, right, depth, ndim, leafSize);
      return;
    }
    ghost var s0 := a[..];
    var axis := Axis(depth, ndim);
    var medianIndex := FixateMedian(a, left, right, axis);
    ghost var s1 := a[..];
    SortHashedLow(a, left, medianIndex, depth, ndim, leafSize);
    ghost var s2 := a[..];
    SortHashedHigh(a, medianIndex, right, depth, ndim, leafSize);
    ghost var s3 := a[..];
    SortStep(s1, s2, s3, left, right, medianIndex, axis, depth, ndim, leafSize);
    FrameChain(s0, s1, s2, s3, left, medianIndex, right);
  }

  /** The recursive call of `SortHashed` on the half below `m`. */
  method SortHashedLow(a: array<Point>, left: int, m: int, depth: nat, ndim: nat, leafSize: nat)
    requires ndim >= 1
    requires 0 <= left <= m < a.Length && m < 0x8000_0000
    modifies a
    ensures multiset(a[..]) == multiset(old(a[..]))
    ensures SameOutside(old(a[..]), a[..], left, m - 1)
    ensures Balanced(a[..], left, m - 1, depth + 1, ndim, leafSize)
    decreases m - left + 1, 0
  {
    SortHashed(a, left, m - 1, depth + 1, ndim, leafSize);
  }

  /** The recursive call of `SortHashed` on the half above `m`. */
  method SortHashedHigh(a: array<Point>, m: int, right: int, depth: nat, ndim: nat, leafSize: nat)
    requires ndim >= 1
    requires 0 <= m <= right < a.Length && right < 0x8000_0000
    modifies a
    ensures multiset(a[..]) == multiset(old(a[..]))
    ensures SameOutside(old(a[..]), a[..], m + 1, right)
    ensures Balanced(a[..], m + 1, right, depth + 1, ndim, leafSize)
    decreases right - m + 1, 0
  {
    SortHashed(a, m + 1, right, depth + 1, ndim, leafSize);
  }

  /**
   * `sort(left, right, depth)` of kdtree/main.cc and `recursiveSort` of
   * playground/pykdtree2.py: the same recursion with drawn pivots.
   */
  method SortDrawn(a: array<Point>, left: int, right: int, depth: nat, ndim: nat, leafSize: nat,
                   rand: nat -> nat, t: nat)
    returns (next: nat)
    requires ndim >= 1
    requires 0 <= left <= right + 1 <= a.Length
    modifies a
    ensures t <= next
    ensures multiset(a[..]) == multiset(old(a[..]))
    ensures SameOutside(old(a[..]), a[..], left, right)
    ensures Balanced(a[..], left, right, depth, ndim, leafSize)
    decreases right - left + 1, 1
  {
    if IsLeaf(left, right, leafSize) {
      BalancedLeaf(a[..], left, right, depth, ndim, leafSize);
      return t;
    }
    ghost var s0 := a[..];
    var axis := Axis(depth, ndim);
    var medianIndex;
    medianIndex, next := FixateMedianDrawn(a, left, right, axis, rand, t);
    ghost var s1 := a[..];
    next := SortDrawnLow(a, left, medianIndex, depth, ndim, leafSize, rand, next);
    ghost var s2 := a[..];
    next := SortDrawnHigh(a, medianIndex, right, depth, ndim, leafSize, rand, next);
    ghost var s3 := a[..];
    SortStep(s1, s2, s3, left, right, medianIndex, axis, depth, ndim, leafSize);
    FrameChain(s0, s1, s2, s3, left, medianIndex, right);
  }

  /** The recursive call of `SortDrawn` on the half below `m`. */
  method SortDrawnLow(a: array<Point>, left: int, m: int, depth: nat, ndim: nat, leafSize: nat,
                      rand: nat -> nat, t: nat)
    returns (next: nat)
    requires ndim >= 1
    requires 0 <= left <= m < a.Length
    modifies a
    ensures t <= next
    ensures multiset(a[..]) == multiset(old(a[..]))
    ensures SameOutside(old(a[..]), a[..], left, m - 1)
    ensures Balanced(a[..], left, m - 1, depth + 1, ndim, leafSize)
    decreases m - left + 1, 0
  {
    next := SortDrawn(a, left, m - 1, depth + 1, ndim, leafSize, rand, t);
  }

  /** The recursive call of `SortDrawn` on the half above `m`. */
  method SortDrawnHigh(a: array<Point>, m: int, right: int, depth: nat, ndim: nat, leafSize: nat,
                       rand: nat -> nat, t: nat)
    returns (next: nat)
    requires ndim >= 1
    requires 0 <= m <= right < a.Length
    modifies a
    ensures t <= next
    ensures multiset(a[..]) == multiset(old(a[..]))
    ensures SameOutside(old(a[..]), a[..], m + 1, right)
    ensures Balanced(a[..], m + 1, right, depth + 1, ndim, leafSize)
    decreases right - m + 1, 0
  {
    next := SortDrawn(a, m + 1, right, depth + 1, ndim, leafSize, rand, t);
  }

  /**
   * `CalcDistance(origin, point) <= radius` for a point of the origin's
   * dimension (every point of a tree has it).
   */
  predicate InBall(origin: Point, p: Point, radius: real) {
    |p| == |origin| && WithinRadius(origin, p, radius)
  }

  /**
   * What an `InRadiusCollector` keeps of the points it is shown, in order:
   * those at distance at most `radius` from `origin`. Showing it the whole
   * buffer is `collectInRadius_Naive`.
   */
  function Within(ps: seq<Point>, origin: Point, radius: real): (r: seq<Point>)
  {
    if |ps| == 0 then []
    else
      var last := ps[|ps| - 1];
      Within(ps[..|ps| - 1], origin, radius) + Keep(origin, last, radius)
  }

  /** What a radius collector keeps of one point it is shown. */
  function Keep(origin: Point, p: Point, radius: real): (r: seq<Point>)
    ensures r == [] || r == [p]
  {
    if InBall(origin, p, radius) then [p] else []
  }

  /** What a radius collector keeps of `s[left..right]` shown one element at a time. */
  function BucketKept(s: seq<Point>, left: int, right: int, origin: Point, radius: real): seq<Point>
    requires 0 <= left <= right + 1 <= |s|
    decreases right - left + 1
  {
    if right < left then [] else BucketKept(s, left, right - 1, origin, radius) + Keep(origin, s[right], radius)
  }

  /** Showing a bucket element by element keeps what `Within` keeps of the slice. */
  lemma {:induction false} BucketKeptIsWithin(s: seq<Point>, left: int, right: int, origin: Point, radius: real)
    requires 0 <= left <= right + 1 <= |s|
    ensures BucketKept(s, left, right, origin, radius) == Within(s[left..right + 1], origin, radius)
    decreases right - left + 1
  {
    if left <= right {
      BucketKeptIsWithin(s, left, right - 1, origin, radius);
      var x := s[left..right + 1];
      assert x[..|x| - 1] == s[left..right];
      assert x[|x| - 1] == s[right];
      assert Within(x, origin, radius) == Within(x[..|x| - 1], origin, radius) + Keep(origin, x[|x| - 1], radius);
    }
  }

  /** `Within` keeps a sub-multiset of what it is shown. */
  lemma {:induction false} WithinSubmultiset(ps: seq<Point>, origin: Point, radius: real)
    ensures multiset(Within(ps, origin, radius)) <= multiset(ps)
    decreases |ps|
  {
    if |ps| > 0 {
      var last := ps[|ps| - 1];
      WithinSubmultiset(ps[..|ps| - 1], origin, radius);
      assert ps == ps[..|ps| - 1] + [last];
    }
  }

  /** `Within` keeps exactly the points of `ps` that lie in the ball. */
  lemma {:induction false} WithinMembers(ps: seq<Point>, origin: Point, radius: real, p: Point)
    ensures p in Within(ps, origin, radius) <==> p in ps && InBall(origin, p, radius)
    decreases |ps|
  {
    if |ps| > 0 {
      WithinMembers(ps[..|ps| - 1], origin, radius, p);
      assert ps == ps[..|ps| - 1] + [ps[|ps| - 1]];
    }
  }

  /** Filtering distributes over concatenation. */
  lemma {:induction false} WithinConcat(a: seq<Point>, b: seq<Point>, origin: Point, radius: real)
    ensures Within(a + b, origin, radius) == Within(a, origin, radius) + Within(b, origin, radius)
    decreases |b|
  {
    if |b| > 0 {
      var b' := b[..|b| - 1];
      assert (a + b)[..|a + b| - 1] == a + b';
      WithinConcat(a, b', origin, radius);
    } else {
      assert a + b == a;
    }
  }

  /**
   * The points the radius traversal of `[left, right]` shows its collector,
   * in order: a leaf shows its whole bucket; an internal range shows its
   * split point first, then the left half when `originPos - radius <=
   * splitPos` and the right half when `originPos + radius >= splitPos`.
   */
  ghost function RadiusConsidered(s: seq<Point>, left: int, right: int, depth: nat, ndim: nat, leafSize: nat,
                                  origin: Point, radius: real): seq<Point>
    requires 0 <= left <= right + 1 <= |s|
    requires ndim >= 1
    decreases right - left + 1
  {
    if IsLeaf(left, right, leafSize) then s[left..right + 1]
    else
      var m := MedianIndex(left, right);
      var axis := Axis(depth, ndim);
      var splitPos := Key(s[m], axis);
      var originPos := Key(origin, axis);
      [s[m]]
      + (if originPos - radius <= splitPos then RadiusConsidered(s, left, m - 1, depth + 1, ndim, leafSize, origin, radius) else [])
      + (if originPos + radius >= splitPos then RadiusConsidered(s, m + 1, right, depth + 1, ndim, leafSize, origin, radius) else [])
  }

  /** One level of `RadiusConsidered` on an internal range, with the two descent tests named. */
  lemma RadiusConsideredNode(s: seq<Point>, left: int, right: int, depth: nat, ndim: nat, leafSize: nat,
                             origin: Point, radius: real, goLow: bool, goHigh: bool, low: seq<Point>, high: seq<Point>)
    requires 0 <= left <= right < |s| && ndim >= 1 && !IsLeaf(left, right, leafSize)
    requires goLow == (Key(origin, Axis(depth, ndim)) - radius <= Key(s[MedianIndex(left, right)], Axis(depth, ndim)))
    requires goHigh == (Key(origin, Axis(depth, ndim)) + radius >= Key(s[MedianIndex(left, right)], Axis(depth, ndim)))
    requires low == if goLow then RadiusConsidered(s, left, MedianIndex(left, right) - 1, depth + 1, ndim, leafSize, origin, radius) else []
    requires high == if goHigh then RadiusConsidered(s, MedianIndex(left, right) + 1, right, depth + 1, ndim, leafSize, origin, radius) else []
    ensures RadiusConsidered(s, left, right, depth, ndim, leafSize, origin, radius) == [s[MedianIndex(left, right)]] + low + high
  {
  }

  /** A range split around its median. */
  lemma SplitRange(s: seq<Point>, left: int, m: int, right: int)
    requires 0 <= left <= m <= right < |s|
    ensures s[left..right + 1] == s[left..m] + [s[m]] + s[m + 1..right + 1]
    ensures multiset(s[left..right + 1]) == multiset(s[left..m]) + multiset{s[m]} + multiset(s[m + 1..right + 1])
  {
    assert s[left..right + 1] == s[left..m] + [s[m]] + s[m + 1..right + 1];
  }

  /**
   * The traversal shows each buffer slot of the range at most once, so it
   * considers at most as many points as the range holds (the bound on
   * `consideredAmount` in playground/pykdtree2.py).
   */
  lemma {:induction false} RadiusConsideredFromRange(s: seq<Point>, left: int, right: int, depth: nat, ndim: nat,
                                                     leafSize: nat, origin: Point, radius: real)
    requires 0 <= left <= right + 1 <= |s|
    requires ndim >= 1
    ensures multiset(RadiusConsidered(s, left, right, depth, ndim, leafSize, origin, radius)) <= multiset(s[left..right + 1])
    ensures |RadiusConsidered(s, left, right, depth, ndim, leafSize, origin, radius)| <= right - left + 1
    decreases right - left + 1, 1
  {
    if !IsLeaf(left, right, leafSize) {
      var m := MedianIndex(left, right);
      var axis := Axis(depth, ndim);
      var goLow := Key(origin, axis) - radius <= Key(s[m], axis);
      var goHigh := Key(origin, axis) + radius >= Key(s[m], axis);
      var low := if goLow then RadiusConsidered(s, left, m - 1, depth + 1, ndim, leafSize, origin, radius) else [];
      var high := if goHigh then RadiusConsidered(s, m + 1, right, depth + 1, ndim, leafSize, origin, radius) else [];
      RadiusConsideredNode(s, left, right, depth, ndim, leafSize, origin, radius, goLow, goHigh, low, high);
      ConsideredFromLow(s, left, m, depth, ndim, leafSize, origin, radius, goLow);
      ConsideredFromHigh(s, m, right, depth, ndim, leafSize, origin, radius, goHigh);
      SplitRange(s, left, m, right);
      ConsideredAssembled(s[m], low, high, s[left..m], s[m + 1..right + 1]);
    }
  }

  /** `RadiusConsideredFromRange` for the half below `m`, when the traversal descends there. */
  lemma {:induction false} ConsideredFromLow(s: seq<Point>, left: int, m: int, depth: nat, ndim: nat,
                                             leafSize: nat, origin: Point, radius: real, go: bool)
    requires 0 <= left <= m < |s|
    requires ndim >= 1
    ensures multiset(if go then RadiusConsidered(s, left, m - 1, depth + 1, ndim, leafSize, origin, radius) else [])
         <= multiset(s[left..m])
    ensures |if go then RadiusConsidered(s, left, m - 1, depth + 1, ndim, leafSize, origin, radius) else []| <= m - left
    decreases m - left + 1, 0
  {
    if go {
      RadiusConsideredFromRange(s, left, m - 1, depth + 1, ndim, leafSize, origin, radius);
    }
  }

  /** `RadiusConsideredFromRange` for the half above `m`, when the traversal descends there. */
  lemma {:induction false} ConsideredFromHigh(s: seq<Point>, m: int, right: int, depth: nat, ndim: nat,
                                              leafSize: nat, origin: Point, radius: real, go: bool)
    requires 0 <= m <= right < |s|
    requires ndim >= 1
    ensures multiset(if go then RadiusConsidered(s, m + 1, right, depth + 1, ndim, leafSize, origin, radius) else [])
         <= multiset(s[m + 1..right + 1])
    ensures |if go then RadiusConsidered(s, m + 1, right, depth + 1, ndim, leafSize, origin, radius) else []| <= right - m
    decreases right - m + 1, 0
  {
    if go {
      RadiusConsideredFromRange(s, m + 1, right, depth + 1, ndim, leafSize, origin, radius);
    }
  }

  /** The split point followed by parts of both halves is part of the whole range. */
  lemma ConsideredAssembled(mid: Point, low: seq<Point>, high: seq<Point>, lowRange: seq<Point>, highRange: seq<Point>)
    requires multiset(low) <= multiset(lowRange) && multiset(high) <= multiset(highRange)
    ensures multiset([mid] + low + high) <= multiset(lowRange) + multiset{mid} + multiset(highRange)
  {
  }

  /** Nothing of `ps` is kept when no point of it is in the ball. */
  lemma {:induction false} WithinNone(ps: seq<Point>, origin: Point, radius: real)
    requires forall i :: 0 <= i < |ps| ==> !InBall(origin, ps[i], radius)
    ensures Within(ps, origin, radius) == []
  {
    if |ps| > 0 {
      WithinNone(ps[..|ps| - 1], origin, radius);
    }
  }

  /** Keeping the points of a range and its split point commutes with reassembling them. */
  lemma WithinAssembled(mid: Point, low: seq<Point>, high: seq<Point>, lowRange: seq<Point>, highRange: seq<Point>,
                        origin: Point, radius: real)
    requires multiset(Within(low, origin, radius)) == multiset(Within(lowRange, origin, radius))
    requires multiset(Within(high, origin, radius)) == multiset(Within(highRange, origin, radius))
    ensures multiset(Within([mid] + low + high, origin, radius))
         == multiset(Within(lowRange + [mid] + highRange, origin, radius))
  {
    var m := Within([mid], origin, radius);
    WithinConcat([mid], low, origin, radius);
    WithinConcat([mid] + low, high, origin, radius);
    assert Within([mid] + low + high, origin, radius)
        == m + Within(low, origin, radius) + Within(high, origin, radius);
    WithinConcat(lowRange, [mid], origin, radius);
    WithinConcat(lowRange + [mid], highRange, origin, radius);
    assert Within(lowRange + [mid] + highRange, origin, radius)
        == Within(lowRange, origin, radius) + m + Within(highRange, origin, radius);
  }

  /** Points on or below a plane that the ball lies wholly above are outside the ball. */
  lemma {:induction false} BelowPlaneOutside(ps: seq<Point>, origin: Point, radius: real, axis: nat, splitPos: real)
    requires axis < |origin|
    requires forall i :: 0 <= i < |ps| ==> Key(ps[i], axis) <= splitPos
    requires Key(origin, axis) - radius > splitPos
    ensures Within(ps, origin, radius) == []
    decreases |ps|
  {
    if |ps| > 0 {
      var last := ps[|ps| - 1];
      BelowPlaneOutside(ps[..|ps| - 1], origin, radius, axis, splitPos);
      if |last| == |origin| {
        FarOnAxisIsOutside(origin, last, radius, axis);
      }
    }
  }

  /** Points on or above a plane that the ball lies wholly below are outside the ball. */
  lemma {:induction false} AbovePlaneOutside(ps: seq<Point>, origin: Point, radius: real, axis: nat, splitPos: real)
    requires axis < |origin|
    requires forall i :: 0 <= i < |ps| ==> Key(ps[i], axis) >= splitPos
    requires Key(origin, axis) + radius < splitPos
    ensures Within(ps, origin, radius) == []
    decreases |ps|
  {
    if |ps| > 0 {
      var last := ps[|ps| - 1];
      AbovePlaneOutside(ps[..|ps| - 1], origin, radius, axis, splitPos);
      if |last| == |origin| {
        FarOnAxisIsOutside(origin, last, radius, axis);
      }
    }
  }

  /** When the ball lies wholly above the split plane, no point left of the median `m` is in it. */
  lemma LowHalfOutside(s: seq<Point>, left: int, m: int, axis: nat, origin: Point, radius: real)
    requires 0 <= left <= m < |s|
    requires axis < |origin|
    requires AtMost(s, left, m - 1, axis, Key(s[m], axis))
    requires Key(origin, axis) - radius > Key(s[m], axis)
    ensures Within(s[left..m], origin, radius) == []
  {
    var lowRange := s[left..m];
    forall i | 0 <= i < |lowRange| ensures Key(lowRange[i], axis) <= Key(s[m], axis) {
      assert lowRange[i] == s[left + i];
    }
    BelowPlaneOutside(lowRange, origin, radius, axis, Key(s[m], axis));
  }

  /** When the ball lies wholly below the split plane, no point right of the median `m` is in it. */
  lemma HighHalfOutside(s: seq<Point>, m: int, right: int, axis: nat, origin: Point, radius: real)
    requires 0 <= m <= right < |s|
    requires axis < |origin|
    requires AtLeast(s, m + 1, right, axis, Key(s[m], axis))
    requires Key(origin, axis) + radius < Key(s[m], axis)
    ensures Within(s[m + 1..right + 1], origin, radius) == []
  {
    var highRange := s[m + 1..right + 1];
    forall i | 0 <= i < |highRange| ensures Key(highRange[i], axis) >= Key(s[m], axis) {
      assert highRange[i] == s[m + 1 + i];
    }
    AbovePlaneOutside(highRange, origin, radius, axis, Key(s[m], axis));
  }

  /** An internal range whose halves were matched: its split point joins both sides. */
  lemma RadiusNodeMatches(s: seq<Point>, left: int, right: int, m: int, low: seq<Point>, high: seq<Point>,
                          origin: Point, radius: real)
    requires 0 <= left <= m <= right < |s|
    requires multiset(Within(low, origin, radius)) == multiset(Within(s[left..m], origin, radius))
    requires multiset(Within(high, origin, radius)) == multiset(Within(s[m + 1..right + 1], origin, radius))
    ensures multiset(Within([s[m]] + low + high, origin, radius)) == multiset(Within(s[left..right + 1], origin, radius))
  {
    SplitRange(s, left, m, right);
    WithinAssembled(s[m], low, high, s[left..m], s[m + 1..right + 1], origin, radius);
  }

  /**
   * After `balance`, the radius query finds exactly the points of the linear
   * scan `collectInRadius_Naive` (as a multiset: the order differs): the
   * pruned halves lie wholly beyond the split plane from the ball.
   */
  lemma {:induction false} RadiusQueryMatchesNaive(s: seq<Point>, left: int, right: int, depth: nat, ndim: nat,
                                                   leafSize: nat, origin: Point, radius: real)
    requires 0 <= left <= right + 1 <= |s|
    requires ndim >= 1 && |origin| == ndim
    requires Balanced(s, left, right, depth, ndim, leafSize)
    ensures multiset(Within(RadiusConsidered(s, left, right, depth, ndim, leafSize, origin, radius), origin, radius))
         == multiset(Within(s[left..right + 1], origin, radius))
    decreases right - left + 1, 1
  {
    if !IsLeaf(left, right, leafSize) {
      var m := MedianIndex(left, right);
      var axis := Axis(depth, ndim);
      var splitPos := Key(s[m], axis);
      var originPos := Key(origin, axis);
      var low := if originPos - radius <= splitPos then RadiusConsidered(s, left, m - 1, depth + 1, ndim, leafSize, origin, radius) else [];
      var high := if originPos + radius >= splitPos then RadiusConsidered(s, m + 1, right, depth + 1, ndim, leafSize, origin, radius) else [];
      assert RadiusConsidered(s, left, right, depth, ndim, leafSize, origin, radius) == [s[m]] + low + high;
      RadiusLowSide(s, left, right, depth, ndim, leafSize, origin, radius);
      RadiusHighSide(s, left, right, depth, ndim, leafSize, origin, radius);
      RadiusNodeMatches(s, left, right, m, low, high, origin, radius);
    }
  }

  /** The left half of an internal range: searched and matched, or pruned and empty. */
  lemma {:induction false} RadiusLowSide(s: seq<Point>, left: int, right: int, depth: nat, ndim: nat,
                                         leafSize: nat, origin: Point, radius: real)
    requires 0 <= left <= right < |s|
    requires ndim >= 1 && |origin| == ndim
    requires !IsLeaf(left, right, leafSize)
    requires Balanced(s, left, right, depth, ndim, leafSize)
    ensures var m := MedianIndex(left, right);
            var axis := Axis(depth, ndim);
            var low := if Key(origin, axis) - radius <= Key(s[m], axis)
                       then RadiusConsidered(s, left, m - 1, depth + 1, ndim, leafSize, origin, radius) else [];
            multiset(Within(low, origin, radius)) == multiset(Within(s[left..m], origin, radius))
    decreases right - left + 1, 0
  {
    var m := MedianIndex(left, right);
    var axis := Axis(depth, ndim);
    if Key(origin, axis) - radius <= Key(s[m], axis) {
      RadiusQueryMatchesNaive(s, left, m - 1, depth + 1, ndim, leafSize, origin, radius);
    } else {
      LowHalfOutside(s, left, m, axis, origin, radius);
    }
  }

  /** The right half of an internal range: searched and matched, or pruned and empty. */
  lemma {:induction false} RadiusHighSide(s: seq<Point>, left: int, right: int, depth: nat, ndim: nat,
                                          leafSize: nat, origin: Point, radius: real)
    requires 0 <= left <= right < |s|
    requires ndim >= 1 && |origin| == ndim
    requires !IsLeaf(left, right, leafSize)
    requires Balanced(s, left, right, depth, ndim, leafSize)
    ensures var m := MedianIndex(left, right);
            var axis := Axis(depth, ndim);
            var high := if Key(origin, axis) + radius >= Key(s[m], axis)
                        then RadiusConsidered(s, m + 1, right, depth + 1, ndim, leafSize, origin, radius) else [];
            multiset(Within(high, origin, radius)) == multiset(Within(s[m + 1..right + 1], origin, radius))
    decreases right - left + 1, 0
  {
    var m := MedianIndex(left, right);
    var axis := Axis(depth, ndim);
    if Key(origin, axis) + radius >= Key(s[m], axis) {
      RadiusQueryMatchesNaive(s, m + 1, right, depth + 1, ndim, leafSize, origin, radius);
    } else {
      HighHalfOutside(s, m, right, axis, origin, radius);
    }
  }

  /**
   * What the radius walk of `[left, right]` leaves in its collector, shown
   * one point at a time: the kept part of each bucket and split point it
   * visits, in visiting order.
   */
  ghost function RadiusKept(s: seq<Point>, left: int, right: int, depth: nat, ndim: nat, leafSize: nat,
                            origin: Point, radius: real): seq<Point>
    requires 0 <= left <= right + 1 <= |s|
    requires ndim >= 1
    decreases right - left + 1
  {
    if IsLeaf(left, right, leafSize) then BucketKept(s, left, right, origin, radius)
    else
      var m := MedianIndex(left, right);
      var axis := Axis(depth, ndim);
      var splitPos := Key(s[m], axis);
      var originPos := Key(origin, axis);
      Keep(origin, s[m], radius)
      + (if originPos - radius <= splitPos then RadiusKept(s, left, m - 1, depth + 1, ndim, leafSize, origin, radius) else [])
      + (if originPos + radius >= splitPos then RadiusKept(s, m + 1, right, depth + 1, ndim, leafSize, origin, radius) else [])
  }

  /** One level of `RadiusKept` on an internal range, with the two descent tests named. */
  lemma RadiusKeptNode(s: seq<Point>, left: int, right: int, depth: nat, ndim: nat, leafSize: nat,
                       origin: Point, radius: real, goLow: bool, goHigh: bool, low: seq<Point>, high: seq<Point>)
    requires 0 <= left <= right < |s| && ndim >= 1 && !IsLeaf(left, right, leafSize)
    requires goLow == (Key(origin, Axis(depth, ndim)) - radius <= Key(s[MedianIndex(left, right)], Axis(depth, ndim)))
    requires goHigh == (Key(origin, Axis(depth, ndim)) + radius >= Key(s[MedianIndex(left, right)], Axis(depth, ndim)))
    requires low == if goLow then RadiusKept(s, left, MedianIndex(left, right) - 1, depth + 1, ndim, leafSize, origin, radius) else []
    requires high == if goHigh then RadiusKept(s, MedianIndex(left, right) + 1, right, depth + 1, ndim, leafSize, origin, radius) else []
    ensures RadiusKept(s, left, right, depth, ndim, leafSize, origin, radius)
         == Keep(origin, s[MedianIndex(left, right)], radius) + low + high
  {
  }

  /** The walk keeps exactly what `Within` keeps of the points it shows. */
  lemma {:induction false} RadiusKeptIsWithin(s: seq<Point>, left: int, right: int, depth: nat, ndim: nat, leafSize: nat,
                                              origin: Point, radius: real)
    requires 0 <= left <= right + 1 <= |s|
    requires ndim >= 1
    ensures RadiusKept(s, left, right, depth, ndim, leafSize, origin, radius)
         == Within(RadiusConsidered(s, left, right, depth, ndim, leafSize, origin, radius), origin, radius)
    decreases right - left + 1, 1
  {
    if IsLeaf(left, right, leafSize) {
      BucketKeptIsWithin(s, left, right, origin, radius);
    } else {
      var m := MedianIndex(left, right);
      var axis := Axis(depth, ndim);
      var goLow := Key(origin, axis) - radius <= Key(s[m], axis);
      var goHigh := Key(origin, axis) + radius >= Key(s[m], axis);
      var low := if goLow then RadiusConsidered(s, left, m - 1, depth + 1, ndim, leafSize, origin, radius) else [];
      var high := if goHigh then RadiusConsidered(s, m + 1, right, depth + 1, ndim, leafSize, origin, radius) else [];
      var keptLow := if goLow then RadiusKept(s, left, m - 1, depth + 1, ndim, leafSize, origin, radius) else [];
      var keptHigh := if goHigh then RadiusKept(s, m + 1, right, depth + 1, ndim, leafSize, origin, radius) else [];
      assert RadiusConsidered(s, left, right, depth, ndim, leafSize, origin, radius) == [s[m]] + low + high;
      assert RadiusKept(s, left, right, depth, ndim, leafSize, origin, radius) == Keep(origin, s[m], radius) + keptLow + keptHigh;
      RadiusKeptSides(s, left, right, m, depth, ndim, leafSize, origin, radius, goLow, goHigh);
      WithinNode(s[m], low, high, keptLow, keptHigh, origin, radius);
    }
  }

  /** Both halves of an internal range: `RadiusKeptIsWithin` where searched, empty where pruned. */
  lemma {:induction false} RadiusKeptSides(s: seq<Point>, left: int, right: int, m: int, depth: nat, ndim: nat, leafSize: nat,
                                           origin: Point, radius: real, goLow: bool, goHigh: bool)
    requires 0 <= left <= m <= right < |s|
    requires ndim >= 1
    ensures goLow ==> RadiusKept(s, left, m - 1, depth + 1, ndim, leafSize, origin, radius)
                      == Within(RadiusConsidered(s, left, m - 1, depth + 1, ndim, leafSize, origin, radius), origin, radius)
    ensures goHigh ==> RadiusKept(s, m + 1, right, depth + 1, ndim, leafSize, origin, radius)
                       == Within(RadiusConsidered(s, m + 1, right, depth + 1, ndim, leafSize, origin, radius), origin, radius)
    decreases right - left + 1, 0
  {
    if goLow {
      RadiusKeptIsWithin(s, left, m - 1, depth + 1, ndim, leafSize, origin, radius);
    }
    if goHigh {
      RadiusKeptIsWithin(s, m + 1, right, depth + 1, ndim, leafSize, origin, radius);
    }
  }

  /** What `Within` keeps of a split point followed by two halves. */
  lemma WithinNode(p: Point, low: seq<Point>, high: seq<Point>, keptLow: seq<Point>, keptHigh: seq<Point>,
                   origin: Point, radius: real)
    requires keptLow == Within(low, origin, radius) && keptHigh == Within(high, origin, radius)
    ensures Within([p] + low + high, origin, radius) == Keep(origin, p, radius) + keptLow + keptHigh
  {
    WithinThree([p], low, high, origin, radius);
    WithinOne(p, origin, radius);
  }

  /** `Within` of a single point. */
  lemma WithinOne(p: Point, origin: Point, radius: real)
    ensures Within([p], origin, radius) == Keep(origin, p, radius)
  {
    assert [p][..0] == [];
    assert Within([p], origin, radius) == [] + Keep(origin, p, radius);
  }

  /** `Within` of three consecutive pieces. */
  lemma WithinThree(a: seq<Point>, b: seq<Point>, c: seq<Point>, origin: Point, radius: real)
    ensures Within(a + b + c, origin, radius) == Within(a, origin, radius) + Within(b, origin, radius) + Within(c, origin, radius)
  {
    WithinConcat(a, b, origin, radius);
    WithinConcat(a + b, c, origin, radius);
  }

  /** Three pieces appended one after another. */
  lemma Assemble<T>(c0: seq<T>, c1: seq<T>, c2: seq<T>, c3: seq<T>, a: seq<T>, b: seq<T>, c: seq<T>)
    requires c1 == c0 + a && c2 == c1 + b && c3 == c2 + c
    ensures c3 == c0 + (a + b + c)
    ensures c3 == c0 + (a + (b + c))
  {
  }
}
