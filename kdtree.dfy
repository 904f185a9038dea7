/**
 * The templated k-d tree of source/kdtree.hpp, with the additions of its
 * variant source/kdtree.h (`insertBoundingBoxes`, which records internal
 * ranges only, and `getBoundingBoxes(outerBox)`).
 *
 * The tree does not own a structure of nodes: it reorders the caller's point
 * buffer so that every internal range `[left, right]` has its median element
 * `points[(left + right) / 2]` splitting the range on axis `depth % ndim`,
 * and a range is a leaf (a bucket) when it holds at most `bucketSize` points.
 * Queries walk the same ranges without storing anything.
 */
module KdTree {
  import opened Geometry
  import opened Selection
  import opened FlatTree
  import opened Collectors
  import opened BoundingBoxes

  /** `BoundingBoxWithDepth`. */
  datatype BoxWithDepth = BoxWithDepth(box: Box, depth: nat)

  /** A range the box walk passes through, with the box it records for it. */
  datatype Visit = Visit(box: Box, depth: nat, left: int, right: int)

  /** The recorded part of each visit. */
  function Recorded(vs: seq<Visit>): (bs: seq<BoxWithDepth>)
    ensures |bs| == |vs|
  {
    if |vs| == 0 then [] else Recorded(vs[..|vs| - 1]) + [BoxWithDepth(vs[|vs| - 1].box, vs[|vs| - 1].depth)]
  }

  lemma {:induction false} RecordedConcat(a: seq<Visit>, b: seq<Visit>)
    ensures Recorded(a + b) == Recorded(a) + Recorded(b)
    decreases |b|
  {
    if |b| == 0 {
      assert a + b == a;
    } else {
      var n := |b| - 1;
      RecordedConcat(a, b[..n]);
      assert (a + b)[..|a + b| - 1] == a + b[..n];
      assert (a + b)[|a + b| - 1] == b[n];
    }
  }

  /** A single visit records its box and depth. */
  lemma RecordedOne(v: Visit)
    ensures Recorded([v]) == [BoxWithDepth(v.box, v.depth)]
  {
    assert [v][..0] == [];
  }

  /** Recording a visit followed by two runs of visits. */
  lemma RecordedNode(here: Visit, low: seq<Visit>, high: seq<Visit>, bLow: seq<BoxWithDepth>, bHigh: seq<BoxWithDepth>)
    requires bLow == Recorded(low) && bHigh == Recorded(high)
    ensures [BoxWithDepth(here.box, here.depth)] + (bLow + bHigh) == Recorded([here] + (low + high))
  {
    RecordedConcat(low, high);
    RecordedConcat([here], low + high);
    assert [here][..0] == [];
  }

  /** The box and depth recorded for each visit. */
  lemma {:induction false} RecordedAt(vs: seq<Visit>, i: nat)
    requires i < |vs|
    ensures Recorded(vs)[i] == BoxWithDepth(vs[i].box, vs[i].depth)
    decreases |vs|
  {
    if i < |vs| - 1 {
      RecordedAt(vs[..|vs| - 1], i);
    }
  }

  /** Recording a range's own visit and then its two halves records all three in order. */
  lemma RecordNode(boxes: seq<BoxWithDepth>, o1: seq<BoxWithDepth>, o2: seq<BoxWithDepth>, o3: seq<BoxWithDepth>,
                   here: seq<Visit>, low: seq<Visit>, high: seq<Visit>)
    requires o1 == boxes + Recorded(here) && o2 == o1 + Recorded(low) && o3 == o2 + Recorded(high)
    ensures o3 == boxes + Recorded(here + (low + high))
    ensures o3 == boxes + Recorded(here + low + high)
  {
    RecordedConcat(low, high);
    RecordedConcat(here, low + high);
  }

  /** What `insertBoundingBoxes_All` has appended once both halves of an internal range are done. */
  lemma AllBoxesNode(s: seq<Point>, left: int, right: int, depth: nat, ndim: nat, leafSize: nat, box: Box,
                     m: int, axis: nat, splitPos: real,
                     boxes: seq<BoxWithDepth>, o1: seq<BoxWithDepth>, o2: seq<BoxWithDepth>, out: seq<BoxWithDepth>)
    requires 0 <= left <= right < |s| && ndim >= 1 && Sized(box, ndim) && !IsLeaf(left, right, leafSize)
    requires m == MedianIndex(left, right) && axis == Axis(depth, ndim) && splitPos == Key(s[m], axis)
    requires o1 == boxes + [BoxWithDepth(box, depth)]
    requires o2 == o1 + Recorded(AllVisits(s, left, m - 1, depth + 1, ndim, leafSize, BelowSplit(box, axis, splitPos)))
    requires out == o2 + Recorded(AllVisits(s, m + 1, right, depth + 1, ndim, leafSize, AboveSplit(box, axis, splitPos)))
    ensures out == boxes + Recorded(AllVisits(s, left, right, depth, ndim, leafSize, box))
  {
    var low := AllVisits(s, left, m - 1, depth + 1, ndim, leafSize, BelowSplit(box, axis, splitPos));
    var high := AllVisits(s, m + 1, right, depth + 1, ndim, leafSize, AboveSplit(box, axis, splitPos));
    AllVisitsNode(s, left, right, depth, ndim, leafSize, box, low, high);
    RecordedOne(Visit(box, depth, left, right));
    RecordNode(boxes, o1, o2, out, [Visit(box, depth, left, right)], low, high);
  }

  /** What `insertBoundingBoxes_All` appends for a leaf: its own box. */
  lemma AllBoxesLeaf(s: seq<Point>, left: int, right: int, depth: nat, ndim: nat, leafSize: nat, box: Box,
                     boxes: seq<BoxWithDepth>, out: seq<BoxWithDepth>)
    requires 0 <= left <= right + 1 <= |s| && ndim >= 1 && Sized(box, ndim) && IsLeaf(left, right, leafSize)
    requires out == boxes + [BoxWithDepth(box, depth)]
    ensures out == boxes + Recorded(AllVisits(s, left, right, depth, ndim, leafSize, box))
  {
    assert AllVisits(s, left, right, depth, ndim, leafSize, box) == [Visit(box, depth, left, right)];
    RecordedOne(Visit(box, depth, left, right));
  }

  /** What `insertBoundingBoxes` has appended once both halves of an internal range are done. */
  lemma InternalBoxesNode(s: seq<Point>, left: int, right: int, depth: nat, ndim: nat, leafSize: nat, box: Box,
                          m: int, axis: nat, splitPos: real,
                          boxes: seq<BoxWithDepth>, o1: seq<BoxWithDepth>, o2: seq<BoxWithDepth>, out: seq<BoxWithDepth>)
    requires 0 <= left <= right < |s| && ndim >= 1 && Sized(box, ndim) && !IsLeaf(left, right, leafSize)
    requires m == MedianIndex(left, right) && axis == Axis(depth, ndim) && splitPos == Key(s[m], axis)
    requires o1 == boxes + [BoxWithDepth(box, depth)]
    requires o2 == o1 + Recorded(InternalVisits(s, left, m - 1, depth + 1, ndim, leafSize, BelowSplit(box, axis, splitPos)))
    requires out == o2 + Recorded(InternalVisits(s, m + 1, right, depth + 1, ndim, leafSize, AboveSplit(box, axis, splitPos)))
    ensures out == boxes + Recorded(InternalVisits(s, left, right, depth, ndim, leafSize, box))
  {
    var low := InternalVisits(s, left, m - 1, depth + 1, ndim, leafSize, BelowSplit(box, axis, splitPos));
    var high := InternalVisits(s, m + 1, right, depth + 1, ndim, leafSize, AboveSplit(box, axis, splitPos));
    InternalVisitsNode(s, left, right, depth, ndim, leafSize, box, low, high);
    RecordedOne(Visit(box, depth, left, right));
    RecordNode(boxes, o1, o2, out, [Visit(box, depth, left, right)], low, high);
  }

  /** `insertBoundingBoxes` appends nothing for a leaf. */
  lemma InternalBoxesLeaf(s: seq<Point>, left: int, right: int, depth: nat, ndim: nat, leafSize: nat, box: Box,
                          boxes: seq<BoxWithDepth>)
    requires 0 <= left <= right + 1 <= |s| && ndim >= 1 && Sized(box, ndim) && IsLeaf(left, right, leafSize)
    ensures boxes == boxes + Recorded(InternalVisits(s, left, right, depth, ndim, leafSize, box))
  {
    assert InternalVisits(s, left, right, depth, ndim, leafSize, box) == [];
    assert boxes + [] == boxes;
  }

  /** `leftBox.max[axis] = splitPos`. */
  function BelowSplit(box: Box, axis: nat, splitPos: real): (r: Box)
    requires axis < |box.max|
    ensures r.min == box.min && |r.max| == |box.max| && r.max[axis] == Fin(splitPos)
    ensures forall j :: 0 <= j < |box.max| && j != axis ==> r.max[j] == box.max[j]
  {
    Box(box.min, box.max[axis := Fin(splitPos)])
  }

  /** `rightBox.min[axis] = splitPos`. */
  function AboveSplit(box: Box, axis: nat, splitPos: real): (r: Box)
    requires axis < |box.min|
    ensures r.max == box.max && |r.min| == |box.min| && r.min[axis] == Fin(splitPos)
    ensures forall j :: 0 <= j < |box.min| && j != axis ==> r.min[j] == box.min[j]
  {
    Box(box.min[axis := Fin(splitPos)], box.max)
  }

  /**
   * The ranges `insertBoundingBoxes_All` passes through, in order: every
   * range records its box before the leaf test, leaves included.
   */
  ghost function AllVisits(s: seq<Point>, left: int, right: int, depth: nat, ndim: nat, leafSize: nat, box: Box): seq<Visit>
    requires 0 <= left <= right + 1 <= |s|
    requires ndim >= 1 && Sized(box, ndim)
    decreases right - left + 1
  {
    [Visit(box, depth, left, right)] +
    if IsLeaf(left, right, leafSize) then []
    else
      var m := MedianIndex(left, right);
      var axis := Axis(depth, ndim);
      var splitPos := Key(s[m], axis);
      AllVisits(s, left, m - 1, depth + 1, ndim, leafSize, BelowSplit(box, axis, splitPos)) +
      AllVisits(s, m + 1, right, depth + 1, ndim, leafSize, AboveSplit(box, axis, splitPos))
  }

  /** The ranges `insertBoundingBoxes` (source/kdtree.h) records: its leaf test comes before the push. */
  ghost function InternalVisits(s: seq<Point>, left: int, right: int, depth: nat, ndim: nat, leafSize: nat, box: Box): seq<Visit>
    requires 0 <= left <= right + 1 <= |s|
    requires ndim >= 1 && Sized(box, ndim)
    decreases right - left + 1
  {
    if IsLeaf(left, right, leafSize) then []
    else
      var m := MedianIndex(left, right);
      var axis := Axis(depth, ndim);
      var splitPos := Key(s[m], axis);
      [Visit(box, depth, left, right)] +
      InternalVisits(s, left, m - 1, depth + 1, ndim, leafSize, BelowSplit(box, axis, splitPos)) +
      InternalVisits(s, m + 1, right, depth + 1, ndim, leafSize, AboveSplit(box, axis, splitPos))
  }

  /**
   * The ranges `insertBoundingBoxes_Radius` passes through: it records every
   * range before the leaf test and descends under the same two tests as
   * `collectInRadius`.
   */
  ghost function RadiusVisits(s: seq<Point>, left: int, right: int, depth: nat, ndim: nat, leafSize: nat,
                              origin: Point, radius: real, box: Box): seq<Visit>
    requires 0 <= left <= right + 1 <= |s|
    requires ndim >= 1 && Sized(box, ndim)
    decreases right - left + 1
  {
    [Visit(box, depth, left, right)] +
    if IsLeaf(left, right, leafSize) then []
    else
      var m := MedianIndex(left, right);
      var axis := Axis(depth, ndim);
      var splitPos := Key(s[m], axis);
      var originPos := Key(origin, axis);
      (if originPos - radius <= splitPos
       then RadiusVisits(s, left, m - 1, depth + 1, ndim, leafSize, origin, radius, BelowSplit(box, axis, splitPos))
       else []) +
      (if originPos + radius >= splitPos
       then RadiusVisits(s, m + 1, right, depth + 1, ndim, leafSize, origin, radius, AboveSplit(box, axis, splitPos))
       else [])
  }

  /** The boxes `insertBoundingBoxes_Radius` appends, walk by walk. */
  ghost function RadiusBoxes(s: seq<Point>, left: int, right: int, depth: nat, ndim: nat, leafSize: nat,
                             origin: Point, radius: real, box: Box): seq<BoxWithDepth>
    requires 0 <= left <= right + 1 <= |s|
    requires ndim >= 1 && Sized(box, ndim)
    decreases right - left + 1
  {
    [BoxWithDepth(box, depth)] +
    if IsLeaf(left, right, leafSize) then []
    else
      var m := MedianIndex(left, right);
      var axis := Axis(depth, ndim);
      var splitPos := Key(s[m], axis);
      var originPos := Key(origin, axis);
      (if originPos - radius <= splitPos
       then RadiusBoxes(s, left, m - 1, depth + 1, ndim, leafSize, origin, radius, BelowSplit(box, axis, splitPos))
       else []) +
      (if originPos + radius >= splitPos
       then RadiusBoxes(s, m + 1, right, depth + 1, ndim, leafSize, origin, radius, AboveSplit(box, axis, splitPos))
       else [])
  }

  /** One level of `RadiusBoxes` on an internal range, with the two descent tests named. */
  lemma RadiusBoxesNode(s: seq<Point>, left: int, right: int, depth: nat, ndim: nat, leafSize: nat,
                        origin: Point, radius: real, box: Box, goLow: bool, goHigh: bool,
                        low: seq<BoxWithDepth>, high: seq<BoxWithDepth>)
    requires 0 <= left <= right < |s| && ndim >= 1 && Sized(box, ndim) && !IsLeaf(left, right, leafSize)
    requires goLow == (Key(origin, Axis(depth, ndim)) - radius <= Key(s[MedianIndex(left, right)], Axis(depth, ndim)))
    requires goHigh == (Key(origin, Axis(depth, ndim)) + radius >= Key(s[MedianIndex(left, right)], Axis(depth, ndim)))
    requires low == if goLow then RadiusBoxes(s, left, MedianIndex(left, right) - 1, depth + 1, ndim, leafSize, origin, radius,
                                              BelowSplit(box, Axis(depth, ndim), Key(s[MedianIndex(left, right)], Axis(depth, ndim))))
                    else []
    requires high == if goHigh then RadiusBoxes(s, MedianIndex(left, right) + 1, right, depth + 1, ndim, leafSize, origin, radius,
                                                AboveSplit(box, Axis(depth, ndim), Key(s[MedianIndex(left, right)], Axis(depth, ndim))))
                     else []
    ensures RadiusBoxes(s, left, right, depth, ndim, leafSize, origin, radius, box) == [BoxWithDepth(box, depth)] + (low + high)
  {
  }

  /** One level of `RadiusVisits` on an internal range, with the two descent tests named. */
  lemma RadiusVisitsNode(s: seq<Point>, left: int, right: int, depth: nat, ndim: nat, leafSize: nat,
                         origin: Point, radius: real, box: Box, goLow: bool, goHigh: bool,
                         low: seq<Visit>, high: seq<Visit>)
    requires 0 <= left <= right < |s| && ndim >= 1 && Sized(box, ndim) && !IsLeaf(left, right, leafSize)
    requires goLow == (Key(origin, Axis(depth, ndim)) - radius <= Key(s[MedianIndex(left, right)], Axis(depth, ndim)))
    requires goHigh == (Key(origin, Axis(depth, ndim)) + radius >= Key(s[MedianIndex(left, right)], Axis(depth, ndim)))
    requires low == if goLow then RadiusVisits(s, left, MedianIndex(left, right) - 1, depth + 1, ndim, leafSize, origin, radius,
                                               BelowSplit(box, Axis(depth, ndim), Key(s[MedianIndex(left, right)], Axis(depth, ndim))))
                    else []
    requires high == if goHigh then RadiusVisits(s, MedianIndex(left, right) + 1, right, depth + 1, ndim, leafSize, origin, radius,
                                                 AboveSplit(box, Axis(depth, ndim), Key(s[MedianIndex(left, right)], Axis(depth, ndim))))
                     else []
    ensures RadiusVisits(s, left, right, depth, ndim, leafSize, origin, radius, box) == [Visit(box, depth, left, right)] + (low + high)
  {
  }

  /** The boxes appended are the boxes of the ranges the radius walk visits. */
  lemma {:induction false} RadiusBoxesRecorded(s: seq<Point>, left: int, right: int, depth: nat, ndim: nat, leafSize: nat,
                                               origin: Point, radius: real, box: Box)
    requires 0 <= left <= right + 1 <= |s|
    requires ndim >= 1 && Sized(box, ndim)
    ensures RadiusBoxes(s, left, right, depth, ndim, leafSize, origin, radius, box)
         == Recorded(RadiusVisits(s, left, right, depth, ndim, leafSize, origin, radius, box))
    decreases right - left + 1, 1
  {
    var here := [Visit(box, depth, left, right)];
    if IsLeaf(left, right, leafSize) {
      assert RadiusVisits(s, left, right, depth, ndim, leafSize, origin, radius, box) == here;
    } else {
      var m := MedianIndex(left, right);
      var axis := Axis(depth, ndim);
      var splitPos := Key(s[m], axis);
      var originPos := Key(origin, axis);
      var lowBox, highBox := BelowSplit(box, axis, splitPos), AboveSplit(box, axis, splitPos);
      var low := if originPos - radius <= splitPos
                 then RadiusVisits(s, left, m - 1, depth + 1, ndim, leafSize, origin, radius, lowBox) else [];
      var high := if originPos + radius >= splitPos
                  then RadiusVisits(s, m + 1, right, depth + 1, ndim, leafSize, origin, radius, highBox) else [];
      var bLow := if originPos - radius <= splitPos
                  then RadiusBoxes(s, left, m - 1, depth + 1, ndim, leafSize, origin, radius, lowBox) else [];
      var bHigh := if originPos + radius >= splitPos
                   then RadiusBoxes(s, m + 1, right, depth + 1, ndim, leafSize, origin, radius, highBox) else [];
      var goLow, goHigh := originPos - radius <= splitPos, originPos + radius >= splitPos;
      RadiusVisitsNode(s, left, right, depth, ndim, leafSize, origin, radius, box, goLow, goHigh, low, high);
      RadiusBoxesNode(s, left, right, depth, ndim, leafSize, origin, radius, box, goLow, goHigh, bLow, bHigh);
      RadiusBoxesLow(s, left, m, depth, ndim, leafSize, origin, radius, lowBox, goLow);
      RadiusBoxesHigh(s, m, right, depth, ndim, leafSize, origin, radius, highBox, goHigh);
      RecordedNode(here[0], low, high, bLow, bHigh);
    }
  }

  /** The left half of an internal range: `RadiusBoxesRecorded` where searched. */
  lemma {:induction false} RadiusBoxesLow(s: seq<Point>, left: int, m: int, depth: nat, ndim: nat, leafSize: nat,
                                          origin: Point, radius: real, lowBox: Box, goLow: bool)
    requires 0 <= left <= m < |s|
    requires ndim >= 1 && Sized(lowBox, ndim)
    ensures (if goLow then RadiusBoxes(s, left, m - 1, depth + 1, ndim, leafSize, origin, radius, lowBox) else [])
            == Recorded(if goLow then RadiusVisits(s, left, m - 1, depth + 1, ndim, leafSize, origin, radius, lowBox) else [])
    decreases m - left + 1, 0
  {
    if goLow {
      RadiusBoxesRecorded(s, left, m - 1, depth + 1, ndim, leafSize, origin, radius, lowBox);
    }
  }

  /** The right half of an internal range: `RadiusBoxesRecorded` where searched. */
  lemma {:induction false} RadiusBoxesHigh(s: seq<Point>, m: int, right: int, depth: nat, ndim: nat, leafSize: nat,
                                           origin: Point, radius: real, highBox: Box, goHigh: bool)
    requires 0 <= m <= right < |s|
    requires ndim >= 1 && Sized(highBox, ndim)
    ensures (if goHigh then RadiusBoxes(s, m + 1, right, depth + 1, ndim, leafSize, origin, radius, highBox) else [])
            == Recorded(if goHigh then RadiusVisits(s, m + 1, right, depth + 1, ndim, leafSize, origin, radius, highBox) else [])
    decreases right - m + 1, 0
  {
    if goHigh {
      RadiusBoxesRecorded(s, m + 1, right, depth + 1, ndim, leafSize, origin, radius, highBox);
    }
  }

  /** The visits of internal ranges, in order. */
  ghost function Internal(vs: seq<Visit>, leafSize: nat): seq<Visit> {
    if |vs| == 0 then []
    else (if IsLeaf(vs[0].left, vs[0].right, leafSize) then [] else [vs[0]]) + Internal(vs[1..], leafSize)
  }

  lemma {:induction false} InternalConcat(a: seq<Visit>, b: seq<Visit>, leafSize: nat)
    ensures Internal(a + b, leafSize) == Internal(a, leafSize) + Internal(b, leafSize)
    decreases |a|
  {
    if |a| > 0 {
      assert (a + b)[1..] == a[1..] + b;
      InternalConcat(a[1..], b, leafSize);
    } else {
      assert a + b == b;
    }
  }

  /** The internal visits of an internal range's own visit followed by its two halves. */
  lemma InternalNode(here: Visit, low: seq<Visit>, high: seq<Visit>, leafSize: nat)
    requires !IsLeaf(here.left, here.right, leafSize)
    ensures Internal([here] + (low + high), leafSize) == [here] + Internal(low, leafSize) + Internal(high, leafSize)
  {
    assert [here][1..] == [];
    InternalConcat([here], low + high, leafSize);
    InternalConcat(low, high, leafSize);
  }

  /**
   * The two box walks differ only in where they test for a leaf:
   * `insertBoundingBoxes` records exactly the internal ranges that
   * `insertBoundingBoxes_All` records, in the same order and with the same boxes.
   */
  lemma {:induction false} InternalVisitsAreInternalOfAll(s: seq<Point>, left: int, right: int, depth: nat,
                                                          ndim: nat, leafSize: nat, box: Box)
    requires 0 <= left <= right + 1 <= |s|
    requires ndim >= 1 && Sized(box, ndim)
    ensures InternalVisits(s, left, right, depth, ndim, leafSize, box)
         == Internal(AllVisits(s, left, right, depth, ndim, leafSize, box), leafSize)
    decreases right - left + 1
  {
    var here := Visit(box, depth, left, right);
    var all := AllVisits(s, left, right, depth, ndim, leafSize, box);
    assert [here][1..] == [];
    if IsLeaf(left, right, leafSize) {
      assert all == [here];
    } else {
      var m := MedianIndex(left, right);
      var axis := Axis(depth, ndim);
      var splitPos := Key(s[m], axis);
      var low := AllVisits(s, left, m - 1, depth + 1, ndim, leafSize, BelowSplit(box, axis, splitPos));
      var high := AllVisits(s, m + 1, right, depth + 1, ndim, leafSize, AboveSplit(box, axis, splitPos));
      InternalVisitsAreInternalOfAll(s, left, m - 1, depth + 1, ndim, leafSize, BelowSplit(box, axis, splitPos));
      InternalVisitsAreInternalOfAll(s, m + 1, right, depth + 1, ndim, leafSize, AboveSplit(box, axis, splitPos));
      assert all == [here] + (low + high);
      assert InternalVisits(s, left, right, depth, ndim, leafSize, box)
          == [here] + InternalVisits(s, left, m - 1, depth + 1, ndim, leafSize, BelowSplit(box, axis, splitPos))
             + InternalVisits(s, m + 1, right, depth + 1, ndim, leafSize, AboveSplit(box, axis, splitPos));
      InternalNode(here, low, high, leafSize);
    }
  }

  /** One level of `AllVisits` on an internal range. */
  lemma AllVisitsNode(s: seq<Point>, left: int, right: int, depth: nat, ndim: nat, leafSize: nat, box: Box,
                      low: seq<Visit>, high: seq<Visit>)
    requires 0 <= left <= right < |s| && ndim >= 1 && Sized(box, ndim) && !IsLeaf(left, right, leafSize)
    requires low == AllVisits(s, left, MedianIndex(left, right) - 1, depth + 1, ndim, leafSize,
                              BelowSplit(box, Axis(depth, ndim), Key(s[MedianIndex(left, right)], Axis(depth, ndim))))
    requires high == AllVisits(s, MedianIndex(left, right) + 1, right, depth + 1, ndim, leafSize,
                               AboveSplit(box, Axis(depth, ndim), Key(s[MedianIndex(left, right)], Axis(depth, ndim))))
    ensures AllVisits(s, left, right, depth, ndim, leafSize, box) == [Visit(box, depth, left, right)] + (low + high)
  {
  }

  /** One level of `InternalVisits` on an internal range. */
  lemma InternalVisitsNode(s: seq<Point>, left: int, right: int, depth: nat, ndim: nat, leafSize: nat, box: Box,
                           low: seq<Visit>, high: seq<Visit>)
    requires 0 <= left <= right < |s| && ndim >= 1 && Sized(box, ndim) && !IsLeaf(left, right, leafSize)
    requires low == InternalVisits(s, left, MedianIndex(left, right) - 1, depth + 1, ndim, leafSize,
                                   BelowSplit(box, Axis(depth, ndim), Key(s[MedianIndex(left, right)], Axis(depth, ndim))))
    requires high == InternalVisits(s, MedianIndex(left, right) + 1, right, depth + 1, ndim, leafSize,
                                    AboveSplit(box, Axis(depth, ndim), Key(s[MedianIndex(left, right)], Axis(depth, ndim))))
    ensures InternalVisits(s, left, right, depth, ndim, leafSize, box) == [Visit(box, depth, left, right)] + low + high
  {
  }

  /** Every range the radius walk passes through is one the full walk passes through, with the same box. */
  lemma {:induction false} RadiusVisitsAreVisits(s: seq<Point>, left: int, right: int, depth: nat, ndim: nat,
                                                 leafSize: nat, origin: Point, radius: real, box: Box, v: Visit)
    requires 0 <= left <= right + 1 <= |s|
    requires ndim >= 1 && Sized(box, ndim)
    requires v in RadiusVisits(s, left, right, depth, ndim, leafSize, origin, radius, box)
    ensures v in AllVisits(s, left, right, depth, ndim, leafSize, box)
    decreases right - left + 1, 1
  {
    var here := Visit(box, depth, left, right);
    if IsLeaf(left, right, leafSize) {
      assert RadiusVisits(s, left, right, depth, ndim, leafSize, origin, radius, box) == [here];
    } else {
      var m := MedianIndex(left, right);
      var axis := Axis(depth, ndim);
      var splitPos := Key(s[m], axis);
      var originPos := Key(origin, axis);
      var lowBox, highBox := BelowSplit(box, axis, splitPos), AboveSplit(box, axis, splitPos);
      var goLow, goHigh := originPos - radius <= splitPos, originPos + radius >= splitPos;
      var low := if goLow then RadiusVisits(s, left, m - 1, depth + 1, ndim, leafSize, origin, radius, lowBox) else [];
      var high := if goHigh then RadiusVisits(s, m + 1, right, depth + 1, ndim, leafSize, origin, radius, highBox) else [];
      var allLow := AllVisits(s, left, m - 1, depth + 1, ndim, leafSize, lowBox);
      var allHigh := AllVisits(s, m + 1, right, depth + 1, ndim, leafSize, highBox);
      RadiusVisitsNode(s, left, right, depth, ndim, leafSize, origin, radius, box, goLow, goHigh, low, high);
      AllVisitsNode(s, left, right, depth, ndim, leafSize, box, allLow, allHigh);
      if v in low {
        RadiusVisitsLowAreVisits(s, left, m, depth, ndim, leafSize, origin, radius, lowBox, goLow, v);
      } else if v in high {
        RadiusVisitsHighAreVisits(s, m, right, depth, ndim, leafSize, origin, radius, highBox, goHigh, v);
      }
    }
  }

  /** A visit of the searched left half is a visit of that half's full walk. */
  lemma {:induction false} RadiusVisitsLowAreVisits(s: seq<Point>, left: int, m: int, depth: nat, ndim: nat,
                                                    leafSize: nat, origin: Point, radius: real, lowBox: Box,
                                                    goLow: bool, v: Visit)
    requires 0 <= left <= m < |s|
    requires ndim >= 1 && Sized(lowBox, ndim)
    requires v in if goLow then RadiusVisits(s, left, m - 1, depth + 1, ndim, leafSize, origin, radius, lowBox) else []
    ensures v in AllVisits(s, left, m - 1, depth + 1, ndim, leafSize, lowBox)
    decreases m - left + 1, 0
  {
    RadiusVisitsAreVisits(s, left, m - 1, depth + 1, ndim, leafSize, origin, radius, lowBox, v);
  }

  /** A visit of the searched right half is a visit of that half's full walk. */
  lemma {:induction false} RadiusVisitsHighAreVisits(s: seq<Point>, m: int, right: int, depth: nat, ndim: nat,
                                                     leafSize: nat, origin: Point, radius: real, highBox: Box,
                                                     goHigh: bool, v: Visit)
    requires 0 <= m <= right < |s|
    requires ndim >= 1 && Sized(highBox, ndim)
    requires v in if goHigh then RadiusVisits(s, m + 1, right, depth + 1, ndim, leafSize, origin, radius, highBox) else []
    ensures v in AllVisits(s, m + 1, right, depth + 1, ndim, leafSize, highBox)
    decreases right - m + 1, 0
  {
    RadiusVisitsAreVisits(s, m + 1, right, depth + 1, ndim, leafSize, origin, radius, highBox, v);
  }

  /** Every point of `s[left..right]` lies in the box. */
  ghost predicate Encloses(s: seq<Point>, left: int, right: int, box: Box, ndim: nat)
    requires Sized(box, ndim)
  {
    forall i :: 0 <= left <= i <= right < |s| ==> |s[i]| == ndim && Contains(box, s[i])
  }

  /** A box bounding a range around its median bounds the half on each side of the split. */
  lemma ChildBoxesEnclose(s: seq<Point>, left: int, right: int, m: int, axis: nat, box: Box, ndim: nat)
    requires 0 <= left <= m <= right < |s|
    requires axis < ndim && Sized(box, ndim)
    requires Encloses(s, left, right, box, ndim)
    requires Selected(s, left, right, m, axis)
    ensures Encloses(s, left, m - 1, BelowSplit(box, axis, Key(s[m], axis)), ndim)
    ensures Encloses(s, m + 1, right, AboveSplit(box, axis, Key(s[m], axis)), ndim)
  {
    var splitPos := Key(s[m], axis);
    var lowBox, highBox := BelowSplit(box, axis, splitPos), AboveSplit(box, axis, splitPos);
    forall i | left <= i <= m - 1 ensures |s[i]| == ndim && Contains(lowBox, s[i]) {
      assert Contains(box, s[i]);
      assert Key(s[i], axis) <= splitPos;
    }
    forall i | m + 1 <= i <= right ensures |s[i]| == ndim && Contains(highBox, s[i]) {
      assert Contains(box, s[i]);
      assert Key(s[i], axis) >= splitPos;
    }
  }

  /**
   * On a balanced buffer, the box recorded for a range bounds every point of
   * that range when the outer box bounds the whole range.
   */
  lemma {:induction false} VisitBoxesEnclose(s: seq<Point>, left: int, right: int, depth: nat, ndim: nat,
                                             leafSize: nat, box: Box, v: Visit)
    requires 0 <= left <= right + 1 <= |s|
    requires ndim >= 1 && Sized(box, ndim)
    requires Balanced(s, left, right, depth, ndim, leafSize)
    requires Encloses(s, left, right, box, ndim)
    requires v in AllVisits(s, left, right, depth, ndim, leafSize, box)
    ensures Sized(v.box, ndim) && Encloses(s, v.left, v.right, v.box, ndim)
    decreases right - left + 1, 2
  {
    if IsLeaf(left, right, leafSize) {
      AllVisitsLeaf(s, left, right, depth, ndim, leafSize, box);
    } else if v != Visit(box, depth, left, right) {
      VisitBoxesEncloseNode(s, left, right, depth, ndim, leafSize, box, v);
    }
  }

  /** A leaf's only visit is its own. */
  lemma AllVisitsLeaf(s: seq<Point>, left: int, right: int, depth: nat, ndim: nat, leafSize: nat, box: Box)
    requires 0 <= left <= right + 1 <= |s| && ndim >= 1 && Sized(box, ndim) && IsLeaf(left, right, leafSize)
    ensures AllVisits(s, left, right, depth, ndim, leafSize, box) == [Visit(box, depth, left, right)]
  {
  }

  /** `VisitBoxesEnclose` for a visit below an internal range. */
  lemma {:induction false} VisitBoxesEncloseNode(s: seq<Point>, left: int, right: int, depth: nat, ndim: nat,
                                                 leafSize: nat, box: Box, v: Visit)
    requires 0 <= left <= right < |s|
    requires ndim >= 1 && Sized(box, ndim) && !IsLeaf(left, right, leafSize)
    requires Balanced(s, left, right, depth, ndim, leafSize)
    requires Encloses(s, left, right, box, ndim)
    requires v in AllVisits(s, left, right, depth, ndim, leafSize, box) && v != Visit(box, depth, left, right)
    ensures Sized(v.box, ndim) && Encloses(s, v.left, v.right, v.box, ndim)
    decreases right - left + 1, 1
  {
    var m := MedianIndex(left, right);
    var axis := Axis(depth, ndim);
    var splitPos := Key(s[m], axis);
    var lowBox, highBox := BelowSplit(box, axis, splitPos), AboveSplit(box, axis, splitPos);
    var allLow := AllVisits(s, left, m - 1, depth + 1, ndim, leafSize, lowBox);
    var allHigh := AllVisits(s, m + 1, right, depth + 1, ndim, leafSize, highBox);
    AllVisitsNode(s, left, right, depth, ndim, leafSize, box, allLow, allHigh);
    ChildBoxesEnclose(s, left, right, m, axis, box, ndim);
    if v in allLow {
      VisitBoxesEncloseLow(s, left, m, depth, ndim, leafSize, lowBox, v);
    } else {
      VisitBoxesEncloseHigh(s, m, right, depth, ndim, leafSize, highBox, v);
    }
  }

  /** `VisitBoxesEnclose` for a visit of the left half of an internal range. */
  lemma {:induction false} VisitBoxesEncloseLow(s: seq<Point>, left: int, m: int, depth: nat, ndim: nat,
                                                leafSize: nat, lowBox: Box, v: Visit)
    requires 0 <= left <= m < |s|
    requires ndim >= 1 && Sized(lowBox, ndim)
    requires Balanced(s, left, m - 1, depth + 1, ndim, leafSize)
    requires Encloses(s, left, m - 1, lowBox, ndim)
    requires v in AllVisits(s, left, m - 1, depth + 1, ndim, leafSize, lowBox)
    ensures Sized(v.box, ndim) && Encloses(s, v.left, v.right, v.box, ndim)
    decreases m - left + 1, 0
  {
    VisitBoxesEnclose(s, left, m - 1, depth + 1, ndim, leafSize, lowBox, v);
  }

  /** `VisitBoxesEnclose` for a visit of the right half of an internal range. */
  lemma {:induction false} VisitBoxesEncloseHigh(s: seq<Point>, m: int, right: int, depth: nat, ndim: nat,
                                                 leafSize: nat, highBox: Box, v: Visit)
    requires 0 <= m <= right < |s|
    requires ndim >= 1 && Sized(highBox, ndim)
    requires Balanced(s, m + 1, right, depth + 1, ndim, leafSize)
    requires Encloses(s, m + 1, right, highBox, ndim)
    requires v in AllVisits(s, m + 1, right, depth + 1, ndim, leafSize, highBox)
    ensures Sized(v.box, ndim) && Encloses(s, v.left, v.right, v.box, ndim)
    decreases right - m + 1, 0
  {
    VisitBoxesEnclose(s, m + 1, right, depth + 1, ndim, leafSize, highBox, v);
  }

  /**
   * What the radius query shows its collector while at one visited range
   * (nothing for a range outside `s`, which no traversal visits).
   */
  ghost function ShownAt(s: seq<Point>, v: Visit, leafSize: nat): seq<Point>
  {
    if !(0 <= v.left <= v.right + 1 <= |s|) then []
    else if IsLeaf(v.left, v.right, leafSize) then s[v.left..v.right + 1]
    else [s[MedianIndex(v.left, v.right)]]
  }

  /** The points shown at each of the visits, in order. */
  ghost function ShownAlong(s: seq<Point>, vs: seq<Visit>, leafSize: nat): seq<Point>
  {
    if |vs| == 0 then [] else ShownAt(s, vs[0], leafSize) + ShownAlong(s, vs[1..], leafSize)
  }

  /** What a run of visits shows is what its two parts show, in order. */
  lemma {:induction false} ShownAlongConcat(s: seq<Point>, a: seq<Visit>, b: seq<Visit>, leafSize: nat)
    ensures ShownAlong(s, a + b, leafSize) == ShownAlong(s, a, leafSize) + ShownAlong(s, b, leafSize)
    decreases |a|
  {
    if |a| > 0 {
      ShownAlongSplitHead(s, a, b, leafSize);
      ShownAlongConcat(s, a[1..], b, leafSize);
      ConcatAssociates(ShownAt(s, a[0], leafSize), ShownAlong(s, a[1..], leafSize), ShownAlong(s, b, leafSize));
    } else {
      assert a + b == b;
    }
  }

  /** A non-empty first part: its head is shown first, then its tail and the second part. */
  lemma ShownAlongSplitHead(s: seq<Point>, a: seq<Visit>, b: seq<Visit>, leafSize: nat)
    requires |a| > 0
    ensures ShownAlong(s, a, leafSize) == ShownAt(s, a[0], leafSize) + ShownAlong(s, a[1..], leafSize)
    ensures ShownAlong(s, a + b, leafSize) == ShownAt(s, a[0], leafSize) + ShownAlong(s, a[1..] + b, leafSize)
  {
    VisitsConcatTail(a, b);
    ShownAlongFirst(s, a + b, leafSize);
    ShownAlongFirst(s, a, leafSize);
  }

  /** The head and tail of a concatenated run of visits. */
  lemma VisitsConcatTail(a: seq<Visit>, b: seq<Visit>)
    requires |a| > 0
    ensures (a + b)[0] == a[0] && (a + b)[1..] == a[1..] + b
  {
  }

  /** Concatenation of shown points associates. */
  lemma ConcatAssociates(x: seq<Point>, y: seq<Point>, z: seq<Point>)
    ensures x + (y + z) == (x + y) + z
  {
  }

  /** A run of visits shows its first visit's points, then the rest's. */
  lemma ShownAlongFirst(s: seq<Point>, vs: seq<Visit>, leafSize: nat)
    requires |vs| > 0
    ensures ShownAlong(s, vs, leafSize) == ShownAt(s, vs[0], leafSize) + ShownAlong(s, vs[1..], leafSize)
  {
  }

  /**
   * `insertBoundingBoxes_Radius` passes through exactly the ranges
   * `collectInRadius` passes through: showing the split point of each
   * internal range and the bucket of each leaf, in visiting order, is what
   * the radius query shows its collector.
   */
  lemma {:induction false} RadiusVisitsMatchQuery(s: seq<Point>, left: int, right: int, depth: nat, ndim: nat,
                                                  leafSize: nat, origin: Point, radius: real, box: Box)
    requires 0 <= left <= right + 1 <= |s|
    requires ndim >= 1 && Sized(box, ndim)
    ensures ShownAlong(s, RadiusVisits(s, left, right, depth, ndim, leafSize, origin, radius, box), leafSize)
         == RadiusConsidered(s, left, right, depth, ndim, leafSize, origin, radius)
    decreases right - left + 1, 2
  {
    if IsLeaf(left, right, leafSize) {
      RadiusMatchLeaf(s, left, right, depth, ndim, leafSize, origin, radius, box);
    } else {
      RadiusMatchNode(s, left, right, depth, ndim, leafSize, origin, radius, box);
    }
  }

  /** `RadiusVisitsMatchQuery` on a leaf: its one visit shows its bucket. */
  lemma RadiusMatchLeaf(s: seq<Point>, left: int, right: int, depth: nat, ndim: nat,
                        leafSize: nat, origin: Point, radius: real, box: Box)
    requires 0 <= left <= right + 1 <= |s|
    requires ndim >= 1 && Sized(box, ndim) && IsLeaf(left, right, leafSize)
    ensures ShownAlong(s, RadiusVisits(s, left, right, depth, ndim, leafSize, origin, radius, box), leafSize)
         == RadiusConsidered(s, left, right, depth, ndim, leafSize, origin, radius)
  {
    var here := Visit(box, depth, left, right);
    assert RadiusVisits(s, left, right, depth, ndim, leafSize, origin, radius, box) == [here] + [];
    ShownAlongCons(s, here, [], leafSize);
  }

  /** `RadiusVisitsMatchQuery` on an internal range, from the two halves. */
  lemma {:induction false} RadiusMatchNode(s: seq<Point>, left: int, right: int, depth: nat, ndim: nat,
                                           leafSize: nat, origin: Point, radius: real, box: Box)
    requires 0 <= left <= right < |s|
    requires ndim >= 1 && Sized(box, ndim) && !IsLeaf(left, right, leafSize)
    ensures ShownAlong(s, RadiusVisits(s, left, right, depth, ndim, leafSize, origin, radius, box), leafSize)
         == RadiusConsidered(s, left, right, depth, ndim, leafSize, origin, radius)
    decreases right - left + 1, 1
  {
    var here := Visit(box, depth, left, right);
    var m := MedianIndex(left, right);
    var axis := Axis(depth, ndim);
    var splitPos := Key(s[m], axis);
    var originPos := Key(origin, axis);
    var lowBox, highBox := BelowSplit(box, axis, splitPos), AboveSplit(box, axis, splitPos);
    var goLow, goHigh := originPos - radius <= splitPos, originPos + radius >= splitPos;
    var low := if goLow then RadiusVisits(s, left, m - 1, depth + 1, ndim, leafSize, origin, radius, lowBox) else [];
    var high := if goHigh then RadiusVisits(s, m + 1, right, depth + 1, ndim, leafSize, origin, radius, highBox) else [];
    var shownLow := if goLow then RadiusConsidered(s, left, m - 1, depth + 1, ndim, leafSize, origin, radius) else [];
    var shownHigh := if goHigh then RadiusConsidered(s, m + 1, right, depth + 1, ndim, leafSize, origin, radius) else [];
    RadiusVisitsNode(s, left, right, depth, ndim, leafSize, origin, radius, box, goLow, goHigh, low, high);
    RadiusConsideredNode(s, left, right, depth, ndim, leafSize, origin, radius, goLow, goHigh, shownLow, shownHigh);
    RadiusMatchLow(s, left, m, depth, ndim, leafSize, origin, radius, lowBox, goLow);
    RadiusMatchHigh(s, m, right, depth, ndim, leafSize, origin, radius, highBox, goHigh);
    ShownNode(s, here, low, high, shownLow, shownHigh, leafSize);
  }

  /** The left half of an internal range: `RadiusVisitsMatchQuery` where searched, nothing where pruned. */
  lemma {:induction false} RadiusMatchLow(s: seq<Point>, left: int, m: int, depth: nat, ndim: nat, leafSize: nat,
                                          origin: Point, radius: real, lowBox: Box, goLow: bool)
    requires 0 <= left <= m < |s|
    requires ndim >= 1 && Sized(lowBox, ndim)
    ensures ShownAlong(s, if goLow then RadiusVisits(s, left, m - 1, depth + 1, ndim, leafSize, origin, radius, lowBox) else [], leafSize)
         == if goLow then RadiusConsidered(s, left, m - 1, depth + 1, ndim, leafSize, origin, radius) else []
    decreases m - left + 1, 0
  {
    if goLow {
      RadiusVisitsMatchQuery(s, left, m - 1, depth + 1, ndim, leafSize, origin, radius, lowBox);
    }
  }

  /** The right half of an internal range: `RadiusVisitsMatchQuery` where searched, nothing where pruned. */
  lemma {:induction false} RadiusMatchHigh(s: seq<Point>, m: int, right: int, depth: nat, ndim: nat, leafSize: nat,
                                           origin: Point, radius: real, highBox: Box, goHigh: bool)
    requires 0 <= m <= right < |s|
    requires ndim >= 1 && Sized(highBox, ndim)
    ensures ShownAlong(s, if goHigh then RadiusVisits(s, m + 1, right, depth + 1, ndim, leafSize, origin, radius, highBox) else [], leafSize)
         == if goHigh then RadiusConsidered(s, m + 1, right, depth + 1, ndim, leafSize, origin, radius) else []
    decreases right - m + 1, 0
  {
    if goHigh {
      RadiusVisitsMatchQuery(s, m + 1, right, depth + 1, ndim, leafSize, origin, radius, highBox);
    }
  }

  /** A range's own visit followed by the visits of its two halves shows what each shows, in order. */
  lemma ShownNode(s: seq<Point>, here: Visit, low: seq<Visit>, high: seq<Visit>, shownLow: seq<Point>,
                  shownHigh: seq<Point>, leafSize: nat)
    requires 0 <= here.left <= here.right + 1 <= |s|
    requires ShownAlong(s, low, leafSize) == shownLow && ShownAlong(s, high, leafSize) == shownHigh
    ensures ShownAlong(s, [here] + (low + high), leafSize) == ShownAt(s, here, leafSize) + shownLow + shownHigh
  {
    ShownAlongConcat(s, low, high, leafSize);
    ShownAlongCons(s, here, low + high, leafSize);
    var at := ShownAt(s, here, leafSize);
    assert at + (shownLow + shownHigh) == at + shownLow + shownHigh;
  }

  /** One visit in front of others shows its own points first. */
  lemma ShownAlongCons(s: seq<Point>, v: Visit, rest: seq<Visit>, leafSize: nat)
    requires 0 <= v.left <= v.right + 1 <= |s|
    ensures ShownAlong(s, [v] + rest, leafSize) == ShownAt(s, v, leafSize) + ShownAlong(s, rest, leafSize)
  {
    assert ([v] + rest)[1..] == rest;
  }

  /** The entries a k-nearest collector records while shown `s[left..end)` in order. */
  ghost function Measure(s: seq<Point>, left: int, end: int, origin: Point): (r: seq<Entry>)
    requires 0 <= left <= end <= |s|
    requires Dimensioned(s, |origin|)
    ensures |r| == end - left
    ensures forall i :: 0 <= i < |r| ==> r[i].distance >= 0.0
    decreases end - left
  {
    if end == left then [] else Measure(s, left, end - 1, origin) + [Entry(s[end - 1], SqDist(origin, s[end - 1]))]
  }

  /** Showing a range records each of its points, in order, with its squared distance. */
  lemma {:induction false} MeasureFacts(s: seq<Point>, left: int, end: int, origin: Point)
    requires 0 <= left <= end <= |s|
    requires Dimensioned(s, |origin|)
    ensures Points(Measure(s, left, end, origin)) == s[left..end]
    ensures Measured(Measure(s, left, end, origin), origin)
    decreases end - left
  {
    if left < end {
      var before := Measure(s, left, end - 1, origin);
      var e := Entry(s[end - 1], SqDist(origin, s[end - 1]));
      MeasureFacts(s, left, end - 1, origin);
      PointsConcat(before, [e]);
      assert Points([e]) == [e.point] + Points([]);
      assert s[left..end] == s[left..end - 1] + [s[end - 1]];
      MeasuredExtend(before, origin, s[end - 1]);
    }
  }

  /**
   * The k-nearest walk of an internal range shows the near half, the far
   * half or nothing of it, and then the split point: a sub-multiset of the
   * range, each entry carrying its squared distance.
   */
  lemma NearestNodeShown(s: seq<Point>, left: int, right: int, m: int, origin: Point,
                         near: seq<Entry>, far: seq<Entry>, e: Entry, nearLow: bool)
    requires 0 <= left <= m <= right < |s|
    requires nearLow ==> multiset(Points(near)) <= multiset(s[left..m]) && multiset(Points(far)) <= multiset(s[m + 1..right + 1])
    requires !nearLow ==> multiset(Points(near)) <= multiset(s[m + 1..right + 1]) && multiset(Points(far)) <= multiset(s[left..m])
    requires Measured(near, origin) && Measured(far, origin)
    requires e.point == s[m] && |e.point| == |origin| && e.distance == SqDist(origin, e.point)
    ensures multiset(Points(near + far + [e])) <= multiset(s[left..right + 1])
    ensures Measured(near + far + [e], origin)
  {
    var pn := Points(near);
    var pf := Points(far);
    PointsConcat(near, far);
    PointsConcat(near + far, [e]);
    assert Points([e]) == [e.point] + Points([]);
    assert Points(near + far + [e]) == pn + pf + [s[m]];
    var x := s[left..m];
    var y := s[m + 1..right + 1];
    SplitRange(s, left, m, right);
    if nearLow {
      SubJoin(pn, pf, x, y, s[m]);
    } else {
      SubJoin(pf, pn, x, y, s[m]);
    }
    MeasuredJoin(near, far, e, origin);
  }

  /** Two sub-multisets of the halves, and the split point, fit in the whole range. */
  lemma SubJoin(a: seq<Point>, b: seq<Point>, x: seq<Point>, y: seq<Point>, p: Point)
    requires multiset(a) <= multiset(x) && multiset(b) <= multiset(y)
    ensures multiset(a + b + [p]) <= multiset(x) + multiset{p} + multiset(y)
    ensures multiset(b + a + [p]) <= multiset(x) + multiset{p} + multiset(y)
  {
  }

  lemma MeasuredJoin(near: seq<Entry>, far: seq<Entry>, e: Entry, origin: Point)
    requires Measured(near, origin) && Measured(far, origin)
    requires |e.point| == |origin| && e.distance == SqDist(origin, e.point)
    ensures Measured(near + far + [e], origin)
  {
  }

  /**
   * `collector.consider(point)` as seen by the k-nearest walk: the collector
   * stays valid and records the point with its squared distance.
   */
  method Show(collector: KNearestCollector, p: Point)
    requires collector.Valid() && |p| == |collector.origin|
    modifies collector
    ensures collector.Valid()
    ensures collector.considered == old(collector.considered) + [Entry(p, SqDist(collector.origin, p))]
    ensures KState(collector.queue, collector.maxDistance) ==
            Offer(old(KState(collector.queue, collector.maxDistance)), collector.k, Entry(p, SqDist(collector.origin, p)))
  {
    collector.Consider(p);
  }

  /** Entry `i - left` of a shown range is `s[i]` with its squared distance. */
  lemma {:induction false} MeasureAt(s: seq<Point>, left: int, end: int, origin: Point, i: int)
    requires 0 <= left <= i < end <= |s|
    requires Dimensioned(s, |origin|)
    ensures Measure(s, left, end, origin)[i - left] == Entry(s[i], SqDist(origin, s[i]))
    decreases end - left
  {
    if i < end - 1 {
      MeasureAt(s, left, end - 1, origin, i);
    }
  }

  /** `target` records `s[left..]`, point by point, with each point's squared distance from `origin`. */
  ghost predicate Measures(s: seq<Point>, left: int, origin: Point, target: seq<Entry>) {
    0 <= left && left + |target| <= |s| &&
    forall i :: left <= i < left + |target| ==>
      |s[i]| == |origin| && target[i - left] == Entry(s[i], SqDist(origin, s[i]))
  }

  /** Showing `s[left .. end - 1]` in order records `Measure(s, left, end, origin)`. */
  lemma PlanRun(s: seq<Point>, left: int, end: int, origin: Point, st: KState, k: nat)
      returns (target: seq<Entry>, sts: seq<KState>)
    requires 0 <= left <= end <= |s| && Dimensioned(s, |origin|) && KValid(st, k)
    ensures |target| == end - left && Measures(s, left, origin, target)
    ensures Steps(k, target, sts) && sts[0] == st
  {
    target := Measure(s, left, end, origin);
    forall i | left <= i < end
      ensures target[i - left] == Entry(s[i], SqDist(origin, s[i]))
    {
      MeasureAt(s, left, end, origin, i);
    }
    sts := States(st, k, target);
    StatesAreSteps(st, k, target);
  }

  /** A completed run over `s[left .. end - 1]` ends in the state `OfferAll` gives. */
  lemma {:induction false} PlanMet(s: seq<Point>, left: int, end: int, origin: Point, st: KState, k: nat,
                                   target: seq<Entry>, sts: seq<KState>)
    requires 0 <= left <= end <= |s| && Dimensioned(s, |origin|) && KValid(st, k)
    requires |target| == end - left && Measures(s, left, origin, target)
    requires Steps(k, target, sts) && sts[0] == st
    ensures target == Measure(s, left, end, origin)
    ensures sts[|target|] == OfferAll(st, k, Measure(s, left, end, origin))
  {
    var m := Measure(s, left, end, origin);
    forall j | 0 <= j < |target|
      ensures target[j] == m[j]
    {
      var i := left + j;
      MeasureAt(s, left, end, origin, i);
      assert i - left == j;
      assert target[i - left] == Entry(s[i], SqDist(origin, s[i]));
    }
    StepsReach(st, k, target, sts, |target|);
    assert target[..|target|] == target;
  }

  /**
   * Part way through a run of `consider` calls on `target`: the collector is
   * valid, has recorded the first `n` entries after `start`, and is in state
   * `sts[n]`.
   */
  ghost predicate Replaying(collector: KNearestCollector, start: seq<Entry>, target: seq<Entry>,
                            sts: seq<KState>, n: int)
    reads collector
  {
    collector.Valid() && 0 <= n <= |target| && n < |sts| &&
    collector.considered == start + target[..n] &&
    KState(collector.queue, collector.maxDistance) == sts[n]
  }

  /** Showing `s[i]`, the next point of `target`, moves a k-nearest collector one step along the run. */
  method ShowNext(collector: KNearestCollector, p: Point, ghost s: seq<Point>, left: int,
                  ghost target: seq<Entry>, i: int, ghost start: seq<Entry>, ghost sts: seq<KState>)
    requires Replaying(collector, start, target, sts, i - left) && i - left < |target|
    requires Measures(s, left, collector.origin, target) && p == s[i]
    requires Steps(collector.k, target, sts)
    modifies collector
    ensures Replaying(collector, start, target, sts, i + 1 - left)
  {
    Show(collector, p);
    assert target[..i + 1 - left] == target[..i - left] + [target[i - left]];
  }

  /** `considerPointsInBucket`'s loop: show `points[left .. end - 1]` in order. */
  method ShowRun(collector: KNearestCollector, points: array<Point>, left: int, end: int,
                 ghost s: seq<Point>, ghost target: seq<Entry>, ghost start: seq<Entry>, ghost sts: seq<KState>)
    requires s == points[..] && 0 <= left <= end <= points.Length && |target| == end - left
    requires Replaying(collector, start, target, sts, 0)
    requires Measures(s, left, collector.origin, target) && Steps(collector.k, target, sts)
    modifies collector
    ensures Replaying(collector, start, target, sts, end - left)
  {
    for i := left to end
      invariant Replaying(collector, start, target, sts, i - left)
    {
      ShowNext(collector, points[i], s, left, target, i, start, sts);
    }
  }

  /** `KDTree<Point, ndim, CalcDistance>` over the caller's buffer `points[0 .. length - 1]`. */
  class KDTree {
    const points: array<Point>
    const ndim: nat
    const bucketSize: nat

    /**
     * The constructor's assertions, `bucketSize` fitting an `int`, at most
     * `2^30` points so that no `left + right` of the descent overflows
     * (`FlatTree.TreeSumsFit`, `FlatTree.MedianOverflowsBeyondBound`), and
     * every point having `ndim` coordinates (the `Point` type fixes them).
     */
    ghost predicate Valid()
      reads this, points
    {
      ndim >= 1 && 1 <= bucketSize < 0x8000_0000 && points.Length <= 0x4000_0000 && Dimensioned(points[..], ndim)
    }

    constructor (points: array<Point>, ndim: nat, bucketSize: nat)
      requires ndim >= 1 && 1 <= bucketSize < 0x8000_0000
      requires points.Length <= 0x4000_0000
      requires Dimensioned(points[..], ndim)
      ensures Valid()
      ensures this.points == points && this.ndim == ndim && this.bucketSize == bucketSize
      ensures ReachedSumsFit(0, points.Length - 1, bucketSize)
    {
      this.points := points;
      this.ndim := ndim;
      this.bucketSize := bucketSize;
      TreeSumsFit(points.Length, bucketSize);
    }

    /** `balance()`: `sort(0, length - 1, 0)`, run sequentially. */
    method Balance()
      requires Valid()
      modifies points
      ensures Valid()
      ensures multiset(points[..]) == multiset(old(points[..]))
      ensures Balanced(points[..], 0, points.Length - 1, 0, ndim, bucketSize)
    {
      SortHashed(points, 0, points.Length - 1, 0, ndim, bucketSize);
      DimensionedPermutation(old(points[..]), points[..], ndim);
    }

    /**
     * `balance()` of kdtree/main.cc: the same sort with the pivot drawn from
     * `rand()`, the generator's outputs from position `t` on being `rand(t), rand(t + 1), ...`.
     */
    method BalanceDrawn(rand: nat -> nat, t: nat) returns (next: nat)
      requires Valid()
      modifies points
      ensures Valid()
      ensures t <= next
      ensures multiset(points[..]) == multiset(old(points[..]))
      ensures Balanced(points[..], 0, points.Length - 1, 0, ndim, bucketSize)
    {
      next := SortDrawn(points, 0, points.Length - 1, 0, ndim, bucketSize, rand, t);
      DimensionedPermutation(old(points[..]), points[..], ndim);
    }

    /** `considerPointsInBucket(left, right, collector)` for an `InRadiusCollector`. */
    method ConsiderBucket(left: int, right: int, collector: InRadiusCollector, ghost s: seq<Point>)
      requires Valid() && s == points[..]
      requires 0 <= left <= right + 1 <= points.Length
      requires |collector.origin| == ndim
      modifies collector
      ensures collector.points == old(collector.points) + BucketKept(s, left, right, collector.origin, collector.radius)
    {
      ghost var start := collector.points;
      for i := left to right + 1
        invariant collector.points == start + BucketKept(s, left, i - 1, collector.origin, collector.radius)
      {
        var p := points[i];
        assert p == s[i] && |p| == ndim;
        ghost var mid := collector.points;
        collector.Consider(p);
        assert collector.points == mid + Keep(collector.origin, s[i], collector.radius);
      }
    }

    /**
     * `collectInRadius(left, right, depth, collector)`: show the bucket of a
     * leaf, or the split point followed by each half the radius reaches.
     */
    method CollectInRadiusRange(left: int, right: int, depth: nat, collector: InRadiusCollector, ghost s: seq<Point>)
      requires Valid() && s == points[..]
      requires 0 <= left <= right + 1 <= points.Length
      requires |collector.origin| == ndim
      modifies collector
      ensures collector.points == old(collector.points)
        + RadiusKept(s, left, right, depth, ndim, bucketSize, collector.origin, collector.radius)
      decreases right - left + 1, 1
    {
      ghost var origin, radius := collector.origin, collector.radius;
      if IsLeaf(left, right, bucketSize) {
        ConsiderBucket(left, right, collector, s);
        return;
      }
      var axis := Axis(depth, ndim);
      var medianIndex := MedianIndex(left, right);
      var splitPoint := points[medianIndex];
      assert splitPoint == s[medianIndex] && |splitPoint| == ndim;
      var splitPos := splitPoint[axis];
      var originPos := collector.origin[axis];
      assert splitPos == Key(s[medianIndex], axis) && originPos == Key(origin, axis);
      ghost var c0 := collector.points;
      collector.Consider(splitPoint);
      ghost var c1 := collector.points;
      var goLow := originPos - collector.radius <= splitPos;
      var goHigh := originPos + collector.radius >= splitPos;
      ghost var low := CollectInRadiusLow(left, medianIndex, depth, collector, goLow, s);
      ghost var c2 := collector.points;
      ghost var high := CollectInRadiusHigh(medianIndex, right, depth, collector, goHigh, s);
      RadiusKeptNode(s, left, right, depth, ndim, bucketSize, origin, radius, goLow, goHigh, low, high);
      Assemble(c0, c1, c2, collector.points, Keep(origin, splitPoint, radius), low, high);
    }

    /** The left half of an internal range in `collectInRadius`: searched only when `go`. */
    method CollectInRadiusLow(left: int, m: int, depth: nat, collector: InRadiusCollector, go: bool, ghost s: seq<Point>)
      returns (ghost low: seq<Point>)
      requires Valid() && s == points[..]
      requires 0 <= left <= m < points.Length
      requires |collector.origin| == ndim
      modifies collector
      ensures low == if go then RadiusKept(s, left, m - 1, depth + 1, ndim, bucketSize, collector.origin, collector.radius) else []
      ensures collector.points == old(collector.points) + low
      decreases m - left + 1, 0
    {
      low := [];
      if go {
        CollectInRadiusRange(left, m - 1, depth + 1, collector, s);
        low := RadiusKept(s, left, m - 1, depth + 1, ndim, bucketSize, collector.origin, collector.radius);
      }
    }

    /** The right half of an internal range in `collectInRadius`: searched only when `go`. */
    method CollectInRadiusHigh(m: int, right: int, depth: nat, collector: InRadiusCollector, go: bool, ghost s: seq<Point>)
      returns (ghost high: seq<Point>)
      requires Valid() && s == points[..]
      requires 0 <= m <= right < points.Length
      requires |collector.origin| == ndim
      modifies collector
      ensures high == if go then RadiusKept(s, m + 1, right, depth + 1, ndim, bucketSize, collector.origin, collector.radius) else []
      ensures collector.points == old(collector.points) + high
      decreases right - m + 1, 0
    {
      high := [];
      if go {
        CollectInRadiusRange(m + 1, right, depth + 1, collector, s);
        high := RadiusKept(s, m + 1, right, depth + 1, ndim, bucketSize, collector.origin, collector.radius);
      }
    }

    /**
     * `collectInRadius(origin, radius)`: the points the walk keeps; on a
     * balanced buffer they are, as a multiset, the ones `collectInRadius_Naive` finds.
     */
    method CollectInRadius(origin: Point, radius: real) returns (result: seq<Point>)
      requires Valid()
      requires |origin| == ndim
      ensures result == Within(RadiusConsidered(points[..], 0, points.Length - 1, 0, ndim, bucketSize, origin, radius),
                               origin, radius)
      ensures Balanced(points[..], 0, points.Length - 1, 0, ndim, bucketSize) ==>
                multiset(result) == multiset(Within(points[..], origin, radius))
    {
      ghost var s := points[..];
      var collector := new InRadiusCollector(origin, radius);
      CollectInRadiusRange(0, points.Length - 1, 0, collector, s);
      result := collector.points;
      RadiusKeptIsWithin(s, 0, points.Length - 1, 0, ndim, bucketSize, origin, radius);
      if Balanced(s, 0, points.Length - 1, 0, ndim, bucketSize) {
        RadiusQueryMatchesNaive(s, 0, points.Length - 1, 0, ndim, bucketSize, origin, radius);
        assert s[0..points.Length] == s;
      }
    }

    /** `collectInRadius_Naive`: show the collector the whole buffer. */
    method CollectInRadiusNaive(origin: Point, radius: real) returns (result: seq<Point>)
      requires Valid()
      requires |origin| == ndim
      ensures result == Within(points[..], origin, radius)
    {
      var collector := new InRadiusCollector(origin, radius);
      for i := 0 to points.Length
        invariant collector.points == Within(points[..i], origin, radius)
      {
        assert points[..i + 1] == points[..i] + [points[i]];
        WithinConcat(points[..i], [points[i]], origin, radius);
        assert |points[..][i]| == ndim;
        collector.Consider(points[i]);
      }
      assert points[..points.Length] == points[..];
      result := collector.points;
    }

    /** `considerPointsInBucket(left, right, collector)` for a `KNearestCollector`. */
    method ConsiderBucketNearest(left: int, right: int, collector: KNearestCollector, ghost s: seq<Point>)
      requires Valid() && s == points[..] && collector.Valid()
      requires 0 <= left <= right + 1 <= points.Length
      requires |collector.origin| == ndim
      modifies collector
      ensures collector.Valid()
      ensures collector.considered == old(collector.considered) + Measure(s, left, right + 1, collector.origin)
      ensures KState(collector.queue, collector.maxDistance) ==
              OfferAll(old(KState(collector.queue, collector.maxDistance)), collector.k, Measure(s, left, right + 1, collector.origin))
    {
      ghost var start := collector.considered;
      ghost var st0 := KState(collector.queue, collector.maxDistance);
      ghost var origin := collector.origin;
      assert Dimensioned(s, |origin|) && KValid(st0, collector.k);
      ghost var target, sts := PlanRun(s, left, right + 1, origin, st0, collector.k);
      assert start + target[..0] == start;
      ShowRun(collector, points, left, right + 1, s, target, start, sts);
      PlanMet(s, left, right + 1, origin, st0, collector.k, target, sts);
      assert target[..right + 1 - left] == target;
    }

    /**
     * `collectKNearest(left, right, depth, collector)`: a leaf shows its
     * bucket; an internal range walks the half on the origin's side, then the
     * far half when `maxDistance` reaches across the split, and only then
     * shows the split point. What it shows (`shown`) is a sub-multiset of the
     * range: no buffer element is shown twice.
     */
    method CollectKNearestRange(left: int, right: int, depth: nat, collector: KNearestCollector, ghost s: seq<Point>)
      returns (ghost shown: seq<Entry>)
      requires Valid() && s == points[..] && collector.Valid()
      requires 0 <= left <= right + 1 <= points.Length
      requires |collector.origin| == ndim
      modifies collector
      ensures collector.Valid()
      ensures collector.considered == old(collector.considered) + shown
      ensures Measured(shown, collector.origin)
      ensures multiset(Points(shown)) <= multiset(s[left..right + 1])
      ensures KState(collector.queue, collector.maxDistance) == NearestWalk(s, left, right, depth, ndim, bucketSize, collector.k, collector.origin, old(KState(collector.queue, collector.maxDistance)))
      decreases right - left + 1, 2
    {
      ghost var origin := collector.origin;
      if IsLeaf(left, right, bucketSize) {
        ConsiderBucketNearest(left, right, collector, s);
        shown := Measure(s, left, right + 1, origin);
        MeasureFacts(s, left, right + 1, origin);
        return;
      }
      var axis := Axis(depth, ndim);
      var medianIndex := MedianIndex(left, right);
      var splitPoint := points[medianIndex];
      assert splitPoint == s[medianIndex] && |splitPoint| == ndim;
      var splitPos := splitPoint[axis];
      var originPos := collector.origin[axis];
      ghost var near: seq<Entry>;
      ghost var far: seq<Entry>;
      if originPos <= splitPos {
        near, far := CollectKNearestLowFirst(left, right, depth, medianIndex, originPos, splitPos, collector, s);
        assert medianIndex - 1 + 1 == medianIndex;
      } else {
        near, far := CollectKNearestHighFirst(left, right, depth, medianIndex, originPos, splitPos, collector, s);
      }
      ghost var c2 := collector.considered;
      ghost var before := KState(collector.queue, collector.maxDistance);
      Show(collector, splitPoint);
      ghost var e := Entry(splitPoint, SqDist(origin, splitPoint));
      assert KState(collector.queue, collector.maxDistance) == Offer(before, collector.k, e);
      WalkNode(s, left, right, depth, ndim, bucketSize, collector.k, origin, old(KState(collector.queue, collector.maxDistance)));
      Assemble(old(collector.considered), old(collector.considered) + near, c2, collector.considered, near, far, [e]);
      shown := near + far + [e];
      NearestNodeShown(s, left, right, medianIndex, origin, near, far, e, originPos <= splitPos);
    }

    /**
     * The two recursive calls of `collectKNearest` when the origin lies on
     * the low side of the split: the low half, then the high half only when
     * `maxDistance` reaches across the split plane.
     */
    method CollectKNearestLowFirst(left: int, right: int, depth: nat, m: int, originPos: real, splitPos: real,
                                   collector: KNearestCollector, ghost s: seq<Point>)
      returns (ghost near: seq<Entry>, ghost far: seq<Entry>)
      requires Valid() && s == points[..] && collector.Valid()
      requires 0 <= left <= m <= right < points.Length
      requires |collector.origin| == ndim
      modifies collector
      ensures collector.Valid()
      ensures collector.considered == old(collector.considered) + near + far
      ensures Measured(near, collector.origin) && Measured(far, collector.origin)
      ensures multiset(Points(near)) <= multiset(s[left..m - 1 + 1]) && multiset(Points(far)) <= multiset(s[m + 1..right + 1])
      ensures KState(collector.queue, collector.maxDistance) ==
              NearestLowFirst(s, left, right, depth, ndim, bucketSize, collector.k, collector.origin, m, originPos, splitPos, old(KState(collector.queue, collector.maxDistance)))
      decreases right - left + 1, 1
    {
      ghost var st := KState(collector.queue, collector.maxDistance);
      near := CollectKNearestRange(left, m - 1, depth + 1, collector, s);
      far := CollectKNearestFarHigh(m, right, depth, originPos, splitPos, collector, s);
      LowFirstWalk(s, left, right, depth, ndim, bucketSize, collector.k, collector.origin, m, originPos, splitPos, st);
    }

    /** The same with the origin on the high side: the high half first. */
    method CollectKNearestHighFirst(left: int, right: int, depth: nat, m: int, originPos: real, splitPos: real,
                                    collector: KNearestCollector, ghost s: seq<Point>)
      returns (ghost near: seq<Entry>, ghost far: seq<Entry>)
      requires Valid() && s == points[..] && collector.Valid()
      requires 0 <= left <= m <= right < points.Length
      requires |collector.origin| == ndim
      modifies collector
      ensures collector.Valid()
      ensures collector.considered == old(collector.considered) + near + far
      ensures Measured(near, collector.origin) && Measured(far, collector.origin)
      ensures multiset(Points(near)) <= multiset(s[m + 1..right + 1]) && multiset(Points(far)) <= multiset(s[left..m])
      ensures KState(collector.queue, collector.maxDistance) ==
              NearestHighFirst(s, left, right, depth, ndim, bucketSize, collector.k, collector.origin, m, originPos, splitPos, old(KState(collector.queue, collector.maxDistance)))
      decreases right - left + 1, 1
    {
      ghost var st := KState(collector.queue, collector.maxDistance);
      near := CollectKNearestRange(m + 1, right, depth + 1, collector, s);
      far := CollectKNearestFarLow(left, m, depth, originPos, splitPos, collector, s);
      HighFirstWalk(s, left, right, depth, ndim, bucketSize, collector.k, collector.origin, m, originPos, splitPos, st);
    }

    /** The high half walked second: only when `maxDistance` reaches up across the split plane. */
    method CollectKNearestFarHigh(m: int, right: int, depth: nat, originPos: real, splitPos: real,
                                  collector: KNearestCollector, ghost s: seq<Point>)
      returns (ghost far: seq<Entry>)
      requires Valid() && s == points[..] && collector.Valid()
      requires 0 <= m <= right < points.Length
      requires |collector.origin| == ndim
      modifies collector
      ensures collector.Valid()
      ensures collector.considered == old(collector.considered) + far
      ensures Measured(far, collector.origin)
      ensures multiset(Points(far)) <= multiset(s[m + 1..right + 1])
      ensures KState(collector.queue, collector.maxDistance) ==
              NearestFarHigh(s, m, right, depth, ndim, bucketSize, collector.k, collector.origin, originPos, splitPos, old(KState(collector.queue, collector.maxDistance)))
      decreases right - m + 1, 0
    {
      far := [];
      var visit := ReachUp(m, right, depth, originPos, splitPos, collector, s);
      if visit {
        far := CollectKNearestRange(m + 1, right, depth + 1, collector, s);
      }
    }

    /** The far-side test of the high half, and the step of `NearestFarHigh` it decides. */
    method ReachUp(m: int, right: int, depth: nat, originPos: real, splitPos: real,
                   collector: KNearestCollector, ghost s: seq<Point>) returns (visit: bool)
      requires Valid() && s == points[..] && collector.Valid()
      requires 0 <= m <= right < points.Length
      requires |collector.origin| == ndim
      ensures visit == ReachesUp(originPos, splitPos, collector.maxDistance)
      ensures NearestFarHigh(s, m, right, depth, ndim, bucketSize, collector.k, collector.origin, originPos, splitPos,
                             KState(collector.queue, collector.maxDistance)) ==
              if visit
              then NearestWalk(s, m + 1, right, depth + 1, ndim, bucketSize, collector.k, collector.origin,
                               KState(collector.queue, collector.maxDistance))
              else KState(collector.queue, collector.maxDistance)
    {
      visit := ReachesUp(originPos, splitPos, collector.maxDistance);
    }

    /** The low half walked second: only when `maxDistance` reaches down across the split plane. */
    method CollectKNearestFarLow(left: int, m: int, depth: nat, originPos: real, splitPos: real,
                                 collector: KNearestCollector, ghost s: seq<Point>)
      returns (ghost far: seq<Entry>)
      requires Valid() && s == points[..] && collector.Valid()
      requires 0 <= left <= m < points.Length
      requires |collector.origin| == ndim
      modifies collector
      ensures collector.Valid()
      ensures collector.considered == old(collector.considered) + far
      ensures Measured(far, collector.origin)
      ensures multiset(Points(far)) <= multiset(s[left..m])
      ensures KState(collector.queue, collector.maxDistance) ==
              NearestFarLow(s, left, m, depth, ndim, bucketSize, collector.k, collector.origin, originPos, splitPos, old(KState(collector.queue, collector.maxDistance)))
      decreases m - left + 1, 0
    {
      far := [];
      var visit := ReachDown(left, m, depth, originPos, splitPos, collector, s);
      if visit {
        far := CollectKNearestRange(left, m - 1, depth + 1, collector, s);
        assert m - 1 + 1 == m;
      }
    }

    /** The far-side test of the low half, and the step of `NearestFarLow` it decides. */
    method ReachDown(left: int, m: int, depth: nat, originPos: real, splitPos: real,
                     collector: KNearestCollector, ghost s: seq<Point>) returns (visit: bool)
      requires Valid() && s == points[..] && collector.Valid()
      requires 0 <= left <= m < points.Length
      requires |collector.origin| == ndim
      ensures visit == ReachesDown(originPos, splitPos, collector.maxDistance)
      ensures NearestFarLow(s, left, m, depth, ndim, bucketSize, collector.k, collector.origin, originPos, splitPos,
                            KState(collector.queue, collector.maxDistance)) ==
              if visit
              then NearestWalk(s, left, m - 1, depth + 1, ndim, bucketSize, collector.k, collector.origin,
                               KState(collector.queue, collector.maxDistance))
              else KState(collector.queue, collector.maxDistance)
    {
      visit := ReachesDown(originPos, splitPos, collector.maxDistance);
    }

    /**
     * `collectKNearest(origin, k)`: the drained collector of `NearestWalk`,
     * farthest first. It is a k-nearest choice of the points the walk showed
     * (`considered`, a sub-multiset of the buffer), but not always of the
     * whole buffer (see `NearestSearch.KNearestStopsShort`).
     */
    method CollectKNearest(origin: Point, k: nat) returns (result: seq<Point>, ghost entries: seq<Entry>,
                                                          ghost considered: seq<Entry>)
      requires Valid()
      requires |origin| == ndim
      ensures entries == Drain(NearestWalk(points[..], 0, points.Length - 1, 0, ndim, bucketSize, k, origin, Empty).queue)
      ensures result == Points(entries)
      ensures NonIncreasing(entries) && Measured(entries, origin)
      ensures Measured(considered, origin)
      ensures multiset(Points(considered)) <= multiset(points[..])
      ensures multiset(result) <= multiset(points[..])
      ensures KNearestOf(result, Points(considered), origin, k)
    {
      ghost var s := points[..];
      var collector := new KNearestCollector(origin, k);
      considered := CollectKNearestRange(0, points.Length - 1, 0, collector, s);
      assert collector.considered == considered;
      assert points.Length - 1 + 1 == points.Length && s[0..points.Length] == s;
      entries := Drain(collector.queue);
      MeasuredPointsDimensioned(considered, origin);
      TrackedAreNearest(KState(collector.queue, collector.maxDistance), k, considered, collector.evicted, [],
                        Points(considered), origin);
      DrainIsNonIncreasing(collector.queue);
      result := collector.GetPoints();
      assert points[..] == s;
    }

    /**
     * `collectKNearest_Naive`: show the collector the whole buffer. The result
     * is a k-nearest choice of the buffer, farthest first.
     */
    method CollectKNearestNaive(origin: Point, k: nat) returns (result: seq<Point>, ghost entries: seq<Entry>)
      requires Valid()
      requires |origin| == ndim
      ensures result == Points(entries)
      ensures NonIncreasing(entries)
      ensures Measured(entries, origin)
      ensures KNearestOf(result, points[..], origin, k)
    {
      ghost var s := points[..];
      var collector := new KNearestCollector(origin, k);
      ConsiderBucketNearest(0, points.Length - 1, collector, s);
      ghost var st := KState(collector.queue, collector.maxDistance);
      NaiveResult(s, origin, k, st, collector.considered, collector.evicted);
      entries := Drain(collector.queue);
      result := collector.GetPoints();
      assert points[..] == s;
    }

    /** `getBoundingBox()`: `findBoundingBox(points, length)`. */
    method GetBoundingBox() returns (box: Box)
      requires Valid()
      ensures box == BoxOf(points[..], ndim)
    {
      box := FindBoundingBox(points[..], ndim);
    }

    /** `insertBoundingBoxes_All(left, right, depth, outerBox, boxes)`. */
    method InsertBoxesAll(left: int, right: int, depth: nat, outerBox: Box, boxes: seq<BoxWithDepth>, ghost s: seq<Point>)
      returns (out: seq<BoxWithDepth>)
      requires Valid() && Sized(outerBox, ndim) && s == points[..]
      requires 0 <= left <= right + 1 <= points.Length
      ensures out == boxes + Recorded(AllVisits(s, left, right, depth, ndim, bucketSize, outerBox))
      decreases right - left + 1, 1
    {
      out := boxes + [BoxWithDepth(outerBox, depth)];
      ghost var o1 := out;
      if IsLeaf(left, right, bucketSize) {
        AllBoxesLeaf(s, left, right, depth, ndim, bucketSize, outerBox, boxes, out);
        return;
      }
      var axis := Axis(depth, ndim);
      var medianIndex := MedianIndex(left, right);
      var splitPos := points[medianIndex][axis];
      assert splitPos == Key(s[medianIndex], axis);
      var leftBox := BelowSplit(outerBox, axis, splitPos);
      out := InsertBoxesAllLow(left, medianIndex, depth, leftBox, out, s);
      ghost var o2 := out;
      var rightBox := AboveSplit(outerBox, axis, splitPos);
      out := InsertBoxesAllHigh(medianIndex, right, depth, rightBox, out, s);
      AllBoxesNode(s, left, right, depth, ndim, bucketSize, outerBox, medianIndex, axis, splitPos, boxes, o1, o2, out);
    }

    /** The left half of an internal range in `insertBoundingBoxes_All`. */
    method InsertBoxesAllLow(left: int, m: int, depth: nat, lowBox: Box, boxes: seq<BoxWithDepth>, ghost s: seq<Point>)
      returns (out: seq<BoxWithDepth>)
      requires Valid() && Sized(lowBox, ndim) && s == points[..]
      requires 0 <= left <= m < points.Length
      ensures out == boxes + Recorded(AllVisits(s, left, m - 1, depth + 1, ndim, bucketSize, lowBox))
      decreases m - left + 1, 0
    {
      out := InsertBoxesAll(left, m - 1, depth + 1, lowBox, boxes, s);
    }

    /** The right half of an internal range in `insertBoundingBoxes_All`. */
    method InsertBoxesAllHigh(m: int, right: int, depth: nat, highBox: Box, boxes: seq<BoxWithDepth>, ghost s: seq<Point>)
      returns (out: seq<BoxWithDepth>)
      requires Valid() && Sized(highBox, ndim) && s == points[..]
      requires 0 <= m <= right < points.Length
      ensures out == boxes + Recorded(AllVisits(s, m + 1, right, depth + 1, ndim, bucketSize, highBox))
      decreases right - m + 1, 0
    {
      out := InsertBoxesAll(m + 1, right, depth + 1, highBox, boxes, s);
    }

    /** `getBoundingBoxes_All()`: every range's box, starting from the buffer's bounding box. */
    method GetBoundingBoxesAll() returns (boxes: seq<BoxWithDepth>)
      requires Valid()
      ensures boxes == Recorded(AllVisits(points[..], 0, points.Length - 1, 0, ndim, bucketSize, BoxOf(points[..], ndim)))
    {
      var box := GetBoundingBox();
      boxes := InsertBoxesAll(0, points.Length - 1, 0, box, [], points[..]);
    }

    /** `insertBoundingBoxes_Radius(left, right, depth, collector, outerBox, boxes)`. */
    method InsertBoxesRadius(left: int, right: int, depth: nat, collector: InRadiusCollector, outerBox: Box,
                             boxes: seq<BoxWithDepth>, ghost s: seq<Point>) returns (out: seq<BoxWithDepth>)
      requires Valid() && Sized(outerBox, ndim) && s == points[..]
      requires 0 <= left <= right + 1 <= points.Length
      ensures out == boxes + RadiusBoxes(s, left, right, depth, ndim, bucketSize, collector.origin, collector.radius, outerBox)
      decreases right - left + 1, 1
    {
      ghost var origin, radius := collector.origin, collector.radius;
      out := boxes + [BoxWithDepth(outerBox, depth)];
      if IsLeaf(left, right, bucketSize) {
        return;
      }
      ghost var o1 := out;
      var axis := Axis(depth, ndim);
      var medianIndex := MedianIndex(left, right);
      var splitPos := points[medianIndex][axis];
      var originPos := Key(collector.origin, axis);
      assert splitPos == Key(s[medianIndex], axis);
      var goLow := originPos - collector.radius <= splitPos;
      var goHigh := originPos + collector.radius >= splitPos;
      var lowBox := BelowSplit(outerBox, axis, splitPos);
      ghost var low;
      out, low := InsertBoxesRadiusLow(left, medianIndex, depth, collector, lowBox, out, goLow, s);
      ghost var o2 := out;
      var highBox := AboveSplit(outerBox, axis, splitPos);
      ghost var high;
      out, high := InsertBoxesRadiusHigh(medianIndex, right, depth, collector, highBox, out, goHigh, s);
      RadiusBoxesNode(s, left, right, depth, ndim, bucketSize, origin, radius, outerBox, goLow, goHigh, low, high);
      Assemble(boxes, o1, o2, out, [BoxWithDepth(outerBox, depth)], low, high);
    }

    /** The left half of an internal range in `insertBoundingBoxes_Radius`: searched only when `go`. */
    method InsertBoxesRadiusLow(left: int, m: int, depth: nat, collector: InRadiusCollector, lowBox: Box,
                                boxes: seq<BoxWithDepth>, go: bool, ghost s: seq<Point>)
      returns (out: seq<BoxWithDepth>, ghost low: seq<BoxWithDepth>)
      requires Valid() && Sized(lowBox, ndim) && s == points[..]
      requires 0 <= left <= m < points.Length
      ensures low == if go then RadiusBoxes(s, left, m - 1, depth + 1, ndim, bucketSize, collector.origin, collector.radius, lowBox) else []
      ensures out == boxes + low
      decreases m - left + 1, 0
    {
      out, low := boxes, [];
      if go {
        out := InsertBoxesRadius(left, m - 1, depth + 1, collector, lowBox, out, s);
        low := RadiusBoxes(s, left, m - 1, depth + 1, ndim, bucketSize, collector.origin, collector.radius, lowBox);
      }
    }

    /** The right half of an internal range in `insertBoundingBoxes_Radius`: searched only when `go`. */
    method InsertBoxesRadiusHigh(m: int, right: int, depth: nat, collector: InRadiusCollector, highBox: Box,
                                 boxes: seq<BoxWithDepth>, go: bool, ghost s: seq<Point>)
      returns (out: seq<BoxWithDepth>, ghost high: seq<BoxWithDepth>)
      requires Valid() && Sized(highBox, ndim) && s == points[..]
      requires 0 <= m <= right < points.Length
      ensures high == if go then RadiusBoxes(s, m + 1, right, depth + 1, ndim, bucketSize, collector.origin, collector.radius, highBox) else []
      ensures out == boxes + high
      decreases right - m + 1, 0
    {
      out, high := boxes, [];
      if go {
        out := InsertBoxesRadius(m + 1, right, depth + 1, collector, highBox, out, s);
        high := RadiusBoxes(s, m + 1, right, depth + 1, ndim, bucketSize, collector.origin, collector.radius, highBox);
      }
    }

    /** `getBoundingBoxes_Radius(origin, radius)`. */
    method GetBoundingBoxesRadius(origin: Point, radius: real) returns (boxes: seq<BoxWithDepth>)
      requires Valid()
      ensures boxes == Recorded(RadiusVisits(points[..], 0, points.Length - 1, 0, ndim, bucketSize,
                                             origin, radius, BoxOf(points[..], ndim)))
    {
      var collector := new InRadiusCollector(origin, radius);
      var box := GetBoundingBox();
      boxes := InsertBoxesRadius(0, points.Length - 1, 0, collector, box, [], points[..]);
      RadiusBoxesRecorded(points[..], 0, points.Length - 1, 0, ndim, bucketSize, origin, radius, box);
    }

    /** `insertBoundingBoxes(left, right, depth, outerBox, boxes)` of source/kdtree.h. */
    method InsertBoxes(left: int, right: int, depth: nat, outerBox: Box, boxes: seq<BoxWithDepth>, ghost s: seq<Point>)
      returns (out: seq<BoxWithDepth>)
      requires Valid() && Sized(outerBox, ndim) && s == points[..]
      requires 0 <= left <= right + 1 <= points.Length
      ensures out == boxes + Recorded(InternalVisits(s, left, right, depth, ndim, bucketSize, outerBox))
      decreases right - left + 1, 1
    {
      out := boxes;
      if IsLeaf(left, right, bucketSize) {
        InternalBoxesLeaf(s, left, right, depth, ndim, bucketSize, outerBox, boxes);
        return;
      }
      var axis := Axis(depth, ndim);
      var medianIndex := MedianIndex(left, right);
      var splitPos := points[medianIndex][axis];
      assert splitPos == Key(s[medianIndex], axis);
      out := out + [BoxWithDepth(outerBox, depth)];
      ghost var o1 := out;
      var leftBox := BelowSplit(outerBox, axis, splitPos);
      out := InsertBoxesLow(left, medianIndex, depth, leftBox, out, s);
      ghost var o2 := out;
      var rightBox := AboveSplit(outerBox, axis, splitPos);
      out := InsertBoxesHigh(medianIndex, right, depth, rightBox, out, s);
      InternalBoxesNode(s, left, right, depth, ndim, bucketSize, outerBox, medianIndex, axis, splitPos, boxes, o1, o2, out);
    }

    /** The left half of an internal range in `insertBoundingBoxes`. */
    method InsertBoxesLow(left: int, m: int, depth: nat, lowBox: Box, boxes: seq<BoxWithDepth>, ghost s: seq<Point>)
      returns (out: seq<BoxWithDepth>)
      requires Valid() && Sized(lowBox, ndim) && s == points[..]
      requires 0 <= left <= m < points.Length
      ensures out == boxes + Recorded(InternalVisits(s, left, m - 1, depth + 1, ndim, bucketSize, lowBox))
      decreases m - left + 1, 0
    {
      out := InsertBoxes(left, m - 1, depth + 1, lowBox, boxes, s);
    }

    /** The right half of an internal range in `insertBoundingBoxes`. */
    method InsertBoxesHigh(m: int, right: int, depth: nat, highBox: Box, boxes: seq<BoxWithDepth>, ghost s: seq<Point>)
      returns (out: seq<BoxWithDepth>)
      requires Valid() && Sized(highBox, ndim) && s == points[..]
      requires 0 <= m <= right < points.Length
      ensures out == boxes + Recorded(InternalVisits(s, m + 1, right, depth + 1, ndim, bucketSize, highBox))
      decreases right - m + 1, 0
    {
      out := InsertBoxes(m + 1, right, depth + 1, highBox, boxes, s);
    }

    /** `getBoundingBoxes(outerBox)` of source/kdtree.h. */
    method GetBoundingBoxes(outerBox: Box) returns (boxes: seq<BoxWithDepth>)
      requires Valid() && Sized(outerBox, ndim)
      ensures boxes == Recorded(InternalVisits(points[..], 0, points.Length - 1, 0, ndim, bucketSize, outerBox))
    {
      boxes := InsertBoxes(0, points.Length - 1, 0, outerBox, [], points[..]);
    }
  }

  /**
   * `result` is a k-nearest choice from `s`: `min(k, |s|)` points of `s`,
   * counted with multiplicity, none of them farther from the origin than a
   * point of `s` left out of it.
   */
  ghost predicate KNearestOf(result: seq<Point>, s: seq<Point>, origin: Point, k: nat) {
    Dimensioned(s, |origin|) && Dimensioned(result, |origin|) &&
    |result| == (if |s| < k then |s| else k) &&
    multiset(result) <= multiset(s) &&
    forall i, j :: 0 <= i < |result| && 0 <= j < |s| && s[j] in multiset(s) - multiset(result) ==>
      SqDist(origin, result[i]) <= SqDist(origin, s[j])
  }

  /** The points of measured entries have the origin's dimension. */
  lemma MeasuredPointsDimensioned(es: seq<Entry>, origin: Point)
    requires Measured(es, origin)
    ensures Dimensioned(Points(es), |origin|)
  {
    forall i | 0 <= i < |Points(es)| ensures |Points(es)[i]| == |origin| {
      PointsAt(es, i);
    }
  }

  /**
   * A collector shown `shown`, that passed over the points `pruned` only
   * once full and with no pruned point nearer than its `maxDistance`, holds
   * a k-nearest choice of all the points the two make up.
   */
  lemma TrackedAreNearest(st: KState, k: nat, shown: seq<Entry>, evicted: seq<Entry>, pruned: seq<Point>,
                          s: seq<Point>, origin: Point)
    requires Tracks(st, k, shown, evicted)
    requires Measured(shown, origin) && Dimensioned(s, |origin|)
    requires multiset(Points(shown)) + multiset(pruned) == multiset(s)
    requires pruned != [] ==> |st.queue| >= k
    requires forall q :: q in pruned ==> |q| == |origin| && st.maxDistance <= SqDist(origin, q)
    ensures KNearestOf(Points(Drain(st.queue)), s, origin, k)
    ensures Measured(Drain(st.queue), origin)
  {
    var d := Drain(st.queue);
    var result := Points(d);
    var outs := multiset(Points(evicted)) + multiset(pruned);
    assert multiset(d) == multiset(st.queue) && Measured(d, origin) && Measured(evicted, origin) by {
      DrainIsPermutation(st.queue);
      HeldMeasured(st.queue, evicted, shown, d, origin);
    }
    assert multiset(result) <= multiset(s) && multiset(s) - multiset(result) == outs by {
      DrainedPointsSplit(st, k, shown, evicted);
      Regroup(multiset(result), multiset(Points(evicted)), multiset(Points(shown)), multiset(pruned));
      Cancel(multiset(result), outs, multiset(s));
    }
    assert |result| == if |s| < k then |s| else k by {
      NearestSize(st, k, shown, evicted, pruned, s);
    }
    HeldNoFarther(st, k, shown, evicted, pruned, s, origin, d, result);
    KNearestOfParts(result, s, origin, k);
  }

  /** Adding `d` to both sides of `a + b == c`, regrouped. */
  lemma Regroup<T>(a: multiset<T>, b: multiset<T>, c: multiset<T>, d: multiset<T>)
    requires a + b == c
    ensures a + (b + d) == c + d
  {
  }

  /** The parts of `KNearestOf`. */
  lemma KNearestOfParts(result: seq<Point>, s: seq<Point>, origin: Point, k: nat)
    requires Dimensioned(s, |origin|) && Dimensioned(result, |origin|)
    requires |result| == (if |s| < k then |s| else k) && multiset(result) <= multiset(s)
    requires forall i, j :: 0 <= i < |result| && 0 <= j < |s| && s[j] in multiset(s) - multiset(result) ==>
      SqDist(origin, result[i]) <= SqDist(origin, s[j])
    ensures KNearestOf(result, s, origin, k)
  {
  }

  /** The drained points, each no farther than a point of `s` evicted or passed over. */
  lemma HeldNoFarther(st: KState, k: nat, shown: seq<Entry>, evicted: seq<Entry>, pruned: seq<Point>,
                      s: seq<Point>, origin: Point, d: seq<Entry>, result: seq<Point>)
    requires Tracks(st, k, shown, evicted) && Measured(evicted, origin) && Measured(d, origin)
    requires multiset(d) == multiset(st.queue) && result == Points(d)
    requires Dimensioned(s, |origin|)
    requires multiset(s) - multiset(result) == multiset(Points(evicted)) + multiset(pruned)
    requires forall q :: q in pruned ==> |q| == |origin| && st.maxDistance <= SqDist(origin, q)
    ensures Dimensioned(result, |origin|)
    ensures forall i, j :: 0 <= i < |result| && 0 <= j < |s| && s[j] in multiset(s) - multiset(result) ==>
      SqDist(origin, result[i]) <= SqDist(origin, s[j])
  {
    forall i | 0 <= i < |result| ensures |result[i]| == |origin| {
      PointsAt(d, i);
    }
    forall i, j | 0 <= i < |result| && 0 <= j < |s| && s[j] in multiset(s) - multiset(result)
      ensures SqDist(origin, result[i]) <= SqDist(origin, s[j])
    {
      PointsAt(d, i);
      assert d[i] in multiset(st.queue);
      LeftOutIsFarther(st, k, shown, evicted, pruned, origin, d[i], s[j]);
    }
  }

  /** A tracking collector holds `min(k, |s|)` entries when only a full one passed points over. */
  lemma NearestSize(st: KState, k: nat, shown: seq<Entry>, evicted: seq<Entry>, pruned: seq<Point>, s: seq<Point>)
    requires Tracks(st, k, shown, evicted)
    requires multiset(Points(shown)) + multiset(pruned) == multiset(s)
    requires pruned != [] ==> |st.queue| >= k
    ensures |st.queue| == if |s| < k then |s| else k
  {
    assert |s| == |multiset(s)| == |Points(shown)| + |pruned|;
  }

  /** Entries held (in any order) or evicted are entries shown, so they are measured. */
  lemma HeldMeasured(q: seq<Entry>, evicted: seq<Entry>, shown: seq<Entry>, d: seq<Entry>, origin: Point)
    requires multiset(q) + multiset(evicted) == multiset(shown)
    requires multiset(d) == multiset(q)
    requires Measured(shown, origin)
    ensures Measured(d, origin) && Measured(evicted, origin)
  {
    forall i | 0 <= i < |d| ensures |d[i].point| == |origin| && d[i].distance == SqDist(origin, d[i].point) {
      assert d[i] in multiset(d);
      assert d[i] in multiset(shown);
      var t :| 0 <= t < |shown| && shown[t] == d[i];
    }
    forall i | 0 <= i < |evicted| ensures |evicted[i].point| == |origin| && evicted[i].distance == SqDist(origin, evicted[i].point) {
      assert evicted[i] in multiset(evicted);
      assert evicted[i] in multiset(shown);
      var t :| 0 <= t < |shown| && shown[t] == evicted[i];
    }
  }

  /** A held entry is no farther than a point evicted or passed over. */
  lemma LeftOutIsFarther(st: KState, k: nat, shown: seq<Entry>, evicted: seq<Entry>, pruned: seq<Point>,
                         origin: Point, x: Entry, q: Point)
    requires Tracks(st, k, shown, evicted) && Measured(evicted, origin)
    requires x in multiset(st.queue)
    requires q in multiset(Points(evicted)) + multiset(pruned)
    requires forall p :: p in pruned ==> |p| == |origin| && st.maxDistance <= SqDist(origin, p)
    ensures |q| == |origin| && x.distance <= SqDist(origin, q)
  {
    var t :| 0 <= t < |st.queue| && st.queue[t] == x;
    if q in multiset(pruned) {
      assert q in pruned;
    } else {
      assert q in Points(evicted);
      PointsMembers(evicted, q);
      var e :| 0 <= e < |evicted| && evicted[e].point == q;
      assert st.queue[t].distance <= evicted[e].distance;
    }
  }

  /**
   * What the naive walk leaves in the collector: drained, farthest first, a
   * k-nearest choice of `s`.
   */
  lemma NaiveResult(s: seq<Point>, origin: Point, k: nat, st: KState, considered: seq<Entry>, evicted: seq<Entry>)
    requires Dimensioned(s, |origin|)
    requires Tracks(st, k, considered, evicted)
    requires considered == [] + Measure(s, 0, |s|, origin)
    ensures NonIncreasing(Drain(st.queue))
    ensures Measured(Drain(st.queue), origin)
    ensures KNearestOf(Points(Drain(st.queue)), s, origin, k)
  {
    assert considered == Measure(s, 0, |s|, origin);
    MeasureFacts(s, 0, |s|, origin);
    assert s[0..|s|] == s;
    TrackedAreNearest(st, k, considered, evicted, [], s, origin);
    DrainIsNonIncreasing(st.queue);
  }

  /**
   * The collector after `collectKNearest(left, right, depth, collector)`,
   * from the collector `st`: a leaf considers its bucket in order; an
   * internal range walks the half on the origin's side, then the far half
   * when `maxDistance` reaches across the split, then the split point.
   */
  ghost function NearestWalk(s: seq<Point>, left: int, right: int, depth: nat, ndim: nat, leafSize: nat,
                             k: nat, origin: Point, st: KState): (r: KState)
    requires 0 <= left <= right + 1 <= |s|
    requires ndim >= 1 && |origin| == ndim && Dimensioned(s, ndim)
    requires KValid(st, k)
    ensures KValid(r, k)
    decreases right - left + 1, 2
  {
    if IsLeaf(left, right, leafSize) then OfferAll(st, k, Measure(s, left, right + 1, origin))
    else
      var m := MedianIndex(left, right);
      var axis := Axis(depth, ndim);
      var before :=
        if origin[axis] <= s[m][axis]
        then NearestLowFirst(s, left, right, depth, ndim, leafSize, k, origin, m, origin[axis], s[m][axis], st)
        else NearestHighFirst(s, left, right, depth, ndim, leafSize, k, origin, m, origin[axis], s[m][axis], st);
      var e := Entry(s[m], SqDist(origin, s[m]));
      OfferKeepsValid(before, k, e);
      Offer(before, k, e)
  }

  /** An internal range: the near half first, then the split point. */
  lemma WalkNode(s: seq<Point>, left: int, right: int, depth: nat, ndim: nat, leafSize: nat,
                 k: nat, origin: Point, st: KState)
    requires 0 <= left <= right + 1 <= |s|
    requires ndim >= 1 && |origin| == ndim && Dimensioned(s, ndim)
    requires KValid(st, k) && !IsLeaf(left, right, leafSize)
    ensures var m := MedianIndex(left, right);
            var axis := Axis(depth, ndim);
            var before :=
              if origin[axis] <= s[m][axis]
              then NearestLowFirst(s, left, right, depth, ndim, leafSize, k, origin, m, origin[axis], s[m][axis], st)
              else NearestHighFirst(s, left, right, depth, ndim, leafSize, k, origin, m, origin[axis], s[m][axis], st);
            NearestWalk(s, left, right, depth, ndim, leafSize, k, origin, st) == Offer(before, k, Entry(s[m], SqDist(origin, s[m])))
  {
  }

  /** The low half, then the high half as `NearestFarHigh` decides. */
  ghost function NearestLowFirst(s: seq<Point>, left: int, right: int, depth: nat, ndim: nat, leafSize: nat,
                                 k: nat, origin: Point, m: int, originPos: real, splitPos: real, st: KState): (r: KState)
    requires 0 <= left <= m <= right < |s|
    requires ndim >= 1 && |origin| == ndim && Dimensioned(s, ndim)
    requires KValid(st, k)
    ensures KValid(r, k)
    decreases right - left + 1, 1
  {
    NearestFarHigh(s, m, right, depth, ndim, leafSize, k, origin, originPos, splitPos,
                   NearestWalk(s, left, m - 1, depth + 1, ndim, leafSize, k, origin, st))
  }

  /** `NearestLowFirst` walks the low half, then decides on the high half. */
  lemma LowFirstWalk(s: seq<Point>, left: int, right: int, depth: nat, ndim: nat, leafSize: nat,
                     k: nat, origin: Point, m: int, originPos: real, splitPos: real, st: KState)
    requires 0 <= left <= m <= right < |s|
    requires ndim >= 1 && |origin| == ndim && Dimensioned(s, ndim)
    requires KValid(st, k)
    ensures NearestLowFirst(s, left, right, depth, ndim, leafSize, k, origin, m, originPos, splitPos, st) ==
            NearestFarHigh(s, m, right, depth, ndim, leafSize, k, origin, originPos, splitPos,
                           NearestWalk(s, left, m - 1, depth + 1, ndim, leafSize, k, origin, st))
  {
  }

  /** `NearestHighFirst` walks the high half, then decides on the low half. */
  lemma HighFirstWalk(s: seq<Point>, left: int, right: int, depth: nat, ndim: nat, leafSize: nat,
                      k: nat, origin: Point, m: int, originPos: real, splitPos: real, st: KState)
    requires 0 <= left <= m <= right < |s|
    requires ndim >= 1 && |origin| == ndim && Dimensioned(s, ndim)
    requires KValid(st, k)
    ensures NearestHighFirst(s, left, right, depth, ndim, leafSize, k, origin, m, originPos, splitPos, st) ==
            NearestFarLow(s, left, m, depth, ndim, leafSize, k, origin, originPos, splitPos,
                          NearestWalk(s, m + 1, right, depth + 1, ndim, leafSize, k, origin, st))
  {
  }

  /** The high half, then the low half as `NearestFarLow` decides. */
  ghost function NearestHighFirst(s: seq<Point>, left: int, right: int, depth: nat, ndim: nat, leafSize: nat,
                                  k: nat, origin: Point, m: int, originPos: real, splitPos: real, st: KState): (r: KState)
    requires 0 <= left <= m <= right < |s|
    requires ndim >= 1 && |origin| == ndim && Dimensioned(s, ndim)
    requires KValid(st, k)
    ensures KValid(r, k)
    decreases right - left + 1, 1
  {
    NearestFarLow(s, left, m, depth, ndim, leafSize, k, origin, originPos, splitPos,
                  NearestWalk(s, m + 1, right, depth + 1, ndim, leafSize, k, origin, st))
  }

  /** The high half walked second: only when `maxDistance` reaches up across the split (source/kdtree.hpp:301). */
  ghost function NearestFarHigh(s: seq<Point>, m: int, right: int, depth: nat, ndim: nat, leafSize: nat,
                                k: nat, origin: Point, originPos: real, splitPos: real, st: KState): (r: KState)
    requires 0 <= m <= right < |s|
    requires ndim >= 1 && |origin| == ndim && Dimensioned(s, ndim)
    requires KValid(st, k)
    ensures KValid(r, k)
    decreases right - m + 1, 0
  {
    if ReachesUp(originPos, splitPos, st.maxDistance)
    then NearestWalk(s, m + 1, right, depth + 1, ndim, leafSize, k, origin, st)
    else st
  }

  /** The low half walked second: only when `maxDistance` reaches down across the split (source/kdtree.hpp:306). */
  ghost function NearestFarLow(s: seq<Point>, left: int, m: int, depth: nat, ndim: nat, leafSize: nat,
                               k: nat, origin: Point, originPos: real, splitPos: real, st: KState): (r: KState)
    requires 0 <= left <= m < |s|
    requires ndim >= 1 && |origin| == ndim && Dimensioned(s, ndim)
    requires KValid(st, k)
    ensures KValid(r, k)
    decreases m - left + 1, 0
  {
    if ReachesDown(originPos, splitPos, st.maxDistance)
    then NearestWalk(s, left, m - 1, depth + 1, ndim, leafSize, k, origin, st)
    else st
  }
}
