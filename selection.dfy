/**
 * In-place selection on the point buffer: `swap`, `partition` with its
 * equal-run advance, the two pivot rules and the two quickselects
 * (source/kdtree.hpp:133-178 and its copy in source/kdtree.h:132-177 with
 * values read through `GetKey`; kdtree/main.cc:166-208 and
 * playground/pykdtree2.py:92-128 with a drawn pivot).
 *
 * Every method that rewrites the buffer promises the same frame: the whole
 * array is a permutation of what it was and nothing outside `[left, right]`
 * moved (`RangePermutation` turns that into "the range is a permutation of its
 * old contents").
 */
module Selection {
  import opened Geometry
  import Random

  /** `getMedianIndex`: `(left + right) / 2`, with C++'s division that truncates toward zero. */
  function MedianIndex(left: int, right: int): (m: int)
    ensures left <= right ==> left <= m <= right
    ensures 0 <= left <= right ==> m - left <= right - m <= m - left + 1
  {
    if left + right >= 0 then (left + right) / 2 else -((-(left + right)) / 2)
  }

  /**
   * `GetKey(point, axis)` / `point[axis]`: the coordinate a range is split on.
   * Every point of a tree has the tree's dimension, so the default is never read.
   */
  function Key(p: Point, axis: nat): real {
    if axis < |p| then p[axis] else 0.0
  }

  /** Every key on `axis` in `[left, right]` is at most `b`. */
  ghost predicate AtMost(s: seq<Point>, left: int, right: int, axis: nat, b: real) {
    forall i :: left <= i <= right && 0 <= i < |s| ==> Key(s[i], axis) <= b
  }

  /** Every key on `axis` in `[left, right]` is at least `b`. */
  ghost predicate AtLeast(s: seq<Point>, left: int, right: int, axis: nat, b: real) {
    forall i :: left <= i <= right && 0 <= i < |s| ==> b <= Key(s[i], axis)
  }

  /** `t` equals `s` outside `[left, right]`. */
  ghost predicate SameOutside(s: seq<Point>, t: seq<Point>, left: int, right: int) {
    |s| == |t| && forall i :: 0 <= i < |s| && (i < left || right < i) ==> s[i] == t[i]
  }

  /** A permutation of the whole buffer that fixes everything outside `[left, right]` permutes the range. */
  lemma RangePermutation(s: seq<Point>, t: seq<Point>, left: int, right: int)
    requires 0 <= left <= right + 1 <= |s|
    requires multiset(s) == multiset(t)
    requires SameOutside(s, t, left, right)
    ensures multiset(s[left..right + 1]) == multiset(t[left..right + 1])
  {
    var before, after := s[..left], s[right + 1..];
    assert s == before + s[left..right + 1] + after;
    assert t == before + t[left..right + 1] + after;
    MultisetCancel(multiset(before), multiset(after), multiset(s[left..right + 1]), multiset(t[left..right + 1]));
  }

  /** Equal multiset sums with equal outer parts have equal middles. */
  lemma MultisetCancel<T>(a: multiset<T>, c: multiset<T>, b1: multiset<T>, b2: multiset<T>)
    requires a + b1 + c == a + b2 + c
    ensures b1 == b2
  {
    assert b1 == (a + b1 + c) - a - c;
  }

  /** A bound on every key of a range survives any permutation of the range. */
  lemma BoundsSurvivePermutation(s: seq<Point>, t: seq<Point>, left: int, right: int, axis: nat, b: real)
    requires 0 <= left <= right + 1 <= |s| == |t|
    requires multiset(s[left..right + 1]) == multiset(t[left..right + 1])
    ensures AtMost(s, left, right, axis, b) ==> AtMost(t, left, right, axis, b)
    ensures AtLeast(s, left, right, axis, b) ==> AtLeast(t, left, right, axis, b)
  {
    forall i | left <= i <= right
      ensures exists j :: left <= j <= right && s[j] == t[i]
    {
      assert t[i] == t[left..right + 1][i - left];
      assert t[i] in multiset(t[left..right + 1]);
      assert t[i] in s[left..right + 1];
      var j :| 0 <= j < right + 1 - left && s[left..right + 1][j] == t[i];
      assert s[left + j] == t[i];
    }
  }

  /**
   * A range permutation leaves a bound on an interval intact when the interval
   * contains the permuted range or lies outside it.
   */
  lemma BoundsSurviveRangePermutation(s: seq<Point>, t: seq<Point>, left: int, right: int,
                                      x: int, y: int, axis: nat, b: real)
    requires 0 <= left <= right + 1 <= |s|
    requires SameOutside(s, t, left, right)
    requires multiset(s[left..right + 1]) == multiset(t[left..right + 1])
    requires (x <= left && right <= y) || y < left || right < x
    ensures AtMost(s, x, y, axis, b) ==> AtMost(t, x, y, axis, b)
    ensures AtLeast(s, x, y, axis, b) ==> AtLeast(t, x, y, axis, b)
  {
    BoundsSurvivePermutation(s, t, left, right, axis, b);
  }

  /** The element at `k` sits where it would in `[left, right]` sorted on `axis`. */
  ghost predicate Selected(s: seq<Point>, left: int, right: int, k: int, axis: nat)
    requires 0 <= k < |s|
  {
    AtMost(s, left, k - 1, axis, Key(s[k], axis)) && AtLeast(s, k + 1, right, axis, Key(s[k], axis))
  }

  /** `swap(a, b)`: exchange two elements of the buffer. */
  method Swap(a: array<Point>, i: int, j: int)
    requires 0 <= i < a.Length
    requires 0 <= j < a.Length
    modifies a
    ensures a[i] == old(a[j]) && a[j] == old(a[i])
    ensures forall k :: 0 <= k < a.Length && k != i && k != j ==> a[k] == old(a[k])
    ensures multiset(a[..]) == multiset(old(a[..]))
  {
    var tmp := a[i];
    a[i] := a[j];
    a[j] := tmp;
  }

  /**
   * The first half of `partition(left, right, axis, pivotIndex)`: the pivot
   * moves to the end, keys strictly below the pivot key are swapped to the
   * front, and the pivot is placed at the first index past them.
   */
  method LomutoPartition(a: array<Point>, left: int, right: int, axis: nat, pivotIndex: int)
    returns (index: int)
    requires 0 <= left <= pivotIndex <= right < a.Length
    modifies a
    ensures multiset(a[..]) == multiset(old(a[..]))
    ensures SameOutside(old(a[..]), a[..], left, right)
    ensures left <= index <= right
    ensures a[index] == old(a[pivotIndex])
    ensures forall i :: left <= i < index ==> Key(a[i], axis) < Key(old(a[pivotIndex]), axis)
    ensures forall i :: index < i <= right ==> Key(a[i], axis) >= Key(old(a[pivotIndex]), axis)
  {
    ghost var pivot := a[pivotIndex];
    var pivotValue := Key(a[pivotIndex], axis);

    Swap(a, pivotIndex, right);

    index := left;
    for i := left to right
      invariant left <= index <= i <= right
      invariant a[right] == pivot
      invariant forall j :: left <= j < index ==> Key(a[j], axis) < pivotValue
      invariant forall j :: index <= j < i ==> Key(a[j], axis) >= pivotValue
      invariant multiset(a[..]) == multiset(old(a[..]))
      invariant SameOutside(old(a[..]), a[..], left, right)
    {
      if Key(a[i], axis) < pivotValue {
        Swap(a, index, i);
        index := index + 1;
      }
    }

    Swap(a, right, index);
  }

  /**
   * `partition(left, right, axis, pivotIndex)`. After the Lomuto pass (the
   * pivot lands at `lomuto`), the returned `split` advances over keys equal to
   * the pivot key, never past the median, so that runs of equal keys still
   * split near the middle.
   */
  method Partition(a: array<Point>, left: int, right: int, axis: nat, pivotIndex: int)
    returns (split: int, ghost lomuto: int)
    requires 0 <= left <= pivotIndex <= right < a.Length
    modifies a
    ensures multiset(a[..]) == multiset(old(a[..]))
    ensures SameOutside(old(a[..]), a[..], left, right)
    ensures left <= lomuto <= split <= right
    ensures a[lomuto] == old(a[pivotIndex])
    ensures forall i :: left <= i < lomuto ==> Key(a[i], axis) < Key(old(a[pivotIndex]), axis)
    ensures forall i :: lomuto <= i <= split ==> Key(a[i], axis) == Key(old(a[pivotIndex]), axis)
    ensures forall i :: split < i <= right ==> Key(a[i], axis) >= Key(old(a[pivotIndex]), axis)
    ensures split == lomuto || split <= MedianIndex(left, right)
    ensures split < MedianIndex(left, right) ==> Key(a[split + 1], axis) != Key(old(a[pivotIndex]), axis)
  {
    var pivotValue := Key(a[pivotIndex], axis);
    var index := LomutoPartition(a, left, right, axis, pivotIndex);
    lomuto := index;

    var medianIndex := MedianIndex(left, right);
    while index < medianIndex && Key(a[index + 1], axis) == pivotValue
      invariant lomuto <= index <= right
      invariant index == lomuto || index <= medianIndex
      invariant forall j :: lomuto <= j <= index ==> Key(a[j], axis) == pivotValue
    {
      index := index + 1;
    }
    split := index;
  }

  /** `selectPivotIndex` of the C++ trees: `left + randomInt_Positive(left ^ right) % (right - left)`. */
  function HashPivotIndex(left: int, right: int): (p: int)
    requires 0 <= left < right < 0x8000_0000
    ensures left <= p < right
  {
    left + (Random.RandomIntPositive((left as bv32) ^ (right as bv32)) as int) % (right - left)
  }

  /**
   * The drawn pivot: `left + rand() % (right - left)` (kdtree/main.cc) and
   * `randrange(left, right)` (pykdtree2.py), for a generator output `draw >= 0`.
   */
  function DrawnPivotIndex(left: int, right: int, draw: nat): (p: int)
    requires left < right
    ensures left <= p < right
  {
    left + draw % (right - left)
  }

  /** What `Partition` leaves in `[l, r]` for the pivot key `pv`. */
  ghost predicate PartitionedAt(s: seq<Point>, l: int, r: int, lomuto: int, split: int, axis: nat, pv: real) {
    0 <= l <= lomuto <= split <= r < |s| &&
    Key(s[lomuto], axis) == pv &&
    (forall i :: l <= i < lomuto ==> Key(s[i], axis) < pv) &&
    (forall i :: lomuto <= i <= split ==> Key(s[i], axis) == pv) &&
    (forall i :: split < i <= r ==> Key(s[i], axis) >= pv)
  }

  /**
   * One quickselect step: after partitioning the live range `[l, r]` inside
   * `[left, right]`, the side that is dropped is bounded by the pivot key, and
   * a split on `k` finishes the selection.
   */
  lemma QuickselectStep(s: seq<Point>, left: int, right: int, l: int, r: int, lomuto: int, split: int,
                        k: int, axis: nat, pv: real, below: real, above: real)
    requires left <= l <= k <= r <= right < |s|
    requires PartitionedAt(s, l, r, lomuto, split, axis, pv)
    requires AtMost(s, left, l - 1, axis, below) && below <= pv
    requires AtLeast(s, r + 1, right, axis, above) && pv <= above
    ensures k < split ==> AtMost(s, left, split - 1, axis, pv) && AtLeast(s, split, right, axis, pv)
    ensures k > split ==> AtMost(s, left, split, axis, pv) && AtLeast(s, split + 1, right, axis, pv)
    ensures k == split ==> Selected(s, left, right, k, axis)
  {
  }

  /** A range shrunk to the single index `k` between its two bounds is selected. */
  lemma QuickselectDone(s: seq<Point>, left: int, right: int, k: int, axis: nat, below: real, above: real)
    requires 0 <= left <= k <= right < |s|
    requires AtMost(s, left, k - 1, axis, below) && AtLeast(s, k, right, axis, below)
    requires AtLeast(s, k + 1, right, axis, above) && AtMost(s, left, k, axis, above)
    ensures Selected(s, left, right, k, axis)
  {
  }

  /**
   * The body of the selection loop: partition the live range `[l, r]` of
   * `[left, right]` around `pivotIndex`. The bounds known for the parts
   * outside `[l, r]` survive, and the returned split is bounded by the pivot key.
   */
  method SelectionRound(a: array<Point>, left: int, right: int, l: int, r: int, k: int, axis: nat,
                        pivotIndex: int, ghost hasBelow: bool, ghost below: real,
                        ghost hasAbove: bool, ghost above: real)
    returns (split: int, ghost pv: real)
    requires 0 <= left <= l <= k <= r <= right < a.Length
    requires l <= pivotIndex <= r
    requires hasBelow ==> AtMost(a[..], left, l - 1, axis, below) && AtLeast(a[..], l, right, axis, below)
    requires !hasBelow ==> l == left
    requires hasAbove ==> AtLeast(a[..], r + 1, right, axis, above) && AtMost(a[..], left, r, axis, above)
    requires !hasAbove ==> r == right
    modifies a
    ensures multiset(a[..]) == multiset(old(a[..]))
    ensures SameOutside(old(a[..]), a[..], l, r)
    ensures l <= split <= r
    ensures hasBelow ==> AtMost(a[..], left, l - 1, axis, below) && AtLeast(a[..], l, right, axis, below)
    ensures hasAbove ==> AtLeast(a[..], r + 1, right, axis, above) && AtMost(a[..], left, r, axis, above)
    ensures k < split ==> AtMost(a[..], left, split - 1, axis, pv) && AtLeast(a[..], split, right, axis, pv)
    ensures k > split ==> AtMost(a[..], left, split, axis, pv) && AtLeast(a[..], split + 1, right, axis, pv)
    ensures k == split ==> Selected(a[..], left, right, k, axis)
  {
    ghost var before := a[..];
    pv := Key(a[pivotIndex], axis);
    ghost var lomuto;
    split, lomuto := Partition(a, l, r, axis, pivotIndex);
    RangePermutation(before, a[..], l, r);
    BoundsSurviveRangePermutation(before, a[..], l, r, left, l - 1, axis, below);
    BoundsSurviveRangePermutation(before, a[..], l, r, l, right, axis, below);
    BoundsSurviveRangePermutation(before, a[..], l, r, r + 1, right, axis, above);
    BoundsSurviveRangePermutation(before, a[..], l, r, left, r, axis, above);
    assert Key(a[lomuto], axis) == pv;
    QuickselectStep(a[..], left, right, l, r, lomuto, split, k, axis, pv,
                    if hasBelow then below else pv, if hasAbove then above else pv);
  }

  /**
   * `quickselect_Iterative(left, right, k, axis)` with the hash pivot: narrows
   * `[l, r]` around `k` until the range is a single index or the split lands
   * on `k`. The ghost bounds record what the discarded parts are known to be
   * below (`below`) or above (`above`).
   */
  method QuickselectIterative(a: array<Point>, left: int, right: int, k: int, axis: nat)
    requires 0 <= left <= k <= right < a.Length
    requires right < 0x8000_0000
    modifies a
    ensures multiset(a[..]) == multiset(old(a[..]))
    ensures SameOutside(old(a[..]), a[..], left, right)
    ensures Selected(a[..], left, right, k, axis)
  {
    var l, r := left, right;
    ghost var hasBelow, below, hasAbove, above := false, 0.0, false, 0.0;
    while l < r
      invariant left <= l <= k <= r <= right
      invariant multiset(a[..]) == multiset(old(a[..]))
      invariant SameOutside(old(a[..]), a[..], left, right)
      invariant hasBelow ==> AtMost(a[..], left, l - 1, axis, below) && AtLeast(a[..], l, right, axis, below)
      invariant !hasBelow ==> l == left
      invariant hasAbove ==> AtLeast(a[..], r + 1, right, axis, above) && AtMost(a[..], left, r, axis, above)
      invariant !hasAbove ==> r == right
      decreases r - l
    {
      var pivotIndex := HashPivotIndex(l, r);
      var split;
      ghost var pv;
      split, pv := SelectionRound(a, left, right, l, r, k, axis, pivotIndex, hasBelow, below, hasAbove, above);
      if k < split {
        r := split - 1;
        hasAbove, above := true, pv;
      } else if k > split {
        l := split + 1;
        hasBelow, below := true, pv;
      } else {
        return;
      }
    }
    QuickselectDone(a[..], left, right, k, axis, if hasBelow then below else Key(a[k], axis),
                    if hasAbove then above else Key(a[k], axis));
  }

  /**
   * The left side finished: when `[left, split - 1]` (keys at most `pv`) was
   * reordered to a selection on `k` and `[split, right]` (keys at least `pv`)
   * was kept, the whole range is a selection on `k`.
   */
  lemma SelectedLeftOfSplit(before: seq<Point>, after: seq<Point>, left: int, right: int,
                            split: int, k: int, axis: nat, pv: real)
    requires 0 <= left <= k < split <= right < |before|
    requires multiset(before) == multiset(after)
    requires SameOutside(before, after, left, split - 1)
    requires AtMost(before, left, split - 1, axis, pv) && AtLeast(before, split, right, axis, pv)
    requires Selected(after, left, split - 1, k, axis)
    ensures Selected(after, left, right, k, axis)
  {
    RangePermutation(before, after, left, split - 1);
    BoundsSurvivePermutation(before, after, left, split - 1, axis, pv);
  }

  /** The mirror of `SelectedLeftOfSplit` for a `k` right of the split. */
  lemma SelectedRightOfSplit(before: seq<Point>, after: seq<Point>, left: int, right: int,
                             split: int, k: int, axis: nat, pv: real)
    requires 0 <= left <= split < k <= right < |before|
    requires multiset(before) == multiset(after)
    requires SameOutside(before, after, split + 1, right)
    requires AtMost(before, left, split, axis, pv) && AtLeast(before, split + 1, right, axis, pv)
    requires Selected(after, split + 1, right, k, axis)
    ensures Selected(after, left, right, k, axis)
  {
    RangePermutation(before, after, split + 1, right);
    BoundsSurvivePermutation(before, after, split + 1, right, axis, pv);
  }

  /**
   * The recursive `quickselect` of kdtree/main.cc and playground/pykdtree2.py,
   * whose `partition` draws its own pivot: draw `rand(t)` is used by the call
   * at counter `t`, and the counter after the last draw is returned. (The
   * Python base case `left == right` is this one: `left <= k <= right` holds
   * on every call.)
   */
  method QuickselectDrawn(a: array<Point>, left: int, right: int, k: int, axis: nat,
                          rand: nat -> nat, t: nat)
    returns (next: nat)
    requires 0 <= left <= k <= right < a.Length
    modifies a
    ensures t <= next
    ensures multiset(a[..]) == multiset(old(a[..]))
    ensures SameOutside(old(a[..]), a[..], left, right)
    ensures Selected(a[..], left, right, k, axis)
    decreases right - left
  {
    if left >= right {
      return t;
    }
    var pivotIndex := DrawnPivotIndex(left, right, rand(t));
    var split;
    ghost var pv;
    split, pv := SelectionRound(a, left, right, left, right, k, axis, pivotIndex, false, 0.0, false, 0.0);
    next := t + 1;
    if k < split {
      ghost var before := a[..];
      next := QuickselectDrawn(a, left, split - 1, k, axis, rand, next);
      SelectedLeftOfSplit(before, a[..], left, right, split, k, axis, pv);
    } else if k > split {
      ghost var before := a[..];
      next := QuickselectDrawn(a, split + 1, right, k, axis, rand, next);
      SelectedRightOfSplit(before, a[..], left, right, split, k, axis, pv);
    }
  }

  /** `fixateMedian` of the C++ trees: select the median of `[left, right]` with the hash pivot. */
  method FixateMedian(a: array<Point>, left: int, right: int, axis: nat) returns (medianIndex: int)
    requires 0 <= left <= right < a.Length
    requires right < 0x8000_0000
    modifies a
    ensures medianIndex == MedianIndex(left, right)
    ensures multiset(a[..]) == multiset(old(a[..]))
    ensures SameOutside(old(a[..]), a[..], left, right)
    ensures Selected(a[..], left, right, medianIndex, axis)
  {
    medianIndex := MedianIndex(left, right);
    QuickselectIterative(a, left, right, medianIndex, axis);
  }

  /** `fixateMedian` of kdtree/main.cc and the median step of `sortPoints`, with drawn pivots. */
  method FixateMedianDrawn(a: array<Point>, left: int, right: int, axis: nat, rand: nat -> nat, t: nat)
    returns (medianIndex: int, next: nat)
    requires 0 <= left <= right < a.Length
    modifies a
    ensures medianIndex == MedianIndex(left, right)
    ensures t <= next
    ensures multiset(a[..]) == multiset(old(a[..]))
    ensures SameOutside(old(a[..]), a[..], left, right)
    ensures Selected(a[..], left, right, medianIndex, axis)
  {
    medianIndex := MedianIndex(left, right);
    next := QuickselectDrawn(a, left, right, medianIndex, axis, rand, t);
  }
}
