/**
 * Axis-aligned bounding boxes (source/bounding_box.hpp `BoundingBox`,
 * `findBoundingBox`; the copy in source/kdtree.h is the same scan).
 *
 * A box coordinate is a float that starts at +infinity or -infinity, so it
 * is modelled as an extended real. `NaN` only arises from `inf - inf` in
 * `size`; every comparison with it is false, as in IEEE arithmetic.
 */
module BoundingBoxes {
  import opened Geometry

  datatype Ext = NegInf | Fin(v: real) | PosInf | NaN

  /** The float comparison `a < b`. */
  predicate Below(a: Ext, b: Ext) {
    if a.NaN? || b.NaN? then false
    else if a.NegInf? then !b.NegInf?
    else if a.PosInf? then false
    else b.PosInf? || (b.Fin? && a.v < b.v)
  }

  /** The float comparison `a <= b`. */
  predicate NotAbove(a: Ext, b: Ext) {
    Below(a, b) || (a == b && !a.NaN?)
  }

  lemma BelowTransitive(a: Ext, b: Ext, c: Ext)
    requires Below(a, b) && Below(b, c)
    ensures Below(a, c)
  {
  }

  /** Two values that are not NaN are ordered one way or the other. */
  lemma Total(a: Ext, b: Ext)
    requires !a.NaN? && !b.NaN?
    ensures !Below(a, b) ==> NotAbove(b, a)
  {
  }

  lemma NotAboveTransitive(a: Ext, b: Ext, c: Ext)
    requires NotAbove(a, b) && NotAbove(b, c)
    ensures NotAbove(a, c)
  {
  }

  /** The float subtraction `a - b`, without rounding. */
  function Sub(a: Ext, b: Ext): (d: Ext)
    ensures a.Fin? && b.Fin? ==> d == Fin(a.v - b.v)
    ensures d.NaN? <==> a.NaN? || b.NaN? || (a == b && !a.Fin?)
  {
    if a.NaN? || b.NaN? then NaN
    else if a.Fin? && b.Fin? then Fin(a.v - b.v)
    else if a.PosInf? then (if b.PosInf? then NaN else PosInf)
    else if a.NegInf? then (if b.NegInf? then NaN else NegInf)
    else if b.PosInf? then NegInf
    else PosInf
  }

  /** `BoundingBox<N>`: one `min` and one `max` coordinate per axis. */
  datatype Box = Box(min: seq<Ext>, max: seq<Ext>)

  predicate Sized(box: Box, ndim: nat) {
    |box.min| == ndim && |box.max| == ndim
  }

  /** The point lies inside the box on every axis. */
  ghost predicate Contains(box: Box, p: Point)
    requires Sized(box, |p|)
  {
    forall j :: 0 <= j < |p| ==> NotAbove(box.min[j], Fin(p[j])) && NotAbove(Fin(p[j]), box.max[j])
  }

  /** `size(axis)`: `max[axis] - min[axis]`. */
  function Size(box: Box, axis: nat): (d: Ext)
    requires axis < |box.min| && axis < |box.max|
    ensures box.min[axis].Fin? && box.max[axis].Fin? ==> d == Fin(box.max[axis].v - box.min[axis].v)
  {
    Sub(box.max[axis], box.min[axis])
  }

  /**
   * `maxsize()`: the largest `size(i)`, starting from 0, so the result is
   * never negative and no axis is larger; it is 0 or one of the sizes.
   */
  method MaxSize(box: Box, ndim: nat) returns (m: Ext)
    requires Sized(box, ndim)
    ensures NotAbove(Fin(0.0), m)
    ensures forall i :: 0 <= i < ndim ==> !Below(m, Size(box, i))
    ensures m == Fin(0.0) || exists i :: 0 <= i < ndim && m == Size(box, i)
  {
    m := Fin(0.0);
    for i := 0 to ndim
      invariant NotAbove(Fin(0.0), m)
      invariant forall j :: 0 <= j < i ==> !Below(m, Size(box, j))
      invariant m == Fin(0.0) || exists j :: 0 <= j < i && m == Size(box, j)
    {
      var size := Size(box, i);
      if Below(m, size) {
        forall j | 0 <= j < i ensures !Below(size, Size(box, j)) {
          if Below(size, Size(box, j)) {
            BelowTransitive(m, size, Size(box, j));
          }
        }
        m := size;
      }
    }
  }

  /** The box `findBoundingBox` starts from: `+inf` minima and `-inf` maxima. */
  function EmptyBox(ndim: nat): (box: Box)
    ensures Sized(box, ndim)
  {
    Box(seq(ndim, _ => PosInf), seq(ndim, _ => NegInf))
  }

  /** One step of the scan: lower a minimum or raise a maximum to the point's coordinate. */
  function Include(box: Box, p: Point): (r: Box)
    requires Sized(box, |p|)
    ensures Sized(r, |p|)
  {
    Box(seq(|p|, j requires 0 <= j < |p| => if Below(Fin(p[j]), box.min[j]) then Fin(p[j]) else box.min[j]),
        seq(|p|, j requires 0 <= j < |p| => if Below(box.max[j], Fin(p[j])) then Fin(p[j]) else box.max[j]))
  }

  /** The box left by scanning `ps` in order. */
  ghost function BoxOf(ps: seq<Point>, ndim: nat): (box: Box)
    requires Dimensioned(ps, ndim)
    ensures Sized(box, ndim)
    ensures forall j :: 0 <= j < ndim ==> !box.min[j].NaN? && !box.max[j].NaN?
  {
    if |ps| == 0 then EmptyBox(ndim)
    else Include(BoxOf(ps[..|ps| - 1], ndim), ps[|ps| - 1])
  }

  /** `findBoundingBox(points, length)`: the nested min/max scan. */
  method FindBoundingBox(points: seq<Point>, ndim: nat) returns (box: Box)
    requires Dimensioned(points, ndim)
    ensures box == BoxOf(points, ndim)
  {
    var lo := new Ext[ndim](_ => PosInf);
    var hi := new Ext[ndim](_ => NegInf);
    assert Box(lo[..], hi[..]) == EmptyBox(ndim);
    for i := 0 to |points|
      invariant Box(lo[..], hi[..]) == BoxOf(points[..i], ndim)
    {
      IncludePoint(lo, hi, points[i]);
      assert points[..i + 1][..i] == points[..i];
    }
    assert points[..|points|] == points;
    box := Box(lo[..], hi[..]);
  }

  /** The inner loop of `findBoundingBox`: widen the box held in `lo` and `hi` to take in `p`. */
  method IncludePoint(lo: array<Ext>, hi: array<Ext>, p: Point)
    requires lo != hi && lo.Length == |p| && hi.Length == |p|
    modifies lo, hi
    ensures Box(lo[..], hi[..]) == Include(old(Box(lo[..], hi[..])), p)
  {
    ghost var before := Box(lo[..], hi[..]);
    for j := 0 to |p|
      invariant forall t :: 0 <= t < j ==> lo[t] == Include(before, p).min[t] && hi[t] == Include(before, p).max[t]
      invariant forall t :: j <= t < |p| ==> lo[t] == before.min[t] && hi[t] == before.max[t]
    {
      var value := p[j];
      if Below(Fin(value), lo[j]) {
        lo[j] := Fin(value);
      }
      if Below(hi[j], Fin(value)) {
        hi[j] := Fin(value);
      }
    }
  }

  /** With no points the box stays at `+inf` minima and `-inf` maxima. */
  lemma EmptyScan(ndim: nat)
    ensures BoxOf([], ndim) == Box(seq(ndim, _ => PosInf), seq(ndim, _ => NegInf))
  {
  }

  /** Every scanned point lies inside the box. */
  lemma {:induction false} BoxOfContains(ps: seq<Point>, ndim: nat, i: nat)
    requires Dimensioned(ps, ndim)
    requires i < |ps|
    ensures Contains(BoxOf(ps, ndim), ps[i])
    decreases |ps|
  {
    var n := |ps| - 1;
    var before := BoxOf(ps[..n], ndim);
    var box := BoxOf(ps, ndim);
    if i == n {
      forall j | 0 <= j < ndim
        ensures NotAbove(box.min[j], Fin(ps[i][j])) && NotAbove(Fin(ps[i][j]), box.max[j])
      {
        Total(Fin(ps[i][j]), before.min[j]);
        Total(before.max[j], Fin(ps[i][j]));
      }
    } else {
      BoxOfContains(ps[..n], ndim, i);
      assert ps[..n][i] == ps[i];
      forall j | 0 <= j < ndim
        ensures NotAbove(box.min[j], Fin(ps[i][j])) && NotAbove(Fin(ps[i][j]), box.max[j])
      {
        assert NotAbove(box.min[j], before.min[j]);
        NotAboveTransitive(box.min[j], before.min[j], Fin(ps[i][j]));
        assert NotAbove(before.max[j], box.max[j]);
        NotAboveTransitive(Fin(ps[i][j]), before.max[j], box.max[j]);
      }
    }
  }

  /** With at least one point, every coordinate of the box is some point's coordinate. */
  lemma {:induction false} BoxOfAttained(ps: seq<Point>, ndim: nat, j: nat)
    requires Dimensioned(ps, ndim)
    requires |ps| > 0 && j < ndim
    ensures exists i :: 0 <= i < |ps| && BoxOf(ps, ndim).min[j] == Fin(ps[i][j])
    ensures exists i :: 0 <= i < |ps| && BoxOf(ps, ndim).max[j] == Fin(ps[i][j])
    decreases |ps|
  {
    var n := |ps| - 1;
    var box := BoxOf(ps, ndim);
    if n == 0 {
      assert ps[..0] == [];
      var start := BoxOf(ps[..0], ndim);
      assert start.min[j] == PosInf && start.max[j] == NegInf;
      assert box == Include(start, ps[0]);
      assert box.min[j] == Fin(ps[0][j]) && box.max[j] == Fin(ps[0][j]);
    } else {
      BoxOfAttained(ps[..n], ndim, j);
      var before := BoxOf(ps[..n], ndim);
      if box.min[j] != Fin(ps[n][j]) {
        var i :| 0 <= i < n && before.min[j] == Fin(ps[..n][i][j]);
        assert box.min[j] == Fin(ps[i][j]);
      }
      if box.max[j] != Fin(ps[n][j]) {
        var i :| 0 <= i < n && before.max[j] == Fin(ps[..n][i][j]);
        assert box.max[j] == Fin(ps[i][j]);
      }
    }
  }
}
