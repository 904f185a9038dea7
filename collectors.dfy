/**
 * The collectors a tree query feeds with candidate points (source/kdtree.hpp
 * and source/kdtree.h `InRadiusCollector` / `KNearestCollector`,
 * kdtree/main.cc `InRadiusCollector`, playground/pykdtree2.py
 * `CollectInRadiusHelper`).
 *
 * Distances are squared Euclidean distances: `sqrt(d) <= radius` is
 * `WithinRadius`, and comparing two square roots is comparing the squares.
 * The k-nearest sentinel `maxDistance = -1` is kept as is; it lies below every
 * squared distance exactly as it lies below every distance.
 */
module Collectors {
  import opened Geometry
  import opened FlatTree

  /** `InRadiusCollector`: keeps the points shown to it that lie in the ball. */
  class InRadiusCollector {
    const origin: Point
    const radius: real
    var points: seq<Point>

    constructor (origin: Point, radius: real)
      ensures this.origin == origin && this.radius == radius
      ensures points == []
    {
      this.origin := origin;
      this.radius := radius;
      points := [];
    }

    /** `consider(point)`: append the point when `CalcDistance(origin, point) <= radius`. */
    method Consider(p: Point)
      requires |p| == |origin|
      modifies this
      ensures points == old(points) + Keep(origin, p, radius)
    {
      var d := DistanceSquared(origin, p);
      if 0.0 <= radius && d <= radius * radius {
        points := points + [p];
      }
    }
  }

  /** `CollectInRadiusHelper`: an `InRadiusCollector` that also counts its `consider` calls. */
  class CollectInRadiusHelper {
    const origin: Point
    const radius: real
    var points: seq<Point>
    var consideredAmount: nat

    constructor (origin: Point, radius: real)
      ensures this.origin == origin && this.radius == radius
      ensures points == [] && consideredAmount == 0
    {
      this.origin := origin;
      this.radius := radius;
      points := [];
      consideredAmount := 0;
    }

    /** `consider(point)`: count the call, then append the point when `distance(point, origin) <= radius`. */
    method Consider(p: Point)
      requires |p| == |origin|
      modifies this
      ensures consideredAmount == old(consideredAmount) + 1
      ensures points == old(points) + Keep(origin, p, radius)
    {
      consideredAmount := consideredAmount + 1;
      var d := DistanceSquared(origin, p);
      if 0.0 <= radius && d <= radius * radius {
        points := points + [p];
      }
    }
  }

  /** `PointWithDistance`: a point with its (squared) distance from the query origin. */
  datatype Entry = Entry(point: Point, distance: real)

  /**
   * `queue.top()`: an entry of greatest distance (the first of them; the
   * standard leaves ties unspecified).
   */
  function TopIndex(q: seq<Entry>): (i: nat)
    requires |q| > 0
    ensures i < |q|
    ensures forall j :: 0 <= j < |q| ==> q[j].distance <= q[i].distance
    decreases |q|
  {
    if |q| == 1 then 0
    else
      var i := TopIndex(q[..|q| - 1]);
      if q[|q| - 1].distance > q[i].distance then |q| - 1 else i
  }

  /** `queue.pop()`: the queue without its top entry. */
  function Pop(q: seq<Entry>): (r: seq<Entry>)
    requires |q| > 0
    ensures |r| == |q| - 1
    ensures forall j :: 0 <= j < |r| ==> r[j] == if j < TopIndex(q) then q[j] else q[j + 1]
  {
    var i := TopIndex(q);
    q[..i] + q[i + 1..]
  }

  /** Popping removes exactly the top entry. */
  lemma PopRemovesTop(q: seq<Entry>)
    requires |q| > 0
    ensures multiset(Pop(q)) + multiset{q[TopIndex(q)]} == multiset(q)
  {
    RemoveAt(q, TopIndex(q));
  }

  lemma RemoveAt(q: seq<Entry>, i: nat)
    requires i < |q|
    ensures multiset(q[..i] + q[i + 1..]) + multiset{q[i]} == multiset(q)
  {
    assert q == q[..i] + [q[i]] + q[i + 1..];
  }

  /** The state of a `KNearestCollector`: its queue and its cached `maxDistance`. */
  datatype KState = KState(queue: seq<Entry>, maxDistance: real)

  /** The collector of a fresh `KNearestCollector(origin, k)`. */
  const Empty := KState([], -1.0)

  /**
   * The collector invariant: at most `k` entries, `maxDistance` is the
   * largest held distance (`-1` while empty), and distances are not negative.
   */
  ghost predicate KValid(st: KState, k: nat) {
    |st.queue| <= k &&
    (|st.queue| == 0 ==> st.maxDistance == -1.0) &&
    (|st.queue| > 0 ==> st.maxDistance == st.queue[TopIndex(st.queue)].distance) &&
    forall i :: 0 <= i < |st.queue| ==> st.queue[i].distance >= 0.0
  }

  /**
   * `consider` on the state: push while fewer than `k` are held; otherwise
   * replace the top entry only when the new distance is strictly smaller.
   */
  function Offer(st: KState, k: nat, e: Entry): (r: KState)
    requires KValid(st, k)
    requires e.distance >= 0.0
    ensures |r.queue| == if |st.queue| < k then |st.queue| + 1 else |st.queue|
  {
    if |st.queue| < k then
      var q := st.queue + [e];
      KState(q, q[TopIndex(q)].distance)
    else if e.distance < st.maxDistance then
      var q := Pop(st.queue) + [e];
      KState(q, q[TopIndex(q)].distance)
    else
      st
  }

  /** `consider` keeps the collector invariant. */
  lemma OfferKeepsValid(st: KState, k: nat, e: Entry)
    requires KValid(st, k)
    requires e.distance >= 0.0
    ensures KValid(Offer(st, k, e), k)
  {
    if |st.queue| < k {
      AppendKeepsValid(st.queue, e, k);
    } else if e.distance < st.maxDistance {
      var rest := Pop(st.queue);
      assert forall j :: 0 <= j < |rest| ==> rest[j].distance >= 0.0;
      AppendKeepsValid(rest, e, k);
    }
  }

  /** Pushing onto a queue with room left, and caching the new top distance, gives a valid state. */
  lemma AppendKeepsValid(q: seq<Entry>, e: Entry, k: nat)
    requires |q| < k && e.distance >= 0.0
    requires forall i :: 0 <= i < |q| ==> q[i].distance >= 0.0
    ensures KValid(KState(q + [e], (q + [e])[TopIndex(q + [e])].distance), k)
  {
    var r := q + [e];
    forall i | 0 <= i < |r| ensures r[i].distance >= 0.0 {
      if i < |q| {
        assert r[i] == q[i];
      }
    }
  }

  /** What a `consider` step leaves out for good: the popped top entry, or the rejected new one. */
  function Evicted(st: KState, k: nat, e: Entry): (out: seq<Entry>)
    requires KValid(st, k)
    requires e.distance >= 0.0
    ensures |out| <= 1
  {
    if |st.queue| < k then []
    else if e.distance < st.maxDistance then [st.queue[TopIndex(st.queue)]]
    else [e]
  }

  /** Every held distance is at most every evicted one. */
  ghost predicate HeldBeforeEvicted(held: seq<Entry>, evicted: seq<Entry>) {
    forall i, j :: 0 <= i < |held| && 0 <= j < |evicted| ==> held[i].distance <= evicted[j].distance
  }

  /**
   * One `consider` step keeps the best-so-far property: nothing is lost, the
   * queue grows until it holds `k` entries, and every held entry is at least as
   * close as every entry ever evicted.
   */
  lemma OfferKeepsClosest(st: KState, evicted: seq<Entry>, k: nat, e: Entry)
    requires KValid(st, k)
    requires e.distance >= 0.0
    requires HeldBeforeEvicted(st.queue, evicted)
    requires |st.queue| < k ==> evicted == []
    ensures |Offer(st, k, e).queue| < k ==> evicted + Evicted(st, k, e) == []
    ensures multiset(Offer(st, k, e).queue) + multiset(evicted + Evicted(st, k, e))
         == multiset(st.queue) + multiset(evicted) + multiset{e}
    ensures HeldBeforeEvicted(Offer(st, k, e).queue, evicted + Evicted(st, k, e))
  {
    if |st.queue| < k {
      assert Offer(st, k, e).queue == st.queue + [e];
      assert Evicted(st, k, e) == [];
    } else if e.distance < st.maxDistance {
      ReplaceKeepsClosest(st, evicted, k, e);
    } else {
      RejectKeepsClosest(st, evicted, k, e);
    }
  }

  /** A full collector that swaps its top entry for a closer point. */
  lemma ReplaceKeepsClosest(st: KState, evicted: seq<Entry>, k: nat, e: Entry)
    requires KValid(st, k)
    requires e.distance >= 0.0
    requires HeldBeforeEvicted(st.queue, evicted)
    requires |st.queue| >= k && e.distance < st.maxDistance
    ensures multiset(Offer(st, k, e).queue) + multiset(evicted + Evicted(st, k, e))
         == multiset(st.queue) + multiset(evicted) + multiset{e}
    ensures HeldBeforeEvicted(Offer(st, k, e).queue, evicted + Evicted(st, k, e))
  {
    var top := st.queue[TopIndex(st.queue)];
    assert Offer(st, k, e).queue == Pop(st.queue) + [e];
    assert Evicted(st, k, e) == [top];
    PopRemovesTop(st.queue);
    ReplacedBeforeEvicted(st.queue, evicted, e);
  }

  /** After the swap, the held entries are no farther than the evicted ones and the old top. */
  lemma ReplacedBeforeEvicted(q: seq<Entry>, evicted: seq<Entry>, e: Entry)
    requires |q| > 0
    requires HeldBeforeEvicted(q, evicted)
    requires e.distance < q[TopIndex(q)].distance
    ensures HeldBeforeEvicted(Pop(q) + [e], evicted + [q[TopIndex(q)]])
  {
    var top := q[TopIndex(q)];
    var held := Pop(q) + [e];
    var out := evicted + [top];
    forall i, j | 0 <= i < |held| && 0 <= j < |out| ensures held[i].distance <= out[j].distance {
      if i < |held| - 1 {
        var from := if i < TopIndex(q) then i else i + 1;
        assert held[i] == q[from];
      }
      assert held[i].distance <= top.distance;
      if j < |evicted| {
        assert top.distance <= evicted[j].distance;
      }
    }
  }

  /** A full collector that turns down a point no closer than its top entry. */
  lemma RejectKeepsClosest(st: KState, evicted: seq<Entry>, k: nat, e: Entry)
    requires KValid(st, k)
    requires e.distance >= 0.0
    requires HeldBeforeEvicted(st.queue, evicted)
    requires |st.queue| >= k && e.distance >= st.maxDistance
    ensures multiset(Offer(st, k, e).queue) + multiset(evicted + Evicted(st, k, e))
         == multiset(st.queue) + multiset(evicted) + multiset{e}
    ensures HeldBeforeEvicted(Offer(st, k, e).queue, evicted + Evicted(st, k, e))
  {
    var out := evicted + [e];
    assert Offer(st, k, e).queue == st.queue;
    assert Evicted(st, k, e) == [e];
    forall i, j | 0 <= i < |st.queue| && 0 <= j < |out| ensures st.queue[i].distance <= out[j].distance {
      if j == |evicted| {
        assert st.queue[i].distance <= st.maxDistance;
      }
    }
  }

  /** A full collector replaces an entry only for a strictly closer point, and never grows. */
  lemma OfferReplacesOnlyCloser(st: KState, k: nat, e: Entry)
    requires KValid(st, k)
    requires e.distance >= 0.0
    requires |st.queue| >= k
    ensures Offer(st, k, e) != st ==> e.distance < st.maxDistance
    ensures |Offer(st, k, e).queue| == |st.queue|
  {
  }

  /** A collector for `k == 0` never stores anything. */
  lemma OfferZeroStoresNothing(st: KState, e: Entry)
    requires KValid(st, 0)
    requires e.distance >= 0.0
    ensures Offer(st, 0, e) == st == Empty
  {
  }

  /** The points of a sequence of entries. */
  function Points(q: seq<Entry>): (ps: seq<Point>)
    ensures |ps| == |q|
  {
    if |q| == 0 then [] else [q[0].point] + Points(q[1..])
  }

  /** `getPoints`: repeatedly take the top entry and pop it. */
  function Drain(q: seq<Entry>): (r: seq<Entry>)
    ensures |r| == |q|
    decreases |q|
  {
    if |q| == 0 then [] else [q[TopIndex(q)]] + Drain(Pop(q))
  }

  /** `getPoints` returns every held entry, each once. */
  lemma {:induction false} DrainIsPermutation(q: seq<Entry>)
    ensures multiset(Drain(q)) == multiset(q)
    decreases |q|
  {
    if |q| > 0 {
      DrainIsPermutation(Pop(q));
      PopRemovesTop(q);
    }
  }

  /** The entries are in non-increasing distance order. */
  ghost predicate NonIncreasing(q: seq<Entry>) {
    forall i, j :: 0 <= i < j < |q| ==> q[i].distance >= q[j].distance
  }

  /** `getPoints` returns the held entries farthest first. */
  lemma {:induction false} DrainIsNonIncreasing(q: seq<Entry>)
    ensures NonIncreasing(Drain(q))
    decreases |q|
  {
    if |q| > 0 {
      DrainIsNonIncreasing(Pop(q));
      TopBoundsDrain(q);
      ConsNonIncreasing(q[TopIndex(q)], Drain(Pop(q)));
    }
  }

  /** The top entry is at least as far as everything drained after it. */
  lemma TopBoundsDrain(q: seq<Entry>)
    requires |q| > 0
    ensures forall j :: 0 <= j < |Drain(Pop(q))| ==> q[TopIndex(q)].distance >= Drain(Pop(q))[j].distance
  {
    var rest := Drain(Pop(q));
    DrainIsPermutation(Pop(q));
    PopRemovesTop(q);
    forall j | 0 <= j < |rest| ensures q[TopIndex(q)].distance >= rest[j].distance {
      assert rest[j] in multiset(Pop(q));
      assert rest[j] in multiset(q);
    }
  }

  /** An entry at least as far as all of a non-increasing run may lead it. */
  lemma ConsNonIncreasing(top: Entry, rest: seq<Entry>)
    requires NonIncreasing(rest)
    requires forall j :: 0 <= j < |rest| ==> top.distance >= rest[j].distance
    ensures NonIncreasing([top] + rest)
  {
    forall i, j | 0 <= i < j < |[top] + rest| ensures ([top] + rest)[i].distance >= ([top] + rest)[j].distance {
      if i > 0 {
        assert ([top] + rest)[i] == rest[i - 1];
      }
      assert ([top] + rest)[j] == rest[j - 1];
    }
  }

  /**
   * The collector after being shown `considered`: a valid state of
   * `min(k, |considered|)` entries that, with the `evicted` ones, are exactly
   * the entries shown, none of them farther than any evicted one.
   */
  ghost predicate Tracks(st: KState, k: nat, considered: seq<Entry>, evicted: seq<Entry>) {
    KValid(st, k) &&
    multiset(st.queue) + multiset(evicted) == multiset(considered) &&
    |st.queue| == (if |considered| < k then |considered| else k) &&
    (|st.queue| < k ==> evicted == []) &&
    HeldBeforeEvicted(st.queue, evicted)
  }

  /** A fresh collector tracks the empty sequence. */
  lemma EmptyTracksNothing(k: nat)
    ensures Tracks(Empty, k, [], [])
  {
  }

  /**
   * The invariant of `KNearestCollector`: after any sequence of `consider`
   * calls the held entries are `min(k, n)` of the `n` entries shown, and none
   * is farther than one left out, i.e. they are k closest ones.
   */
  lemma OfferTracks(st: KState, k: nat, considered: seq<Entry>, evicted: seq<Entry>, e: Entry)
    requires Tracks(st, k, considered, evicted)
    requires e.distance >= 0.0
    ensures Tracks(Offer(st, k, e), k, considered + [e], evicted + Evicted(st, k, e))
  {
    OfferKeepsValid(st, k, e);
    OfferKeepsClosest(st, evicted, k, e);
    assert multiset(considered + [e]) == multiset(considered) + multiset{e};
  }

  /** One step of `getPoints`: the top entry comes first. */
  lemma DrainStep(q: seq<Entry>)
    requires |q| > 0
    ensures Points(Drain(q)) == [q[TopIndex(q)].point] + Points(Drain(Pop(q)))
  {
    var d := Drain(q);
    assert d[1..] == Drain(Pop(q));
  }

  /** Every entry carries its point's squared distance from `origin`. */
  ghost predicate Measured(es: seq<Entry>, origin: Point) {
    forall i :: 0 <= i < |es| ==> |es[i].point| == |origin| && es[i].distance == SqDist(origin, es[i].point)
  }

  /** Appending a freshly measured entry keeps a sequence measured. */
  lemma MeasuredExtend(es: seq<Entry>, origin: Point, p: Point)
    requires Measured(es, origin)
    requires |p| == |origin|
    ensures Measured(es + [Entry(p, SqDist(origin, p))], origin)
  {
  }

  /** `Points` distributes over concatenation. */
  lemma {:induction false} PointsConcat(a: seq<Entry>, b: seq<Entry>)
    ensures Points(a + b) == Points(a) + Points(b)
    decreases |a|
  {
    if |a| > 0 {
      assert (a + b)[1..] == a[1..] + b;
      PointsConcat(a[1..], b);
    } else {
      assert a + b == b;
    }
  }

  lemma {:induction false} PointsAt(q: seq<Entry>, i: nat)
    requires i < |q|
    ensures Points(q)[i] == q[i].point
    decreases i
  {
    if i > 0 {
      PointsAt(q[1..], i - 1);
    }
  }

  /** The points of the entries are exactly the entries' points. */
  lemma PointsMembers(q: seq<Entry>, p: Point)
    ensures p in Points(q) <==> exists i :: 0 <= i < |q| && q[i].point == p
  {
    if p in Points(q) {
      var i :| 0 <= i < |Points(q)| && Points(q)[i] == p;
      PointsAt(q, i);
    }
    if i :| 0 <= i < |q| && q[i].point == p {
      PointsAt(q, i);
    }
  }

  /**
   * What `getPoints` drains from a collector after being shown `considered`:
   * `min(k, n)` of the entries shown, each at most as far as any entry shown
   * and not returned.
   */
  lemma DrainedAreClosest(st: KState, k: nat, considered: seq<Entry>, evicted: seq<Entry>)
    requires Tracks(st, k, considered, evicted)
    ensures |Drain(st.queue)| == if |considered| < k then |considered| else k
    ensures multiset(Drain(st.queue)) <= multiset(considered)
    ensures forall i, c :: 0 <= i < |Drain(st.queue)| && c in multiset(considered) - multiset(Drain(st.queue)) ==>
              Drain(st.queue)[i].distance <= c.distance
  {
    var d := Drain(st.queue);
    DrainIsPermutation(st.queue);
    Cancel(multiset(d), multiset(evicted), multiset(considered));
    HeldBeforeLeftOut(st.queue, evicted, d);
  }

  /** A permutation `d` of the held entries is no farther than any evicted entry. */
  lemma HeldBeforeLeftOut(q: seq<Entry>, evicted: seq<Entry>, d: seq<Entry>)
    requires multiset(d) == multiset(q)
    requires HeldBeforeEvicted(q, evicted)
    ensures forall i, c :: 0 <= i < |d| && c in multiset(evicted) ==> d[i].distance <= c.distance
  {
    forall i, c | 0 <= i < |d| && c in multiset(evicted)
      ensures d[i].distance <= c.distance
    {
      var e :| 0 <= e < |evicted| && evicted[e] == c;
      assert d[i] in multiset(q);
      var h :| 0 <= h < |q| && q[h] == d[i];
    }
  }

  /** A non-empty sequence is its first element followed by the rest. */
  lemma Uncons<T>(a: seq<T>)
    requires |a| > 0
    ensures a == [a[0]] + a[1..]
  {
  }

  /** Taking away one part of a sum of multisets leaves the other. */
  lemma Cancel<T>(a: multiset<T>, b: multiset<T>, c: multiset<T>)
    requires c == a + b
    ensures a <= c && c - a == b
  {
  }

  /** Entries that are a permutation of each other have points that are a permutation of each other. */
  lemma {:induction false} PointsPermute(a: seq<Entry>, b: seq<Entry>)
    requires multiset(a) == multiset(b)
    ensures multiset(Points(a)) == multiset(Points(b))
    decreases |a|
  {
    if |a| == 0 {
      assert |multiset(b)| == 0;
    } else {
      var x := a[0];
      assert x in multiset(b);
      var j :| 0 <= j < |b| && b[j] == x;
      var rest := b[..j] + b[j + 1..];
      RemoveAt(b, j);
      Uncons(a);
      Cancel(multiset{x}, multiset(a[1..]), multiset(a));
      Cancel(multiset{x}, multiset(rest), multiset(b));
      PointsPermute(a[1..], rest);
      PointsRemoveAt(b, j);
      assert Points(a) == [x.point] + Points(a[1..]);
    }
  }

  /** The points of `b` are those of `b` without entry `j`, and that entry's point. */
  lemma PointsRemoveAt(b: seq<Entry>, j: nat)
    requires j < |b|
    ensures multiset(Points(b)) == multiset(Points(b[..j] + b[j + 1..])) + multiset{b[j].point}
  {
    var u, x, w := b[..j], b[j], b[j + 1..];
    Pick(b, j);
    PointsSplit(u, x, w);
  }

  /** `b` is what comes before entry `j`, the entry, and what comes after. */
  lemma Pick(b: seq<Entry>, j: nat)
    requires j < |b|
    ensures b == b[..j] + [b[j]] + b[j + 1..]
  {
    assert b == b[..j] + [b[j]] + b[j + 1..];
  }

  /** Taking `x` out from between `u` and `w` takes its point out of the points. */
  lemma {:induction false} PointsSplit(u: seq<Entry>, x: Entry, w: seq<Entry>)
    ensures multiset(Points(u + [x] + w)) == multiset(Points(u + w)) + multiset{x.point}
    decreases |u|
  {
    if |u| == 0 {
      SplitTails(u, x, w);
    } else {
      PointsSplit(u[1..], x, w);
      SplitTails(u, x, w);
    }
  }

  /** How the sequences `PointsSplit` compares lose their first element. */
  lemma SplitTails(u: seq<Entry>, x: Entry, w: seq<Entry>)
    ensures |u| == 0 ==> u + [x] + w == [x] + w && ([x] + w)[1..] == w && u + w == w
    ensures |u| > 0 ==> (u + [x] + w)[1..] == u[1..] + [x] + w && (u + w)[1..] == u[1..] + w
  {
    if |u| == 0 {
      assert u + [x] + w == [x] + w && ([x] + w)[1..] == w && u + w == w;
    } else {
      assert (u + [x] + w)[1..] == u[1..] + [x] + w;
      assert (u + w)[1..] == u[1..] + w;
    }
  }

  lemma PointsOne(x: Entry)
    ensures Points([x]) == [x.point]
  {
    assert Points([x]) == [x.point] + Points([]);
  }

  /**
   * The points `getPoints` drains and the points of the evicted entries are,
   * together, the points shown.
   */
  lemma DrainedPointsSplit(st: KState, k: nat, considered: seq<Entry>, evicted: seq<Entry>)
    requires Tracks(st, k, considered, evicted)
    ensures multiset(Points(Drain(st.queue))) + multiset(Points(evicted)) == multiset(Points(considered))
  {
    DrainIsPermutation(st.queue);
    assert multiset(Drain(st.queue) + evicted) == multiset(considered);
    PointsPermute(Drain(st.queue) + evicted, considered);
    PointsConcat(Drain(st.queue), evicted);
  }

  /** `consider` on each entry of `es` in turn, as `considerPointsInBucket` does. */
  function OfferAll(st: KState, k: nat, es: seq<Entry>): (r: KState)
    requires KValid(st, k)
    requires forall i :: 0 <= i < |es| ==> es[i].distance >= 0.0
    ensures KValid(r, k)
    decreases |es|
  {
    if |es| == 0 then st
    else
      var before := OfferAll(st, k, es[..|es| - 1]);
      OfferKeepsValid(before, k, es[|es| - 1]);
      Offer(before, k, es[|es| - 1])
  }

  /** Considering one more entry after a run. */
  lemma OfferAllStep(st: KState, k: nat, es: seq<Entry>, e: Entry)
    requires KValid(st, k)
    requires forall i :: 0 <= i < |es| ==> es[i].distance >= 0.0
    requires e.distance >= 0.0
    ensures OfferAll(st, k, es + [e]) == Offer(OfferAll(st, k, es), k, e)
  {
    assert (es + [e])[..|es|] == es;
  }

  /** The states a run of `consider` calls passes through: `r[j]` follows the first `j` entries. */
  ghost function States(st: KState, k: nat, es: seq<Entry>): (r: seq<KState>)
    requires KValid(st, k)
    requires forall i :: 0 <= i < |es| ==> es[i].distance >= 0.0
    ensures |r| == |es| + 1 && r[0] == st && r[|es|] == OfferAll(st, k, es)
    decreases |es|
  {
    if |es| == 0 then [st] else States(st, k, es[..|es| - 1]) + [OfferAll(st, k, es)]
  }

  /** Each state of a run is a valid one, and the next follows from it by one `consider`. */
  lemma {:induction false} StatesStep(st: KState, k: nat, es: seq<Entry>, j: nat)
    requires KValid(st, k)
    requires forall i :: 0 <= i < |es| ==> es[i].distance >= 0.0
    requires j < |es|
    ensures KValid(States(st, k, es)[j], k)
    ensures States(st, k, es)[j + 1] == Offer(States(st, k, es)[j], k, es[j])
    decreases |es|
  {
    var prefix := es[..|es| - 1];
    if j == |es| - 1 {
      assert States(st, k, es)[j] == OfferAll(st, k, prefix);
    } else {
      StatesStep(st, k, prefix, j);
      assert prefix[j] == es[j];
    }
  }

  /** `sts` are the states a run of `consider` calls on `es` passes through, one step at a time. */
  ghost predicate Steps(k: nat, es: seq<Entry>, sts: seq<KState>) {
    |sts| == |es| + 1 &&
    (forall j :: 0 <= j < |es| ==> es[j].distance >= 0.0) &&
    forall j {:trigger Offer(sts[j], k, es[j])} :: 0 <= j < |es| ==> KValid(sts[j], k) && sts[j + 1] == Offer(sts[j], k, es[j])
  }

  /** The states of a run step from one to the next. */
  lemma StatesAreSteps(st: KState, k: nat, es: seq<Entry>)
    requires KValid(st, k)
    requires forall i :: 0 <= i < |es| ==> es[i].distance >= 0.0
    ensures Steps(k, es, States(st, k, es))
  {
    forall j | 0 <= j < |es|
      ensures KValid(States(st, k, es)[j], k) && States(st, k, es)[j + 1] == Offer(States(st, k, es)[j], k, es[j])
    {
      StatesStep(st, k, es, j);
    }
  }

  /** Stepping from `st` through the first `n` entries is considering them all in turn. */
  lemma {:induction false} StepsReach(st: KState, k: nat, es: seq<Entry>, sts: seq<KState>, n: nat)
    requires KValid(st, k) && Steps(k, es, sts) && sts[0] == st && n <= |es|
    ensures sts[n] == OfferAll(st, k, es[..n])
    decreases n
  {
    if n > 0 {
      StepsReach(st, k, es, sts, n - 1);
      assert es[..n][..n - 1] == es[..n - 1];
    }
  }

  /**
   * From `before` to `after` the collector never shrinks, and once it holds
   * `k` entries its `maxDistance` never grows.
   */
  ghost predicate Settled(before: KState, after: KState, k: nat) {
    |before.queue| <= |after.queue| &&
    (|before.queue| >= k ==> after.maxDistance <= before.maxDistance)
  }

  /** One `consider` settles the collector: a full one only swaps its top entry for a closer one. */
  lemma OfferSettles(st: KState, k: nat, e: Entry)
    requires KValid(st, k)
    requires e.distance >= 0.0
    ensures Settled(st, Offer(st, k, e), k)
  {
    if |st.queue| >= k && e.distance < st.maxDistance {
      var q := Pop(st.queue) + [e];
      var t := TopIndex(q);
      if t < |q| - 1 {
        var from := if t < TopIndex(st.queue) then t else t + 1;
        assert q[t] == st.queue[from];
      }
    }
  }

  /** Considering a run of entries settles the collector. */
  lemma {:induction false} OfferAllSettles(st: KState, k: nat, es: seq<Entry>)
    requires KValid(st, k)
    requires forall i :: 0 <= i < |es| ==> es[i].distance >= 0.0
    ensures Settled(st, OfferAll(st, k, es), k)
    decreases |es|
  {
    if |es| > 0 {
      var before := OfferAll(st, k, es[..|es| - 1]);
      OfferAllSettles(st, k, es[..|es| - 1]);
      OfferSettles(before, k, es[|es| - 1]);
    }
  }

  /** `KNearestCollector`: a bounded best-so-far set of the points shown to it. */
  class KNearestCollector {
    const k: nat
    const origin: Point
    var maxDistance: real
    var queue: seq<Entry>
    /** Every entry shown so far, and those of them no longer held. */
    ghost var considered: seq<Entry>
    ghost var evicted: seq<Entry>

    ghost predicate Valid()
      reads this
    {
      Tracks(KState(queue, maxDistance), k, considered, evicted)
    }

    constructor (origin: Point, k: nat)
      ensures Valid()
      ensures this.origin == origin && this.k == k
      ensures queue == [] && considered == []
    {
      this.k := k;
      this.origin := origin;
      maxDistance := -1.0;
      queue := [];
      considered := [];
      evicted := [];
    }

    /** `consider(point)`. */
    method Consider(p: Point)
      requires Valid()
      requires |p| == |origin|
      modifies this
      ensures Valid()
      ensures considered == old(considered) + [Entry(p, SqDist(origin, p))]
      ensures KState(queue, maxDistance) == Offer(old(KState(queue, maxDistance)), k, Entry(p, SqDist(origin, p)))
    {
      var distance := DistanceSquared(origin, p);
      var e := Entry(p, distance);
      ghost var before := KState(queue, maxDistance);
      OfferTracks(before, k, considered, evicted, e);
      evicted := evicted + Evicted(before, k, e);
      considered := considered + [e];
      Admit(e);
    }

    /** The body of `consider` once the distance is known. */
    method Admit(e: Entry)
      requires KValid(KState(queue, maxDistance), k)
      requires e.distance >= 0.0
      modifies this
      ensures KState(queue, maxDistance) == Offer(old(KState(queue, maxDistance)), k, e)
      ensures considered == old(considered) && evicted == old(evicted)
    {
      if |queue| < k {
        queue := queue + [e];
        maxDistance := queue[TopIndex(queue)].distance;
      } else if e.distance < maxDistance {
        queue := Pop(queue) + [e];
        maxDistance := queue[TopIndex(queue)].distance;
      }
    }

    /** `getPoints()`: drain the queue, farthest entry first. */
    method GetPoints() returns (points: seq<Point>)
      modifies this
      ensures points == Points(Drain(old(queue)))
      ensures queue == []
      ensures maxDistance == old(maxDistance)
    {
      points := [];
      while |queue| > 0
        invariant points + Points(Drain(queue)) == Points(Drain(old(queue)))
        invariant maxDistance == old(maxDistance)
        decreases |queue|
      {
        var top := queue[TopIndex(queue)];
        DrainStep(queue);
        points := points + [top.point];
        queue := Pop(queue);
      }
    }
  }
}
