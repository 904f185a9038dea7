/**
 * Marching squares over an implicit curve (source/intern/implicit_curve.cpp,
 * `linesFromImplicitCurve`). The curve `f(x, y) = 0` is sampled at the
 * corners of a `resolution` by `resolution` grid of cells; each cell's
 * corner signs pick a row of `lineTable`, whose line segments join points
 * on the cell's edges.
 *
 * The curve's `evaluate` and the grid coordinates (`box.mapToBox` of `x /
 * resolution`) are parameters; coordinates are reals, so the float
 * rounding of `edgeVertexPosition` is not modelled.
 */
module ImplicitCurves {
  import opened Resources

  // ---------------------------------------------------------------------------
  // Edge points
  // ---------------------------------------------------------------------------

  function Abs(x: real): (r: real)
    ensures 0.0 <= r && (r == x || r == -x)
  {
    if x < 0.0 then -x else x
  }

  /** `haveSameSign(a, b)`: neither is strictly on the other side of zero from the other. */
  predicate HaveSameSign(a: real, b: real) {
    (0.0 <= a && 0.0 <= b) || (a <= 0.0 && b <= 0.0)
  }

  /** The source's test is `a * b >= 0`; on reals that is the same predicate. */
  lemma SameSignIsProductTest(a: real, b: real)
    ensures HaveSameSign(a, b) <==> a * b >= 0.0
  {
    if 0.0 <= a && 0.0 <= b {
      NonNegativeProduct(a, b);
    } else if a <= 0.0 && b <= 0.0 {
      NonNegativeProduct(-a, -b);
    } else if a < 0.0 {
      assert 0.0 < b;
      PositiveProduct(-a, b);
    } else {
      PositiveProduct(a, -b);
    }
  }

  lemma PositiveProduct(a: real, b: real)
    requires 0.0 < a && 0.0 < b
    ensures 0.0 < a * b
  {
  }

  predicate Between(r: real, p: real, q: real) {
    (p <= r <= q) || (q <= r <= p)
  }

  /** `edgeVertexPosition(pos1, pos2, value1, value2)`: where on the edge from `pos1` to `pos2` the curve is placed. */
  function EdgeVertexPosition(pos1: real, pos2: real, value1: real, value2: real): real {
    if HaveSameSign(value1, value2) then (pos1 + pos2) / 2.0
    else
      var a, b := Abs(value1), Abs(value2);
      assert a + b > 0.0 by { ZeroCrossing(pos1, pos2, value1, value2); }
      (pos1 * b + pos2 * a) / (a + b)
  }

  /**
   * The midpoint of the edge when the two samples have the same sign;
   * otherwise the point where the straight line through `(pos1, value1)`
   * and `(pos2, value2)` crosses zero, which lies on the edge. A sample of
   * exactly zero has the same sign as either neighbour here, while the
   * lookup index counts it as non-negative, so an edge from `0` to a
   * negative sample is crossed but gets its midpoint
   * (`ZeroSampleCrossesAtMidpoint`).
   */
  lemma EdgeVertexOnEdge(pos1: real, pos2: real, value1: real, value2: real)
    ensures var r := EdgeVertexPosition(pos1, pos2, value1, value2);
            (HaveSameSign(value1, value2) ==> r == (pos1 + pos2) / 2.0)
            && (!HaveSameSign(value1, value2) ==> Between(r, pos1, pos2))
            && (!HaveSameSign(value1, value2) ==> (r - pos1) * (value2 - value1) == -value1 * (pos2 - pos1))
  {
    if !HaveSameSign(value1, value2) {
      ZeroCrossing(pos1, pos2, value1, value2);
    }
  }

  /** The weighted average of `edgeVertexPosition` for samples of opposite signs. */
  lemma ZeroCrossing(pos1: real, pos2: real, value1: real, value2: real)
    requires !HaveSameSign(value1, value2)
    ensures Abs(value1) + Abs(value2) > 0.0
    ensures var a, b := Abs(value1), Abs(value2);
            var r := (pos1 * b + pos2 * a) / (a + b);
            Between(r, pos1, pos2) && (r - pos1) * (value2 - value1) == -value1 * (pos2 - pos1)
  {
    var a, b := Abs(value1), Abs(value2);
    var s := a + b;
    var r := (pos1 * b + pos2 * a) / s;
    WeightedPoint(pos1, pos2, a, b);
    FractionBounds(a, s);
    BetweenByFraction(pos1, pos2, a / s, r);
    if value1 < 0.0 {
      CrossingSlope(pos1, pos2, a, s, r, s);
    } else {
      CrossingSlope(pos1, pos2, a, s, r, -s);
    }
  }

  /** The weighted average lies the fraction `a / (a + b)` of the way from `pos1` to `pos2`. */
  lemma WeightedPoint(pos1: real, pos2: real, a: real, b: real)
    requires 0.0 <= a && 0.0 <= b && a + b > 0.0
    ensures (pos1 * b + pos2 * a) / (a + b) - pos1 == (a / (a + b)) * (pos2 - pos1)
  {
    var s := a + b;
    var r := (pos1 * b + pos2 * a) / s;
    var t := a / s;
    assert r * s == pos1 * b + pos2 * a;
    assert t * s == a;
    assert (r - pos1) * s == a * (pos2 - pos1) by {
      assert (r - pos1) * s == r * s - pos1 * s;
      assert pos1 * s == pos1 * a + pos1 * b;
      assert a * (pos2 - pos1) == pos2 * a - pos1 * a;
    }
    assert (t * (pos2 - pos1)) * s == (t * s) * (pos2 - pos1);
    CancelPositive(r - pos1, t * (pos2 - pos1), s);
  }

  lemma CancelPositive(x: real, y: real, s: real)
    requires s > 0.0 && x * s == y * s
    ensures x == y
  {
    assert (x - y) * s == 0.0;
  }

  lemma FractionBounds(a: real, s: real)
    requires s > 0.0 && 0.0 <= a <= s
    ensures 0.0 <= a / s <= 1.0
  {
  }

  /** A point the fraction `t` in `[0, 1]` of the way from `p` to `q` lies between them. */
  lemma BetweenByFraction(p: real, q: real, t: real, r: real)
    requires 0.0 <= t <= 1.0 && r - p == t * (q - p)
    ensures Between(r, p, q)
  {
    var d := q - p;
    assert t * d + (1.0 - t) * d == d;
    if p <= q {
      NonNegativeProduct(t, d);
      NonNegativeProduct(1.0 - t, d);
    } else {
      NonNegativeProduct(t, -d);
      NonNegativeProduct(1.0 - t, -d);
    }
  }

  /** Scaling the offset `(a / s) * (q - p)` by `rise`, which is `s` or `-s`, gives `a` times the signed edge. */
  lemma CrossingSlope(p: real, q: real, a: real, s: real, r: real, rise: real)
    requires s > 0.0 && r - p == (a / s) * (q - p) && (rise == s || rise == -s)
    ensures (r - p) * rise == (if rise == s then a else -a) * (q - p)
  {
    assert (a / s) * s == a;
    assert (r - p) * rise == ((a / s) * rise) * (q - p);
  }

  lemma NonNegativeProduct(a: real, b: real)
    requires 0.0 <= a && 0.0 <= b
    ensures 0.0 <= a * b
  {
  }

  // ---------------------------------------------------------------------------
  // The tables
  // ---------------------------------------------------------------------------

  /** `lineTable`: for each corner-sign pattern, up to two lines, each an entry of `edgeTable`; -1 ends the row. */
  const LineTable: seq<seq<int>> := [
    [-1, -1], [3, -1], [0, -1], [5, -1], [1, -1], [1, 3], [4, -1], [2, -1],
    [2, -1], [4, -1], [0, 2], [1, -1], [5, -1], [0, -1], [3, -1], [-1, -1]
  ]

  /** `edgeTable`: the two cell edges a line joins. */
  const EdgeTable: seq<seq<int>> := [[0, 1], [1, 2], [2, 3], [3, 0], [0, 2], [1, 3]]

  /** Every `lineTable` entry is -1 or a row of `edgeTable`, a row stops at its first -1, and every `edgeTable` entry is a cell edge. */
  lemma TablesValid()
    ensures |LineTable| == 16 && |EdgeTable| == 6
    ensures forall l :: 0 <= l < 16 ==> |LineTable[l]| == 2
    ensures forall l, i :: 0 <= l < 16 && 0 <= i < 2 ==> LineTable[l][i] == -1 || 0 <= LineTable[l][i] < 6
    ensures forall l :: 0 <= l < 16 && LineTable[l][0] == -1 ==> LineTable[l][1] == -1
    ensures forall e, j :: 0 <= e < 6 && 0 <= j < 2 ==> |EdgeTable[e]| == 2 && 0 <= EdgeTable[e][j] < 4
    ensures LineTable[0] == [-1, -1] && LineTable[15] == [-1, -1]
  {
  }

  /** Corner `c` of the cell is below zero in sign pattern `l`: bit `c` of `l` is set. */
  predicate Negative(l: nat, c: nat) {
    if c == 0 then l % 2 == 1 else Negative(l / 2, c - 1)
  }

  /** Cell edge `k` joins corners `k` and `k + 1` (mod 4); the curve crosses it when their signs differ. */
  predicate Crossed(l: nat, k: nat)
    requires l < 16 && k < 4
  {
    Negative(l, k) != Negative(l, (k + 1) % 4)
  }

  /** Row `i` of a table, found by walking down its rows. */
  function Nth(table: seq<seq<int>>, i: nat): seq<int>
    requires i < |table|
  {
    if i == 0 then table[0] else Nth(table[1..], i - 1)
  }

  /** Walking down the rows finds the row the index names. */
  lemma {:induction false} NthIsIndex(table: seq<seq<int>>, i: nat)
    requires i < |table|
    ensures Nth(table, i) == table[i]
    decreases i
  {
    if i > 0 {
      NthIsIndex(table[1..], i - 1);
    }
  }

  /** Row `l` of `lineTable`, reached by walking down the rows, is a well-formed row. */
  lemma RowFacts(l: nat)
    requires l < 16
    ensures Nth(LineTable, l) == LineTable[l] && WellFormedRow(LineTable[l])
  {
    NthIsIndex(LineTable, l);
    TablesValid();
  }

  /** A row of `lineTable`: two entries, each -1 or a row of `edgeTable`. */
  predicate WellFormedRow(lines: seq<int>) {
    |lines| == 2 && (lines[0] == -1 || 0 <= lines[0] < 6) && (lines[1] == -1 || 0 <= lines[1] < 6)
  }

  /** The cell edges the lines of one row of `lineTable` pass through, stopping at the first -1. */
  function RowEdges(lines: seq<int>): seq<int>
    requires WellFormedRow(lines)
  {
    if lines[0] == -1 then []
    else EdgeTable[lines[0]] + (if lines[1] == -1 then [] else EdgeTable[lines[1]])
  }

  /** The cell edges (in `edgePoints`) that the lines of sign pattern `l` pass through. */
  function UsedEdges(l: nat): seq<int>
    requires l < 16
  {
    TablesValid();
    RowEdges(LineTable[l])
  }

  /** The same edges, reached by walking down the rows of `lineTable`. */
  function CellEdges(l: nat): seq<int>
    requires l < 16
  {
    RowFacts(l);
    RowEdges(Nth(LineTable, l))
  }

  lemma CellEdgesAreUsed(l: nat)
    requires l < 16
    ensures CellEdges(l) == UsedEdges(l)
  {
    RowFacts(l);
  }

  /** How often `e` occurs in `s`. */
  function Count(s: seq<int>, e: int): (n: nat)
    ensures n > 0 <==> e in s
  {
    if |s| == 0 then 0 else (if s[0] == e then 1 else 0) + Count(s[1..], e)
  }

  /** How often `e` occurs among four entries. */
  lemma CountOfFour(a: int, b: int, c: int, d: int)
    ensures forall e :: Count([a, b, c, d], e)
                        == (if a == e then 1 else 0) + (if b == e then 1 else 0) + (if c == e then 1 else 0) + (if d == e then 1 else 0)
  {
    assert [a, b, c, d][1..] == [b, c, d] && [b, c, d][1..] == [c, d] && [c, d][1..] == [d] && [d][1..] == [];
    forall e
      ensures Count([a, b, c, d], e)
              == (if a == e then 1 else 0) + (if b == e then 1 else 0) + (if c == e then 1 else 0) + (if d == e then 1 else 0)
    {
      assert Count([d], e) == (if d == e then 1 else 0) + Count([], e);
      assert Count([c, d], e) == (if c == e then 1 else 0) + Count([d], e);
      assert Count([b, c, d], e) == (if b == e then 1 else 0) + Count([c, d], e);
    }
  }

  /** The lines of pattern `l` pass through edge `k` once if the curve crosses it, else not at all. */
  predicate EdgeUse(l: nat, k: nat)
    requires l < 16 && k < 4
  {
    Count(UsedEdges(l), k) == if Crossed(l, k) then 1 else 0
  }

  /** Row `l` of the table uses each of the four cell edges as `EdgeUse` says. */
  predicate EdgesMatch(l: nat)
    requires l < 16
  {
    EdgeUse(l, 0) && EdgeUse(l, 1) && EdgeUse(l, 2) && EdgeUse(l, 3)
  }

  /** Row `l` of the table uses each edge as `EdgeUse` says, and no other entry. */
  predicate RowMatches(l: nat)
    requires l < 16
  {
    EdgesMatch(l) && forall e :: e in UsedEdges(l) ==> 0 <= e < 4
  }

  /** The lines of every pattern pass through cell edges only. */
  lemma UsedEdgesInCell(l: nat)
    requires l < 16
    ensures forall e :: e in UsedEdges(l) ==> 0 <= e < 4
  {
    TablesValid();
  }

  /**
   * The table is a marching-squares table: the lines of a cell pass through
   * exactly the edges whose corners differ in sign, each once. So the two
   * patterns with all corners alike have no line.
   */
  lemma LinesFollowSignChanges(l: nat)
    requires l < 16
    ensures RowMatches(l)
  {
    if l == 0 {
      TableRow0();
    } else if l == 1 {
      TableRow1();
    } else if l == 2 {
      TableRow2();
    } else if l == 3 {
      TableRow3();
    } else if l == 4 {
      TableRow4();
    } else if l == 5 {
      TableRow5();
    } else if l == 6 {
      TableRow6();
    } else if l == 7 {
      TableRow7();
    } else if l == 8 {
      TableRow8();
    } else if l == 9 {
      TableRow9();
    } else if l == 10 {
      TableRow10();
    } else if l == 11 {
      TableRow11();
    } else if l == 12 {
      TableRow12();
    } else if l == 13 {
      TableRow13();
    } else if l == 14 {
      TableRow14();
    } else {
      TableRow15();
    }
    UsedEdgesInCell(l);
  }

  lemma TableRow0()
    ensures EdgesMatch(0)
  {
    assert UsedEdges(0) == [];
  }

  lemma TableRow1()
    ensures EdgesMatch(1)
  {
    assert UsedEdges(1) == [3, 0];
  }

  lemma TableRow2()
    ensures EdgesMatch(2)
  {
    assert UsedEdges(2) == [0, 1];
  }

  lemma TableRow3()
    ensures EdgesMatch(3)
  {
    assert UsedEdges(3) == [1, 3];
  }

  lemma TableRow4()
    ensures EdgesMatch(4)
  {
    assert UsedEdges(4) == [1, 2];
  }

  lemma TableRow5()
    ensures EdgesMatch(5)
  {
    assert UsedEdges(5) == [1, 2, 3, 0];
    CountOfFour(1, 2, 3, 0);
  }

  lemma TableRow6()
    ensures EdgesMatch(6)
  {
    assert UsedEdges(6) == [0, 2];
  }

  lemma TableRow7()
    ensures EdgesMatch(7)
  {
    assert UsedEdges(7) == [2, 3];
  }

  lemma TableRow8()
    ensures EdgesMatch(8)
  {
    assert UsedEdges(8) == [2, 3];
  }

  lemma TableRow9()
    ensures EdgesMatch(9)
  {
    assert UsedEdges(9) == [0, 2];
  }

  lemma TableRow10()
    ensures EdgesMatch(10)
  {
    assert UsedEdges(10) == [0, 1, 2, 3];
    CountOfFour(0, 1, 2, 3);
  }

  lemma TableRow11()
    ensures EdgesMatch(11)
  {
    assert UsedEdges(11) == [1, 2];
  }

  lemma TableRow12()
    ensures EdgesMatch(12)
  {
    assert UsedEdges(12) == [1, 3];
  }

  lemma TableRow13()
    ensures EdgesMatch(13)
  {
    assert UsedEdges(13) == [0, 1];
  }

  lemma TableRow14()
    ensures EdgesMatch(14)
  {
    assert UsedEdges(14) == [3, 0];
  }

  lemma TableRow15()
    ensures EdgesMatch(15)
  {
    assert UsedEdges(15) == [];
  }

  // ---------------------------------------------------------------------------
  // One cell
  // ---------------------------------------------------------------------------

  /** The sign pattern of the four corner samples, as a number: corner `i` negative contributes `2^i`. */
  function SignPattern(gridValues: seq<real>): (l: nat)
    requires |gridValues| == 4
    ensures l < 16
  {
    (if gridValues[0] < 0.0 then 1 else 0) + (if gridValues[1] < 0.0 then 2 else 0)
    + (if gridValues[2] < 0.0 then 4 else 0) + (if gridValues[3] < 0.0 then 8 else 0)
  }

  /**
   * The two sign tests disagree at zero: with samples `0, -1, -1, -1` cell
   * edge 0 is crossed, since only corner 0 is non-negative, yet
   * `edgeVertexPosition` treats `0` and `-1` as of the same sign and places
   * that edge's point at the midpoint, not at the zero in corner 0.
   */
  lemma ZeroSampleCrossesAtMidpoint()
    ensures SignPattern([0.0, -1.0, -1.0, -1.0]) == 14
    ensures Crossed(14, 0)
    ensures HaveSameSign(0.0, -1.0) && EdgeVertexPosition(0.0, 1.0, 0.0, -1.0) == 0.5
  {
  }

  /** `lookupIndex |= (gridValues[i] < 0) << i` for the four corners, in a `char`. */
  method LookupIndex(gridValues: seq<real>) returns (lookupIndex: bv8)
    requires |gridValues| == 4
    ensures lookupIndex as int == SignPattern(gridValues)
    ensures forall i :: 0 <= i < 4 ==> (lookupIndex & (1 << i) != 0 <==> gridValues[i] < 0.0)
  {
    lookupIndex := 0;
    for i := 0 to 4
      invariant lookupIndex < (1 << i)
      invariant forall k :: 0 <= k < i ==> (lookupIndex & (1 << k) != 0 <==> gridValues[k] < 0.0)
    {
      var bit: bv8 := if gridValues[i] < 0.0 then 1 else 0;
      lookupIndex := lookupIndex | (bit << i);
    }
    PatternBits(gridValues, lookupIndex);
  }

  /** A number below 16 whose bits are the signs of the corners is their sign pattern. */
  lemma PatternBits(gridValues: seq<real>, index: bv8)
    requires |gridValues| == 4 && index < 16
    requires forall i :: 0 <= i < 4 ==> (index & (1 << i) != 0 <==> gridValues[i] < 0.0)
    ensures index as int == SignPattern(gridValues)
  {
    assert index & 1 != 0 <==> gridValues[0] < 0.0;
    assert index & 2 != 0 <==> gridValues[1] < 0.0;
    assert index & 4 != 0 <==> gridValues[2] < 0.0;
    assert index & 8 != 0 <==> gridValues[3] < 0.0;
    assert index == (index & 1) | (index & 2) | (index & 4) | (index & 8);
  }

  /** A point of the curve's line mesh: the edge point in the `z = 0` plane. */
  datatype Vec2 = Vec2(x: real, y: real)

  function Lift(p: Vec2): Position {
    Vec3(p.x, p.y, 0.0)
  }

  /** The positions a cell pushes: both ends of each line of its sign pattern. */
  function CellPositions(l: nat, edgePoints: seq<Vec2>): seq<Position>
    requires l < 16 && |edgePoints| == 4
  {
    var used := CellEdges(l);
    CellEdgesInCell(l);
    seq(|used|, k requires 0 <= k < |used| => Lift(edgePoints[used[k]]))
  }

  lemma CellEdgesInCell(l: nat)
    requires l < 16
    ensures forall k :: 0 <= k < |CellEdges(l)| ==> 0 <= CellEdges(l)[k] < 4
  {
    CellEdgesAreUsed(l);
    TablesValid();
  }

  /** How many lines row `l` of `lineTable` holds before its first -1. */
  function LineCount(l: nat): (n: nat)
    requires l < 16
    ensures n <= 2
  {
    var lines := LineTable[l];
    if lines[0] == -1 then 0 else if lines[1] == -1 then 1 else 2
  }

  lemma LineCountLength(l: nat)
    requires l < 16
    ensures |UsedEdges(l)| == 2 * LineCount(l)
  {
  }

  /** Entry `i` of row `l` is -1 exactly at the row's end; before it, it names a row of `edgeTable`. */
  lemma LineEntry(l: nat, i: nat)
    requires l < 16 && i < 2 && i <= LineCount(l)
    ensures LineTable[l][i] == -1 <==> i == LineCount(l)
    ensures LineTable[l][i] != -1 ==> 0 <= LineTable[l][i] < 6
  {
    TablesValid();
  }

  /** The two end points a line pushes: the edge points of the two edges `edgeTable` lists for it. */
  function LineEnds(edgeIndices: seq<int>, edgePoints: seq<Vec2>): (ends: seq<Position>)
    requires |edgeIndices| == 2 && |edgePoints| == 4
    requires 0 <= edgeIndices[0] < 4 && 0 <= edgeIndices[1] < 4
    ensures |ends| == 2
  {
    [Lift(edgePoints[edgeIndices[0]]), Lift(edgePoints[edgeIndices[1]])]
  }

  /** A cell pushes two positions per line, the `k`-th being the edge point of the `k`-th used edge. */
  lemma CellPositionsAt(l: nat, edgePoints: seq<Vec2>)
    requires l < 16 && |edgePoints| == 4
    ensures |CellPositions(l, edgePoints)| == |UsedEdges(l)| == 2 * LineCount(l)
    ensures forall k :: 0 <= k < |UsedEdges(l)| ==> 0 <= UsedEdges(l)[k] < 4
    ensures forall k :: 0 <= k < |UsedEdges(l)| ==> CellPositions(l, edgePoints)[k] == Lift(edgePoints[UsedEdges(l)[k]])
  {
    CellEdgesAreUsed(l);
    CellEdgesInCell(l);
    LineCountLength(l);
  }

  /** Line `i` of a cell's pattern contributes positions `2 * i` and `2 * i + 1` of the cell. */
  lemma CellLine(l: nat, edgePoints: seq<Vec2>, i: nat)
    requires l < 16 && |edgePoints| == 4 && i < LineCount(l)
    ensures 0 <= LineTable[l][i] < 6 && |CellPositions(l, edgePoints)| == 2 * LineCount(l)
    ensures var edgeIndices := EdgeTable[LineTable[l][i]];
            |edgeIndices| == 2 && 0 <= edgeIndices[0] < 4 && 0 <= edgeIndices[1] < 4
            && CellPositions(l, edgePoints)[2 * i..2 * i + 2] == LineEnds(edgeIndices, edgePoints)
  {
    UsedLine(l, i);
    CellPositionsAt(l, edgePoints);
    var used := UsedEdges(l);
    var cell := CellPositions(l, edgePoints);
    assert cell[2 * i] == Lift(edgePoints[used[2 * i]]);
    assert cell[2 * i + 1] == Lift(edgePoints[used[2 * i + 1]]);
  }

  /** Line `i` of row `l` of `lineTable` is the pair of edges at positions `2 * i` and `2 * i + 1` of `UsedEdges(l)`. */
  lemma UsedLine(l: nat, i: nat)
    requires l < 16 && i < LineCount(l)
    ensures 0 <= LineTable[l][i] < 6
    ensures var edgeIndices := EdgeTable[LineTable[l][i]];
            |edgeIndices| == 2 && 0 <= edgeIndices[0] < 4 && 0 <= edgeIndices[1] < 4
            && 2 * i + 2 <= |UsedEdges(l)|
            && UsedEdges(l)[2 * i] == edgeIndices[0] && UsedEdges(l)[2 * i + 1] == edgeIndices[1]
  {
    TablesValid();
    var lines := LineTable[l];
    assert lines[0] != -1;
    if i == 0 {
      assert UsedEdges(l)[..2] == EdgeTable[lines[0]];
    } else {
      assert lines[1] != -1;
      assert UsedEdges(l) == EdgeTable[lines[0]] + EdgeTable[lines[1]];
    }
  }

  /** The line loop of a cell: stop at -1, else push both end points of the line. */
  method EmitLines(positions: seq<Position>, lookupIndex: bv8, edgePoints: seq<Vec2>) returns (r: seq<Position>)
    requires lookupIndex < 16 && |edgePoints| == 4
    ensures r == positions + CellPositions(lookupIndex as int, edgePoints)
  {
    var l := lookupIndex as int;
    var lines := LineTable[l];
    r := positions;
    var i := 0;
    while i < 2
      invariant 0 <= i <= LineCount(l)
      invariant r == positions + CellPrefix(l, edgePoints, i)
    {
      var line := lines[i];
      LineEntry(l, i);
      if line == -1 {
        break;
      }
      UsedLine(l, i);
      var next := EmitLine(r, EdgeTable[line], edgePoints);
      PushLine(l, edgePoints, i, positions, r, next);
      r := next;
      i := i + 1;
    }
    WholeCell(l, edgePoints);
  }

  /** The positions of the first `n` lines of a cell. */
  function CellPrefix(l: nat, edgePoints: seq<Vec2>, n: nat): seq<Position>
    requires l < 16 && |edgePoints| == 4 && n <= LineCount(l)
  {
    CellPositionsAt(l, edgePoints);
    CellPositions(l, edgePoints)[..2 * n]
  }

  /** Pushing the ends of line `i` extends the first `i` lines of the cell by one. */
  lemma PushLine(l: nat, edgePoints: seq<Vec2>, i: nat, positions: seq<Position>, r: seq<Position>, next: seq<Position>)
    requires l < 16 && |edgePoints| == 4 && i < LineCount(l)
    requires 0 <= LineTable[l][i] < 6
    requires var edgeIndices := EdgeTable[LineTable[l][i]];
             |edgeIndices| == 2 && 0 <= edgeIndices[0] < 4 && 0 <= edgeIndices[1] < 4
             && next == r + LineEnds(edgeIndices, edgePoints)
    requires r == positions + CellPrefix(l, edgePoints, i)
    ensures next == positions + CellPrefix(l, edgePoints, i + 1)
  {
    CellLine(l, edgePoints, i);
    var want := CellPositions(l, edgePoints);
    assert want[..2 * (i + 1)] == want[..2 * i] + want[2 * i..2 * i + 2];
  }

  /** All lines of a cell are its positions. */
  lemma WholeCell(l: nat, edgePoints: seq<Vec2>)
    requires l < 16 && |edgePoints| == 4
    ensures CellPrefix(l, edgePoints, LineCount(l)) == CellPositions(l, edgePoints)
  {
    CellPositionsAt(l, edgePoints);
  }

  /** `for (int j = 0; j < 2; j++)`: push the edge point of each end of one line. */
  method EmitLine(positions: seq<Position>, edgeIndices: seq<int>, edgePoints: seq<Vec2>) returns (r: seq<Position>)
    requires |edgeIndices| == 2 && |edgePoints| == 4
    requires 0 <= edgeIndices[0] < 4 && 0 <= edgeIndices[1] < 4
    ensures r == positions + LineEnds(edgeIndices, edgePoints)
  {
    r := positions;
    for j := 0 to 2
      invariant r == positions + LineEnds(edgeIndices, edgePoints)[..j]
    {
      r := r + [Lift(edgePoints[edgeIndices[j]])];
    }
  }

  // ---------------------------------------------------------------------------
  // The whole grid
  // ---------------------------------------------------------------------------

  /** The sample values at the corners of cell `(x, y)`, in the order of `gridValues`. */
  function GridValues(evaluate: (real, real) -> real, gridX: int -> real, gridY: int -> real, x: int, y: int): (g: seq<real>)
    ensures |g| == 4
  {
    var x0, x1, y0, y1 := gridX(x), gridX(x + 1), gridY(y), gridY(y + 1);
    [evaluate(x0, y0), evaluate(x1, y0), evaluate(x1, y1), evaluate(x0, y1)]
  }

  /** The four points `edgePoints` of cell `(x, y)`: one on each edge, between the corners it joins. */
  function EdgePoints(g: seq<real>, gridX: int -> real, gridY: int -> real, x: int, y: int): (e: seq<Vec2>)
    requires |g| == 4
    ensures |e| == 4
  {
    var x0, x1, y0, y1 := gridX(x), gridX(x + 1), gridY(y), gridY(y + 1);
    [Vec2(EdgeVertexPosition(x0, x1, g[0], g[1]), y0),
     Vec2(x1, EdgeVertexPosition(y0, y1, g[1], g[2])),
     Vec2(EdgeVertexPosition(x0, x1, g[3], g[2]), y1),
     Vec2(x0, EdgeVertexPosition(y0, y1, g[0], g[3]))]
  }

  /** The positions of cell `(x, y)`. */
  function CellAt(evaluate: (real, real) -> real, gridX: int -> real, gridY: int -> real, x: int, y: int): seq<Position> {
    var g := GridValues(evaluate, gridX, gridY, x, y);
    CellPositions(SignPattern(g), EdgePoints(g, gridX, gridY, x, y))
  }

  /** What each cell `(x, y)` of a grid pushes. */
  type CellOutput = (int, int) -> seq<Position>

  /** The cells of the curve `evaluate` on the grid `gridX`, `gridY`. */
  function Cells(evaluate: (real, real) -> real, gridX: int -> real, gridY: int -> real): CellOutput {
    (x: int, y: int) => CellAt(evaluate, gridX, gridY, x, y)
  }

  /** The positions of cells `(x, 0) .. (x, count - 1)`. */
  function ColumnPositions(cells: CellOutput, x: int, count: nat): seq<Position> {
    if count == 0 then [] else ColumnPositions(cells, x, count - 1) + cells(x, count - 1)
  }

  /** The positions of columns `0 .. count - 1` of a grid `resolution` cells high. */
  function GridPositions(cells: CellOutput, count: nat, resolution: nat): seq<Position> {
    if count == 0 then [] else GridPositions(cells, count - 1, resolution) + ColumnPositions(cells, count - 1, resolution)
  }

  /**
   * `linesFromImplicitCurve(curve, box, resolution)`: the line-segment end
   * points of every cell, column by column. `gridX(i)` and `gridY(i)` stand
   * for `box.mapToBox(i / resolution, 0)` and `box.mapToBox(i / resolution, 1)`.
   */
  method LinesFromImplicitCurve(evaluate: (real, real) -> real, gridX: int -> real, gridY: int -> real, resolution: int)
    returns (positions: seq<Position>)
    ensures positions == GridPositions(Cells(evaluate, gridX, gridY), Iterations(resolution), Iterations(resolution))
  {
    ghost var cells, count := Cells(evaluate, gridX, gridY), Iterations(resolution);
    positions := [];
    var x := 0;
    while x < resolution
      invariant 0 <= x <= count
      invariant positions == GridPositions(cells, x, count)
    {
      var next := EmitColumn(positions, evaluate, gridX, gridY, x, resolution, cells);
      GridGrows(cells, x, count, positions, next);
      positions := next;
      x := x + 1;
    }
  }

  /** The inner loop of `linesFromImplicitCurve`: the cells of column `x`. */
  method EmitColumn(positions: seq<Position>, evaluate: (real, real) -> real, gridX: int -> real, gridY: int -> real,
                    x: int, resolution: int, ghost cells: CellOutput) returns (r: seq<Position>)
    requires cells == Cells(evaluate, gridX, gridY)
    ensures r == positions + ColumnPositions(cells, x, Iterations(resolution))
  {
    r := positions;
    var y := 0;
    while y < resolution
      invariant 0 <= y <= Iterations(resolution)
      invariant r == positions + ColumnPositions(Cells(evaluate, gridX, gridY), x, y)
    {
      var next := EmitCell(r, evaluate, gridX, gridY, x, y);
      ColumnGrows(evaluate, gridX, gridY, x, y, positions, r, next);
      r := next;
      y := y + 1;
    }
  }

  lemma ColumnGrows(evaluate: (real, real) -> real, gridX: int -> real, gridY: int -> real, x: int, y: nat,
                    positions: seq<Position>, r: seq<Position>, next: seq<Position>)
    requires r == positions + ColumnPositions(Cells(evaluate, gridX, gridY), x, y)
    requires next == r + CellAt(evaluate, gridX, gridY, x, y)
    ensures next == positions + ColumnPositions(Cells(evaluate, gridX, gridY), x, y + 1)
  {
  }

  lemma GridGrows(cells: CellOutput, x: nat, resolution: nat, positions: seq<Position>, next: seq<Position>)
    requires positions == GridPositions(cells, x, resolution)
    requires next == positions + ColumnPositions(cells, x, resolution)
    ensures next == GridPositions(cells, x + 1, resolution)
  {
  }

  /** The body of the inner loop: sample the corners, place the edge points, push the cell's lines. */
  method EmitCell(positions: seq<Position>, evaluate: (real, real) -> real, gridX: int -> real, gridY: int -> real,
                  x: int, y: int) returns (r: seq<Position>)
    ensures r == positions + CellAt(evaluate, gridX, gridY, x, y)
  {
    var x0, x1 := gridX(x + 0), gridX(x + 1);
    var y0, y1 := gridY(y + 0), gridY(y + 1);
    var gridValues := [evaluate(x0, y0), evaluate(x1, y0), evaluate(x1, y1), evaluate(x0, y1)];
    var edgePoints := [
      Vec2(EdgeVertexPosition(x0, x1, gridValues[0], gridValues[1]), y0),
      Vec2(x1, EdgeVertexPosition(y0, y1, gridValues[1], gridValues[2])),
      Vec2(EdgeVertexPosition(x0, x1, gridValues[3], gridValues[2]), y1),
      Vec2(x0, EdgeVertexPosition(y0, y1, gridValues[0], gridValues[3]))
    ];
    var lookupIndex := LookupIndex(gridValues);
    r := EmitLines(positions, lookupIndex, edgePoints);
  }

  /** Each cell pushes 0, 2 or 4 positions, two for each line of its sign pattern. */
  lemma CellCount(evaluate: (real, real) -> real, gridX: int -> real, gridY: int -> real, x: int, y: int)
    ensures |CellAt(evaluate, gridX, gridY, x, y)| == 2 * LineCount(SignPattern(GridValues(evaluate, gridX, gridY, x, y)))
  {
    var g := GridValues(evaluate, gridX, gridY, x, y);
    CellPositionsAt(SignPattern(g), EdgePoints(g, gridX, gridY, x, y));
  }

  /** Every cell pushes whole segments, at most two. */
  ghost predicate WholeSegments(cells: CellOutput) {
    forall x, y :: |cells(x, y)| % 2 == 0 && |cells(x, y)| <= 4
  }

  lemma CellsAreWholeSegments(evaluate: (real, real) -> real, gridX: int -> real, gridY: int -> real)
    ensures WholeSegments(Cells(evaluate, gridX, gridY))
  {
    forall x, y ensures |Cells(evaluate, gridX, gridY)(x, y)| % 2 == 0 && |Cells(evaluate, gridX, gridY)(x, y)| <= 4 {
      CellCount(evaluate, gridX, gridY, x, y);
    }
  }

  lemma {:induction false} ColumnCount(cells: CellOutput, x: int, count: nat)
    requires WholeSegments(cells)
    ensures |ColumnPositions(cells, x, count)| % 2 == 0
    ensures |ColumnPositions(cells, x, count)| <= 4 * count
  {
    if count > 0 {
      ColumnCount(cells, x, count - 1);
      PairsWithin(|ColumnPositions(cells, x, count)|, |ColumnPositions(cells, x, count - 1)|, |cells(x, count - 1)|,
                  4 * (count - 1), 4);
    }
  }

  lemma {:induction false} GridCount(cells: CellOutput, count: nat, resolution: nat)
    requires WholeSegments(cells)
    ensures |GridPositions(cells, count, resolution)| % 2 == 0
    ensures |GridPositions(cells, count, resolution)| <= 4 * count * resolution
  {
    if count > 0 {
      GridCount(cells, count - 1, resolution);
      ColumnCount(cells, count - 1, resolution);
      assert 4 * (count - 1) * resolution + 4 * resolution == 4 * count * resolution;
      PairsWithin(|GridPositions(cells, count, resolution)|, |GridPositions(cells, count - 1, resolution)|,
                  |ColumnPositions(cells, count - 1, resolution)|, 4 * (count - 1) * resolution, 4 * resolution);
    }
  }

  /** Two even counts within their bounds add up to an even count within the sum of the bounds. */
  lemma PairsWithin(total: int, a: int, b: int, boundA: int, boundB: int)
    requires total == a + b && a % 2 == 0 && b % 2 == 0
    requires a <= boundA && b <= boundB
    ensures total % 2 == 0 && total <= boundA + boundB
  {
    assert total == 2 * (a / 2 + b / 2);
  }

  /** The curve mesh is made of whole segments, at most two per cell: an even count of at most `4 * resolution^2` positions. */
  lemma CurveSize(evaluate: (real, real) -> real, gridX: int -> real, gridY: int -> real, resolution: int)
    ensures var n := |GridPositions(Cells(evaluate, gridX, gridY), Iterations(resolution), Iterations(resolution))|;
            n % 2 == 0 && n <= 4 * Iterations(resolution) * Iterations(resolution)
  {
    CellsAreWholeSegments(evaluate, gridX, gridY);
    GridCount(Cells(evaluate, gridX, gridY), Iterations(resolution), Iterations(resolution));
  }

  /** Each position a cell pushes is the edge point of an edge the curve crosses. */
  lemma CellPointsOnCrossedEdges(l: nat, edgePoints: seq<Vec2>, k: nat)
    requires l < 16 && |edgePoints| == 4 && k < |CellPositions(l, edgePoints)|
    ensures exists e :: 0 <= e < 4 && Crossed(l, e) && CellPositions(l, edgePoints)[k] == Lift(edgePoints[e])
  {
    CellPositionsAt(l, edgePoints);
    var e := UsedEdges(l)[k];
    UsedEdgeIsCrossed(l, e);
    assert CellPositions(l, edgePoints)[k] == Lift(edgePoints[e]);
  }

  /** Every edge a pattern's lines pass through is one the curve crosses. */
  lemma UsedEdgeIsCrossed(l: nat, e: int)
    requires l < 16 && e in UsedEdges(l)
    ensures 0 <= e < 4 && Crossed(l, e)
  {
    LinesFollowSignChanges(l);
    assert 0 <= e < 4 && Count(UsedEdges(l), e) > 0;
    if e == 0 {
      assert EdgeUse(l, 0);
    } else if e == 1 {
      assert EdgeUse(l, 1);
    } else if e == 2 {
      assert EdgeUse(l, 2);
    } else {
      assert EdgeUse(l, 3);
    }
  }
}
