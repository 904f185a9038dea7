/**
 * The index and vertex builders of source/intern/mesh_utils.cpp: grid
 * edges and grid triangles, the triangles of a bounding box, and the
 * normal and vertex lists built from a triangle mesh.
 *
 * Every builder is a loop that `push_back`s into a list; a list the
 * function owns is a local sequence, one the caller passes by reference is
 * an object appended to in place. `glm::triangleNormal` and
 * `glm::normalize` are parameters: their floating-point arithmetic is not
 * modelled, only which points and sums they are applied to.
 */
module MeshUtils {
  import opened Resources
  import opened BoundingBoxes

  // ---------------------------------------------------------------------------
  // Integer facts used by the grid lemmas
  // ---------------------------------------------------------------------------

  lemma MulMonotone(a: int, b: int, c: int)
    requires a <= b && 0 <= c
    ensures a * c <= b * c
  {
    assert b * c - a * c == (b - a) * c;
  }

  /** The offset `i * w + j` of column `j < w` of row `i` lies in row `i`, at column `j`. */
  lemma RowOffset(i: int, j: int, w: int)
    requires 0 <= i && 0 <= j < w
    ensures (i * w + j) / w == i && (i * w + j) % w == j
  {
    var x := i * w + j;
    var q, r := x / w, x % w;
    assert x == q * w + r;
    assert (q + 1) * w == q * w + w && (i + 1) * w == i * w + w;
    if q < i {
      MulMonotone(q + 1, i, w);
    } else if q > i {
      MulMonotone(i + 1, q, w);
    }
  }

  /** The last offset of a row, `i * w + w - 1`, is below the first offset of row `rows` when `i < rows`. */
  lemma RowBelow(i: int, rows: int, w: int)
    requires 0 <= i < rows && 0 <= w
    ensures i * w + w <= rows * w
  {
    MulMonotone(i + 1, rows, w);
    assert (i + 1) * w == i * w + w;
  }

  // ---------------------------------------------------------------------------
  // calcGridEdges
  // ---------------------------------------------------------------------------

  /** `EdgeIndices(v1, v2)`. */
  datatype Edge = Edge(v1: int, v2: int)

  /** The edges inner loop `j` of the first nested loop emits for row `i`: between neighbours in the row. */
  function RowEdges(i: int, div2: int): (r: seq<Edge>)
    ensures |r| == Iterations(div2 - 1)
  {
    seq(Iterations(div2 - 1), j => Edge(i * div2 + j, i * div2 + j + 1))
  }

  /** The edges of rows `0 .. rows - 1`, in emission order. */
  function AllRowEdges(rows: nat, div2: int): seq<Edge> {
    if rows == 0 then [] else AllRowEdges(rows - 1, div2) + RowEdges(rows - 1, div2)
  }

  /** The edges of the second nested loop for column `i`: between neighbours in the column. */
  function ColumnEdges(i: int, div1: int, div2: int): (r: seq<Edge>)
    ensures |r| == Iterations(div1 - 1)
  {
    seq(Iterations(div1 - 1), j => Edge(j * div2 + i, (j + 1) * div2 + i))
  }

  /** The edges of columns `0 .. cols - 1`, in emission order. */
  function AllColumnEdges(cols: nat, div1: int, div2: int): seq<Edge> {
    if cols == 0 then [] else AllColumnEdges(cols - 1, div1, div2) + ColumnEdges(cols - 1, div1, div2)
  }

  /** Everything `calcGridEdges(div1, div2)` emits: all row edges, then all column edges. */
  function GridEdges(div1: int, div2: int): seq<Edge> {
    AllRowEdges(Iterations(div1), div2) + AllColumnEdges(Iterations(div2), div1, div2)
  }

  /** `calcGridEdges(div1, div2)`: the edges of a `div1` by `div2` grid of vertices numbered row by row. */
  method CalcGridEdges(div1: int, div2: int) returns (edges: seq<Edge>)
    ensures edges == GridEdges(div1, div2)
  {
    edges := [];
    var i := 0;
    while i < div1
      invariant 0 <= i <= Iterations(div1)
      invariant edges == AllRowEdges(i, div2)
    {
      edges := PushRowEdges(edges, i, div2);
      i := i + 1;
    }
    ghost var rows := edges;
    i := 0;
    while i < div2
      invariant 0 <= i <= Iterations(div2)
      invariant edges == rows + AllColumnEdges(i, div1, div2)
    {
      edges := PushColumnEdges(edges, i, div1, div2);
      i := i + 1;
    }
  }

  /** The inner loop of the first nested loop of `calcGridEdges`, for row `i`. */
  method PushRowEdges(edges: seq<Edge>, i: int, div2: int) returns (r: seq<Edge>)
    ensures r == edges + RowEdges(i, div2)
  {
    r := edges;
    var j := 0;
    while j < div2 - 1
      invariant 0 <= j <= Iterations(div2 - 1)
      invariant r == edges + RowEdges(i, div2)[..j]
    {
      assert RowEdges(i, div2)[..j + 1] == RowEdges(i, div2)[..j] + [Edge(i * div2 + j + 0, i * div2 + j + 1)];
      r := r + [Edge(i * div2 + j + 0, i * div2 + j + 1)];
      j := j + 1;
    }
    assert RowEdges(i, div2)[..j] == RowEdges(i, div2);
  }

  /** The inner loop of the second nested loop of `calcGridEdges`, for column `i`. */
  method PushColumnEdges(edges: seq<Edge>, i: int, div1: int, div2: int) returns (r: seq<Edge>)
    ensures r == edges + ColumnEdges(i, div1, div2)
  {
    r := edges;
    var j := 0;
    while j < div1 - 1
      invariant 0 <= j <= Iterations(div1 - 1)
      invariant r == edges + ColumnEdges(i, div1, div2)[..j]
    {
      assert ColumnEdges(i, div1, div2)[..j + 1]
          == ColumnEdges(i, div1, div2)[..j] + [Edge((j + 0) * div2 + i, (j + 1) * div2 + i)];
      r := r + [Edge((j + 0) * div2 + i, (j + 1) * div2 + i)];
      j := j + 1;
    }
    assert ColumnEdges(i, div1, div2)[..j] == ColumnEdges(i, div1, div2);
  }

  /** A row edge of the grid: two vertices side by side in one row. */
  predicate RowEdge(e: Edge, div1: int, div2: int) {
    0 < div2 && 0 <= e.v1 && e.v2 == e.v1 + 1 && e.v2 < div1 * div2 && e.v1 % div2 < div2 - 1
  }

  /** A column edge of the grid: two vertices one above the other. */
  predicate ColumnEdge(e: Edge, div1: int, div2: int) {
    0 <= e.v1 && e.v2 == e.v1 + div2 && e.v2 < div1 * div2
  }

  lemma {:induction false} AllRowEdgesAreRowEdges(rows: nat, div1: int, div2: int)
    requires rows <= Iterations(div1)
    ensures |AllRowEdges(rows, div2)| == rows * Iterations(div2 - 1)
    ensures forall k :: 0 <= k < |AllRowEdges(rows, div2)| ==> RowEdge(AllRowEdges(rows, div2)[k], div1, div2)
  {
    if rows > 0 {
      AllRowEdgesAreRowEdges(rows - 1, div1, div2);
      var i := rows - 1;
      forall j | 0 <= j < Iterations(div2 - 1)
        ensures RowEdge(RowEdges(i, div2)[j], div1, div2)
      {
        RowOffset(i, j, div2);
        RowBelow(i, div1, div2);
        assert i * div2 >= 0 by { MulMonotone(0, i, div2); }
      }
      assert (rows - 1) * Iterations(div2 - 1) + Iterations(div2 - 1) == rows * Iterations(div2 - 1);
    }
  }

  lemma {:induction false} AllColumnEdgesAreColumnEdges(cols: nat, div1: int, div2: int)
    requires cols <= Iterations(div2)
    ensures |AllColumnEdges(cols, div1, div2)| == cols * Iterations(div1 - 1)
    ensures forall k :: 0 <= k < |AllColumnEdges(cols, div1, div2)| ==>
              ColumnEdge(AllColumnEdges(cols, div1, div2)[k], div1, div2)
  {
    if cols > 0 {
      AllColumnEdgesAreColumnEdges(cols - 1, div1, div2);
      var i := cols - 1;
      forall j | 0 <= j < Iterations(div1 - 1)
        ensures ColumnEdge(ColumnEdges(i, div1, div2)[j], div1, div2)
      {
        assert j * div2 >= 0 by { MulMonotone(0, j, div2); }
        assert (j + 1) * div2 == j * div2 + div2;
        RowBelow(j + 1, div1, div2);
      }
      assert (cols - 1) * Iterations(div1 - 1) + Iterations(div1 - 1) == cols * Iterations(div1 - 1);
    }
  }

  /**
   * `calcGridEdges` emits `div1 * (div2 - 1)` row edges, each joining `v`
   * and `v + 1` in one row, then `div2 * (div1 - 1)` column edges, each
   * joining `v` and `v + div2`; every endpoint is a vertex of the grid.
   */
  lemma GridEdgesShape(div1: int, div2: int)
    ensures var edges := GridEdges(div1, div2);
            var rowCount := Iterations(div1) * Iterations(div2 - 1);
            |edges| == rowCount + Iterations(div2) * Iterations(div1 - 1)
            && (forall k :: 0 <= k < rowCount ==> RowEdge(edges[k], div1, div2))
            && (forall k :: rowCount <= k < |edges| ==> ColumnEdge(edges[k], div1, div2))
  {
    AllRowEdgesAreRowEdges(Iterations(div1), div1, div2);
    AllColumnEdgesAreColumnEdges(Iterations(div2), div1, div2);
  }

  // ---------------------------------------------------------------------------
  // calcGridTriangleIndices
  // ---------------------------------------------------------------------------

  /** The six indices of grid cell `(i, j)`: two triangles sharing the diagonal from `v` to `v + 1 + div2`. */
  function CellIndices(i: int, j: int, div2: int): seq<int> {
    var v := i * div2 + j;
    [v, v + 1, v + 1 + div2, v, v + 1 + div2, v + div2]
  }

  /** The indices of cells `(i, 0) .. (i, cols - 1)`. */
  function RowCells(i: int, cols: nat, div2: int): (r: seq<int>)
    ensures |r| == 6 * cols
  {
    if cols == 0 then [] else RowCells(i, cols - 1, div2) + CellIndices(i, cols - 1, div2)
  }

  /** The indices of rows `0 .. rows - 1` of cells. */
  function GridCells(rows: nat, div2: int): (r: seq<int>)
    ensures |r| == 6 * rows * Iterations(div2 - 1)
  {
    if rows == 0 then []
    else
      var r := GridCells(rows - 1, div2) + RowCells(rows - 1, Iterations(div2 - 1), div2);
      assert 6 * (rows - 1) * Iterations(div2 - 1) + 6 * Iterations(div2 - 1) == 6 * rows * Iterations(div2 - 1);
      r
  }

  /** `calcGridTriangleIndices(div1, div2)`: two triangles for each of the `(div1 - 1) * (div2 - 1)` cells. */
  method CalcGridTriangleIndices(div1: int, div2: int) returns (indices: seq<int>)
    ensures indices == GridCells(Iterations(div1 - 1), div2)
  {
    indices := [];
    var i := 0;
    while i < div1 - 1
      invariant 0 <= i <= Iterations(div1 - 1)
      invariant indices == GridCells(i, div2)
    {
      var j := 0;
      while j < div2 - 1
        invariant 0 <= j <= Iterations(div2 - 1)
        invariant indices == GridCells(i, div2) + RowCells(i, j, div2)
      {
        indices := indices + [i * div2 + j];
        indices := indices + [i * div2 + j + 1];
        indices := indices + [i * div2 + j + 1 + div2];

        indices := indices + [i * div2 + j];
        indices := indices + [i * div2 + j + 1 + div2];
        indices := indices + [i * div2 + j + div2];
        j := j + 1;
      }
      i := i + 1;
    }
  }

  /** The six indices of the `c`-th cell of an index list. */
  function Cell(s: seq<int>, c: nat): seq<int>
    requires 6 * c + 6 <= |s|
  {
    s[6 * c..6 * c + 6]
  }

  /** A cell's two triangles `(a, b, d)` and `(a, d, e)` share the diagonal `a`–`d`, which spans a row and a column. */
  predicate SharesDiagonal(cell: seq<int>, div2: int)
    requires |cell| == 6
  {
    cell[3] == cell[0] && cell[4] == cell[2] && cell[2] == cell[0] + 1 + div2
  }

  /** Every index names a vertex of the grid. */
  predicate InGrid(s: seq<int>, vertexCount: int) {
    forall k :: 0 <= k < |s| ==> 0 <= s[k] < vertexCount
  }

  /** Each cell of a row of cells shares its diagonal, and all its indices lie in the grid. */
  lemma {:induction false} RowCellsShape(i: int, cols: nat, div1: int, div2: int)
    requires 0 <= i && i + 1 < div1 && cols <= Iterations(div2 - 1)
    ensures forall c :: 0 <= c < cols ==> SharesDiagonal(Cell(RowCells(i, cols, div2), c), div2)
    ensures InGrid(RowCells(i, cols, div2), div1 * div2)
  {
    if cols > 0 {
      RowCellsShape(i, cols - 1, div1, div2);
      var s, r := RowCells(i, cols, div2), RowCells(i, cols - 1, div2);
      forall c | 0 <= c < cols ensures SharesDiagonal(Cell(s, c), div2) {
        if c < cols - 1 {
          assert Cell(s, c) == Cell(r, c);
        } else {
          assert Cell(s, c) == CellIndices(i, cols - 1, div2);
        }
      }
      var v := i * div2 + cols - 1;
      assert 0 <= i * div2 by { MulMonotone(0, i, div2); }
      assert v + 1 + div2 < div1 * div2 by {
        RowBelow(i + 1, div1, div2);
        assert (i + 1) * div2 == i * div2 + div2;
      }
      assert InGrid(CellIndices(i, cols - 1, div2), div1 * div2);
    }
  }

  /** The cells of `a + b`, when `a` is whole cells, are the cells of `a` followed by those of `b`. */
  lemma CellOfConcat(a: seq<int>, b: seq<int>, c: nat)
    requires |a| % 6 == 0 && 6 * c + 6 <= |a| + |b|
    ensures 6 * c + 6 <= |a| ==> Cell(a + b, c) == Cell(a, c)
    ensures |a| <= 6 * c ==> Cell(a + b, c) == Cell(b, c - |a| / 6)
  {
  }

  lemma {:induction false} GridCellsShape(rows: nat, div1: int, div2: int)
    requires rows <= Iterations(div1 - 1)
    ensures forall c :: 0 <= c < rows * Iterations(div2 - 1) ==> SharesDiagonal(Cell(GridCells(rows, div2), c), div2)
    ensures InGrid(GridCells(rows, div2), div1 * div2)
  {
    if rows > 0 {
      var cols := Iterations(div2 - 1);
      GridCellsShape(rows - 1, div1, div2);
      RowCellsShape(rows - 1, cols, div1, div2);
      var a, b := GridCells(rows - 1, div2), RowCells(rows - 1, cols, div2);
      var before := (rows - 1) * cols;
      assert |a| == 6 * before;
      assert rows * cols == before + cols;
      DiagonalsOfConcat(a, b, before, cols, div2);
      InGridConcat(a, b, div1 * div2);
    }
  }

  /** Joining whole cells that share their diagonals gives such cells. */
  lemma DiagonalsOfConcat(a: seq<int>, b: seq<int>, na: nat, nb: nat, div2: int)
    requires |a| == 6 * na && |b| == 6 * nb
    requires forall c :: 0 <= c < na ==> SharesDiagonal(Cell(a, c), div2)
    requires forall c :: 0 <= c < nb ==> SharesDiagonal(Cell(b, c), div2)
    ensures forall c :: 0 <= c < na + nb ==> SharesDiagonal(Cell(a + b, c), div2)
  {
    forall c | 0 <= c < na + nb ensures SharesDiagonal(Cell(a + b, c), div2) {
      CellOfConcat(a, b, c);
      if c < na {
        assert 6 * c + 6 <= |a|;
      } else {
        assert |a| <= 6 * c && c - |a| / 6 < nb;
      }
    }
  }

  lemma InGridConcat(a: seq<int>, b: seq<int>, vertexCount: int)
    requires InGrid(a, vertexCount) && InGrid(b, vertexCount)
    ensures InGrid(a + b, vertexCount)
  {
    forall k | 0 <= k < |a + b| ensures 0 <= (a + b)[k] < vertexCount {
      if k >= |a| {
        assert (a + b)[k] == b[k - |a|];
      }
    }
  }

  /**
   * `calcGridTriangleIndices` emits `6 * (div1 - 1) * (div2 - 1)` indices,
   * all vertices of the grid, and each cell's two triangles share its
   * diagonal.
   */
  lemma GridTrianglesShape(div1: int, div2: int)
    ensures var indices := GridCells(Iterations(div1 - 1), div2);
            |indices| == 6 * Iterations(div1 - 1) * Iterations(div2 - 1)
            && InGrid(indices, div1 * div2)
            && forall c :: 0 <= c < Iterations(div1 - 1) * Iterations(div2 - 1) ==> SharesDiagonal(Cell(indices, c), div2)
  {
    GridCellsShape(Iterations(div1 - 1), div1, div2);
  }

  // ---------------------------------------------------------------------------
  // appendBoxTriangles
  // ---------------------------------------------------------------------------

  /** `VertexP`: a vertex with a position only. */
  datatype VertexP<T> = VertexP(position: Vec3<T>)

  /** A box corner is a float vector that may be infinite. */
  type BoxVertex = VertexP<Ext>

  /** A `std::vector<VertexP>` appended to in place. */
  class VertexVector {
    var elements: seq<BoxVertex>

    constructor (elements: seq<BoxVertex>)
      ensures this.elements == elements
    {
      this.elements := elements;
    }
  }

  /** The box read as the six floats `min[0], min[1], min[2], max[0], max[1], max[2]`, as `(float*)&box` does. */
  function Limits(box: Box): (r: seq<Ext>)
    requires Sized(box, 3)
    ensures |r| == 6
  {
    box.min + box.max
  }

  /** Corner `i` of the box, chosen through the `xType`, `yType`, `zType` digits of `i`. */
  function BoxCorner(box: Box, i: nat): BoxVertex
    requires Sized(box, 3) && i < 8
  {
    var limits := Limits(box);
    var xType, yType, zType := (i / 4) % 2, (i / 2) % 2, (i / 1) % 2;
    VertexP(Vec3(limits[xType * 3 + 0], limits[yType * 3 + 1], limits[zType * 3 + 2]))
  }

  /** The eight corners, in the order `appendBoxTriangles` appends them. */
  function BoxCorners(box: Box): (r: seq<BoxVertex>)
    requires Sized(box, 3)
    ensures |r| == 8
  {
    seq(8, i requires 0 <= i < 8 => BoxCorner(box, i))
  }

  /** `newIndices`: the four corners of each side of the box. */
  const Sides: seq<seq<nat>> := [[0, 1, 2, 3], [4, 5, 6, 7], [0, 1, 4, 5], [2, 3, 6, 7], [0, 2, 4, 6], [1, 3, 5, 7]]

  /** The two triangles of side `s`: corners 0, 1, 2 and 1, 2, 3 of it, shifted by `offset`. */
  function SideIndices(s: nat, offset: int): (r: seq<nat>)
    requires s < 6
    ensures |r| == 6
  {
    var c := Sides[s];
    [ToUnsigned(c[0] + offset), ToUnsigned(c[1] + offset), ToUnsigned(c[2] + offset),
     ToUnsigned(c[1] + offset), ToUnsigned(c[2] + offset), ToUnsigned(c[3] + offset)]
  }

  /** The indices of sides `0 .. count - 1`. */
  function BoxIndices(count: nat, offset: int): (r: seq<nat>)
    requires count <= 6
    ensures |r| == 6 * count
  {
    if count == 0 then [] else BoxIndices(count - 1, offset) + SideIndices(count - 1, offset)
  }

  /**
   * `appendBoxTriangles(vertices, indices, box)`: appends the eight corners
   * of the box to `vertices` and the 36 indices of its twelve triangles,
   * numbered from the old vertex count, to `indices`.
   */
  method AppendBoxTriangles(vertices: VertexVector, indices: IndexVector, box: Box)
    requires Sized(box, 3)
    modifies vertices, indices
    ensures vertices.elements == old(vertices.elements) + BoxCorners(box)
    ensures indices.elements == old(indices.elements) + BoxIndices(6, |old(vertices.elements)|)
  {
    var indexOffset := |vertices.elements|;
    AppendCorners(vertices, box);
    ghost var start, corners := indices.elements, vertices.elements;
    for i := 0 to 6
      invariant indices.elements == start + BoxIndices(i, indexOffset)
      invariant vertices.elements == corners
    {
      AppendSide(indices, i, indexOffset);
    }
  }

  /** The corner loop of `appendBoxTriangles`. */
  method AppendCorners(vertices: VertexVector, box: Box)
    requires Sized(box, 3)
    modifies vertices
    ensures vertices.elements == old(vertices.elements) + BoxCorners(box)
  {
    var limits := Limits(box);
    for i := 0 to 8
      invariant vertices.elements == old(vertices.elements) + BoxCorners(box)[..i]
    {
      var xType := (i / 4) % 2;
      var yType := (i / 2) % 2;
      var zType := (i / 1) % 2;
      var point := Vec3(limits[xType * 3 + 0], limits[yType * 3 + 1], limits[zType * 3 + 2]);
      assert BoxCorners(box)[..i + 1] == BoxCorners(box)[..i] + [VertexP(point)];
      vertices.elements := vertices.elements + [VertexP(point)];
    }
    assert BoxCorners(box)[..8] == BoxCorners(box);
  }

  /** One pass of the side loop of `appendBoxTriangles`: the two triangles of side `i`. */
  method AppendSide(indices: IndexVector, i: nat, indexOffset: int)
    requires i < 6
    modifies indices
    ensures indices.elements == old(indices.elements) + SideIndices(i, indexOffset)
  {
    var side := Sides[i];
    for j := 0 to 3
      invariant indices.elements == old(indices.elements) + SideIndices(i, indexOffset)[..j]
    {
      indices.elements := indices.elements + [ToUnsigned(side[j] + indexOffset)];
    }
    for j := 1 to 4
      invariant indices.elements == old(indices.elements) + SideIndices(i, indexOffset)[..j + 2]
    {
      indices.elements := indices.elements + [ToUnsigned(side[j] + indexOffset)];
    }
    assert SideIndices(i, indexOffset)[..6] == SideIndices(i, indexOffset);
  }

  /** Bit `b` of the corner number `i`. */
  predicate Bit(i: nat, b: nat)
    requires i < 8 && b < 3
  {
    (i as bv3) & (1 << b) != 0
  }

  /** Corner `i` takes the maximum x iff bit 2 of `i` is set, the maximum y iff bit 1, the maximum z iff bit 0. */
  lemma CornerBits(box: Box, i: nat)
    requires Sized(box, 3) && i < 8
    ensures var p := BoxCorners(box)[i].position;
            p.x == (if Bit(i, 2) then box.max[0] else box.min[0])
            && p.y == (if Bit(i, 1) then box.max[1] else box.min[1])
            && p.z == (if Bit(i, 0) then box.max[2] else box.min[2])
  {
    assert i == 0 || i == 1 || i == 2 || i == 3 || i == 4 || i == 5 || i == 6 || i == 7;
  }

  /** A side of the box: its four corners agree on one bit, so they lie in one face of the box. */
  predicate IsFace(side: seq<nat>, b: nat, value: bool)
    requires b < 3
  {
    |side| == 4 && forall k :: 0 <= k < 4 ==> side[k] < 8 && Bit(side[k], b) == value
  }

  /**
   * The six sides of `newIndices` are the six faces of the box: side `2b'`
   * has the bit of one axis clear and side `2b' + 1` has it set, for the
   * x, y and z axes in turn.
   */
  lemma SidesAreFaces()
    ensures IsFace(Sides[0], 2, false) && IsFace(Sides[1], 2, true)
    ensures IsFace(Sides[2], 1, false) && IsFace(Sides[3], 1, true)
    ensures IsFace(Sides[4], 0, false) && IsFace(Sides[5], 0, true)
  {
  }

  /** With fewer than `2^32 - 8` vertices before, the new indices all name the new corners. */
  lemma {:induction false} BoxIndicesInRange(count: nat, offset: nat)
    requires count <= 6 && offset + 8 <= UintRange
    ensures forall k :: 0 <= k < |BoxIndices(count, offset)| ==> offset <= BoxIndices(count, offset)[k] < offset + 8
  {
    if count > 0 {
      BoxIndicesInRange(count - 1, offset);
      var s := Sides[count - 1];
      assert forall k :: 0 <= k < 4 ==> s[k] < 8;
    }
  }

  // ---------------------------------------------------------------------------
  // Normals and vertex lists
  // ---------------------------------------------------------------------------

  datatype VertexPN = VertexPN(position: Position, normal: Position)

  const Zero: Position := Vec3(0.0, 0.0, 0.0)

  function Add(a: Position, b: Position): Position {
    Vec3(a.x + b.x, a.y + b.y, a.z + b.z)
  }

  /** Every index names one of the points. */
  predicate IndicesValid(indices: seq<nat>, pointCount: nat) {
    forall k :: 0 <= k < |indices| ==> indices[k] < pointCount
  }

  /** The normal of face `f`, whose corners are `indices[3f]`, `indices[3f + 1]`, `indices[3f + 2]`. */
  function FaceNormals(points: seq<Position>, indices: seq<nat>,
                       triangleNormal: (Position, Position, Position) -> Position): (r: seq<Position>)
    requires IndicesValid(indices, |points|)
    ensures |r| == |indices| / 3
  {
    seq(|indices| / 3, f requires 0 <= f < |indices| / 3 =>
      triangleNormal(points[indices[3 * f]], points[indices[3 * f + 1]], points[indices[3 * f + 2]]))
  }

  /**
   * `calculateFaceNormals(points, indices)`: one normal per index triple.
   * The loop reads `indices[i + 1]` and `indices[i + 2]`, so the list must
   * hold whole triples.
   */
  method CalculateFaceNormals(points: seq<Position>, indices: seq<nat>,
                              triangleNormal: (Position, Position, Position) -> Position)
    returns (normals: seq<Position>)
    requires |indices| % 3 == 0 && IndicesValid(indices, |points|)
    ensures normals == FaceNormals(points, indices, triangleNormal)
  {
    normals := [];
    var i := 0;
    while i < |indices|
      invariant i % 3 == 0 && 0 <= i <= |indices|
      invariant normals == FaceNormals(points, indices, triangleNormal)[..i / 3]
    {
      normals := normals + [triangleNormal(points[indices[i + 0]], points[indices[i + 1]], points[indices[i + 2]])];
      i := i + 3;
    }
    assert i / 3 == |indices| / 3;
  }

  /**
   * The sum of the normals of the faces that vertex `v` is a corner of,
   * among the first `k` index positions, added in the order the loop of
   * `calculateVertexNormals` adds them (a face counts once per corner it
   * has at `v`).
   */
  function NormalSum(indices: seq<nat>, faceNormals: seq<Position>, v: nat, k: nat): Position
    requires k <= |indices| && (k + 2) / 3 <= |faceNormals|
  {
    if k == 0 then Zero
    else
      var s := NormalSum(indices, faceNormals, v, k - 1);
      if indices[k - 1] == v then Add(s, faceNormals[(k - 1) / 3]) else s
  }

  /** A vertex no index position names gets the zero sum. */
  lemma {:induction false} NormalSumUnreferenced(indices: seq<nat>, faceNormals: seq<Position>, v: nat, k: nat)
    requires k <= |indices| && (k + 2) / 3 <= |faceNormals|
    requires forall p :: 0 <= p < k ==> indices[p] != v
    ensures NormalSum(indices, faceNormals, v, k) == Zero
  {
    if k > 0 {
      NormalSumUnreferenced(indices, faceNormals, v, k - 1);
    }
  }

  /** A vertex named at one index position only gets exactly the normal of that face. */
  lemma {:induction false} NormalSumSingle(indices: seq<nat>, faceNormals: seq<Position>, v: nat, k: nat, p: nat)
    requires k <= |indices| && (k + 2) / 3 <= |faceNormals|
    requires p < k && indices[p] == v
    requires forall q :: 0 <= q < k && q != p ==> indices[q] != v
    ensures NormalSum(indices, faceNormals, v, k) == faceNormals[p / 3]
  {
    if k == p + 1 {
      NormalSumUnreferenced(indices, faceNormals, v, p);
    } else {
      NormalSumSingle(indices, faceNormals, v, k - 1, p);
    }
  }

  /**
   * `calculateVertexNormals(points, indices, faceNormals)`: each point's
   * normal is the normalized sum of the normals of the faces around it.
   * Only whole triples of `indices` are faces; each must name points and
   * have a face normal.
   */
  method CalculateVertexNormals(points: seq<Position>, indices: seq<nat>, faceNormals: seq<Position>,
                                normalize: Position -> Position)
    returns (normals: seq<Position>)
    requires IndicesValid(indices[..3 * (|indices| / 3)], |points|)
    requires |indices| / 3 <= |faceNormals|
    ensures |normals| == |points|
    ensures forall v :: 0 <= v < |points| ==>
              normals[v] == normalize(NormalSum(indices, faceNormals, v, 3 * (|indices| / 3)))
  {
    var buffer := new Position[|points|](_ => Zero);
    var faceAmount := |indices| / 3;
    for i := 0 to faceAmount
      invariant forall v :: 0 <= v < buffer.Length ==> buffer[v] == NormalSum(indices, faceNormals, v, 3 * i)
    {
      for j := 0 to 3
        invariant forall v :: 0 <= v < buffer.Length ==> buffer[v] == NormalSum(indices, faceNormals, v, 3 * i + j)
      {
        AccumulateCorner(buffer, indices, faceNormals, i, j, |points|);
      }
    }
    var total := 3 * faceAmount;
    for i := 0 to buffer.Length
      invariant forall v :: 0 <= v < i ==> buffer[v] == normalize(NormalSum(indices, faceNormals, v, total))
      invariant forall v :: i <= v < buffer.Length ==> buffer[v] == NormalSum(indices, faceNormals, v, total)
    {
      buffer[i] := normalize(buffer[i]);
    }
    normals := buffer[..];
  }

  /** One step of the face loop: `normals[indices[3 * i + j]] += faceNormals[i]`. */
  method AccumulateCorner(buffer: array<Position>, indices: seq<nat>, faceNormals: seq<Position>,
                          i: nat, j: nat, pointCount: nat)
    requires buffer.Length == pointCount && j < 3 && 3 * i + 3 <= |indices| && i < |faceNormals|
    requires indices[3 * i + j] < pointCount
    requires forall v :: 0 <= v < buffer.Length ==> buffer[v] == NormalSum(indices, faceNormals, v, 3 * i + j)
    modifies buffer
    ensures forall v :: 0 <= v < buffer.Length ==> buffer[v] == NormalSum(indices, faceNormals, v, 3 * i + j + 1)
  {
    var p := 3 * i + j;
    assert p / 3 == i;
    var corner := indices[p];
    buffer[corner] := Add(buffer[corner], faceNormals[i]);
  }

  /** `calculateVertexNormals(points, indices)`: the face normals first, then their sums per point. */
  method CalculateVertexNormalsOfMesh(points: seq<Position>, indices: seq<nat>,
                                      triangleNormal: (Position, Position, Position) -> Position,
                                      normalize: Position -> Position)
    returns (normals: seq<Position>)
    requires |indices| % 3 == 0 && IndicesValid(indices, |points|)
    ensures |normals| == |points|
    ensures forall v :: 0 <= v < |points| ==>
              normals[v] == normalize(NormalSum(indices, FaceNormals(points, indices, triangleNormal), v, |indices|))
  {
    var faceNormals := CalculateFaceNormals(points, indices, triangleNormal);
    assert indices[..3 * (|indices| / 3)] == indices;
    normals := CalculateVertexNormals(points, indices, faceNormals, normalize);
  }

  /**
   * `calculateTriangleVertexNormals(points)`: `points` lists triangles
   * corner by corner (the source asserts whole triangles); each corner gets
   * its triangle's normal.
   */
  method CalculateTriangleVertexNormals(points: seq<Position>,
                                        triangleNormal: (Position, Position, Position) -> Position)
    returns (normals: seq<Position>)
    requires |points| % 3 == 0
    ensures |normals| == |points|
    ensures forall k :: 0 <= k < |normals| ==>
              var t := k / 3; normals[k] == triangleNormal(points[3 * t], points[3 * t + 1], points[3 * t + 2])
  {
    normals := [];
    var i := 0;
    while i < |points|
      invariant i % 3 == 0 && 0 <= i <= |points| && |normals| == i
      invariant forall k :: 0 <= k < i ==>
                  var t := k / 3; normals[k] == triangleNormal(points[3 * t], points[3 * t + 1], points[3 * t + 2])
    {
      var normal := triangleNormal(points[i + 0], points[i + 1], points[i + 2]);
      normals := normals + [normal];
      normals := normals + [normal];
      normals := normals + [normal];
      i := i + 3;
    }
  }

  /** `createVertexPVector(positions)`: one vertex per position, in order. */
  method CreateVertexPVector(positions: seq<Position>) returns (vertices: seq<VertexP<real>>)
    ensures |vertices| == |positions|
    ensures forall i :: 0 <= i < |vertices| ==> vertices[i].position == positions[i]
  {
    vertices := [];
    for i := 0 to |positions|
      invariant |vertices| == i
      invariant forall k :: 0 <= k < i ==> vertices[k].position == positions[k]
    {
      vertices := vertices + [VertexP(positions[i])];
    }
  }

  /** `createVertexPNVector(positions, normals)`: pairs the two lists, which the source asserts have one length. */
  method CreateVertexPNVector(positions: seq<Position>, normals: seq<Position>) returns (vertices: seq<VertexPN>)
    requires |positions| == |normals|
    ensures |vertices| == |positions|
    ensures forall i :: 0 <= i < |vertices| ==> vertices[i] == VertexPN(positions[i], normals[i])
  {
    vertices := [];
    for i := 0 to |positions|
      invariant |vertices| == i
      invariant forall k :: 0 <= k < i ==> vertices[k] == VertexPN(positions[k], normals[k])
    {
      vertices := vertices + [VertexPN(positions[i], normals[i])];
    }
  }

  /** `extractPNVerticesFromOffData(offData)`: each position paired with its vertex normal. */
  method ExtractPNVertices(data: OffFileData, triangleNormal: (Position, Position, Position) -> Position,
                           normalize: Position -> Position)
    returns (vertices: seq<VertexPN>)
    requires |data.indices.elements| % 3 == 0 && IndicesValid(data.indices.elements, |data.positions|)
    ensures |vertices| == |data.positions|
    ensures forall v :: 0 <= v < |vertices| ==> vertices[v].position == data.positions[v]
    ensures forall v :: 0 <= v < |vertices| ==> vertices[v].normal == normalize(NormalSum(data.indices.elements,
                                                   FaceNormals(data.positions, data.indices.elements, triangleNormal),
                                                   v, |data.indices.elements|))
  {
    var positions, indices := data.positions, data.indices.elements;
    var faceNormals := CalculateFaceNormals(positions, indices, triangleNormal);
    assert indices[..3 * (|indices| / 3)] == indices;
    var vertexNormals := CalculateVertexNormals(positions, indices, faceNormals, normalize);
    vertices := CreateVertexPNVector(positions, vertexNormals);
  }
}
