/**
 Properties of the triangle list the water mesh is drawn from: every index
 names a vertex, every triangle has three distinct corners, the two
 triangles of a cell meet along one diagonal, every triangle is wound the
 same way, and every vertex is used.
 */
module Topology {
  import opened GridArith
  import opened Grid

  datatype Triangle = Triangle(a: int, b: int, c: int)

  function TriangleCount(m: int, n: int): int {
    2 * (m - 1) * (n - 1)
  }

  /** Triangle `t` of an index list: the entries `3t`, `3t+1`, `3t+2`. */
  function TriangleAt(idx: seq<int>, t: int): Triangle
    requires 0 <= t && 3 * t + 2 < |idx|
  {
    Triangle(idx[3 * t], idx[3 * t + 1], idx[3 * t + 2])
  }

  predicate NonDegenerate(t: Triangle) {
    t.a != t.b && t.b != t.c && t.a != t.c
  }

  function Corners(t: Triangle): set<int> {
    {t.a, t.b, t.c}
  }

  /** The first triangle a cell emits, read off its six indices. */
  function FirstTriangle(n: int, i: int, j: int): Triangle {
    var c := CellIndices(n, i, j);
    Triangle(c[0], c[1], c[2])
  }

  /** The second triangle a cell emits, read off its six indices. */
  function SecondTriangle(n: int, i: int, j: int): Triangle {
    var c := CellIndices(n, i, j);
    Triangle(c[3], c[4], c[5])
  }

  /**
   Twice the signed area of a triangle whose corners are placed at their
   lattice coordinates (row `v / n`, column `v % n`). Equal signs mean equal
   winding; zero means the corners are collinear.
   */
  function LatticeOrientation(n: int, t: Triangle): int
    requires n > 0
  {
    var r0, c0 := t.a / n, t.a % n;
    var r1, c1 := t.b / n, t.b % n;
    var r2, c2 := t.c / n, t.c % n;
    (r1 - r0) * (c2 - c0) - (c1 - c0) * (r2 - r0)
  }

  /** Twice the signed area of the projection of a triangle onto the horizontal x-z plane. */
  function PlanarArea(p: Vec3, q: Vec3, r: Vec3): real {
    (q.x - p.x) * (r.z - p.z) - (q.z - p.z) * (r.x - p.x)
  }

  /**
   The four corners of cell `(i, j)` are the grid points `(i, j)`, `(i, j+1)`,
   `(i+1, j)` and `(i+1, j+1)`: the first triangle is (top-left, right
   neighbour, lower neighbour), the second (right, diagonal, lower).
   */
  lemma CellCorners(n: int, i: int, j: int)
    ensures FirstTriangle(n, i, j) ==
              Triangle(VertexSlot(n, i, j), VertexSlot(n, i, j + 1), VertexSlot(n, i + 1, j))
    ensures SecondTriangle(n, i, j) ==
              Triangle(VertexSlot(n, i, j + 1), VertexSlot(n, i + 1, j + 1), VertexSlot(n, i + 1, j))
  {
    assert (i + 1) * n == i * n + n;
  }

  /**
   Every index a cell emits names a vertex of the grid, and the largest,
   `base + n + 1` of the last cell, is exactly `m*n - 1`.
   */
  lemma CellIndicesInRange(m: int, n: int, i: int, j: int)
    requires m >= 2 && n >= 2 && InGrid(m - 1, n - 1, i, j)
    ensures forall r :: 0 <= r < 6 ==> 0 <= CellIndices(n, i, j)[r] < m * n
    ensures i == m - 2 && j == n - 2 ==> CellIndices(n, i, j)[4] == m * n - 1
  {
    CellCorners(n, i, j);
    RowMajorBound(i, j, m, n);
    RowMajorBound(i + 1, j + 1, m, n);
    assert CellIndices(n, i, j)[4] == VertexSlot(n, i + 1, j + 1);
    if i == m - 2 && j == n - 2 {
      assert (m - 1) * n == m * n - n;
    }
  }

  /** Neither triangle of a cell repeats a vertex. */
  lemma CellTrianglesNonDegenerate(n: int, i: int, j: int)
    requires n >= 2
    ensures NonDegenerate(FirstTriangle(n, i, j))
    ensures NonDegenerate(SecondTriangle(n, i, j))
  {
  }

  /** The two triangles of a cell share exactly the diagonal edge `{base+1, base+n}`. */
  lemma CellDiagonal(n: int, i: int, j: int)
    requires n >= 2
    ensures Corners(FirstTriangle(n, i, j)) * Corners(SecondTriangle(n, i, j))
            == {VertexSlot(n, i, j) + 1, VertexSlot(n, i, j) + n}
  {
    var b := VertexSlot(n, i, j);
    assert Corners(FirstTriangle(n, i, j)) == {b, b + 1, b + n};
    assert Corners(SecondTriangle(n, i, j)) == {b + 1, b + n + 1, b + n};
  }

  /** Both triangles of every cell have lattice orientation -1: they are wound the same way. */
  lemma CellLatticeWinding(n: int, i: int, j: int)
    requires n >= 2 && 0 <= i && 0 <= j < n - 1
    ensures LatticeOrientation(n, FirstTriangle(n, i, j)) == -1
    ensures LatticeOrientation(n, SecondTriangle(n, i, j)) == -1
  {
    CellCorners(n, i, j);
    DivModRowMajor(i, j, n);
    DivModRowMajor(i, j + 1, n);
    DivModRowMajor(i + 1, j, n);
    DivModRowMajor(i + 1, j + 1, n);
  }

  /** One row down moves a vertex by `size/n` along x and leaves its z alone. */
  lemma RowStep(s: Surface, i: int, j: int)
    requires s.Valid()
    ensures VertexAt(s, i + 1, j).position.x == VertexAt(s, i, j).position.x + s.size / s.n as real
    ensures VertexAt(s, i + 1, j).position.z == VertexAt(s, i, j).position.z
  {
    var n := s.n as real;
    assert (i + 1) as real * s.size / n == i as real * s.size / n + s.size / n;
  }

  /** One column right moves a vertex by `size/m` along z and leaves its x alone. */
  lemma ColStep(s: Surface, i: int, j: int)
    requires s.Valid()
    ensures VertexAt(s, i, j + 1).position.z == VertexAt(s, i, j).position.z + s.size / s.m as real
    ensures VertexAt(s, i, j + 1).position.x == VertexAt(s, i, j).position.x
  {
    var m := s.m as real;
    assert (j + 1) as real * s.size / m == j as real * s.size / m + s.size / m;
  }

  /**
   In world space both triangles of cell `(i, j)` have the same signed
   area in the x-z plane, `-(size/n) * (size/m)`: the row step along x is
   `size/n` and the column step along z is `size/m`.
   */
  lemma CellWorldWinding(s: Surface, i: int, j: int)
    requires s.Valid()
    ensures PlanarArea(VertexAt(s, i, j).position, VertexAt(s, i, j + 1).position,
                       VertexAt(s, i + 1, j).position)
            == -(s.size / s.n as real) * (s.size / s.m as real)
    ensures PlanarArea(VertexAt(s, i, j + 1).position, VertexAt(s, i + 1, j + 1).position,
                       VertexAt(s, i + 1, j).position)
            == -(s.size / s.n as real) * (s.size / s.m as real)
  {
    RowStep(s, i, j);
    RowStep(s, i, j + 1);
    ColStep(s, i, j);
    ColStep(s, i + 1, j);
  }

  /** The triangles `2*act` and `2*act + 1` of an index buffer are the two triangles of the cell in slot `act`. */
  lemma TrianglesOfCell(m: int, n: int, idx: seq<int>, i: int, j: int)
    requires m >= 2 && n >= 2 && IsIndexBuffer(m, n, idx) && InGrid(m - 1, n - 1, i, j)
    ensures 0 <= 2 * CellSlot(n, i, j) && 3 * (2 * CellSlot(n, i, j) + 1) + 2 < |idx|
    ensures TriangleAt(idx, 2 * CellSlot(n, i, j)) == FirstTriangle(n, i, j)
    ensures TriangleAt(idx, 2 * CellSlot(n, i, j) + 1) == SecondTriangle(n, i, j)
  {
    IndexPosBound(m, n, i, j, 0);
    IndexPosBound(m, n, i, j, 5);
    var c := CellIndices(n, i, j);
    assert idx[IndexPos(n, i, j, 0)] == c[0];
    assert idx[IndexPos(n, i, j, 1)] == c[1];
    assert idx[IndexPos(n, i, j, 2)] == c[2];
    assert idx[IndexPos(n, i, j, 3)] == c[3];
    assert idx[IndexPos(n, i, j, 4)] == c[4];
    assert idx[IndexPos(n, i, j, 5)] == c[5];
  }

  /** Triangle `t` is one of the two triangles of some cell. */
  lemma CellOfTriangle(m: int, n: int, t: int) returns (i: int, j: int)
    requires m >= 2 && n >= 2 && 0 <= t < TriangleCount(m, n)
    ensures InGrid(m - 1, n - 1, i, j)
    ensures t == 2 * CellSlot(n, i, j) || t == 2 * CellSlot(n, i, j) + 1
  {
    assert IndexCount(m, n) == 3 * TriangleCount(m, n);
    var r;
    i, j, r := CellOfPosition(m, n, 3 * t);
  }

  /** Every entry of an index buffer names a vertex: `0 <= idx[p] < m*n`. */
  lemma MeshIndicesInRange(m: int, n: int, idx: seq<int>)
    requires m >= 2 && n >= 2 && IsIndexBuffer(m, n, idx)
    ensures forall p :: 0 <= p < |idx| ==> 0 <= idx[p] < m * n
  {
    forall p | 0 <= p < |idx|
      ensures 0 <= idx[p] < m * n
    {
      var i, j, r := CellOfPosition(m, n, p);
      CellIndicesInRange(m, n, i, j);
      assert idx[IndexPos(n, i, j, r)] == CellIndices(n, i, j)[r];
    }
  }

  /**
   The index buffer holds `2*(m-1)*(n-1)` triangles, none degenerate and
   all with the same lattice orientation.
   */
  lemma MeshTrianglesWellFormed(m: int, n: int, idx: seq<int>)
    requires m >= 2 && n >= 2 && IsIndexBuffer(m, n, idx)
    ensures |idx| == 3 * TriangleCount(m, n)
    ensures forall t :: 0 <= t < TriangleCount(m, n) ==>
              NonDegenerate(TriangleAt(idx, t)) && LatticeOrientation(n, TriangleAt(idx, t)) == -1
  {
    assert IndexCount(m, n) == 3 * TriangleCount(m, n);
    forall t | 0 <= t < TriangleCount(m, n)
      ensures NonDegenerate(TriangleAt(idx, t)) && LatticeOrientation(n, TriangleAt(idx, t)) == -1
    {
      var i, j := CellOfTriangle(m, n, t);
      TrianglesOfCell(m, n, idx, i, j);
      CellTrianglesNonDegenerate(n, i, j);
      CellLatticeWinding(n, i, j);
    }
  }

  /** In the index buffer the two triangles of each cell share exactly that cell's diagonal. */
  lemma MeshCellsShareDiagonal(m: int, n: int, idx: seq<int>)
    requires m >= 2 && n >= 2 && IsIndexBuffer(m, n, idx)
    ensures |idx| == 3 * TriangleCount(m, n)
    ensures forall i, j :: InGrid(m - 1, n - 1, i, j) ==>
              0 <= 2 * CellSlot(n, i, j) && 3 * (2 * CellSlot(n, i, j) + 1) + 2 < |idx| &&
              Corners(TriangleAt(idx, 2 * CellSlot(n, i, j))) * Corners(TriangleAt(idx, 2 * CellSlot(n, i, j) + 1))
              == {VertexSlot(n, i, j) + 1, VertexSlot(n, i, j) + n}
  {
    assert IndexCount(m, n) == 3 * TriangleCount(m, n);
    forall i, j | InGrid(m - 1, n - 1, i, j)
      ensures 0 <= 2 * CellSlot(n, i, j) && 3 * (2 * CellSlot(n, i, j) + 1) + 2 < |idx|
      ensures Corners(TriangleAt(idx, 2 * CellSlot(n, i, j))) * Corners(TriangleAt(idx, 2 * CellSlot(n, i, j) + 1))
              == {VertexSlot(n, i, j) + 1, VertexSlot(n, i, j) + n}
    {
      TrianglesOfCell(m, n, idx, i, j);
      CellDiagonal(n, i, j);
    }
  }

  /**
   Grid point `(row, col)` is a corner of some cell: of the cell it is the
   top-left corner of, or else of the cell above and/or to the left of it.
   */
  lemma CellOfVertex(m: int, n: int, row: int, col: int) returns (i: int, j: int, r: int)
    requires m >= 2 && n >= 2 && InGrid(m, n, row, col)
    ensures InGrid(m - 1, n - 1, i, j) && 0 <= r < 6
    ensures CellIndices(n, i, j)[r] == VertexSlot(n, row, col)
  {
    i := if row < m - 1 then row else row - 1;
    j := if col < n - 1 then col else col - 1;
    r := if row < m - 1 then (if col < n - 1 then 0 else 1)
         else (if col < n - 1 then 2 else 4);
    CellCorners(n, i, j);
  }

  /** Vertex `v` of the grid appears in the index buffer. */
  lemma VertexUsed(m: int, n: int, idx: seq<int>, v: int)
    requires m >= 2 && n >= 2 && IsIndexBuffer(m, n, idx) && 0 <= v < m * n
    ensures v in idx
  {
    RowMajorCover(v, m, n);
    var i, j, r := CellOfVertex(m, n, v / n, v % n);
    IndexPosBound(m, n, i, j, r);
    assert idx[IndexPos(n, i, j, r)] == v;
  }

  /** Every vertex of the grid is a corner of some triangle: no vertex is left out of the mesh. */
  lemma MeshUsesEveryVertex(m: int, n: int, idx: seq<int>)
    requires m >= 2 && n >= 2 && IsIndexBuffer(m, n, idx)
    ensures forall v :: 0 <= v < m * n ==> v in idx
  {
    forall v | 0 <= v < m * n
      ensures v in idx
    {
      VertexUsed(m, n, idx, v);
    }
  }

  /** Triangle `t` of the mesh has signed x-z area `-(size/n) * (size/m)`. */
  lemma TriangleWorldWinding(s: Surface, vs: seq<ColoredVertex>, idx: seq<int>, t: int)
    requires s.Valid() && IsVertexBuffer(s, vs) && IsIndexBuffer(s.m, s.n, idx)
    requires 0 <= t < TriangleCount(s.m, s.n)
    requires |idx| == 3 * TriangleCount(s.m, s.n)
    requires forall p :: 0 <= p < |idx| ==> 0 <= idx[p] < |vs|
    ensures PlanarArea(vs[idx[3 * t]].position, vs[idx[3 * t + 1]].position, vs[idx[3 * t + 2]].position)
            == -(s.size / s.n as real) * (s.size / s.m as real)
  {
    var n := s.n;
    var i, j := CellOfTriangle(s.m, n, t);
    TrianglesOfCell(s.m, n, idx, i, j);
    CellCorners(n, i, j);
    CellWorldWinding(s, i, j);
    assert vs[VertexSlot(n, i, j)] == VertexAt(s, i, j);
    assert vs[VertexSlot(n, i, j + 1)] == VertexAt(s, i, j + 1);
    assert vs[VertexSlot(n, i + 1, j)] == VertexAt(s, i + 1, j);
    assert vs[VertexSlot(n, i + 1, j + 1)] == VertexAt(s, i + 1, j + 1);
  }

  /**
   With the vertex buffer of `s` and its index buffer, every triangle has
   the same signed area `-(size/n) * (size/m)` in the x-z plane: the mesh is
   wound consistently in world space, and no triangle is flat when `size != 0`.
   */
  lemma MeshWorldWinding(s: Surface, vs: seq<ColoredVertex>, idx: seq<int>)
    requires s.Valid() && IsVertexBuffer(s, vs) && IsIndexBuffer(s.m, s.n, idx)
    ensures |idx| == 3 * TriangleCount(s.m, s.n)
    ensures forall p :: 0 <= p < |idx| ==> 0 <= idx[p] < |vs|
    ensures forall t :: 0 <= t < TriangleCount(s.m, s.n) ==>
              PlanarArea(vs[idx[3 * t]].position, vs[idx[3 * t + 1]].position, vs[idx[3 * t + 2]].position)
              == -(s.size / s.n as real) * (s.size / s.m as real)
  {
    assert IndexCount(s.m, s.n) == 3 * TriangleCount(s.m, s.n);
    assert |vs| == s.m * s.n;
    MeshIndicesInRange(s.m, s.n, idx);
    forall t | 0 <= t < TriangleCount(s.m, s.n)
      ensures PlanarArea(vs[idx[3 * t]].position, vs[idx[3 * t + 1]].position, vs[idx[3 * t + 2]].position)
              == -(s.size / s.n as real) * (s.size / s.m as real)
    {
      TriangleWorldWinding(s, vs, idx, t);
    }
  }
}
