/**
 The data of the water surface mesh: a regular grid of `m` rows and `n`
 columns of vertices, stored row-major, and a triangle index list with six
 entries per grid cell. This module fixes what each slot of the two buffers
 must hold; the module `Water` fills them with nested loops.

 Vertex positions are idealised `real`s: the single-precision rounding of the
 original is not modelled.
 */
module Grid {
  import opened GridArith

  datatype Vec3 = Vec3(x: real, y: real, z: real)
  datatype Vec4 = Vec4(x: real, y: real, z: real, w: real)

  /** A vertex as the shader consumes it: a world position and a colour attribute. */
  datatype ColoredVertex = ColoredVertex(position: Vec3, color: Vec4)

  /**
   The configuration of a water surface: `n` columns and `m` rows of
   vertices, the bottom-left corner of the grid and its side length.
   */
  datatype Surface = Surface(n: int, m: int, corner: Vec3, size: real) {
    /** Fewer than two rows or columns leave no cell to triangulate. */
    predicate Valid() {
      m >= 2 && n >= 2
    }
  }

  /** The surface every `Water` is built with: 50 by 50 vertices, corner (-5, -2, -5), side 10. */
  const Default := Surface(50, 50, Vec3(-5.0, -2.0, -5.0), 10.0)

  predicate InGrid(rows: int, cols: int, i: int, j: int) {
    0 <= i < rows && 0 <= j < cols
  }

  /** The vertex buffer slot of grid point `(i, j)`. */
  function VertexSlot(n: int, i: int, j: int): int {
    i * n + j
  }

  /** The output slot `act` of cell `(i, j)`; a cell spans columns `j` and `j + 1`, so a row has `n - 1` cells. */
  function CellSlot(n: int, i: int, j: int): int {
    i * (n - 1) + j
  }

  /** The index buffer position of entry `r` of cell `(i, j)`. */
  function IndexPos(n: int, i: int, j: int, r: int): int {
    6 * CellSlot(n, i, j) + r
  }

  /**
   The vertex of grid point `(i, j)`. The position divides the row by `n`
   and the column by `m` while the attribute divides the row by `m` and
   the column by `n`: the original swaps the two divisors, which only
   agree because it uses `m == n`.
   */
  function VertexAt(s: Surface, i: int, j: int): (v: ColoredVertex)
    requires s.Valid()
    ensures InGrid(s.m, s.n, i, j) ==>
              0.0 <= v.color.x < 1.0 && 0.0 <= v.color.y < 1.0
    ensures v.color.z == 0.0 && v.color.w == 1.0 && v.position.y == s.corner.y
  {
    ColoredVertex(
      Vec3(i as real * s.size / s.n as real + s.corner.x,
           0.0 + s.corner.y,
           j as real * s.size / s.m as real + s.corner.z),
      Vec4(i as real / s.m as real, j as real / s.n as real, 0.0, 1.0))
  }

  /** The six indices of cell `(i, j)`: triangles (base, base+1, base+n) and (base+1, base+n+1, base+n). */
  function CellIndices(n: int, i: int, j: int): seq<int> {
    var base := VertexSlot(n, i, j);
    [base, base + 1, base + n, base + 1, base + n + 1, base + n]
  }

  function VertexCount(s: Surface): int {
    s.n * s.m
  }

  function IndexCount(m: int, n: int): int {
    6 * (n - 1) * (m - 1)
  }

  /**
   What the vertex fill promises: the buffer has one slot per grid point and
   slot `VertexSlot(n, i, j)` holds the vertex of `(i, j)`.
   */
  ghost predicate IsVertexBuffer(s: Surface, vs: seq<ColoredVertex>)
    requires s.Valid()
  {
    && |vs| == VertexCount(s)
    && forall i, j :: InGrid(s.m, s.n, i, j) ==>
         (RowMajorBound(i, j, s.m, s.n);
          vs[VertexSlot(s.n, i, j)] == VertexAt(s, i, j))
  }

  /**
   What the index fill promises: six entries per cell, and entry `r` of cell
   `(i, j)` sits at `IndexPos(n, i, j, r)`.
   */
  ghost predicate IsIndexBuffer(m: int, n: int, idx: seq<int>)
    requires m >= 2 && n >= 2
  {
    && |idx| == IndexCount(m, n)
    && forall i, j, r :: InGrid(m - 1, n - 1, i, j) && 0 <= r < 6 ==>
         (IndexPosBound(m, n, i, j, r);
          idx[IndexPos(n, i, j, r)] == CellIndices(n, i, j)[r])
  }

  /** Entry `r` of an in-range cell lies inside an index buffer. */
  lemma IndexPosBound(m: int, n: int, i: int, j: int, r: int)
    requires InGrid(m - 1, n - 1, i, j) && 0 <= r < 6
    ensures 0 <= IndexPos(n, i, j, r) < IndexCount(m, n)
  {
    RowMajorBound(i, j, m - 1, n - 1);
    assert IndexCount(m, n) == 6 * ((m - 1) * (n - 1));
  }

  /** The row of the cell in output slot `a`. */
  function CellRow(n: int, a: int): int
    requires n >= 2
  {
    a / (n - 1)
  }

  /** The column of the cell in output slot `a`. */
  function CellCol(n: int, a: int): int
    requires n >= 2
  {
    a % (n - 1)
  }

  /** The vertex of buffer slot `k`, found by inverting the row-major slot map. */
  function VertexOfSlot(s: Surface, k: int): ColoredVertex
    requires s.Valid()
  {
    VertexAt(s, k / s.n, k % s.n)
  }

  /** The index at buffer position `p`, found by inverting the position and cell-slot maps. */
  function IndexOfPos(n: int, p: int): int
    requires n >= 2 && p >= 0
  {
    var act := p / 6;
    CellIndices(n, CellRow(n, act), CellCol(n, act))[p % 6]
  }

  /** The whole vertex buffer in closed form, slot by slot. */
  function VertexList(s: Surface): seq<ColoredVertex>
    requires s.Valid()
  {
    seq(VertexCount(s), k => VertexOfSlot(s, k))
  }

  /** The whole index buffer in closed form, position by position. */
  function IndexList(m: int, n: int): seq<int>
    requires m >= 2 && n >= 2
  {
    seq(IndexCount(m, n), p requires 0 <= p => IndexOfPos(n, p))
  }

  /**
   The vertex slot map is a bijection from the grid onto `[0, m*n)`:
   every grid point lands in range, division and remainder by `n` recover
   the point, and every slot is the slot of some point.
   */
  lemma VertexSlotBijection(s: Surface)
    requires s.Valid()
    ensures forall i, j :: InGrid(s.m, s.n, i, j) ==>
              0 <= VertexSlot(s.n, i, j) < VertexCount(s)
              && VertexSlot(s.n, i, j) / s.n == i && VertexSlot(s.n, i, j) % s.n == j
    ensures forall k :: 0 <= k < VertexCount(s) ==>
              InGrid(s.m, s.n, k / s.n, k % s.n) && VertexSlot(s.n, k / s.n, k % s.n) == k
  {
    forall i, j | InGrid(s.m, s.n, i, j)
      ensures 0 <= VertexSlot(s.n, i, j) < VertexCount(s)
      ensures VertexSlot(s.n, i, j) / s.n == i && VertexSlot(s.n, i, j) % s.n == j
    {
      RowMajorBound(i, j, s.m, s.n);
      assert s.m * s.n == s.n * s.m;
      DivModRowMajor(i, j, s.n);
    }
    forall k | 0 <= k < VertexCount(s)
      ensures InGrid(s.m, s.n, k / s.n, k % s.n) && VertexSlot(s.n, k / s.n, k % s.n) == k
    {
      assert s.n * s.m == s.m * s.n;
      RowMajorCover(k, s.m, s.n);
    }
  }

  /** A cell's output slot is in range, and dividing by `n - 1` gives the cell back. */
  lemma CellSlotRoundTrip(m: int, n: int, i: int, j: int)
    requires m >= 2 && n >= 2 && InGrid(m - 1, n - 1, i, j)
    ensures 0 <= CellSlot(n, i, j) < (m - 1) * (n - 1)
    ensures CellRow(n, CellSlot(n, i, j)) == i && CellCol(n, CellSlot(n, i, j)) == j
  {
    RowMajorBound(i, j, m - 1, n - 1);
    DivModRowMajor(i, j, n - 1);
  }

  /** An in-range output slot is the slot of the cell that dividing by `n - 1` gives. */
  lemma SlotCellRoundTrip(m: int, n: int, a: int)
    requires m >= 2 && n >= 2 && 0 <= a < (m - 1) * (n - 1)
    ensures InGrid(m - 1, n - 1, CellRow(n, a), CellCol(n, a))
    ensures CellSlot(n, CellRow(n, a), CellCol(n, a)) == a
  {
    RowMajorCover(a, m - 1, n - 1);
  }

  /**
   The cell slot map `act = i*(n-1) + j` is a bijection from the cells
   `[0, m-1) x [0, n-1)` onto `[0, (m-1)*(n-1))`: so the index fill writes
   each group of six positions for exactly one cell.
   */
  lemma CellSlotBijection(m: int, n: int)
    requires m >= 2 && n >= 2
    ensures forall i, j :: InGrid(m - 1, n - 1, i, j) ==>
              0 <= CellSlot(n, i, j) < (m - 1) * (n - 1)
              && CellRow(n, CellSlot(n, i, j)) == i && CellCol(n, CellSlot(n, i, j)) == j
    ensures forall a :: 0 <= a < (m - 1) * (n - 1) ==>
              InGrid(m - 1, n - 1, CellRow(n, a), CellCol(n, a)) && CellSlot(n, CellRow(n, a), CellCol(n, a)) == a
  {
    forall i, j | InGrid(m - 1, n - 1, i, j)
      ensures 0 <= CellSlot(n, i, j) < (m - 1) * (n - 1)
      ensures CellRow(n, CellSlot(n, i, j)) == i && CellCol(n, CellSlot(n, i, j)) == j
    {
      CellSlotRoundTrip(m, n, i, j);
    }
    forall a | 0 <= a < (m - 1) * (n - 1)
      ensures InGrid(m - 1, n - 1, CellRow(n, a), CellCol(n, a)) && CellSlot(n, CellRow(n, a), CellCol(n, a)) == a
    {
      SlotCellRoundTrip(m, n, a);
    }
  }

  /** Entry `r` of cell `(i, j)` is at an in-range position, and the closed form reads it back. */
  lemma IndexOfCellEntry(m: int, n: int, i: int, j: int, r: int)
    requires m >= 2 && n >= 2 && InGrid(m - 1, n - 1, i, j) && 0 <= r < 6
    ensures 0 <= IndexPos(n, i, j, r) < IndexCount(m, n)
    ensures IndexOfPos(n, IndexPos(n, i, j, r)) == CellIndices(n, i, j)[r]
  {
    var act := CellSlot(n, i, j);
    RowMajorBound(i, j, m - 1, n - 1);
    assert IndexCount(m, n) == 6 * ((m - 1) * (n - 1));
    DivModRowMajor(act, r, 6);
    assert (6 * act + r) / 6 == act && (6 * act + r) % 6 == r;
    DivModRowMajor(i, j, n - 1);
  }

  /** Every index position belongs to exactly the entry `r` of the cell `(i, j)` it decodes to. */
  lemma CellOfPosition(m: int, n: int, p: int) returns (i: int, j: int, r: int)
    requires m >= 2 && n >= 2 && 0 <= p < IndexCount(m, n)
    ensures InGrid(m - 1, n - 1, i, j) && 0 <= r < 6
    ensures p == IndexPos(n, i, j, r)
  {
    var act := p / 6;
    r := p % 6;
    assert IndexCount(m, n) == ((m - 1) * (n - 1)) * 6;
    RowMajorCover(p, (m - 1) * (n - 1), 6);
    RowMajorCover(act, m - 1, n - 1);
    i, j := CellRow(n, act), CellCol(n, act);
  }

  /**
   The closed-form vertex list is exactly the buffers the fill promises:
   a sequence is a vertex buffer of `s` if and only if it equals `VertexList(s)`.
   So the slot-by-slot promise fixes every slot.
   */
  lemma VertexBufferUnique(s: Surface, vs: seq<ColoredVertex>)
    requires s.Valid()
    ensures IsVertexBuffer(s, vs) <==> vs == VertexList(s)
  {
    VertexSlotBijection(s);
    if IsVertexBuffer(s, vs) {
      forall k | 0 <= k < |vs|
        ensures vs[k] == VertexList(s)[k]
      {
        assert vs[VertexSlot(s.n, k / s.n, k % s.n)] == VertexAt(s, k / s.n, k % s.n);
      }
    }
    if vs == VertexList(s) {
      forall i, j | InGrid(s.m, s.n, i, j)
        ensures vs[VertexSlot(s.n, i, j)] == VertexAt(s, i, j)
      {
        assert vs[VertexSlot(s.n, i, j)] == VertexOfSlot(s, VertexSlot(s.n, i, j));
      }
    }
  }

  /** A buffer meeting the per-cell promise is the closed-form list: every position is written by some cell entry. */
  lemma IndexBufferIsList(m: int, n: int, idx: seq<int>)
    requires m >= 2 && n >= 2 && IsIndexBuffer(m, n, idx)
    ensures idx == IndexList(m, n)
  {
    forall p | 0 <= p < |idx|
      ensures idx[p] == IndexList(m, n)[p]
    {
      var i, j, r := CellOfPosition(m, n, p);
      IndexOfCellEntry(m, n, i, j, r);
      assert idx[IndexPos(n, i, j, r)] == CellIndices(n, i, j)[r];
    }
  }

  /** The closed-form list meets the per-cell promise. */
  lemma IndexListIsBuffer(m: int, n: int)
    requires m >= 2 && n >= 2
    ensures IsIndexBuffer(m, n, IndexList(m, n))
  {
    var idx := IndexList(m, n);
    forall i, j, r | InGrid(m - 1, n - 1, i, j) && 0 <= r < 6
      ensures 0 <= IndexPos(n, i, j, r) < |idx|
    {
      IndexPosBound(m, n, i, j, r);
    }
    forall i, j, r | InGrid(m - 1, n - 1, i, j) && 0 <= r < 6
      ensures idx[IndexPos(n, i, j, r)] == CellIndices(n, i, j)[r]
    {
      IndexOfCellEntry(m, n, i, j, r);
    }
  }

  /**
   A sequence is an index buffer for an `m` by `n` grid if and only if it
   equals `IndexList(m, n)`: the per-cell promise fixes every position.
   */
  lemma IndexBufferUnique(m: int, n: int, idx: seq<int>)
    requires m >= 2 && n >= 2
    ensures IsIndexBuffer(m, n, idx) <==> idx == IndexList(m, n)
  {
    if IsIndexBuffer(m, n, idx) {
      IndexBufferIsList(m, n, idx);
    }
    IndexListIsBuffer(m, n);
  }

  /** Some vertex buffer of `s` exists: the closed form is one. */
  lemma SomeVertexBuffer(s: Surface) returns (vs: seq<ColoredVertex>)
    requires s.Valid()
    ensures IsVertexBuffer(s, vs)
  {
    vs := VertexList(s);
    VertexBufferUnique(s, vs);
  }

  /** Some index buffer of an `m` by `n` grid exists: the closed form is one. */
  lemma SomeIndexBuffer(m: int, n: int) returns (idx: seq<int>)
    requires m >= 2 && n >= 2
    ensures IsIndexBuffer(m, n, idx)
  {
    idx := IndexList(m, n);
    IndexListIsBuffer(m, n);
  }

  /**
   The colour attribute of every vertex depends only on the grid
   resolution: two surfaces with the same `m` and `n` have the same
   attributes slot by slot, whatever their corner and size.
   */
  lemma AttributesIgnorePlacement(s1: Surface, s2: Surface, vs1: seq<ColoredVertex>, vs2: seq<ColoredVertex>)
    requires s1.Valid() && s1.m == s2.m && s1.n == s2.n
    requires IsVertexBuffer(s1, vs1) && IsVertexBuffer(s2, vs2)
    ensures |vs1| == |vs2|
    ensures forall k :: 0 <= k < |vs1| ==> vs1[k].color == vs2[k].color
  {
    VertexSlotBijection(s1);
    forall k | 0 <= k < |vs1|
      ensures vs1[k].color == vs2[k].color
    {
      var i, j := k / s1.n, k % s1.n;
      assert vs1[VertexSlot(s1.n, i, j)] == VertexAt(s1, i, j);
      assert vs2[VertexSlot(s2.n, i, j)] == VertexAt(s2, i, j);
    }
  }

  /**
   On a square grid the position is the corner plus `size` times the
   attribute: x follows the attribute's first component, z its second.
   */
  lemma SquarePositionFollowsAttribute(s: Surface, i: int, j: int)
    requires s.Valid() && s.m == s.n
    ensures VertexAt(s, i, j).position.x == s.corner.x + s.size * VertexAt(s, i, j).color.x
    ensures VertexAt(s, i, j).position.z == s.corner.z + s.size * VertexAt(s, i, j).color.y
  {
    var d := s.n as real;
    assert i as real * s.size / d == s.size * (i as real / d);
    assert j as real * s.size / d == s.size * (j as real / d);
  }

  /**
   On a grid that is not square the two disagree, because the position
   and the attribute divide by swapped resolutions: with 3 rows of 2
   columns, grid point (1, 0) sits at x = 3 but has attribute x = 1/3,
   not 3/6.
   */
  lemma OblongPositionLeavesAttribute()
    ensures var s := Surface(2, 3, Vec3(0.0, 0.0, 0.0), 6.0);
            s.Valid()
            && VertexAt(s, 1, 0).position.x == 3.0
            && VertexAt(s, 1, 0).color.x == 1.0 / 3.0
            && VertexAt(s, 1, 0).position.x != s.corner.x + s.size * VertexAt(s, 1, 0).color.x
  {
  }
}
