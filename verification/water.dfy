/**
 The `Water` constructor: it fills the vertex buffer and the index buffer
 of the water surface with two pairs of nested loops, then hands both to
 the rendering backend (not modelled). Each fill also returns
 the log of the buffer slots it wrote, in the order it wrote them.
 */
module Water {
  import opened GridArith
  import opened Grid
  import opened Topology

  /** The buffers a `Water` owns. */
  datatype Mesh = Mesh(vertices: seq<ColoredVertex>, indices: seq<int>)

  /** The write log of a fill that writes slot 0, then 1, ..., then `len - 1`: each slot exactly once. */
  function InOrder(len: nat): seq<int> {
    seq(len, k => k)
  }

  /** The largest value of a 32-bit signed `int`. */
  const MaxInt32 := 0x7fff_ffff

  /** Extending an in-order write log by the next slot keeps it in order. */
  lemma InOrderNext(len: nat)
    ensures InOrder(len) + [len] == InOrder(len + 1)
  {
  }

  /** Extending an in-order write log by the next six slots keeps it in order. */
  lemma InOrderNextSix(start: nat, len: nat, log: seq<int>)
    requires InOrder(start) + log == InOrder(len)
    ensures InOrder(start) + (log + [len, len + 1, len + 2, len + 3, len + 4, len + 5]) == InOrder(len + 6)
  {
    assert InOrder(start) + (log + [len, len + 1, len + 2, len + 3, len + 4, len + 5])
        == InOrder(len) + [len, len + 1, len + 2, len + 3, len + 4, len + 5];
  }

  /**
   The vertex fill: for every row `i` and column `j`, slot `i*n + j` gets the
   vertex of `(i, j)`. The result is the vertex buffer of `s`, and the
   write log shows every slot was written exactly once.
   */
  method FillVertices(s: Surface) returns (vs: seq<ColoredVertex>, writes: seq<int>)
    requires s.Valid()
    ensures writes == InOrder(|vs|)
    ensures IsVertexBuffer(s, vs)
  {
    var n, m := s.n, s.m;
    ghost var expected := SomeVertexBuffer(s);
    var a := new ColoredVertex[n * m];
    writes := [];
    var i := 0;
    var rowStart := 0;
    while i < m
      invariant 0 <= i <= m && rowStart == i * n && rowStart <= a.Length == |expected|
      invariant i < m ==> rowStart + n <= a.Length
      invariant forall k :: 0 <= k < rowStart ==> a[k] == expected[k]
      invariant writes == InOrder(rowStart)
    {
      var j := 0;
      while j < n
        invariant 0 <= j <= n && rowStart + n <= a.Length
        invariant forall k :: 0 <= k < rowStart + j ==> a[k] == expected[k]
        invariant writes == InOrder(rowStart + j)
      {
        a[VertexSlot(n, i, j)] := VertexAt(s, i, j);
        assert expected[VertexSlot(n, i, j)] == VertexAt(s, i, j);
        InOrderNext(rowStart + j);
        writes := writes + [VertexSlot(n, i, j)];
        j := j + 1;
      }
      assert (i + 1) * n == rowStart + n;
      rowStart := rowStart + n;
      i := i + 1;
      if i < m {
        RowMajorBound(i, n - 1, m, n);
      }
    }
    vs := a[..];
    assert vs == expected;
  }

  /**
   The body of the index fill for cell `(i, j)`: it writes the cell's six
   indices at positions `6*act .. 6*act+5` and nothing else, so that every
   position below `6*act + 6` holds what the index buffer `expected` holds
   there. It returns the positions it wrote, in the order it wrote them.
   */
  method WriteCell(a: array<int>, m: int, n: int, i: int, j: int, ghost expected: seq<int>)
      returns (cellWrites: seq<int>)
    requires m >= 2 && n >= 2 && InGrid(m - 1, n - 1, i, j)
    requires IsIndexBuffer(m, n, expected) && a.Length == |expected| && 6 * CellSlot(n, i, j) <= a.Length
    requires forall p :: 0 <= p < 6 * CellSlot(n, i, j) ==> a[p] == expected[p]
    modifies a
    ensures 6 * CellSlot(n, i, j) + 6 <= a.Length
    ensures forall p :: 0 <= p < 6 * CellSlot(n, i, j) + 6 ==> a[p] == expected[p]
    ensures forall p :: 6 * CellSlot(n, i, j) + 6 <= p < a.Length ==> a[p] == old(a[p])
    ensures |cellWrites| == 6 && forall r :: 0 <= r < 6 ==> cellWrites[r] == IndexPos(n, i, j, r)
  {
    var act := i * (n - 1) + j;
    var fullIndex := i * n + j;
    IndexPosBound(m, n, i, j, 5);
    a[6 * act + 0] := fullIndex;
    a[6 * act + 1] := fullIndex + 1;
    a[6 * act + 2] := fullIndex + n;
    a[6 * act + 3] := fullIndex + 1;
    a[6 * act + 4] := fullIndex + n + 1;
    a[6 * act + 5] := fullIndex + n;
    cellWrites := [6 * act + 0, 6 * act + 1, 6 * act + 2, 6 * act + 3, 6 * act + 4, 6 * act + 5];
    forall p | 6 * act <= p < 6 * act + 6
      ensures a[p] == expected[p]
    {
      assert expected[IndexPos(n, i, j, p - 6 * act)] == CellIndices(n, i, j)[p - 6 * act];
    }
  }

  /**
   The inner loop of the index fill for row `i`: it writes the cells
   `(i, 0) .. (i, n-2)` in turn, leaves the later positions alone, and
   returns the positions the cells report writing, in order.
   */
  method FillRow(a: array<int>, m: int, n: int, i: int, ghost expected: seq<int>) returns (rowWrites: seq<int>)
    requires m >= 2 && n >= 2 && 0 <= i < m - 1
    requires IsIndexBuffer(m, n, expected) && a.Length == |expected| && 6 * CellSlot(n, i, 0) <= a.Length
    requires forall p :: 0 <= p < 6 * CellSlot(n, i, 0) ==> a[p] == expected[p]
    modifies a
    ensures 6 * CellSlot(n, i + 1, 0) <= a.Length
    ensures forall p :: 0 <= p < 6 * CellSlot(n, i + 1, 0) ==> a[p] == expected[p]
    ensures forall p :: 6 * CellSlot(n, i + 1, 0) <= p < a.Length ==> a[p] == old(a[p])
    ensures InOrder(6 * CellSlot(n, i, 0)) + rowWrites == InOrder(6 * CellSlot(n, i + 1, 0))
  {
    ghost var start := 6 * CellSlot(n, i, 0);
    ghost var done := start;
    rowWrites := [];
    var j := 0;
    while j < n - 1
      invariant 0 <= j <= n - 1 && done == 6 * CellSlot(n, i, j) && done <= a.Length
      invariant forall p :: 0 <= p < done ==> a[p] == expected[p]
      invariant forall p :: done <= p < a.Length ==> a[p] == old(a[p])
      invariant InOrder(start) + rowWrites == InOrder(done)
    {
      var cellWrites := WriteCell(a, m, n, i, j, expected);
      assert cellWrites == [done, done + 1, done + 2, done + 3, done + 4, done + 5];
      InOrderNextSix(start, done, rowWrites);
      rowWrites := rowWrites + cellWrites;
      done := done + 6;
      j := j + 1;
    }
    NextRow(n, i);
  }

  /** The slot after the last cell of row `i` is the first cell of row `i + 1`. */
  lemma NextRow(n: int, i: int)
    ensures CellSlot(n, i, n - 1) == CellSlot(n, i + 1, 0)
  {
    assert (i + 1) * (n - 1) == i * (n - 1) + (n - 1);
  }

  /** After the last row, the filled prefix is the whole index buffer. */
  lemma AllRowsFill(m: int, n: int)
    ensures 6 * CellSlot(n, m - 1, 0) == IndexCount(m, n)
  {
    assert CellSlot(n, m - 1, 0) == (m - 1) * (n - 1);
  }

  /**
   The index fill: for every cell `(i, j)` of the `(m-1) x (n-1)` cells,
   positions `6*act .. 6*act+5` with `act = i*(n-1) + j` get the two
   triangles of the cell. The result is the index buffer of the grid, and
   the write log shows every position was written exactly once.
   */
  method FillIndices(m: int, n: int) returns (idx: seq<int>, writes: seq<int>)
    requires m >= 2 && n >= 2
    ensures writes == InOrder(|idx|)
    ensures IsIndexBuffer(m, n, idx)
  {
    ghost var expected := SomeIndexBuffer(m, n);
    var a := new int[6 * (n - 1) * (m - 1)];
    writes := [];
    var i := 0;
    while i < m - 1
      invariant 0 <= i <= m - 1 && 6 * CellSlot(n, i, 0) <= a.Length == |expected|
      invariant forall p :: 0 <= p < 6 * CellSlot(n, i, 0) ==> a[p] == expected[p]
      invariant writes == InOrder(6 * CellSlot(n, i, 0))
    {
      var rowWrites := FillRow(a, m, n, i, expected);
      writes := writes + rowWrites;
      i := i + 1;
    }
    AllRowsFill(m, n);
    idx := a[..];
    assert idx == expected;
  }

  /**
   The constructor: both buffers are those of the surface `s` (so, by
   `VertexBufferUnique` and `IndexBufferUnique`, the closed forms), every
   index names a vertex, every triangle is proper and wound the same way
   (on the lattice and in world space), and every vertex is used.
   */
  method NewWater(s: Surface) returns (w: Mesh)
    requires s.Valid()
    ensures IsVertexBuffer(s, w.vertices) && IsIndexBuffer(s.m, s.n, w.indices)
    ensures |w.vertices| == s.m * s.n && |w.indices| == 6 * (s.m - 1) * (s.n - 1)
    ensures |w.indices| == 3 * TriangleCount(s.m, s.n)
    ensures forall p :: 0 <= p < |w.indices| ==> 0 <= w.indices[p] < |w.vertices|
    ensures forall t :: 0 <= t < TriangleCount(s.m, s.n) ==>
              NonDegenerate(TriangleAt(w.indices, t)) && LatticeOrientation(s.n, TriangleAt(w.indices, t)) == -1
    ensures forall v :: 0 <= v < |w.vertices| ==> v in w.indices
    ensures forall t :: 0 <= t < TriangleCount(s.m, s.n) ==>
              PlanarArea(w.vertices[w.indices[3 * t]].position, w.vertices[w.indices[3 * t + 1]].position,
                         w.vertices[w.indices[3 * t + 2]].position)
              == -(s.size / s.n as real) * (s.size / s.m as real)
  {
    var vs, vertexWrites := FillVertices(s);
    var idx, indexWrites := FillIndices(s.m, s.n);
    w := Mesh(vs, idx);
    MeshIndicesInRange(s.m, s.n, idx);
    assert |idx| == 3 * TriangleCount(s.m, s.n) == 6 * (s.m - 1) * (s.n - 1);
    MeshTrianglesWellFormed(s.m, s.n, idx);
    MeshUsesEveryVertex(s.m, s.n, idx);
    MeshWorldWinding(s, vs, idx);
  }

  /**
   When the buffer lengths the constructor allocates fit in a 32-bit `int`,
   so does every slot, position and index the two fills compute; so the
   unbounded arithmetic of this model is the 32-bit arithmetic of the original.
   */
  lemma FillArithmeticFitsInt32(s: Surface)
    requires s.Valid() && VertexCount(s) <= MaxInt32 && IndexCount(s.m, s.n) <= MaxInt32
    ensures forall i, j :: InGrid(s.m, s.n, i, j) ==> 0 <= VertexSlot(s.n, i, j) <= MaxInt32
    ensures forall i, j, r :: InGrid(s.m - 1, s.n - 1, i, j) && 0 <= r < 6 ==>
              0 <= IndexPos(s.n, i, j, r) <= MaxInt32 && 0 <= CellIndices(s.n, i, j)[r] <= MaxInt32
  {
    VertexSlotBijection(s);
    forall i, j, r | InGrid(s.m - 1, s.n - 1, i, j) && 0 <= r < 6
      ensures 0 <= IndexPos(s.n, i, j, r) <= MaxInt32 && 0 <= CellIndices(s.n, i, j)[r] <= MaxInt32
    {
      IndexPosBound(s.m, s.n, i, j, r);
      CellIndicesInRange(s.m, s.n, i, j);
      assert s.m * s.n == VertexCount(s);
    }
  }

  /**
   The surface every `Water` uses: 2500 vertices and 14406 indices
   (4802 triangles), all well inside 32-bit range.
   */
  lemma DefaultSurface()
    ensures Default.Valid()
    ensures |VertexList(Default)| == 2500 && |IndexList(Default.m, Default.n)| == 14406
    ensures TriangleCount(Default.m, Default.n) == 4802
    ensures VertexCount(Default) <= MaxInt32 && IndexCount(Default.m, Default.n) <= MaxInt32
  {
  }

  /** The smallest grid, 2 by 2, has the two triangles 0, 1, 2 and 1, 3, 2. */
  lemma SmallestGridIndices()
    ensures IndexList(2, 2) == [0, 1, 2, 1, 3, 2]
  {
    var idx := IndexList(2, 2);
    forall p | 0 <= p < 6
      ensures idx[p] == CellIndices(2, 0, 0)[p]
    {
      IndexOfCellEntry(2, 2, 0, 0, p);
    }
  }

  /**
   The smallest grid at the origin with side 1 has its four vertices at
   x, z in {0, 0.5}: the grid spans `(m-1)/n` of `size`, not all of it.
   */
  lemma SmallestGridVertices()
    ensures var s := Surface(2, 2, Vec3(0.0, 0.0, 0.0), 1.0);
            s.Valid()
            && |VertexList(s)| == 4
            && VertexList(s)[0].position == Vec3(0.0, 0.0, 0.0)
            && VertexList(s)[1].position == Vec3(0.0, 0.0, 0.5)
            && VertexList(s)[2].position == Vec3(0.5, 0.0, 0.0)
            && VertexList(s)[3].position == Vec3(0.5, 0.0, 0.5)
  {
    var s := Surface(2, 2, Vec3(0.0, 0.0, 0.0), 1.0);
    var vs := VertexList(s);
    assert vs[1] == VertexAt(s, 0, 1);
    assert vs[2] == VertexAt(s, 1, 0);
    assert vs[3] == VertexAt(s, 1, 1);
  }
}
