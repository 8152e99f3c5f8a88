# Water surface grid mesh, in Dafny

This project models the procedural mesh generator of the `Water` class of
the Layven/water demo. The `Water` constructor builds a regular grid of
`M` rows by `N` columns of coloured vertices, stored row-major at slot
`i*N + j`. It then builds a triangle index list in which each grid cell
`(i, j)`, with `i < M-1` and `j < N-1`, owns output slot
`act = i*(N-1) + j`. The six entries at `6*act .. 6*act+5` are the two
triangles `(base, base+1, base+N)` and `(base+1, base+N+1, base+N)`, with
`base = i*N + j`.

The original hard-codes `N = M = 50`, a bottom-left corner of
`(-5, -2, -5)` and a side of `10`. The model takes these as a `Surface`
value and requires `M >= 2 && N >= 2`. `Grid.Default` is the original's
surface.

Files:

- `grid_arith.dfy` (module `GridArith`): integer facts about row-major
  slots `i*stride + j`.
- `grid.dfy` (module `Grid`): vertices, surfaces, the slot maps and what
  every slot of the two buffers holds. This is said twice:
  - slot by slot, as the loops promise (`IsVertexBuffer`, `IsIndexBuffer`);
  - in closed form, by inverting the slot maps (`VertexList`, `IndexList`).

  It also holds the lemmas that tie the two forms together.
- `topology.dfy` (module `Topology`): triangles and the properties of the
  index list: range, non-degeneracy, the shared diagonal, winding and
  vertex coverage.
- `water.dfy` (module `Water`): the constructor's nested fill loops as
  methods over arrays, and the constructor itself.

Each fill method also returns a write log. The log lists the slots
it wrote, in the order written. In the vertex fill each log entry is
appended next to its assignment. In the index fill, `Water.WriteCell`
returns the six positions it assigns, and its frame says it changes no
other position of the buffer. The methods prove the log is
`0, 1, ..., len-1`, so every slot is written exactly once and no write
falls outside the buffer.

Vertex positions are idealised `real` values:
`(corner.x + i*size/N, corner.y, corner.z + j*size/M)`. The colour
attribute is `(i/M, j/N, 0, 1)`. The position divides the row index by
`N` and the column index by `M`, while the attribute divides them the
other way round. The model keeps this swap as written.
`Grid.SquarePositionFollowsAttribute` shows the swap is harmless on the
square grid the original uses. `Grid.OblongPositionLeavesAttribute` shows
the two disagree on a 3-by-2 grid.

Two consequences of the code as written:

- The step along x is `size/N` and the last row is `M-1`, so the grid
  spans `(M-1)/N` of `size` rather than all of it. A 2-by-2 grid of side 1
  has its vertices at offsets 0 and 0.5 (`Water.SmallestGridVertices`).
- The code has no check on the grid size, because its sizes are
  constants. The model states `M >= 2 && N >= 2` as a precondition: with
  fewer rows or columns there is no cell to triangulate.

## Model

| member | source | states |
|---|---|---|
| `Grid.VertexSlot` | Water/Water.cs:31 | Defines the vertex buffer slot `i*N + j` of grid point `(i, j)`. `Grid.VertexSlotBijection` pins it down as a bijection from the grid onto `[0, M*N)`. |
| `Grid.CellSlot` | Water/Water.cs:46 | Defines the output slot `act = i*(N-1) + j` of cell `(i, j)`. `Grid.CellSlotBijection` pins it down as a bijection from the cells onto `[0, (M-1)*(N-1))`. |
| `Grid.IndexPos` | Water/Water.cs:49-54 | Defines the index buffer position `6*act + r` of entry `r` of cell `(i, j)`. `Grid.IndexOfCellEntry` and `Grid.CellOfPosition` show these positions fill the buffer exactly. |
| `Grid.CellIndices` | Water/Water.cs:47-54 | Defines the six indices of cell `(i, j)`, `base, base+1, base+N, base+1, base+N+1, base+N` with `base = i*N + j`. `Topology.CellCorners` pins them to the grid points, and `Topology.CellLatticeWinding` fixes their winding. |
| `Grid.VertexAt` | Water/Water.cs:31-34 | The vertex of an in-grid point `(i, j)` has an attribute that is a normalised grid coordinate in `[0,1) x [0,1)`, with third component 0 and fourth 1. It lies in the horizontal plane of the corner. |
| `Grid.VertexSlotBijection` | Water/Water.cs:28-31 | The slot map `i*N + j` sends the `M x N` grid into `[0, M*N)`. Division and remainder by `N` recover the point, and every slot is the slot of exactly one grid point. |
| `Grid.CellSlotBijection` | Water/Water.cs:44-46 | The cell slot map `act = i*(N-1) + j` is a bijection from the cells `[0,M-1) x [0,N-1)` onto `[0, (M-1)*(N-1))`. |
| `Grid.IndexOfCellEntry` | Water/Water.cs:46-54 | Entry `r` of cell `(i, j)` lands at position `6*act + r`, inside the `6*(N-1)*(M-1)` buffer. The closed form reads the cell's entry back from that position. |
| `Grid.CellOfPosition` | Water/Water.cs:43-54 | Every position of the index buffer is entry `r` of some in-range cell `(i, j)`, so no position is left unwritten. |
| `Grid.VertexBufferUnique` | Water/Water.cs:28-35 | A sequence satisfies the per-slot promise of the vertex fill if and only if it equals the closed-form vertex list. Both directions are proved. |
| `Grid.IndexBufferIsList` | Water/Water.cs:43-56 | Any sequence meeting the per-cell promise of the index fill is the closed-form index list. |
| `Grid.IndexListIsBuffer` | Water/Water.cs:43-56 | The closed-form index list meets the per-cell promise of the index fill. |
| `Grid.IndexBufferUnique` | Water/Water.cs:43-56 | A sequence is an index buffer of the `M x N` grid if and only if it equals the closed-form index list. |
| `Grid.AttributesIgnorePlacement` | Water/Water.cs:33 | Two surfaces with the same `M` and `N` give their vertices the same colour attribute in every slot, whatever their corner and size. |
| `Grid.SquarePositionFollowsAttribute` | Water/Water.cs:32-33 | When `M == N`, a vertex's x is `corner.x + size*attribute.x` and its z is `corner.z + size*attribute.y`. |
| `Grid.OblongPositionLeavesAttribute` | Water/Water.cs:32-33 | With 3 rows of 2 columns, side 6 and the corner at the origin, point `(1, 0)` sits at x = 3 but has attribute x = 1/3. This is not `3/6`: the swapped divisors matter off the square. |
| `Topology.CellCorners` | Water/Water.cs:49-54 | The first triangle of cell `(i, j)` joins grid points `(i,j)`, `(i,j+1)`, `(i+1,j)`. The second joins `(i,j+1)`, `(i+1,j+1)`, `(i+1,j)`. |
| `Topology.CellIndicesInRange` | Water/Water.cs:49-54 | All six indices of an in-range cell lie in `[0, M*N)`. The largest, `base+N+1` of cell `(M-2, N-2)`, equals `M*N - 1`. |
| `Topology.CellTrianglesNonDegenerate` | Water/Water.cs:49-54 | When `N >= 2`, each of a cell's two triangles has three distinct vertex indices. |
| `Topology.CellDiagonal` | Water/Water.cs:49-54 | The corner sets of a cell's two triangles meet in exactly the diagonal `{base+1, base+N}`. |
| `Topology.CellLatticeWinding` | Water/Water.cs:49-54 | Placed at their (row, column) grid coordinates, both triangles of every cell have signed double area -1, so they are wound the same way. |
| `Topology.RowStep` | Water/Water.cs:32 | One row down moves a vertex by `size/N` along x and leaves z unchanged. |
| `Topology.ColStep` | Water/Water.cs:32 | One column right moves a vertex by `size/M` along z and leaves x unchanged. |
| `Topology.CellWorldWinding` | Water/Water.cs:32-54 | In the x-z plane, both triangles of every cell have signed double area `-(size/N)*(size/M)`. |
| `Topology.TrianglesOfCell` | Water/Water.cs:46-54 | In an index buffer, triangles `2*act` and `2*act+1` are exactly the first and second triangles of the cell in slot `act`. |
| `Topology.CellOfTriangle` | Water/Water.cs:43-46 | Each of the `2*(M-1)*(N-1)` triangles is one of the two triangles of an in-range cell. |
| `Topology.MeshIndicesInRange` | Water/Water.cs:43-56 | Every entry of an index buffer lies in `[0, M*N)`. |
| `Topology.MeshTrianglesWellFormed` | Water/Water.cs:43-56 | An index buffer holds exactly `2*(M-1)*(N-1)` triangles. None is degenerate, and all have lattice orientation -1. |
| `Topology.MeshCellsShareDiagonal` | Water/Water.cs:44-56 | In an index buffer, the two triangles of every cell share exactly that cell's diagonal `{base+1, base+N}`. |
| `Topology.CellOfVertex` | Water/Water.cs:49-54 | Every grid point is a corner of some cell, at a known entry of that cell's six indices. |
| `Topology.VertexUsed` | Water/Water.cs:43-56 | Any single vertex index in `[0, M*N)` appears in the index buffer. |
| `Topology.MeshUsesEveryVertex` | Water/Water.cs:43-56 | Every vertex index in `[0, M*N)` appears in the index buffer, so no vertex is left out of the mesh. |
| `Topology.TriangleWorldWinding` | Water/Water.cs:28-56 | Given the vertex buffer and the index buffer, one triangle's world-space x-z signed double area is `-(size/N)*(size/M)`. |
| `Topology.MeshWorldWinding` | Water/Water.cs:28-56 | Given the vertex buffer and the index buffer, every index addresses a vertex. Every triangle's world-space x-z signed double area is `-(size/N)*(size/M)`: consistent winding, and no flat triangle when `size != 0`. |
| `Water.FillVertices` | Water/Water.cs:28-35 | The nested vertex loop yields a buffer of `M*N` vertices whose slot `i*N + j` holds the vertex of `(i, j)`. Its write log is `0..M*N-1`, so each slot is written exactly once. |
| `Water.WriteCell` | Water/Water.cs:46-54 | The six assignments for cell `(i, j)` stay in bounds and change no other position. Afterwards every position below `6*act + 6` holds the index buffer's value. The returned log is exactly the six positions `6*act + r` it assigned. |
| `Water.FillRow` | Water/Water.cs:45-55 | The inner index loop for row `i` extends the correctly filled prefix from the row's first cell to the next row's first cell, writing those positions in order. It leaves every later position unchanged, and its log is the concatenation of the cells' own logs. |
| `Water.FillIndices` | Water/Water.cs:43-56 | The nested index loop yields a buffer of `6*(N-1)*(M-1)` entries meeting the per-cell promise. Its write log, built from the positions each cell reports assigning, is `0..len-1`. Together with the frames of `Water.WriteCell` and `Water.FillRow`, each position is written exactly once. |
| `Water.NewWater` | Water/Water.cs:26-60 | The constructor's buffers are the vertex and index buffers of the surface, with lengths `M*N` and `6*(M-1)*(N-1)`. Every index addresses a vertex, and every triangle is non-degenerate and wound the same way, on the lattice and in world space. Every vertex is used. |
| `Water.FillArithmeticFitsInt32` | Water/Water.cs:43-54 | If both allocated lengths fit in a 32-bit `int`, so does every slot, position and index the fills compute. The unbounded model then agrees with the original's `int` arithmetic. |
| `Water.DefaultSurface` | Water/Water.cs:16-18 | The original's 50-by-50 surface is valid and has 2500 vertices, 14406 indices and 4802 triangles, all within 32-bit range. |
| `Water.SmallestGridIndices` | Water/Water.cs:44-54 | The 2-by-2 grid's index list is `[0, 1, 2, 1, 3, 2]`. |
| `Water.SmallestGridVertices` | Water/Water.cs:29-34 | The 2-by-2 grid with side 1 at the origin has vertices at x, z in {0, 0.5}. |

## Left out

- Water/Program.cs is not part of this model. It covers DirectX 11 device setup, the render form and loop, shader loading, the FPS text and matrix construction through library calls. Its only data type is a one-matrix uniform struct.
- `createMesh`, `Draw` and `Dispose` (Water/Water.cs:62-74) are left out. They are thin wrappers over the `SharpMesh` library and device resources. The constructor's `SharpDevice` parameter and its final `createMesh` call are left out for the same reason.
- The empty debug `foreach` over the vertices (Water/Water.cs:38-40) is left out: it has no effect.
- The original computes positions and attributes in `float`, rounding at every operation. The model uses exact reals and does not model that rounding.
- 32-bit overflow is not modelled. Integers are unbounded, and `Water.FillArithmeticFitsInt32` shows nothing overflows whenever the allocated lengths fit. The original's 50-by-50 grid fits (`Water.DefaultSurface`).
- Rejecting grids smaller than 2-by-2 is not modelled as an error path. The original has no such check because its sizes are constants, so the model requires `M >= 2 && N >= 2` instead.
- `Water.NewWater` does not restate the closed forms in its own contract. It states the per-slot buffer promises, and `Grid.VertexBufferUnique` and `Grid.IndexBufferUnique` turn those into the closed forms.
