/** A chunk of Chunk.cpp: a grid of blocks placed at `coords`, the per-face
    visibility test, and the vertex/index buffers built from visible faces.
    CHUNK_X, CHUNK_Y and CHUNK_Z are taken as the `Dims` parameter. Vertex positions are kept in half
    units (twice the world coordinate) so that block corners stay integral;
    texture coordinates are kept in atlas tiles. */
module Chunk {
  import opened Block

  datatype Dims = Dims(cx: nat, cy: nat, cz: nat)

  /** `blocks[x][y][z]` */
  type Grid = seq<seq<seq<Block>>>

  datatype Chunk = Chunk(dims: Dims, coords: Vec3, blocks: Grid)

  /** The grid has the chunk's dimensions. */
  predicate WellShaped(c: Chunk) {
    && |c.blocks| == c.dims.cx
    && forall x :: 0 <= x < c.dims.cx ==>
         && |c.blocks[x]| == c.dims.cy
         && forall y :: 0 <= y < c.dims.cy ==> |c.blocks[x][y]| == c.dims.cz
  }

  /** `q` is a valid array index into `blocks`. */
  predicate InGrid(d: Dims, q: Vec3) {
    0 <= q.x < d.cx && 0 <= q.y < d.cy && 0 <= q.z < d.cz
  }

  function At(c: Chunk, q: Vec3): Block
    requires WellShaped(c) && InGrid(c.dims, q)
  {
    c.blocks[q.x][q.y][q.z]
  }

  /** The grid `generateChunk` fills: every cell a GRASS block positioned at
      `coords + (x, y, z)`. */
  function GenerateGrid(d: Dims, coords: Vec3): (g: Grid)
    ensures WellShaped(Chunk(d, coords, g))
    ensures forall q :: InGrid(d, q) ==> g[q.x][q.y][q.z] == Block(coords.Add(q), Grass)
  {
    seq(d.cx, x => seq(d.cy, y => seq(d.cz, z => Block(coords.Add(Vec3(x, y, z)), Grass))))
  }

  /** `Chunk(coords)`: store the coordinates, then fill the grid. */
  function NewChunk(d: Dims, coords: Vec3): (c: Chunk)
    ensures WellShaped(c)
  {
    Chunk(d, coords, GenerateGrid(d, coords))
  }

  /** `!(q < coords || q > extentsMax)` per axis, where
      `extentsMax = coords + CHUNK * 0.5`; doubled to compare integers. */
  predicate InExtents(c: Chunk, q: Vec3) {
    && c.coords.x <= q.x && 2 * q.x <= 2 * c.coords.x + c.dims.cx
    && c.coords.y <= q.y && 2 * q.y <= 2 * c.coords.y + c.dims.cy
    && c.coords.z <= q.z && 2 * q.z <= 2 * c.coords.z + c.dims.cz
  }

  /** The neighbour a face test looks at. */
  function Neighbour(pos: Vec3, f: Face): Vec3 {
    pos.Add(Normal(f))
  }

  /** What `isFaceVisible` needs to stay inside `blocks`: it indexes the array
      by the absolute neighbour position whenever that lies inside the extents. */
  predicate QuerySafe(c: Chunk, pos: Vec3, f: Face) {
    InExtents(c, Neighbour(pos, f)) ==> InGrid(c.dims, Neighbour(pos, f))
  }

  /** `isFaceVisible(pos, face)` as written: open outside the extents, else
      open iff `blocks[q.x][q.y][q.z]` is AIR. */
  function IsFaceVisible(c: Chunk, pos: Vec3, f: Face): (r: bool)
    requires WellShaped(c) && QuerySafe(c, pos, f)
    ensures !InExtents(c, Neighbour(pos, f)) ==> r
    ensures InExtents(c, Neighbour(pos, f)) ==> (r <==> At(c, Neighbour(pos, f)).kind == Air)
  {
    var q := Neighbour(pos, f);
    if q.x < c.coords.x || 2 * q.x > 2 * c.coords.x + c.dims.cx
       || q.y < c.coords.y || 2 * q.y > 2 * c.coords.y + c.dims.cy
       || q.z < c.coords.z || 2 * q.z > 2 * c.coords.z + c.dims.cz
    then true
    else c.blocks[q.x][q.y][q.z].kind == Air
  }

  /** A chunk placement under which every query of `isFaceVisible` is in bounds:
      on each axis `0 <= coords` and `coords + CHUNK/2 < CHUNK`. */
  predicate IndexSafe(d: Dims, coords: Vec3) {
    && 0 <= coords.x && coords.x + d.cx / 2 < d.cx
    && 0 <= coords.y && coords.y + d.cy / 2 < d.cy
    && 0 <= coords.z && coords.z + d.cz / 2 < d.cz
  }

  /** IndexSafe is exactly what makes every in-extents position a grid index. */
  lemma IndexSafeIffQueriesInGrid(c: Chunk)
    requires c.dims.cx > 0 && c.dims.cy > 0 && c.dims.cz > 0
    ensures IndexSafe(c.dims, c.coords) <==> forall q :: InExtents(c, q) ==> InGrid(c.dims, q)
  {
    var hi := c.coords.Add(Vec3(c.dims.cx / 2, c.dims.cy / 2, c.dims.cz / 2));
    assert InExtents(c, c.coords) && InExtents(c, hi);
  }

  lemma IndexSafeQuery(c: Chunk, pos: Vec3, f: Face)
    requires IndexSafe(c.dims, c.coords)
    ensures QuerySafe(c, pos, f)
  {
  }

  /** The culling rule the mesher applies: the source's, or the corrected one
      recorded under Findings in the README. */
  datatype Culling = AsWritten | Local

  /** The corrected test: bounds `[coords, coords + CHUNK)` and the grid indexed
      by the position relative to `coords`. */
  function IsFaceVisibleLocal(c: Chunk, pos: Vec3, f: Face): (r: bool)
    requires WellShaped(c)
    ensures var l := Neighbour(pos, f).Sub(c.coords);
            r <==> !InGrid(c.dims, l) || At(c, l).kind == Air
  {
    var l := Neighbour(pos, f).Sub(c.coords);
    if !InGrid(c.dims, l) then true else c.blocks[l.x][l.y][l.z].kind == Air
  }

  predicate CanQuery(rule: Culling, c: Chunk, pos: Vec3) {
    WellShaped(c) && (rule == AsWritten ==> forall f :: QuerySafe(c, pos, f))
  }

  function Visible(rule: Culling, c: Chunk, pos: Vec3, f: Face): bool
    requires CanQuery(rule, c, pos)
  {
    match rule
    case AsWritten => IsFaceVisible(c, pos, f)
    case Local => IsFaceVisibleLocal(c, pos, f)
  }

  /** The outcome of the face test for each face, in enumeration order. */
  function VisibleFlags(rule: Culling, c: Chunk, pos: Vec3): (fl: seq<bool>)
    requires CanQuery(rule, c, pos)
    ensures |fl| == FaceCount
    ensures forall i :: 0 <= i < FaceCount ==> fl[i] == Visible(rule, c, pos, AllFaces[i])
  {
    seq(FaceCount, i requires 0 <= i < FaceCount => Visible(rule, c, pos, AllFaces[i]))
  }

  /** The faces among the first `n` whose flag is set, in enumeration order. */
  function Selected(fl: seq<bool>, n: nat): seq<Face>
    requires n <= |fl| <= FaceCount
  {
    if n == 0 then []
    else Selected(fl, n - 1) + (if fl[n - 1] then [AllFaces[n - 1]] else [])
  }

  /** The visible faces among the first `n`, in the order the mesher tests them. */
  function VisibleUpTo(rule: Culling, c: Chunk, pos: Vec3, n: nat): seq<Face>
    requires n <= FaceCount && CanQuery(rule, c, pos)
  {
    Selected(VisibleFlags(rule, c, pos), n)
  }

  /** One more face tested: it is appended exactly when it is visible. */
  lemma VisibleUpToStep(rule: Culling, c: Chunk, pos: Vec3, n: nat)
    requires n < FaceCount && CanQuery(rule, c, pos)
    ensures VisibleUpTo(rule, c, pos, n + 1)
         == VisibleUpTo(rule, c, pos, n) + (if Visible(rule, c, pos, AllFaces[n]) then [AllFaces[n]] else [])
  {
  }

  function VisibleFaces(rule: Culling, c: Chunk, pos: Vec3): seq<Face>
    requires CanQuery(rule, c, pos)
  {
    VisibleUpTo(rule, c, pos, FaceCount)
  }

  /** Faces come out in enumeration order FRONT..BOTTOM, each at most once, and
      a face is listed iff it is visible. */
  lemma VisibleUpToOrdered(rule: Culling, c: Chunk, pos: Vec3, n: nat)
    requires n <= FaceCount && CanQuery(rule, c, pos)
    ensures var vs := VisibleUpTo(rule, c, pos, n);
            && (forall i, j :: 0 <= i < j < |vs| ==> vs[i].Index() < vs[j].Index())
            && (forall f :: f in vs <==> f.Index() < n && Visible(rule, c, pos, f))
  {
    var fl := VisibleFlags(rule, c, pos);
    SelectedOrdered(fl, n);
    forall f: Face ensures fl[f.Index()] == Visible(rule, c, pos, f) {
      FaceEnumeration(f);
    }
  }

  /** Selection keeps enumeration order and picks exactly the flagged faces. */
  lemma {:induction false} SelectedOrdered(fl: seq<bool>, n: nat)
    requires n <= |fl| == FaceCount
    ensures var vs := Selected(fl, n);
            && (forall i, j :: 0 <= i < j < |vs| ==> vs[i].Index() < vs[j].Index())
            && (forall i :: 0 <= i < |vs| ==> vs[i].Index() < n)
            && (forall f: Face :: f in vs <==> f.Index() < n && fl[f.Index()])
  {
    if n > 0 {
      SelectedOrdered(fl, n - 1);
      var g := AllFaces[n - 1];
      FaceEnumeration(g);
      forall f: Face ensures f.Index() < n <==> f.Index() < n - 1 || f == g {
        FaceEnumeration(f);
      }
    }
  }

  /** A vertex: position in half units, texture coordinate in atlas tiles. */
  datatype Vertex = Vertex(position: Vec3, uv: Tile)

  datatype Mesh = Mesh(vertices: seq<Vertex>, indices: seq<int>)

  const EmptyMesh: Mesh := Mesh([], [])

  /** The buffer invariant: six indices per four vertices, every index naming
      an existing vertex. */
  predicate ValidMesh(m: Mesh) {
    && 2 * |m.indices| == 3 * |m.vertices|
    && |m.vertices| % 4 == 0
    && forall i :: 0 <= i < |m.indices| ==> 0 <= m.indices[i] < |m.vertices|
  }

  /** A block position in half units. */
  function HalfUnits(v: Vec3): Vec3 { Vec3(2 * v.x, 2 * v.y, 2 * v.z) }

  /** Corner `k` of a face, as an offset in half units from the block centre
      (the four `glm::vec3(+-0.5f, ...)` of each face branch). */
  function CornerOffset(f: Face, k: nat): Vec3
    requires k < 4
  {
    match f
    case Front => [Vec3(-1, -1, 1), Vec3(1, -1, 1), Vec3(1, -1, -1), Vec3(-1, -1, -1)][k]
    case Back => [Vec3(1, 1, 1), Vec3(-1, 1, 1), Vec3(-1, 1, -1), Vec3(1, 1, -1)][k]
    case Left => [Vec3(-1, 1, 1), Vec3(-1, -1, 1), Vec3(-1, -1, -1), Vec3(-1, 1, -1)][k]
    case Right => [Vec3(1, -1, 1), Vec3(1, 1, 1), Vec3(1, 1, -1), Vec3(1, -1, -1)][k]
    case Top => [Vec3(-1, 1, 1), Vec3(1, 1, 1), Vec3(1, -1, 1), Vec3(-1, -1, 1)][k]
    case Bottom => [Vec3(-1, -1, -1), Vec3(1, -1, -1), Vec3(1, 1, -1), Vec3(-1, 1, -1)][k]
  }

  predicate PlusMinusOne(v: int) { v == -1 || v == 1 }

  /** Every corner of face f lies half a block out along f's normal (on the
      normal's axis the corner offset equals the normal) and at a corner of
      the cube around the block centre. */
  lemma CornersOnFace(f: Face, k: nat)
    requires k < 4
    ensures var v, n := CornerOffset(f, k), Normal(f);
            && (n.x != 0 ==> v.x == n.x)
            && (n.y != 0 ==> v.y == n.y)
            && (n.z != 0 ==> v.z == n.z)
    ensures PlusMinusOne(CornerOffset(f, k).x) && PlusMinusOne(CornerOffset(f, k).y)
         && PlusMinusOne(CornerOffset(f, k).z)
  {
  }

  /** The four corners of a face are distinct. */
  lemma CornersDistinct(f: Face, k: nat, k': nat)
    requires k < k' < 4
    ensures var a, b := CornerOffset(f, k), CornerOffset(f, k'); a.x != b.x || a.y != b.y || a.z != b.z
  {
    match f
    case Front =>
    case Back =>
    case Left =>
    case Right =>
    case Top =>
    case Bottom =>
  }

  /** The `k`th vertex pushed for face f of block b. */
  function Corner(b: Block, f: Face, k: nat): Vertex
    requires k < 4 && b.kind != Air
  {
    Vertex(HalfUnits(b.position).Add(CornerOffset(f, k)), TexCoordTiles(b.kind, f, k))
  }

  function Quad(b: Block, f: Face): seq<Vertex>
    requires b.kind != Air
  {
    [Corner(b, f, 0), Corner(b, f, 1), Corner(b, f, 2), Corner(b, f, 3)]
  }

  /** Push four vertices, then `insertIndices`: offset = vertex count - 4 and
      the triangles (o, o+1, o+2), (o+2, o+3, o). */
  function AppendQuad(m: Mesh, quad: seq<Vertex>): Mesh
    requires |quad| == 4
  {
    var vs := m.vertices + quad;
    var o := |vs| - 4;
    Mesh(vs, m.indices + [o + 0, o + 1, o + 2, o + 2, o + 3, o + 0])
  }

  /** Appending a quad keeps the buffer invariant, appends exactly four vertices
      and six indices, and the new indices name only the new vertices. */
  lemma AppendQuadValid(m: Mesh, quad: seq<Vertex>)
    requires |quad| == 4 && ValidMesh(m)
    ensures var r := AppendQuad(m, quad);
            && ValidMesh(r)
            && r.vertices == m.vertices + quad
            && |r.indices| == |m.indices| + 6
            && r.indices[..|m.indices|] == m.indices
            && forall i :: |m.indices| <= i < |r.indices| ==> |m.vertices| <= r.indices[i] < |r.vertices|
  {
  }

  /** The reference result of emitting the quads of `faces`, in order. */
  function EmitFaces(m: Mesh, b: Block, faces: seq<Face>): Mesh
    requires b.kind != Air || faces == []
  {
    if faces == [] then m
    else AppendQuad(EmitFaces(m, b, faces[..|faces| - 1]), Quad(b, faces[|faces| - 1]))
  }

  lemma EmitFacesSnoc(m: Mesh, b: Block, faces: seq<Face>, f: Face)
    requires b.kind != Air
    ensures EmitFaces(m, b, faces + [f]) == AppendQuad(EmitFaces(m, b, faces), Quad(b, f))
  {
    assert (faces + [f])[..|faces|] == faces;
  }

  lemma {:induction false} EmitFacesValid(m: Mesh, b: Block, faces: seq<Face>)
    requires b.kind != Air || faces == []
    requires ValidMesh(m)
    ensures var r := EmitFaces(m, b, faces);
            && ValidMesh(r)
            && |r.vertices| == |m.vertices| + 4 * |faces|
            && |r.indices| == |m.indices| + 6 * |faces|
            && r.vertices[..|m.vertices|] == m.vertices
            && r.indices[..|m.indices|] == m.indices
  {
    if faces != [] {
      var fs := faces[..|faces| - 1];
      EmitFacesValid(m, b, fs);
      var prev := EmitFaces(m, b, fs);
      AppendQuadValid(prev, Quad(b, faces[|faces| - 1]));
      assert EmitFaces(m, b, faces).indices[..|prev.indices|] == prev.indices;
      assert prev.indices[..|m.indices|] == m.indices;
    }
  }

  /** `insertVertsAndInds(b)`: test the six faces in order FRONT, BACK, LEFT,
      RIGHT, TOP, BOTTOM and emit a quad for each visible one. */
  method InsertVertsAndInds(rule: Culling, c: Chunk, b: Block, m: Mesh) returns (r: Mesh)
    requires CanQuery(rule, c, b.position) && ValidMesh(m)
    requires b.kind != Air
    ensures r == EmitFaces(m, b, VisibleFaces(rule, c, b.position))
    ensures ValidMesh(r)
  {
    r := m;
    var i := 0;
    while i < FaceCount
      invariant 0 <= i <= FaceCount
      invariant r == EmitFaces(m, b, VisibleUpTo(rule, c, b.position, i))
    {
      var f := AllFaces[i];
      ghost var before := VisibleUpTo(rule, c, b.position, i);
      VisibleUpToStep(rule, c, b.position, i);
      if Visible(rule, c, b.position, f) {
        EmitFacesSnoc(m, b, before, f);
        r := AppendQuad(r, Quad(b, f));
      } else {
        assert before + [] == before;
      }
      i := i + 1;
    }
    EmitFacesValid(m, b, VisibleFaces(rule, c, b.position));
  }

  /** The local cells of a grid in the order of the three nested loops of
      `generateChunk`: x outermost, then y, then z. */
  function Column(x: int, y: int, cz: nat): seq<Vec3> {
    seq(cz, z => Vec3(x, y, z))
  }

  function Slab(x: int, cy: nat, cz: nat): (r: seq<Vec3>)
    ensures forall i :: 0 <= i < |r| ==> r[i].x == x && 0 <= r[i].y < cy && 0 <= r[i].z < cz
  {
    if cy == 0 then [] else Slab(x, cy - 1, cz) + Column(x, cy - 1, cz)
  }

  function Cells(cx: nat, cy: nat, cz: nat): (r: seq<Vec3>)
    ensures forall i :: 0 <= i < |r| ==> InGrid(Dims(cx, cy, cz), r[i])
  {
    if cx == 0 then [] else Cells(cx - 1, cy, cz) + Slab(cx - 1, cy, cz)
  }

  /** Loop order: x first, then y, then z. */
  predicate LexLess(a: Vec3, b: Vec3) {
    a.x < b.x || (a.x == b.x && (a.y < b.y || (a.y == b.y && a.z < b.z)))
  }

  predicate StrictlyOrdered(cells: seq<Vec3>) {
    forall i, j :: 0 <= i < j < |cells| ==> LexLess(cells[i], cells[j])
  }

  lemma ColumnContents(x: int, y: int, cz: nat)
    ensures StrictlyOrdered(Column(x, y, cz))
    ensures forall q :: q in Column(x, y, cz) <==> q.x == x && q.y == y && 0 <= q.z < cz
  {
    forall q: Vec3 | q.x == x && q.y == y && 0 <= q.z < cz ensures q in Column(x, y, cz) {
      assert Column(x, y, cz)[q.z] == q;
    }
  }

  lemma {:induction false} SlabContents(x: int, cy: nat, cz: nat)
    ensures StrictlyOrdered(Slab(x, cy, cz))
    ensures forall q :: q in Slab(x, cy, cz) <==> q.x == x && 0 <= q.y < cy && 0 <= q.z < cz
  {
    if cy > 0 {
      SlabContents(x, cy - 1, cz);
      ColumnContents(x, cy - 1, cz);
      var a, b := Slab(x, cy - 1, cz), Column(x, cy - 1, cz);
      forall i, j | 0 <= i < j < |a + b| ensures LexLess((a + b)[i], (a + b)[j]) {
        if j < |a| {
        } else if i < |a| {
          assert (a + b)[i] == a[i] && a[i].y < cy - 1;
          assert (a + b)[j] == b[j - |a|];
        } else {
          assert (a + b)[i] == b[i - |a|] && (a + b)[j] == b[j - |a|];
        }
      }
    }
  }

  /** The loops visit every cell of the grid, each exactly once, in loop order. */
  lemma {:induction false} CellsEnumerateGrid(d: Dims)
    ensures StrictlyOrdered(Cells(d.cx, d.cy, d.cz))
    ensures forall q :: q in Cells(d.cx, d.cy, d.cz) <==> InGrid(d, q)
    decreases d.cx
  {
    if d.cx > 0 {
      CellsEnumerateGrid(Dims(d.cx - 1, d.cy, d.cz));
      SlabContents(d.cx - 1, d.cy, d.cz);
      var a, b := Cells(d.cx - 1, d.cy, d.cz), Slab(d.cx - 1, d.cy, d.cz);
      forall i, j | 0 <= i < j < |a + b| ensures LexLess((a + b)[i], (a + b)[j]) {
        if j < |a| {
          assert (a + b)[i] == a[i] && (a + b)[j] == a[j];
        } else if i < |a| {
          assert (a + b)[i] == a[i] && (a + b)[j] == b[j - |a|];
        } else {
          assert (a + b)[i] == b[i - |a|] && (a + b)[j] == b[j - |a|];
        }
      }
    }
  }

  /** A chunk the mesher can process: queries stay in bounds and no block whose
      face may be emitted is AIR (its texture row would be index -1). */
  ghost predicate Meshable(rule: Culling, c: Chunk) {
    && WellShaped(c)
    && (rule == AsWritten ==> IndexSafe(c.dims, c.coords))
    && forall q :: InGrid(c.dims, q) ==> At(c, q).kind != Air
  }

  predicate CellsInGrid(d: Dims, cells: seq<Vec3>) {
    forall i :: 0 <= i < |cells| ==> InGrid(d, cells[i])
  }

  lemma MeshableQueries(rule: Culling, c: Chunk, pos: Vec3)
    requires Meshable(rule, c)
    ensures CanQuery(rule, c, pos)
  {
    if rule == AsWritten {
      forall f ensures QuerySafe(c, pos, f) {
        IndexSafeQuery(c, pos, f);
      }
    }
  }

  /** Number of visible faces over a run of cells. */
  function CountVisible(rule: Culling, c: Chunk, cells: seq<Vec3>): nat
    requires Meshable(rule, c) && CellsInGrid(c.dims, cells)
  {
    if cells == [] then 0
    else
      var q := cells[|cells| - 1];
      MeshableQueries(rule, c, At(c, q).position);
      CountVisible(rule, c, cells[..|cells| - 1]) + |VisibleFaces(rule, c, At(c, q).position)|
  }

  /** The reference result of meshing a run of cells, block after block. */
  function EmitCells(rule: Culling, c: Chunk, m: Mesh, cells: seq<Vec3>): Mesh
    requires Meshable(rule, c) && CellsInGrid(c.dims, cells)
  {
    if cells == [] then m
    else
      var b := At(c, cells[|cells| - 1]);
      MeshableQueries(rule, c, b.position);
      EmitFaces(EmitCells(rule, c, m, cells[..|cells| - 1]), b, VisibleFaces(rule, c, b.position))
  }

  lemma {:induction false} EmitCellsValid(rule: Culling, c: Chunk, m: Mesh, cells: seq<Vec3>)
    requires Meshable(rule, c) && CellsInGrid(c.dims, cells) && ValidMesh(m)
    ensures ValidMesh(EmitCells(rule, c, m, cells))
    ensures |EmitCells(rule, c, m, cells).vertices| == |m.vertices| + 4 * CountVisible(rule, c, cells)
    ensures |EmitCells(rule, c, m, cells).indices| == |m.indices| + 6 * CountVisible(rule, c, cells)
  {
    if cells != [] {
      var b := At(c, cells[|cells| - 1]);
      MeshableQueries(rule, c, b.position);
      EmitCellsValid(rule, c, m, cells[..|cells| - 1]);
      EmitFacesValid(EmitCells(rule, c, m, cells[..|cells| - 1]), b, VisibleFaces(rule, c, b.position));
    }
  }

  lemma NewChunkMeshable(rule: Culling, d: Dims, coords: Vec3)
    requires rule == AsWritten ==> IndexSafe(d, coords)
    ensures Meshable(rule, NewChunk(d, coords))
  {
  }

  lemma EmitCellsStep(rule: Culling, c: Chunk, m: Mesh, cells: seq<Vec3>, i: nat)
    requires Meshable(rule, c) && CellsInGrid(c.dims, cells) && i < |cells| && ValidMesh(m)
    ensures CanQuery(rule, c, At(c, cells[i]).position) && At(c, cells[i]).kind != Air
    ensures CellsInGrid(c.dims, cells[..i]) && ValidMesh(EmitCells(rule, c, m, cells[..i]))
    ensures EmitCells(rule, c, m, cells[..i + 1])
         == EmitFaces(EmitCells(rule, c, m, cells[..i]), At(c, cells[i]),
                      VisibleFaces(rule, c, At(c, cells[i]).position))
  {
    MeshableQueries(rule, c, At(c, cells[i]).position);
    assert cells[..i + 1][..i] == cells[..i];
    EmitCellsValid(rule, c, m, cells[..i]);
  }

  /** The meshing loop of `generateChunk`: `insertVertsAndInds` on the block of
      every listed cell, in list order. */
  method MeshCells(rule: Culling, c: Chunk, cells: seq<Vec3>) returns (m: Mesh)
    requires Meshable(rule, c) && CellsInGrid(c.dims, cells)
    ensures m == EmitCells(rule, c, EmptyMesh, cells)
    ensures ValidMesh(m)
  {
    m := EmptyMesh;
    var i := 0;
    while i < |cells|
      invariant 0 <= i <= |cells|
      invariant m == EmitCells(rule, c, EmptyMesh, cells[..i])
    {
      EmitCellsStep(rule, c, EmptyMesh, cells, i);
      var q := cells[i];
      m := InsertVertsAndInds(rule, c, c.blocks[q.x][q.y][q.z], m);
      i := i + 1;
    }
    assert cells[..i] == cells;
    EmitCellsValid(rule, c, EmptyMesh, cells);
  }

  /** `generateChunk` followed by meshing: fill the grid with GRASS, then run
      `insertVertsAndInds` over every cell in loop order. */
  method GenerateChunk(rule: Culling, d: Dims, coords: Vec3) returns (c: Chunk, m: Mesh)
    requires rule == AsWritten ==> IndexSafe(d, coords)
    ensures c == NewChunk(d, coords)
    ensures m == EmitCells(rule, c, EmptyMesh, Cells(d.cx, d.cy, d.cz))
    ensures ValidMesh(m)
  {
    c := NewChunk(d, coords);
    NewChunkMeshable(rule, d, coords);
    m := MeshCells(rule, c, Cells(d.cx, d.cy, d.cz));
  }

  // ---------------------------------------------------------------------------
  // Findings: the culling test as written against the corrected one.

  /** As written, extentsMax reaches only half a chunk: on the origin chunk of
      16 x 16 x 128 the RIGHT face of the block at (8, 0, 0) is reported visible
      although its neighbour (9, 0, 0) is a GRASS block of the same chunk. */
  lemma HalfExtentsExposeInnerFace()
    ensures var c := NewChunk(Dims(16, 16, 128), Vec3(0, 0, 0));
            && IndexSafe(c.dims, c.coords)
            && InGrid(c.dims, Vec3(9, 0, 0)) && At(c, Vec3(9, 0, 0)).kind == Grass
            && IsFaceVisible(c, Vec3(8, 0, 0), Right)
            && !IsFaceVisibleLocal(c, Vec3(8, 0, 0), Right)
  {
    var c := NewChunk(Dims(16, 16, 128), Vec3(0, 0, 0));
    var n := Neighbour(Vec3(8, 0, 0), Right);
    assert n == Vec3(9, 0, 0);
    assert !InExtents(c, n);
    assert InGrid(c.dims, n) && n.Sub(c.coords) == n;
    assert At(c, n) == Block(Vec3(9, 0, 0), Grass);
  }

  /** As written, the array is indexed by the absolute position: for the chunk
      placed at x = 16 (chunk index 1) the guard lets (16, 0, 1) through, which
      is no index of a 16-wide grid, whatever the grid holds. */
  lemma AbsoluteIndexLeavesGrid(g: Grid)
    ensures var c := Chunk(Dims(16, 16, 128), Vec3(16, 0, 0), g);
            && InExtents(c, Neighbour(Vec3(16, 0, 0), Top))
            && !InGrid(c.dims, Neighbour(Vec3(16, 0, 0), Top))
            && !QuerySafe(c, Vec3(16, 0, 0), Top)
            && !IndexSafe(c.dims, c.coords)
  {
    var q := Neighbour(Vec3(16, 0, 0), Top);
    assert q.x == 16 && q.y == 0 && q.z == 1;
  }

  /** The corrected rule needs no placement precondition, and on a generated
      chunk it opens a face exactly when the neighbour cell lies outside the
      chunk: interior faces are culled, boundary faces are drawn. */
  lemma LocalCullingShowsOnlyBoundary(d: Dims, coords: Vec3, l: Vec3, f: Face)
    requires InGrid(d, l)
    ensures var c := NewChunk(d, coords);
            IsFaceVisibleLocal(c, coords.Add(l), f) <==> !InGrid(d, l.Add(Normal(f)))
  {
    var c := NewChunk(d, coords);
    assert Neighbour(coords.Add(l), f).Sub(coords) == l.Add(Normal(f));
  }
}
