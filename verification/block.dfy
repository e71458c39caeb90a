/** Block types, block faces and the static per-face tables shared by the
    renderer and the mesher (BlockAttribs.h, Block.h and BlockTypes.h). */
module Block {
  import opened Wrappers

  /** Integer 3-vector; block positions, normals and half-unit vertices. */
  datatype Vec3 = Vec3(x: int, y: int, z: int) {
    function Add(o: Vec3): Vec3 { Vec3(x + o.x, y + o.y, z + o.z) }
    function Sub(o: Vec3): Vec3 { Vec3(x - o.x, y - o.y, z - o.z) }
  }

  /** `enum BlockType : int8_t`; AIR is the sentinel -1, solid types count up from 0. */
  datatype BlockType = Air | Dirt | Grass | Stone | Cobblestone {
    /** The enumerator's integer value. */
    function Id(): int {
      match this
      case Air => -1
      case Dirt => 0
      case Grass => 1
      case Stone => 2
      case Cobblestone => 3
    }
  }

  /** TYPE_COUNT: the number of solid types, and of rows in the texture tables. */
  const TypeCount: int := 4

  /** The block type whose value is `i`, if any: a cast to BlockType of another
      value names no block (4 is the count TYPE_COUNT, larger values nothing). */
  function TypeFromId(i: int): (r: Option<BlockType>)
    ensures r.Some? <==> -1 <= i < TypeCount
    ensures r.Some? ==> r.value.Id() == i
  {
    if i == -1 then Some(Air)
    else if i == 0 then Some(Dirt)
    else if i == 1 then Some(Grass)
    else if i == 2 then Some(Stone)
    else if i == 3 then Some(Cobblestone)
    else None
  }

  /** Enumerator values are distinct, AIR differs from every solid type and the
      solid types are exactly 0 .. TYPE_COUNT-1. */
  lemma TypeIdsDistinct(s: BlockType, t: BlockType)
    ensures s.Id() == t.Id() <==> s == t
    ensures TypeFromId(t.Id()) == Some(t)
    ensures t != Air <==> 0 <= t.Id() < TypeCount
    ensures Air.Id() == -1
  {
  }

  /** `enum BlockFace`; the order is load-bearing since it indexes the tables. */
  datatype Face = Front | Back | Left | Right | Top | Bottom {
    function Index(): nat {
      match this
      case Front => 0
      case Back => 1
      case Left => 2
      case Right => 3
      case Top => 4
      case Bottom => 5
    }
  }

  /** FACE_COUNT */
  const FaceCount: nat := 6

  /** Every face, in enumeration order. */
  const AllFaces: seq<Face> := [Front, Back, Left, Right, Top, Bottom]

  /** The six faces of BlockFace are numbered 0 .. FACE_COUNT-1, listed in order
      by AllFaces, and each fits the 3-bit direction field of a packed face. */
  lemma FaceEnumeration(f: Face)
    ensures |AllFaces| == FaceCount
    ensures f.Index() < FaceCount && AllFaces[f.Index()] == f
    ensures f.Index() < 8
    ensures forall i, j :: 0 <= i < j < |AllFaces| ==> AllFaces[i] != AllFaces[j]
  {
  }

  /** `faceNormals[FACE_COUNT]`: the outward unit normal of each face. */
  function Normal(f: Face): Vec3 {
    match f
    case Front => Vec3(0, -1, 0)
    case Back => Vec3(0, 1, 0)
    case Left => Vec3(-1, 0, 0)
    case Right => Vec3(1, 0, 0)
    case Top => Vec3(0, 0, 1)
    case Bottom => Vec3(0, 0, -1)
  }

  /** The table itself, indexed by BlockFace. */
  const FaceNormals: seq<Vec3> := seq(FaceCount, i requires 0 <= i < FaceCount => Normal(AllFaces[i]))

  /** A unit vector along one coordinate axis. */
  predicate UnitAxis(v: Vec3) {
    || (v.x in {-1, 1} && v.y == 0 && v.z == 0)
    || (v.x == 0 && v.y in {-1, 1} && v.z == 0)
    || (v.x == 0 && v.y == 0 && v.z in {-1, 1})
  }

  /** Every face normal is a unit axis vector. */
  lemma NormalsAreUnitAxes(f: Face)
    ensures |FaceNormals| == FaceCount
    ensures FaceNormals[f.Index()] == Normal(f)
    ensures UnitAxis(Normal(f))
  {
  }

  /** The face on the other side of a block. */
  function Opposite(f: Face): Face {
    match f
    case Front => Back
    case Back => Front
    case Left => Right
    case Right => Left
    case Top => Bottom
    case Bottom => Top
  }

  /** Paired faces have opposite normals. */
  lemma NormalsOpposite(f: Face)
    ensures Normal(Opposite(f)).Add(Normal(f)) == Vec3(0, 0, 0)
    ensures Opposite(Opposite(f)) == f
  {
  }

  /** The six normals are pairwise distinct and are exactly the six signed axes. */
  lemma NormalsDistinctAndCover(f: Face, g: Face)
    ensures Normal(f) == Normal(g) <==> f == g
    ensures {Normal(Front), Normal(Back), Normal(Left), Normal(Right), Normal(Top), Normal(Bottom)}
         == {Vec3(1, 0, 0), Vec3(-1, 0, 0), Vec3(0, 1, 0), Vec3(0, -1, 0), Vec3(0, 0, 1), Vec3(0, 0, -1)}
  {
  }

  /** `blockTextureIds[TYPE_COUNT][6]`: atlas tile per (solid type, face). */
  const BlockTextureIds: seq<seq<int>> := [
    [0, 0, 0, 0, 0, 0],   // DIRT
    [2, 2, 2, 2, 1, 0],   // GRASS
    [3, 3, 3, 3, 3, 3],   // STONE
    [4, 4, 4, 4, 4, 4]    // COBBLESTONE
  ]

  function TextureId(t: BlockType, f: Face): int
    requires t != Air
  {
    BlockTextureIds[t.Id()][f.Index()]
  }

  /** A side face is one of the four faces with a horizontal normal. */
  predicate IsSide(f: Face) {
    f in {Front, Back, Left, Right}
  }

  /** Grass shows tile 2 on its sides, 1 on top and 0 underneath. */
  lemma GrassTiles(f: Face)
    ensures TextureId(Grass, f) == (if IsSide(f) then 2 else if f == Top then 1 else 0)
  {
  }

  /** Dirt, stone and cobblestone each use a single tile on all faces, and every
      table entry is a tile id in 0..4. */
  lemma UniformTiles(f: Face, t: BlockType)
    requires t != Air
    ensures TextureId(Dirt, f) == 0
    ensures TextureId(Stone, f) == 3
    ensures TextureId(Cobblestone, f) == 4
    ensures 0 <= TextureId(t, f) <= 4
    ensures |BlockTextureIds| == TypeCount
  {
  }

  /** Position inside the texture atlas, in whole tiles. */
  datatype Tile = Tile(u: int, v: int)

  /** `blockOffset`: the atlas fraction one tile spans (16 pixels out of 128). */
  const BlockOffset: real := 16.0 / 128.0

  /** `BLOCK_OFFSET(x, y)`, counted in tiles rather than atlas fractions. */
  function BlockOffsetTiles(tx: int, ty: int): Tile {
    Tile(tx, ty)
  }

  /** `blockTextureOffsets[TYPE_COUNT][6]` of the older revision. */
  const BlockTextureOffsets: seq<seq<Tile>> := [
    [BlockOffsetTiles(0, 0), BlockOffsetTiles(0, 0), BlockOffsetTiles(0, 0),
     BlockOffsetTiles(0, 0), BlockOffsetTiles(0, 0), BlockOffsetTiles(0, 0)],  // DIRT
    [BlockOffsetTiles(2, 0), BlockOffsetTiles(2, 0), BlockOffsetTiles(2, 0),
     BlockOffsetTiles(2, 0), BlockOffsetTiles(1, 0), BlockOffsetTiles(0, 0)],  // GRASS
    [BlockOffsetTiles(3, 0), BlockOffsetTiles(3, 0), BlockOffsetTiles(3, 0),
     BlockOffsetTiles(3, 0), BlockOffsetTiles(3, 0), BlockOffsetTiles(3, 0)],  // STONE
    [BlockOffsetTiles(4, 0), BlockOffsetTiles(4, 0), BlockOffsetTiles(4, 0),
     BlockOffsetTiles(4, 0), BlockOffsetTiles(4, 0), BlockOffsetTiles(4, 0)]   // COBBLESTONE
  ]

  /** The offset table has a row per solid type, every entry lies in atlas row 0,
      and its tile column is the id the newer `blockTextureIds` table gives. */
  lemma OffsetsAgreeWithIds(t: BlockType, f: Face)
    requires t != Air
    ensures |BlockTextureOffsets| == TypeCount
    ensures BlockTextureOffsets[t.Id()][f.Index()] == Tile(TextureId(t, f), 0)
    ensures 0 <= BlockTextureOffsets[t.Id()][f.Index()].u <= 4
  {
  }

  /** `Block::getTextureCoords(face, vert)` in tile units: the four corners of the
      face's tile, any vertex number other than 0, 1, 2 selecting the fourth. */
  function TexCoordTiles(t: BlockType, f: Face, vert: int): (r: Tile)
    requires t != Air
    ensures var o := BlockTextureOffsets[t.Id()][f.Index()];
            && o.u <= r.u <= o.u + 1 && o.v <= r.v <= o.v + 1
            && (r.u == o.u + 1 <==> vert in {1, 2})
            && (r.v == o.v + 1 <==> vert !in {0, 1})
  {
    var o := BlockTextureOffsets[t.Id()][f.Index()];
    match vert
    case 0 => o
    case 1 => Tile(o.u + 1, o.v)
    case 2 => Tile(o.u + 1, o.v + 1)
    case _ => Tile(o.u, o.v + 1)
  }

  /** The same coordinate as an atlas fraction, as the C++ returns it. */
  function TexCoordAtlas(t: BlockType, f: Face, vert: int): (real, real)
    requires t != Air
  {
    var c := TexCoordTiles(t, f, vert);
    (BlockOffset * c.u as real, BlockOffset * c.v as real)
  }

  /** Every texture coordinate handed out stays inside the first 5/8 of the
      atlas horizontally and inside its first tile row vertically. */
  lemma TexCoordsInAtlas(t: BlockType, f: Face, vert: int)
    requires t != Air
    ensures var (u, v) := TexCoordAtlas(t, f, vert);
            0.0 <= u <= 5.0 / 8.0 && 0.0 <= v <= 1.0 / 8.0
  {
    var c := TexCoordTiles(t, f, vert);
    OffsetsAgreeWithIds(t, f);
    UniformTiles(f, t);
    assert 0 <= c.u <= 5 && 0 <= c.v <= 1;
  }

  /** The four vertices 0..3 of a face map to four distinct corners of its tile. */
  lemma TexCoordCornersDistinct(t: BlockType, f: Face, i: int, j: int)
    requires t != Air
    requires 0 <= i < 4 && 0 <= j < 4 && i != j
    ensures TexCoordTiles(t, f, i) != TexCoordTiles(t, f, j)
  {
  }

  /** A placed block: world position and type; `Block b;` is AIR at the origin. */
  datatype Block = Block(position: Vec3, kind: BlockType)

  function DefaultBlock(): (b: Block)
    ensures b.kind == Air && b.kind.Id() == -1
    ensures b.position == Vec3(0, 0, 0)
  {
    Block(Vec3(0, 0, 0), Air)
  }
}
