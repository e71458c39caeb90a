/** `FaceData` of Chunk.h: one visible face packed into a 16-bit position word
    (x: 4 bits, y: 4 bits, z: 8 bits) and an 8-bit word holding a 3-bit
    direction above a 4-bit block id. */
module FaceData {
  import opened Wrappers
  import opened Block

  /** `glm::ivec3`: three 32-bit two's-complement ints, kept as bit-vectors so
      that `&` means exactly what it means on the C++ ints. */
  datatype IVec3 = IVec3(x: bv32, y: bv32, z: bv32)

  /** uint16_t and uint8_t values, held in 32-bit words the way C++ promotes
      them before any arithmetic; storing an int into one keeps its low bits. */
  type U16 = w: bv32 | w < 0x1_0000
  type U8 = w: bv32 | w < 0x100

  function StoreU16(v: bv32): U16 { v & 0xFFFF }
  function StoreU8(v: bv32): U8 { v & 0xFF }

  datatype FaceData = FaceData(position: U16, directionId: U8)

  /** A value-initialised record: both words zero. */
  const Zero: FaceData := FaceData(0, 0)

  /** The three position fields of a packed word, as the layout assigns them. */
  function PosX(w: U16): bv32 { (w >> 12) & 15 }
  function PosY(w: U16): bv32 { (w >> 8) & 15 }
  function PosZ(w: U16): bv32 { w & 255 }

  /** The decoded local position of a packed word. */
  function Unpack(w: U16): IVec3 {
    IVec3(PosX(w), PosY(w), PosZ(w))
  }

  /** The direction field (bits 4-6) and the block-id field (bits 0-3). */
  function DirectionField(w: U8): bv32 { (w >> 4) & 7 }
  function BlockIdField(w: U8): bv32 { w & 15 }

  /** `((p.x & 15) << 4 | (p.y & 15)) << 8 | (p.z & 255)`, computed in int and
      stored in a uint16_t. */
  function PackPosition(p: IVec3): U16 {
    PackMasked(p.x & 15, p.y & 15, p.z & 255)
  }

  /** The shift-and-or applied to the three masked coordinates. */
  function PackMasked(xm: bv32, ym: bv32, zm: bv32): U16 {
    StoreU16((((xm << 4) | ym) << 8) | zm)
  }

  /** Each field of a packed word reads back the masked coordinate it was given. */
  lemma PackedFields(xm: bv32, ym: bv32, zm: bv32)
    requires xm < 16 && ym < 16 && zm < 256
    ensures Unpack(PackMasked(xm, ym, zm)) == IVec3(xm, ym, zm)
  {
  }

  /** The packed value of three masked coordinates never exceeds 16 bits, so
      the uint16_t store loses nothing. */
  lemma PackFitsWithoutTruncation(xm: bv32, ym: bv32, zm: bv32)
    requires xm < 16 && ym < 16 && zm < 256
    ensures (((xm << 4) | ym) << 8) | zm < 0x1_0000
    ensures PackMasked(xm, ym, zm) == (((xm << 4) | ym) << 8) | zm
  {
  }

  /** `setPosition`: x&15 lands in bits 12-15, y&15 in bits 8-11 and z&255 in
      bits 0-7; the direction word is untouched. */
  function SetPosition(fd: FaceData, p: IVec3): (r: FaceData)
    ensures Unpack(r.position) == IVec3(p.x & 15, p.y & 15, p.z & 255)
    ensures r.directionId == fd.directionId
  {
    PackedFields(p.x & 15, p.y & 15, p.z & 255);
    fd.(position := PackPosition(p))
  }

  /** A block-local position the three fields can hold. */
  predicate Encodable(p: IVec3) {
    p.x < 16 && p.y < 16 && p.z < 256
  }

  /** Decoding the three fields recovers an encodable position exactly. */
  lemma PositionRoundTrip(fd: FaceData, p: IVec3)
    requires Encodable(p)
    ensures Unpack(SetPosition(fd, p).position) == p
  {
  }

  /** Two positions pack to the same word exactly when they agree modulo
      16, 16 and 256: out-of-range coordinates are silently reduced. */
  lemma PackDependsOnResidues(p: IVec3, q: IVec3)
    ensures PackPosition(p) == PackPosition(q)
        <==> ((p.x & 15) == (q.x & 15) && (p.y & 15) == (q.y & 15) && (p.z & 255) == (q.z & 255))
  {
    if PackPosition(p) == PackPosition(q) {
      SamePackSameResidues(p, q);
    } else {
      SameResiduesSamePack(p, q);
    }
  }

  lemma SameResiduesSamePack(p: IVec3, q: IVec3)
    ensures ((p.x & 15) == (q.x & 15) && (p.y & 15) == (q.y & 15) && (p.z & 255) == (q.z & 255))
        ==> PackPosition(p) == PackPosition(q)
  {
    var xm, ym, zm := p.x & 15, p.y & 15, p.z & 255;
    assert PackPosition(p) == PackMasked(xm, ym, zm);
    if (p.x & 15) == (q.x & 15) && (p.y & 15) == (q.y & 15) && (p.z & 255) == (q.z & 255) {
      assert PackPosition(q) == PackMasked(xm, ym, zm);
    }
  }

  lemma SamePackSameResidues(p: IVec3, q: IVec3)
    requires PackPosition(p) == PackPosition(q)
    ensures (p.x & 15) == (q.x & 15) && (p.y & 15) == (q.y & 15) && (p.z & 255) == (q.z & 255)
  {
    PackedFields(p.x & 15, p.y & 15, p.z & 255);
    PackedFields(q.x & 15, q.y & 15, q.z & 255);
  }

  /** `chunkSize` of Chunk.h: 16 x 16 x 128 blocks. */
  const ChunkSizeX: bv32 := 16
  const ChunkSizeY: bv32 := 16
  const ChunkSizeZ: bv32 := 128

  /** A local position inside `chunkSize` (non-negative as a signed int, so
      below the bound as an unsigned word). */
  predicate InChunkSize(p: IVec3) {
    p.x < ChunkSizeX && p.y < ChunkSizeY && p.z < ChunkSizeZ
  }

  /** Packing is injective on every local position of a chunk. */
  lemma PackInjectiveInChunk(p: IVec3, q: IVec3)
    requires InChunkSize(p) && InChunkSize(q)
    ensures PackPosition(p) == PackPosition(q) <==> p == q
  {
    PositionRoundTrip(Zero, p);
    PositionRoundTrip(Zero, q);
  }

  /** The BlockFace enumerator as the value `setDirection` receives. */
  function FaceBits(d: Face): (r: bv32)
    ensures r < 6
  {
    match d
    case Front => 0
    case Back => 1
    case Left => 2
    case Right => 3
    case Top => 4
    case Bottom => 5
  }

  /** The face a direction field names, if any. */
  function FaceFromBits(b: bv32): (r: Option<Face>)
    ensures r.Some? <==> b < 6
    ensures r.Some? ==> FaceBits(r.value) == b
  {
    if b == 0 then Some(Front)
    else if b == 1 then Some(Back)
    else if b == 2 then Some(Left)
    else if b == 3 then Some(Right)
    else if b == 4 then Some(Top)
    else if b == 5 then Some(Bottom)
    else None
  }

  /** `setDirection`: `((d & 7) << 4) | (direction_id & 15)`. */
  function SetDirection(fd: FaceData, d: Face): (r: FaceData)
    ensures FaceFromBits(DirectionField(r.directionId)) == Some(d)
    ensures (r.directionId & 128) == 0
    ensures (r.directionId & 15) == (fd.directionId & 15)
    ensures r.position == fd.position
  {
    fd.(directionId := StoreU8(((FaceBits(d) & 7) << 4) | (fd.directionId & 15)))
  }

  /** The uint16_t a BlockType argument becomes: AIR (-1) arrives as 0xFFFF. */
  function TypeToUint16(t: BlockType): (r: U16)
    ensures t != Air ==> r < 4
  {
    match t
    case Air => 0xFFFF
    case Dirt => 0
    case Grass => 1
    case Stone => 2
    case Cobblestone => 3
  }

  /** `setBlockId`: `(direction_id & 240) | (b & 15)`. */
  function SetBlockId(fd: FaceData, b: U16): (r: FaceData)
    ensures BlockIdField(r.directionId) == b & 15
    ensures (r.directionId & 240) == (fd.directionId & 240)
    ensures r.position == fd.position
  {
    fd.(directionId := StoreU8((fd.directionId & 240) | (b & 15)))
  }

  /** `getBlockId`: the raw low nibble; the cast to BlockType names a block
      type only for the values TypeFromNibble accepts. */
  function GetBlockId(fd: FaceData): (r: bv32)
    ensures r < 16
    ensures r == fd.directionId % 16
  {
    fd.directionId & 15
  }

  /** The block type with value `n`, if any (-1 is not a nibble, and 4 is the
      count TYPE_COUNT rather than a block). */
  function TypeFromNibble(n: bv32): (r: Option<BlockType>)
    ensures r.Some? <==> n < 4
    ensures r.Some? ==> r.value != Air && TypeToUint16(r.value) == n
  {
    if n == 0 then Some(Dirt)
    else if n == 1 then Some(Grass)
    else if n == 2 then Some(Stone)
    else if n == 3 then Some(Cobblestone)
    else None
  }

  /** Any b < 16 reads back unchanged; a solid type reads back as that type,
      but AIR reads back as 15, which names no block type. */
  lemma BlockIdRoundTrip(fd: FaceData, b: U16, t: BlockType)
    ensures b < 16 ==> GetBlockId(SetBlockId(fd, b)) == b
    ensures t != Air ==> TypeFromNibble(GetBlockId(SetBlockId(fd, TypeToUint16(t)))) == Some(t)
    ensures GetBlockId(SetBlockId(fd, TypeToUint16(Air))) == 15
    ensures TypeFromNibble(15) == None
  {
  }

  /** Setting direction and block id commute; either order yields
      `((d & 7) << 4) | (b & 15)` whatever the word held before. */
  lemma DirectionAndBlockIdCommute(fd: FaceData, d: Face, b: U16)
    ensures SetBlockId(SetDirection(fd, d), b) == SetDirection(SetBlockId(fd, b), d)
    ensures SetBlockId(SetDirection(fd, d), b).directionId
         == ((FaceBits(d) & 7) << 4) | (b & 15)
  {
  }
}

/** `chunkSize`, the extents and `posToChunkIndex` of Chunk.h. */
module ChunkIndex {

  /** `chunkSize`, `extentsMin` and `extentsMax = extentsMin + chunkSize`. */
  const ChunkSize: (real, real, real) := (16.0, 16.0, 128.0)
  const ExtentsMin: (real, real, real) := (-0.5, -0.5, -0.5)
  const ExtentsMax: (real, real, real) :=
    (ExtentsMin.0 + ChunkSize.0, ExtentsMin.1 + ChunkSize.1, ExtentsMin.2 + ChunkSize.2)

  /** `floor(pos / chunkSize)` truncated to its x and y components. */
  function PosToChunkIndex(x: real, y: real, z: real): (i: (int, int))
    ensures 16.0 * i.0 as real <= x < 16.0 * i.0 as real + 16.0
    ensures 16.0 * i.1 as real <= y < 16.0 * i.1 as real + 16.0
  {
    ((x / ChunkSize.0).Floor, (y / ChunkSize.1).Floor)
  }

  /** On integral positions the chunk index is floor division by 16, the height
      is ignored, and the extents box is the block-centre range widened by half a block. */
  lemma ChunkIndexOfBlock(x: int, y: int, z: int, z': int)
    ensures PosToChunkIndex(x as real, y as real, z as real) == (x / 16, y / 16)
    ensures PosToChunkIndex(x as real, y as real, z as real)
         == PosToChunkIndex(x as real, y as real, z' as real)
    ensures ExtentsMax == (15.5, 15.5, 127.5)
  {
    var i := PosToChunkIndex(x as real, y as real, z as real);
    assert 16 * i.0 <= x < 16 * i.0 + 16;
    assert 16 * i.1 <= y < 16 * i.1 + 16;
  }
}
