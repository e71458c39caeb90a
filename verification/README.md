# Minecraft-Clone core, modelled in Dafny

This project models the core of a small voxel renderer written in C++:

- **Block tables** (`block.dfy`, module `Block`). These cover the block-type and block-face enumerations, the face-normal table, the per-face texture tables, and `Block::getTextureCoords`.
- **Packed faces** (`chunk_header.dfy`, modules `FaceData` and `ChunkIndex`). These cover the bit layout of `FaceData` (position, direction and block id), the chunk size, the chunk extents, and `posToChunkIndex`.
- **Chunks** (`chunk.dfy`, module `Chunk`):
  - `generateChunk` fills a grid with GRASS blocks.
  - `isFaceVisible` does face culling against neighbours.
  - `insertVertsAndInds` emits four vertices and six indices per visible face.
  - Chunk.cpp belongs to a revision of Chunk.h that is not part of this model: it uses `CHUNK_X`, `CHUNK_Y`, `CHUNK_Z`, `coords`, `extentsMax`, `vertices` and `indices`, which Chunk.h does not declare. The chunk sizes are the `Dims` parameter.
  - Vertex positions are kept in half-block units so that block corners are integers. Texture coordinates are kept in atlas tiles.
- **Terrain** (`worldgen.dfy`, module `WorldGen`). This covers the GRASS/DIRT/STONE/AIR layering of `getBlockTypeAtPos`, the unsigned height arithmetic, and the string hash that seeds the per-column dirt depth.
  - The noise field, `srand`/`rand` and the stream formatting of floats are function-valued parameters.
- **Chunk manager** (`chunk_manager.dfy`, module `ChunkManager`):
  - the comparator-ordered chunk map;
  - the FIFO of chunk indices waiting to be built;
  - the FIFO of built chunks waiting to be published;
  - the loader thread's loop body, modelled as one atomic step;
  - start-up of a (2r+1) x (2r+1) square of chunks;
  - removal, null-pruning and face counting;
  - the singleton.
- **Configuration** (`config.dfy`, module `Config`). This covers `name=value` line parsing, at-most-once loading into a non-overwriting map, and the typed getters, whose `operator[]` lookups insert missing names.
- **Asset manager** (`assets.dfy`, module `Assets`). This covers the file-name surgery of `getFileName`, where `erase(npos)` throws `std::out_of_range`, and the texture and shader handle caches keyed by it.
- **Library models**:
  - `stdstring.dfy` (module `StdString`): the `std::string` operations used (`find`, `find_last_of`, `substr`, `erase`, `npos`, and `size_t` wrap-around).
  - `stdmap.dfy` (module `StdMap`): `std::map::insert`, which never replaces an entry, and `operator[]`, which inserts a value-initialised entry.
  - `wrappers.dfy` (module `Wrappers`): `Option` and `Result`.

The repository holds two revisions of some files:

- BlockTypes.h and BlockAttribs.h both declare BlockType, the latter with an `int8_t` base. Block.h and BlockAttribs.h both declare BlockFace and the normal table.
- BlockTypes.h has a texture-offset table. BlockAttribs.h has a texture-id table.
- Chunk.h and Chunk.cpp disagree on the constructor argument.
- AssetManager.h and AssetManager.cpp each have their own `getFileName`.

Each concept is defined once. Where two revisions differ, the model covers both. For example, `Block.OffsetsAgreeWithIds` proves that the two texture tables agree, and `Assets.FileName` covers both `getFileName` versions through its flag.

The model follows the code as written:

- `generateChunk` fills every cell with GRASS; it does not call the terrain generator.
- `isFaceVisible` is modelled with its half-chunk extents and absolute indexing. Both are recorded under Findings.

## Model

| member | source | states |
|---|---|---|
| Block.TypeFromId | Minecraft-Clone/BlockAttribs.h:4-12 | A cast of an int to BlockType names a block type exactly for -1 .. TYPE_COUNT-1, and that type has that value; TYPE_COUNT itself and larger values name no block |
| Block.TypeIdsDistinct | Minecraft-Clone/BlockTypes.h:4-12 | Enumerator values are distinct. AIR is -1 and differs from every solid type. The solid types are exactly 0 .. TYPE_COUNT-1 |
| Block.FaceEnumeration | Minecraft-Clone/Block.h:6-15 | The six faces are numbered 0..5 in the order FRONT..BOTTOM, are pairwise distinct, and each fits the 3-bit direction field |
| Block.NormalsAreUnitAxes | Minecraft-Clone/Block.h:17-21 | The normal table has FACE_COUNT entries, indexed by face, and each entry is a unit vector along one axis |
| Block.NormalsOpposite | Minecraft-Clone/BlockAttribs.h:25-29 | Paired faces (front/back, left/right, top/bottom) have normals that sum to zero, and the pairing is an involution |
| Block.NormalsDistinctAndCover | Minecraft-Clone/BlockAttribs.h:25-29 | Two faces share a normal only if they are the same face, and the six normals are exactly the six signed axes |
| Block.GrassTiles | Minecraft-Clone/BlockAttribs.h:31-37 | GRASS shows tile 2 on its four sides, tile 1 on top and tile 0 underneath |
| Block.UniformTiles | Minecraft-Clone/BlockAttribs.h:31-37 | DIRT, STONE and COBBLESTONE each use one tile on all faces (0, 3, 4). Every entry is a tile id from 0 to 4, and the table has TYPE_COUNT rows |
| Block.OffsetsAgreeWithIds | Minecraft-Clone/BlockTypes.h:14-24 | The older offset table has a row per solid type. Every entry lies in atlas row 0, at the column the newer id table gives |
| Block.TexCoordTiles | Minecraft-Clone/Block.h:26-33 | The coordinate for a vertex is a corner of the face's tile: it is shifted right exactly for vertices 1 and 2, and down for every vertex other than 0 and 1 |
| Block.TexCoordsInAtlas | Minecraft-Clone/Block.h:26-33 | Every texture coordinate handed out lies within the first 5/8 of the atlas horizontally and within its first tile row vertically |
| Block.TexCoordCornersDistinct | Minecraft-Clone/Block.h:26-33 | Vertices 0..3 of a face map to four distinct tile corners |
| Block.DefaultBlock | Minecraft-Clone/Block.h:36-37 | A default-constructed block is AIR (value -1) at the origin |
| FaceData.PackedFields | Minecraft-Clone/Chunk.h:12-16 | In a packed position word, x sits in bits 12-15, y in bits 8-11 and z in bits 0-7. Each field reads back the masked coordinate it was given |
| FaceData.PackFitsWithoutTruncation | Minecraft-Clone/Chunk.h:18-23 | The shifted-and-or'ed value of masked coordinates is below 2^16, so the store into uint16_t loses nothing |
| FaceData.SetPosition | Minecraft-Clone/Chunk.h:21-24 | setPosition stores x&15, y&15 and z&255 in their fields and leaves the direction word unchanged |
| FaceData.PositionRoundTrip | Minecraft-Clone/Chunk.h:21-24 | Decoding the fields recovers any position with x, y < 16 and z < 256 exactly |
| FaceData.PackDependsOnResidues | Minecraft-Clone/Chunk.h:21-24 | Two positions pack to the same word if and only if they agree modulo 16, 16 and 256 |
| FaceData.PackInjectiveInChunk | Minecraft-Clone/Chunk.h:8-24 | On the positions inside chunkSize (16 x 16 x 128), packing is injective |
| FaceData.FaceFromBits | Minecraft-Clone/Chunk.h:26-29 | A direction field names a face exactly when it is below 6, and that face's enumerator value is the field |
| FaceData.SetDirection | Minecraft-Clone/Chunk.h:26-29 | setDirection stores the face in bits 4-6, clears bit 7, and keeps the block-id nibble and the position |
| FaceData.SetBlockId | Minecraft-Clone/Chunk.h:31-34 | setBlockId stores b&15 in the low nibble and keeps the high nibble and the position |
| FaceData.GetBlockId | Minecraft-Clone/Chunk.h:36-38 | getBlockId is the low nibble of the direction word, a value below 16 |
| FaceData.TypeFromNibble | Minecraft-Clone/Chunk.h:36-38 | Casting a nibble to BlockType names a block type exactly for 0..3: a solid type whose uint16_t value is the nibble |
| FaceData.BlockIdRoundTrip | Minecraft-Clone/Chunk.h:31-38 | Any id below 16 reads back unchanged and a solid type reads back as itself. AIR (0xFFFF as uint16_t) reads back as 15, which names no enumerator |
| FaceData.DirectionAndBlockIdCommute | Minecraft-Clone/Chunk.h:26-34 | setDirection and setBlockId commute, and together they give ((d&7)<<4) or (b&15) whatever the word held |
| ChunkIndex.PosToChunkIndex | Minecraft-Clone/Chunk.h:57-59 | The chunk index of a position is the 16-wide cell containing its x and y |
| ChunkIndex.ChunkIndexOfBlock | Minecraft-Clone/Chunk.h:8-10 | On integer positions the index is floor division by 16 and ignores the height. extentsMax is (15.5, 15.5, 127.5) |
| Chunk.GenerateGrid | Minecraft-Clone/Chunk.cpp:28-38 | The filled grid has the chunk's dimensions, and cell (x, y, z) is a GRASS block at coords + (x, y, z) |
| Chunk.IsFaceVisible | Minecraft-Clone/Chunk.cpp:153-173 | As written: a face is open when its neighbour lies outside [coords, coords + CHUNK/2]. Otherwise it is open exactly when the block at the neighbour's absolute position is AIR |
| Chunk.IndexSafeIffQueriesInGrid | Minecraft-Clone/Chunk.cpp:162-168 | Every position the guard lets through is a valid array index if and only if, on each axis, 0 <= coords and coords + CHUNK/2 < CHUNK |
| Chunk.IsFaceVisibleLocal | Minecraft-Clone/Chunk.cpp:153-173 | Corrected culling: a face is open exactly when the neighbour, taken relative to coords, is outside the grid or is an AIR cell |
| Chunk.VisibleFlags | Minecraft-Clone/Chunk.cpp:98-150 | One face test per face, in enumeration order: flag i is the visibility of face i |
| Chunk.VisibleUpToStep | Minecraft-Clone/Chunk.cpp:98-150 | Testing one more face appends it to the visible list exactly when it is visible |
| Chunk.VisibleUpToOrdered | Minecraft-Clone/Chunk.cpp:98-150 | The faces meshed for a block come out in order FRONT..BOTTOM, each at most once, and a face is listed if and only if it is visible |
| Chunk.SelectedOrdered | Minecraft-Clone/Chunk.cpp:98-150 | Selecting among the first n flags keeps enumeration order and picks exactly the flagged faces below n |
| Chunk.CornersOnFace | Minecraft-Clone/Chunk.cpp:98-150 | Every vertex pushed for a face lies half a block out along that face's normal: on the normal's axis the offset equals the normal. Every coordinate of the offset is ±1 half-unit, so the vertex is a corner of the cube around the block centre |
| Chunk.CornersDistinct | Minecraft-Clone/Chunk.cpp:98-150 | The four vertices pushed for a face are distinct |
| Chunk.AppendQuadValid | Minecraft-Clone/Chunk.cpp:88-96 | insertIndices after four pushes keeps six indices per four vertices with every index in range, appends exactly the quad, and makes the new indices refer only to the new vertices |
| Chunk.EmitFacesSnoc | Minecraft-Clone/Chunk.cpp:98-150 | Emitting one more face appends exactly that face's quad |
| Chunk.EmitFacesValid | Minecraft-Clone/Chunk.cpp:86-151 | Emitting k faces keeps the buffer invariant, grows the buffers by 4k vertices and 6k indices, and leaves the existing contents as a prefix |
| Chunk.InsertVertsAndInds | Minecraft-Clone/Chunk.cpp:86-151 | The loop over the six faces produces the quads of exactly the visible faces, in face order, and keeps the buffer invariant |
| Chunk.ColumnContents | Minecraft-Clone/Chunk.cpp:42 | The innermost loop visits z = 0 .. CHUNK_Z-1, once each, in ascending order |
| Chunk.SlabContents | Minecraft-Clone/Chunk.cpp:41-45 | The two inner loops visit every (y, z) of one x once, in loop order |
| Chunk.CellsEnumerateGrid | Minecraft-Clone/Chunk.cpp:40-46 | The three nested loops visit every grid cell exactly once, x-major, then y, then z |
| Chunk.MeshableQueries | Minecraft-Clone/Chunk.cpp:162-168 | On a chunk placed so that indexing is safe, every face query of every block stays inside the array |
| Chunk.EmitCellsValid | Minecraft-Clone/Chunk.cpp:40-46 | Meshing a run of cells keeps the buffer invariant, with 4 vertices and 6 indices per visible face counted over the run |
| Chunk.EmitCellsStep | Minecraft-Clone/Chunk.cpp:43 | Meshing one more cell appends exactly that block's visible quads |
| Chunk.MeshCells | Minecraft-Clone/Chunk.cpp:40-46 | The meshing loop's buffers equal the reference result of meshing the listed cells in order and satisfy the buffer invariant |
| Chunk.NewChunkMeshable | Minecraft-Clone/Chunk.cpp:28-38 | A generated chunk holds no AIR, so each of its blocks has a texture row, and under a safe placement every query stays in bounds |
| Chunk.GenerateChunk | Minecraft-Clone/Chunk.cpp:28-47 | generateChunk fills the grid, then meshes every cell in loop order. The buffers are the reference mesh and satisfy the buffer invariant |
| Chunk.HalfExtentsExposeInnerFace | Minecraft-Clone/Chunk.cpp:7 | As written, in the origin chunk of 16 x 16 x 128, the RIGHT face of block (8,0,0) is drawn, although (9,0,0) is a GRASS block of the same chunk |
| Chunk.AbsoluteIndexLeavesGrid | Minecraft-Clone/Chunk.cpp:168 | As written, for the chunk at x = 16 the guard admits (16,0,1), which is not an index of a 16-wide grid, whatever the grid holds |
| Chunk.LocalCullingShowsOnlyBoundary | Minecraft-Clone/Chunk.cpp:153-173 | Corrected rule on a generated chunk: a face is open if and only if the neighbour cell lies outside the chunk, for every placement |
| WorldGen.SubWord | Minecraft-Clone/WorldGenerator.cpp:13 | GLuint subtraction: exact when it does not underflow, otherwise it wraps to a value above the minuend |
| WorldGen.LayerAtCharacterised | Minecraft-Clone/WorldGenerator.cpp:6-21 | A cell is solid iff it is at or below the surface, and GRASS iff it is at the surface. It is DIRT iff d <= h and it is among the d cells under the surface. It is STONE otherwise, and never COBBLESTONE |
| WorldGen.LayerAtIntended | Minecraft-Clone/WorldGenerator.cpp:9-17 | Corrected layering: the d cells under the surface are DIRT whatever h is, and only cells below them are STONE |
| WorldGen.ThresholdWrapTurnsDirtToStone | Minecraft-Clone/WorldGenerator.cpp:13 | As written, with surface 1 and depth 2 the threshold wraps to 2^32 - 1, and cell 0 is STONE where the intended rule gives DIRT |
| WorldGen.LayerAtAgreesWithoutWrap | Minecraft-Clone/WorldGenerator.cpp:12-17 | The written and corrected layerings agree exactly when the threshold does not wrap, or the cell is at or above the surface, or it lies below h - d |
| WorldGen.SurfaceHeight | Minecraft-Clone/WorldGenerator.cpp:33-35 | A noise sample in [-1, 1] gives a surface height from 0 to 10: the floor of the rescaled sample times ten |
| WorldGen.Promote | Minecraft-Clone/WorldGenerator.cpp:50-51 | A char, taken as signed, enters the GLuint hash sign-extended: its low byte is kept, and ASCII characters are unchanged |
| WorldGen.HashFromAppend | Minecraft-Clone/WorldGenerator.cpp:50-53 | The hash is a left fold: hashing s + t continues from the hash of s |
| WorldGen.HashString | Minecraft-Clone/WorldGenerator.cpp:45-53 | The character loop computes the fold of the hash step over the whole string, starting from 0 |
| WorldGen.HashSnoc | Minecraft-Clone/WorldGenerator.cpp:50-53 | Appending a character to the hashed string applies exactly one more round to its hash |
| WorldGen.HashStepParity | Minecraft-Clone/WorldGenerator.cpp:51-52 | For every running value and character, the low bit of a round is the xor of their low bits, flipped (373 and 37 are odd, 49009 sets bit 0) |
| WorldGen.HashSeparatesParity | Minecraft-Clone/WorldGenerator.cpp:50-53 | For every prefix, two last characters give hashes with equal low bits if and only if their own low bits are equal |
| WorldGen.HashOfZeroDigit | Minecraft-Clone/WorldGenerator.cpp:45-53 | With primes 373, 49009 and 37, the hash of "0" is 1811557 |
| WorldGen.GenRandomValFromPos | Minecraft-Clone/WorldGenerator.cpp:38-58 | The drawn value is below range |
| WorldGen.RandomValPerColumn | Minecraft-Clone/WorldGenerator.cpp:39-57 | The value depends only on x and y, through the hash of x, a comma, then y |
| WorldGen.BlockTypeAtPos | Minecraft-Clone/WorldGenerator.cpp:6-21 | getBlockTypeAtPos is never COBBLESTONE, is solid iff at or below the surface height h, and is GRASS iff at it. Below the surface it is DIRT iff z >= h - d in GLuint, where d is the position's drawn value below 4; otherwise it is STONE |
| WorldGen.DeepCellsAreStone | Minecraft-Clone/WorldGenerator.cpp:9-17 | On a column whose surface is at least 3, every cell more than three below the surface, and every cell below z = 0, is STONE |
| StdMap.Insert | Minecraft-Clone/Config.h:33 | insert keeps an existing entry and otherwise adds the new one; every other key is untouched |
| StdMap.Subscript | Minecraft-Clone/Config.h:48 | operator[] returns the stored value, or inserts and returns the zero value |
| StdMap.InsertIdempotent | Minecraft-Clone/AssetManager.cpp:32 | Inserting twice under one key is the same as inserting once |
| StdString.FirstIndexOf | Minecraft-Clone/Config.h:30 | find returns the first occurrence: absent iff the character does not occur, and no earlier occurrence exists |
| StdString.LastIndexOf | Minecraft-Clone/AssetManager.cpp:85 | find_last_of returns the last occurrence: absent iff the character does not occur, and no later occurrence exists |
| StdString.LastIndexOfJoin | Minecraft-Clone/AssetManager.cpp:88 | The last c of a + [c] + b is the one after a when b contains no c |
| StdString.EraseToEnd | Minecraft-Clone/AssetManager.cpp:88 | erase(i) with i in range keeps exactly the first i characters |
| Config.ParseLine | Minecraft-Clone/Config.h:30-32 | A line with '=' splits at its first '=' into a name without '=' and the rest. A line without one gives the whole line as both name and value, because npos + 1 wraps to 0 |
| Config.InsertLinesSpec | Minecraft-Clone/Config.h:24-34 | After the read loop a name is bound iff it was bound before or a non-empty line names it. An existing binding survives, otherwise the first such line wins |
| Config.LoadConfigFile | Minecraft-Clone/Config.h:11-35 | Loading sets the flag. It changes nothing on a second call, keeps the map when the file cannot be opened, and otherwise binds exactly the old names plus the names the lines give: every old binding keeps its value and every new name gets the value of the first line naming it |
| Config.LoadAtMostOnce | Minecraft-Clone/Config.h:12-16 | A second load has no effect, even when the first one failed to open its file |
| Config.GetVarAsBool | Minecraft-Clone/Config.h:47-55 | The result is true iff the name is bound to exactly "true", and the lookup inserts "" for a missing name |
| Config.GetVarAsInt | Minecraft-Clone/Config.h:57-65 | The result is -1 for a missing or empty value, otherwise std::stoi of the stored value, always in int range. The lookup inserts "" for a missing name |
| Config.DigitsOfFormat | Minecraft-Clone/Config.h:64 | Reading back the decimal rendering of a natural number gives that number |
| Config.FormatNatLength | Minecraft-Clone/Config.h:64 | A number below 10^k has at most k digits |
| Config.StoiOfFormat | Minecraft-Clone/Config.h:64 | stoi accepts the decimal rendering of every int and returns that int |
| Config.ParseBinding | Minecraft-Clone/Config.h:30-32 | A line name=value whose name has no '=' parses back into (name, value) |
| Config.UniqueSplit | Minecraft-Clone/Config.h:30-32 | A string splits at its first '=' in only one way |
| Config.FirstDelimiter | Minecraft-Clone/Config.h:30 | The first '=' of a + "=" + b is at position len(a) when a has none |
| Config.LoadSingleBinding | Minecraft-Clone/Config.h:24-34 | Loading the single line name=value into a fresh configuration binds the name to the value |
| Config.IntRoundTripThroughFile | Minecraft-Clone/Config.h:57-65 | A freshly loaded line name=n makes getVarAsInt(name) return n for every int n |
| Config.LoadedTrueReadsTrue | Minecraft-Clone/Config.h:47-55 | A freshly loaded line name=true makes getVarAsBool(name) return true |
| Config.LookupBeforeLoadMasks | Minecraft-Clone/Config.h:47-55 | A lookup before loading inserts "", and loading never overwrites. So after the line name=true, getVarAsBool(name) still returns false |
| ChunkManager.ComparatorIsLexicographic | Minecraft-Clone/ChunkManager.h:7-11 | std::tie(a.x, a.y) < std::tie(b.x, b.y) is the lexicographic order on (x, y) |
| ChunkManager.ComparatorIsStrictOrder | Minecraft-Clone/ChunkManager.h:7-11 | The comparator is irreflexive, asymmetric and transitive |
| ChunkManager.ComparatorEquivalenceIsEquality | Minecraft-Clone/ChunkManager.h:7-11 | Two indices are equivalent under the comparator iff they are equal, so the map keeps at most one entry per index |
| ChunkManager.AddChunk | Minecraft-Clone/ChunkManager.cpp:78-82 | addChunk appends the index at the back of the request queue and touches nothing else |
| ChunkManager.RowContents | Minecraft-Clone/ChunkManager.cpp:17-20 | The inner loop queues (x, -r) .. (x, r) in ascending order |
| ChunkManager.RowsBelowContents | Minecraft-Clone/ChunkManager.cpp:16-21 | After rows -r .. x-1, (x + r)(2r + 1) indices are queued, ascending, and they are exactly the indices with those x and |y| <= r |
| ChunkManager.InitOrderContents | Minecraft-Clone/ChunkManager.cpp:15-22 | initChunks(r) queues exactly the (2r+1)^2 indices of the square [-r, r]^2, each once, x-major then ascending y |
| ChunkManager.InitChunks | Minecraft-Clone/ChunkManager.cpp:15-22 | The nested loops append that square to the request queue and leave the map and the completion queue unchanged |
| ChunkManager.LoaderStep | Minecraft-Clone/ChunkManager.cpp:97-119 | A loader pass idles on an empty queue. Otherwise it pops the front index and queues the chunk built for it, leaving the map alone |
| ChunkManager.LoaderServesInOrder | Minecraft-Clone/ChunkManager.cpp:97-119 | n loader passes serve the first n requests in FIFO order, queue their chunks in the same order, and leave the map unchanged |
| ChunkManager.Build | Minecraft-Clone/ChunkManager.cpp:111 | The k-th chunk built is the one for the k-th index |
| ChunkManager.LastFor | Minecraft-Clone/ChunkManager.cpp:87-94 | The last queued chunk for an index, absent iff none is queued, with no later chunk for that index |
| ChunkManager.StoreAllSpec | Minecraft-Clone/ChunkManager.cpp:87-94 | Publishing stores each queued chunk under its index, a later chunk replacing an earlier one. Other keys keep their values |
| ChunkManager.CheckForLoadedChunks | Minecraft-Clone/ChunkManager.cpp:84-95 | checkForLoadedChunks empties the completion queue. Afterwards the map's keys are the old keys plus every queued chunk's index |
| ChunkManager.GetChunkAtIndex | Minecraft-Clone/ChunkManager.cpp:57-63 | getChunkAtIndex returns the stored pointer for a present index and null for an absent one, without inserting |
| ChunkManager.LookupAfterPublish | Minecraft-Clone/ChunkManager.cpp:84-95 | After publishing, an index reads back the last chunk queued for it |
| ChunkManager.RemoveChunk | Minecraft-Clone/ChunkManager.cpp:71-76 | removeChunk erases the index and keeps every other entry and both queues |
| ChunkManager.LookupAfterRemove | Minecraft-Clone/ChunkManager.cpp:71-76 | After removal the index reads back null |
| ChunkManager.RenderChunks | Minecraft-Clone/ChunkManager.cpp:24-43 | renderChunks erases exactly the null entries and keeps every other entry unchanged |
| ChunkManager.RenderPrunesNulls | Minecraft-Clone/ChunkManager.cpp:24-43 | After renderChunks no null is left, a second call changes nothing, and a null-free map is kept whole |
| ChunkManager.TotalFacesRemove | Minecraft-Clone/ChunkManager.cpp:51-53 | The face total can take any chunk out first: the sum does not depend on iteration order |
| ChunkManager.TotalFacesSameEntries | Minecraft-Clone/ChunkManager.cpp:51-53 | The face total over a set of keys depends only on those keys' entries |
| ChunkManager.GetFaceCount | Minecraft-Clone/ChunkManager.cpp:49-55 | getFaceCount, on a map with no null pointer, returns the sum of every chunk's face count |
| ChunkManager.FaceCountAfterRemove | Minecraft-Clone/ChunkManager.cpp:49-76 | Removing a chunk takes exactly its faces out of the total |
| ChunkManager.GetInstance | Minecraft-Clone/ChunkManager.h:15-21 | getInstance constructs a manager on the first call only, and then always hands back the stored one |
| ChunkManager.GetInstanceStable | Minecraft-Clone/ChunkManager.h:15-21 | A second getInstance returns the same manager and changes nothing |
| ChunkManager.LastForBuilt | Minecraft-Clone/ChunkManager.cpp:111-116 | Among chunks built from a run of indices, a chunk for k exists iff k was requested, and it is k's chunk |
| ChunkManager.StartupFillsSquare | Minecraft-Clone/ChunkManager.cpp:15-22 | initChunks(r), then the loader, then one publication: both queues are empty and the map holds exactly the square's indices, each with its own chunk |
| ChunkManager.AscendingCardinality | Minecraft-Clone/ChunkManager.cpp:16-21 | A strictly ascending run of indices has as many distinct indices as entries |
| ChunkManager.StartupChunkCount | Minecraft-Clone/ChunkManager.cpp:45-47 | chunkCount() after start-up is (2r+1)^2 |
| Assets.DropTrailingSlash | Minecraft-Clone/AssetManager.cpp:81-83 | A path ending in '/' loses exactly that one '/'; any other path is unchanged |
| Assets.FromLastSlash | Minecraft-Clone/AssetManager.cpp:85 | erase(0, find_last_of('/')) leaves the empty string when there is no '/'. Otherwise it leaves the suffix from the last '/', which has no other '/' |
| Assets.FileName | Minecraft-Clone/AssetManager.cpp:80-92 | getFileName throws exactly when the extension is to be removed and the last segment has no '.'. A key never grows and has '/' at most at its start |
| Assets.EraseFromLastDot | Minecraft-Clone/AssetManager.cpp:87-89 | erase(find_last_of('.')) throws iff there is no '.', and otherwise strictly shortens the segment |
| Assets.FromLastSlashOfJoin | Minecraft-Clone/AssetManager.cpp:85 | The last '/' of dir/leaf is the one before the leaf |
| Assets.TrailingSlashIgnored | Minecraft-Clone/AssetManager.cpp:81-83 | Adding one trailing '/' to a path does not change its key |
| Assets.SegmentOfJoinedPath | Minecraft-Clone/AssetManager.cpp:85 | The key of dir/leaf, with the extension kept, is "/leaf" |
| Assets.StemOfJoinedPath | Minecraft-Clone/AssetManager.h:9-17 | The key of dir/name.ext is "/name": the directory and the last extension go, and dots inside the name stay |
| Assets.StripsLastExtension | Minecraft-Clone/AssetManager.cpp:87-89 | Removing the extension cuts the kept segment at its last '.' |
| Assets.CutAtLastDot | Minecraft-Clone/AssetManager.cpp:88 | stem.ext, where ext has no '.', loses exactly ".ext" |
| Assets.NoDirectoryThrows | Minecraft-Clone/AssetManager.h:13-14 | A path without any '/' (or the path "/") has the empty key, and removing its extension throws |
| Assets.GetAssetHandle | Minecraft-Clone/AssetManager.cpp:8-10 | getAssetHandle (and getTextureId) returns the cached handle, or stores and returns 0 for a new name |
| Assets.LoadTexture | Minecraft-Clone/AssetManager.cpp:12-33 | loadTexture fails exactly when getFileName throws. Otherwise the cache gains the key with the new handle unless the key was present, and other keys are untouched |
| Assets.LoadTextureIdempotent | Minecraft-Clone/AssetManager.h:20-41 | Loading the same path twice changes nothing the second time, whatever handle it would have generated |
| Assets.SameKeySharesTexture | Minecraft-Clone/AssetManager.cpp:12-33 | Two paths with the same key share one texture: the second load is a no-op, and both look up the first handle |
| Assets.LoadShader | Minecraft-Clone/AssetManager.cpp:77 | loadShader's insert adds the name with the new program unless the name is taken, in which case the cache is unchanged |
| Assets.ShaderLookup | Minecraft-Clone/AssetManager.cpp:8-10 | After loadShader, getAssetHandle(name) returns the new program, or the earlier handle if the name was taken |

## Left out

- Rendering, the GL buffer uploads (`initShaderVars`, `render`) and the shader compile and link in `loadShader`. They are foreign GL calls. The program name GL returns is a parameter.
- `loadFile`, the `std::ifstream` reading in `loadConfigFile`, and `SOIL_load_image`. These are I/O. A configuration file is its sequence of lines, and `None` means a file that failed to open.
- `Config::getVar`'s `typeid(T).name()` dispatch is left out. The strings it compares against depend on the compiler.
- Threads and mutexes (the ChunkManager constructor, destructor, `shouldLoadChunks` and the lock guards). One pass of `loadingThreadFunc` is one atomic step. Interleavings are not modelled.
- `ChunkManager::at(n)` is left out. Iterator advance past the end is undefined, and the function is unused by the modelled core.
- The FastNoiseLite seeding with `time(0)`/`rand()`. The noise field, `rand` after `srand` and the float formatting of `ss << pos.x` are function parameters of `WorldGen.BlockTypeAtPos`.
- Chunk positions are integers. The source uses float `glm::vec3` for chunk coordinates, block positions and indices. The model uses `int` for these, and `real` where a float is compared against a non-integer (the extents, `posToChunkIndex`, terrain heights). Float rounding is not modelled.
- Chunk.InsertVertsAndInds: requires a solid block. For AIR, `getTextureCoords` would index texture row -1. `generateChunk` only ever meshes GRASS.
- Chunk.InsertVertsAndInds: keeps vertex indices as unbounded integers. GLuint wrap-around of `vertices.size() - 4` cannot occur below 2^32 vertices.
- Chunk.IsFaceVisible: requires that every position the guard admits is an array index (`QuerySafe`). Other placements are undefined behaviour in the source. `Chunk.AbsoluteIndexLeavesGrid` exhibits one.
- Config.GetVarAsInt: models `std::stoi` only on an optional sign followed by decimal digits within int range. Leading whitespace, trailing garbage, and the `invalid_argument`/`out_of_range` exceptions are excluded by its requirement.
- Assets.FileName: requires a non-empty path, because `path.back()` on an empty string is undefined.
- Assets.LoadTexture: AssetManager.cpp's `loadTexture` calls `getFileName(path)` with one argument, and the header that declares the default is not part of this model. The model takes `removeExtension = true`, the behaviour of AssetManager.h's one-argument version.
- WorldGen.GenRandomValFromPos: states only that the value lies below `range`. The value itself is whatever the supplied `rand` gives.
- WorldGen.BlockTypeAtPos: like WorldGen.DeepCellsAreStone, it follows the written GLuint threshold (`LayerAt`), since they model the source. The corrected layering is `WorldGen.LayerAtIntended`.
- WorldGen.Promote: takes plain `char` to be signed, which is implementation-defined; the hashed coordinate strings are ASCII, on which a signed and an unsigned `char` promote alike.
- WorldGen.HashStepParity: pins down only the low bit of a round. That a round is injective on characters for a fixed running value (37 is odd, so multiplying by it is invertible modulo 2^32) is not proved.
- ChunkManager.LoaderStep: takes the built chunk to report, through `getChunkIndex()`, the index it was constructed with, so it is stored under the requested index. The `Chunk(glm::vec2)` constructor body that would set `chunkIndex` is not part of this model; the constructor in Chunk.cpp never writes it. StartupFillsSquare and StartupChunkCount rest on this.
- Block.DefaultBlock: also leaves out `visibleFaces`, a bitset the modelled code never reads.

## Findings

| source | as written | input that shows it | evidently intended | confidence | as-written member | corrected member |
|---|---|---|---|---|---|---|
| Minecraft-Clone/Chunk.cpp:7 | `extentsMax = coords + CHUNK * 0.5`, so the culling guard covers only half the chunk on each axis | origin chunk 16 x 16 x 128, RIGHT face of block (8,0,0): drawn, although (9,0,0) is GRASS in the same chunk | extents span the whole chunk, so that interior faces are culled | not executed; high | Chunk.HalfExtentsExposeInnerFace | Chunk.LocalCullingShowsOnlyBoundary |
| Minecraft-Clone/Chunk.cpp:168 | the block array is indexed by the absolute neighbour position | chunk at x = 16: the guard admits (16,0,1), outside a 16-wide grid | index by the position relative to `coords` | not executed; high | Chunk.AbsoluteIndexLeavesGrid | Chunk.IsFaceVisibleLocal |
| Minecraft-Clone/WorldGenerator.cpp:13 | `height - genRandomValFromPos(pos, 4)` is GLuint and wraps when the depth exceeds the height | surface 1, depth 2, cell z = 0: STONE | the cells down to height - depth are DIRT | not executed; medium | WorldGen.ThresholdWrapTurnsDirtToStone | WorldGen.LayerAtIntended |
