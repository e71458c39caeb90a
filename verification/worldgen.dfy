/** Terrain layering of WorldGenerator.cpp: the block type of a cell from its
    column's surface height and a pseudo-random dirt depth, and the string hash
    that seeds that depth. Noise, `srand`/`rand` and the stream formatting of
    floats are parameters. */
module WorldGen {
  import opened Block

  /** 2^32: GLuint arithmetic is modulo this. */
  const WordModulus: int := 0x1_0000_0000

  /** A GLuint value. */
  type Word = n: int | 0 <= n < WordModulus

  /** `a - b` on GLuint. */
  function SubWord(a: Word, b: Word): (r: Word)
    ensures b <= a ==> r == a - b
    ensures a < b ==> r == a - b + WordModulus && r > a
  {
    (a - b) % WordModulus
  }

  /** The body of `getBlockTypeAtPos` for a cell at height `z` in a column whose
      surface height is `h` and whose drawn dirt depth is `d`. The height and the
      threshold are converted to float for the comparisons; reals stand for them. */
  function LayerAt(z: real, h: Word, d: Word): BlockType {
    if z == h as real then Grass
    else if z < h as real then
      if z >= SubWord(h, d) as real then Dirt else Stone
    else Air
  }

  /** The layering read in plain integer terms: a cell is solid iff it is at or
      below the surface; the surface cell is GRASS; the `d` cells under it are
      DIRT when the subtraction does not wrap; every other solid cell is STONE,
      so when `d > h` the whole column below the surface is STONE. */
  lemma LayerAtCharacterised(z: real, h: Word, d: Word)
    ensures LayerAt(z, h, d) != Air <==> z <= h as real
    ensures LayerAt(z, h, d) == Grass <==> z == h as real
    ensures LayerAt(z, h, d) == Dirt <==> d <= h && (h - d) as real <= z < h as real
    ensures LayerAt(z, h, d) == Stone <==> z < h as real && (d > h || z < (h - d) as real)
    ensures LayerAt(z, h, d) != Cobblestone
  {
    if d > h {
      assert SubWord(h, d) > h;
    }
  }

  /** The layering the dirt threshold evidently means, with the subtraction
      done on integers: the `d` cells under the surface are DIRT, cut off at
      nothing, and only cells below those are STONE. */
  function LayerAtIntended(z: real, h: Word, d: Word): (t: BlockType)
    ensures t != Air <==> z <= h as real
    ensures t == Grass <==> z == h as real
    ensures t == Dirt <==> (h - d) as real <= z < h as real
    ensures t == Stone <==> z < (h - d) as real
  {
    if z == h as real then Grass
    else if z < h as real then
      if z >= (h - d) as real then Dirt else Stone
    else Air
  }

  /** As written, a dirt depth above the surface height wraps the threshold to
      a value near 2^32: on a column with surface 1 and drawn depth 2 the cell
      at z = 0 is STONE, where the integer threshold -1 makes it DIRT. */
  lemma ThresholdWrapTurnsDirtToStone()
    ensures SubWord(1, 2) == WordModulus - 1
    ensures LayerAt(0.0, 1, 2) == Stone
    ensures LayerAtIntended(0.0, 1, 2) == Dirt
  {
  }

  /** The two layerings agree exactly when the threshold does not wrap or the
      cell is not below the surface. */
  lemma LayerAtAgreesWithoutWrap(z: real, h: Word, d: Word)
    ensures LayerAt(z, h, d) == LayerAtIntended(z, h, d) <==> d <= h || z >= h as real || z < (h - d) as real
  {
    LayerAtCharacterised(z, h, d);
  }

  /** `getSurfaceHeightAtPos`: a noise sample in [-1, 1] rescaled to [0, 1],
      times ten, truncated by the cast to GLuint. */
  function SurfaceHeight(noise: real): (h: Word)
    requires -1.0 <= noise <= 1.0
    ensures h <= 10
    ensures h as real <= (noise / 2.0 + 0.5) * 10.0 < h as real + 1.0
  {
    ((noise / 2.0 + 0.5) * 10.0).Floor
  }

  /** A `char` of the formatted string, as its 8 bits. */
  type Byte = b: bv32 | b < 0x100

  /** Plain `char` taken as signed (the choice is implementation-defined): promoted
      into GLuint arithmetic it is sign-extended. */
  function Promote(c: Byte): (r: bv32)
    ensures r & 0xFF == c
    ensures c < 0x80 ==> r == c
  {
    if c < 0x80 then c else c | 0xFFFF_FF00
  }

  const PrimeA: bv32 := 373
  const PrimeB: bv32 := 49009
  const PrimeC: bv32 := 37

  /** One round of the hash loop. */
  function HashStep(h: bv32, c: Byte): bv32 {
    ((h * PrimeA + Promote(c)) ^ PrimeB) * PrimeC
  }

  /** The hash of `s` continued from the running value `h`: a left fold. */
  function HashFrom(h: bv32, s: seq<Byte>): bv32
    decreases |s|
  {
    if s == [] then h else HashFrom(HashStep(h, s[0]), s[1..])
  }

  /** The hash of a string starts from 0. */
  function Hash(s: seq<Byte>): bv32 {
    HashFrom(0, s)
  }

  /** Hashing a concatenation continues from the hash of the first part. */
  lemma {:induction false} HashFromAppend(h: bv32, s: seq<Byte>, t: seq<Byte>)
    ensures HashFrom(h, s + t) == HashFrom(HashFrom(h, s), t)
    decreases |s|
  {
    if s == [] {
      assert s + t == t;
    } else {
      assert (s + t)[0] == s[0];
      assert (s + t)[1..] == s[1..] + t;
      HashFromAppend(HashStep(h, s[0]), s[1..], t);
    }
  }

  /** The hash loop of `genRandomValFromPos`, character by character. */
  method HashString(s: seq<Byte>) returns (h: bv32)
    ensures h == Hash(s)
  {
    h := 0;
    var i := 0;
    while i < |s|
      invariant 0 <= i <= |s|
      invariant HashFrom(h, s[i..]) == Hash(s)
    {
      h := HashStep(h, s[i]);
      assert s[i..][1..] == s[i + 1..];
      i := i + 1;
    }
  }

  /** Appending a character applies one more round to the hash so far. */
  lemma HashSnoc(s: seq<Byte>, c: Byte)
    ensures Hash(s + [c]) == HashStep(Hash(s), c)
  {
    HashFromAppend(0, s, [c]);
    assert HashFrom(Hash(s), [c]) == HashFrom(HashStep(Hash(s), c), []);
  }

  /** 373 and 37 are odd and 49009 sets the low bit, so the low bit of a round
      is the low bit of the running value and the character, flipped. */
  lemma HashStepParity(h: bv32, c: Byte)
    ensures HashStep(h, c) & 1 == (h ^ Promote(c) ^ 1) & 1
  {
  }

  /** Two strings that share everything but their last character hash apart
      whenever those characters differ in their low bit: the hash's low bit
      follows the low bit of the last character. */
  lemma HashSeparatesParity(s: seq<Byte>, c: Byte, c': Byte)
    ensures Hash(s + [c]) & 1 == Hash(s + [c']) & 1 <==> c & 1 == c' & 1
  {
    HashSnoc(s, c);
    HashSnoc(s, c');
    HashStepParity(Hash(s), c);
    HashStepParity(Hash(s), c');
  }

  /** The first round on the single character '0' (48): 48 xor 49009 = 48961,
      times 37. */
  lemma HashOfZeroDigit()
    ensures Hash([48]) == 1811557
  {
    assert HashFrom(0, [48]) == HashFrom(HashStep(0, 48), []);
  }

  /** `','` */
  const Comma: Byte := 44

  /** `ss << pos.x << "," << pos.y`, where `format` renders one float. */
  function CoordString(format: real -> seq<Byte>, x: real, y: real): seq<Byte> {
    format(x) + [Comma] + format(y)
  }

  /** A world position (`glm::vec3`). */
  datatype Pos = Pos(x: real, y: real, z: real)

  /** `genRandomValFromPos(pos, range)`: seed with the hash of "x,y" and take the
      first `rand()` value modulo `range`. `firstRand(seed)` is what `rand()`
      returns right after `srand(seed)`. */
  function GenRandomValFromPos(format: real -> seq<Byte>, firstRand: bv32 -> nat, pos: Pos, range: Word): (r: Word)
    requires range > 0
    ensures r < range
  {
    firstRand(Hash(CoordString(format, pos.x, pos.y))) % range
  }

  /** The drawn value is a function of the hash of the column's coordinates: two
      positions in one column draw the same value, whatever their heights. */
  lemma RandomValPerColumn(format: real -> seq<Byte>, firstRand: bv32 -> nat, p: Pos, q: Pos, range: Word)
    requires range > 0
    requires p.x == q.x && p.y == q.y
    ensures GenRandomValFromPos(format, firstRand, p, range) == GenRandomValFromPos(format, firstRand, q, range)
    ensures GenRandomValFromPos(format, firstRand, p, range)
         == firstRand(HashFrom(HashFrom(Hash(format(p.x)), [Comma]), format(p.y))) % range
  {
    HashFromAppend(0, format(p.x) + [Comma], format(p.y));
    HashFromAppend(0, format(p.x), [Comma]);
  }

  /** `getBlockTypeAtPos(pos)`, with the noise field, the float formatting and
      the seeded `rand()` as parameters. */
  function BlockTypeAtPos(noise: (real, real) -> real, format: real -> seq<Byte>, firstRand: bv32 -> nat, pos: Pos): (t: BlockType)
    requires -1.0 <= noise(pos.x, pos.y) <= 1.0
    ensures t != Cobblestone
    ensures t != Air <==> pos.z <= SurfaceHeight(noise(pos.x, pos.y)) as real
    ensures t == Grass <==> pos.z == SurfaceHeight(noise(pos.x, pos.y)) as real
    ensures var h, d := SurfaceHeight(noise(pos.x, pos.y)), GenRandomValFromPos(format, firstRand, pos, 4);
            && (t == Dirt <==> pos.z < h as real && pos.z >= SubWord(h, d) as real)
            && (t == Stone <==> pos.z < SubWord(h, d) as real && pos.z < h as real)
  {
    var h := SurfaceHeight(noise(pos.x, pos.y));
    var d := GenRandomValFromPos(format, firstRand, pos, 4);
    LayerAtCharacterised(pos.z, h, d);
    LayerAt(pos.z, h, d)
  }

  /** The drawn dirt depth is below 4, so on a column whose surface is at least
      3 the threshold never wraps: every cell more than three below the surface,
      and every cell below z = 0, is STONE. */
  lemma DeepCellsAreStone(noise: (real, real) -> real, format: real -> seq<Byte>, firstRand: bv32 -> nat, pos: Pos)
    requires -1.0 <= noise(pos.x, pos.y) <= 1.0
    requires SurfaceHeight(noise(pos.x, pos.y)) >= 3
    ensures pos.z < SurfaceHeight(noise(pos.x, pos.y)) as real - 3.0
            ==> BlockTypeAtPos(noise, format, firstRand, pos) == Stone
    ensures pos.z < 0.0 ==> BlockTypeAtPos(noise, format, firstRand, pos) == Stone
  {
    var h := SurfaceHeight(noise(pos.x, pos.y));
    var d := GenRandomValFromPos(format, firstRand, pos, 4);
    LayerAtCharacterised(pos.z, h, d);
  }
}
