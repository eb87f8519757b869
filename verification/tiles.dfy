/**
  Records and constants shared by the mosaic engine and the tile-database
  filter (src/mosaic.h).

  A tile is summarised by a fixed grid of BLOCKS blocks, each block holding
  the average luma (Y), the two chroma components (U, V) and an edge
  intensity (E), all unsigned bytes.  Grid cells of the target image and
  library tiles use the same record shape.
 */
module Tiles {

  /** Number of blocks in a tile record (8*8). */
  const BLOCKS: nat := 64

  /** The only valid record tag: ASCII "TILE" read as a little-endian word. */
  const TILE_MAGIC: int := 0x454C4954

  /** C's INT_MAX, the "empty slot" score and the "no match" distance. */
  const INT_MAX: int := 0x7FFF_FFFF

  type uint8 = x: int | 0 <= x < 0x100
  type int16 = x: int | -0x8000 <= x < 0x8000

  /** One block of a tile. */
  datatype Pixel = Pixel(y: uint8, u: uint8, v: uint8, e: uint8)

  /**
    A tile record.  For a library tile `imageID` is the tile identity (a
    negated identity marks the vertically mirrored variant); for a grid cell
    it is the cell's position in the target image.  `yDelta` is the
    brightness offset that was removed from the stored luma values.
   */
  datatype TileRecord = TileRecord(
    magic: int,
    imageID: int,
    yDelta: int16,
    xres: int16,
    yres: int16,
    pixels: seq<Pixel>)

  /** Every record on disk and in memory has exactly BLOCKS pixels. */
  type Tile = t: TileRecord | |t.pixels| == BLOCKS
    witness TileRecord(0, 0, 0, 0, 0, seq(64, _ => Pixel(0, 0, 0, 0)))

  /** The all-zero record that calloc produces; its magic is not valid. */
  const ZeroTile: Tile := TileRecord(0, 0, 0, 0, 0, seq(64, _ => Pixel(0, 0, 0, 0)))

  predicate ValidMagic(t: TileRecord) {
    t.magic == TILE_MAGIC
  }

  /**
    A candidate for one grid cell: a score (lower is better) and a signed
    tile identity; a negative identity is the mirrored variant of tile -id.
   */
  datatype TileScore = TileScore(score: int, id: int)

  /** The value every ranking slot starts with. */
  const Unset: TileScore := TileScore(INT_MAX, 0)

  /** C's abs() on mathematical integers. */
  function Abs(x: int): (r: nat)
    ensures r == x || r == -x
  {
    if x < 0 then -x else x
  }

  /**
    The fatal conditions: the two both programs stop on, and the failure
    of the corrected resolver when a cell has no eligible candidate left.
   */
  datatype Error =
    | EmptyDatabase                  // the database holds less than one record
    | BadMagic(record: nat)          // record number `record` carries a wrong tag
    | ResolutionExhausted(cell: nat) // no written slot of cell `cell` is under the cap

  datatype Result<T> = Ok(value: T) | Fail(error: Error)
}
