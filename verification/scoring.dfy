/**
  The distance scorer of processLibImg (src/mosaic.c:213-262): how far a
  library tile is from one grid cell, summed block by block.  Lower is
  more similar.
 */
module Scoring {
  import opened Tiles

  /**
    Weighting configuration: luma, chroma and edge weights, and whether the
    stored (normalised) luma is compared as is (`lumFlag`) or first corrected
    by the difference of the two tiles' brightness offsets.
   */
  datatype Weights = Weights(wy: int, wc: int, we: int, lumFlag: bool)

  predicate NonNegative(w: Weights) {
    w.wy >= 0 && w.wc >= 0 && w.we >= 0
  }

  /** Absolute difference of two byte components. */
  function Diff(a: uint8, b: uint8): (r: nat)
    ensures r <= 255
    ensures r == a - b || r == b - a
  {
    Abs(a - b)
  }

  /**
    The contribution of one block: weighted luma distance (corrected by
    `yd`), weighted floor-halved chroma distance, weighted edge distance.
    C's `>> 1` on the non-negative chroma sum is division by two.
   */
  function BlockTerm(c: Pixel, l: Pixel, yd: int, w: Weights): (r: int)
    ensures NonNegative(w) ==> r >= 0
  {
    Weighted(w.wy, Abs(c.y - l.y + yd))
      + Weighted(w.wc, (Diff(c.u, l.u) + Diff(c.v, l.v)) / 2)
      + Weighted(w.we, Diff(c.e, l.e))
  }

  /** A weight applied to a distance. */
  function Weighted(weight: int, d: nat): (r: int)
    ensures weight >= 0 ==> r >= 0
    ensures weight == 0 ==> r == 0
  {
    weight * d
  }

  /** The luma correction: cell offset minus library offset, or none. */
  function LumaOffset(cell: Tile, lib: Tile, w: Weights): int {
    if w.lumFlag then 0 else cell.yDelta - lib.yDelta
  }

  /** Block terms of the first `n` blocks, accumulated in block order. */
  function BlockSum(cell: Tile, lib: Tile, yd: int, w: Weights, n: nat): (r: int)
    requires n <= BLOCKS
    ensures NonNegative(w) ==> r >= 0
  {
    if n == 0 then 0
    else BlockSum(cell, lib, yd, w, n - 1) + BlockTerm(cell.pixels[n - 1], lib.pixels[n - 1], yd, w)
  }

  /** One more block, written out term by term as the scoring loops add it. */
  lemma BlockSumStep(cell: Tile, lib: Tile, yd: int, w: Weights, j: nat)
    requires j < BLOCKS
    ensures var c, l := cell.pixels[j], lib.pixels[j];
      BlockSum(cell, lib, yd, w, j + 1)
        == BlockSum(cell, lib, yd, w, j) + w.wy * Abs(c.y - l.y + yd)
           + w.wc * ((Abs(c.u - l.u) + Abs(c.v - l.v)) / 2)
           + w.we * Abs(c.e - l.e)
  {
  }

  /** The score of library tile `lib` against grid cell `cell`. */
  function Score(cell: Tile, lib: Tile, numBlocks: nat, w: Weights): int
    requires numBlocks <= BLOCKS
  {
    BlockSum(cell, lib, LumaOffset(cell, lib, w), w, numBlocks)
  }

  /**
    The scoring loop as written: four branches on (edge weight non-zero,
    lumFlag), each its own block loop.  Every branch computes the single
    formula `Score`: the edge term vanishes when the edge weight is zero
    and the luma correction vanishes when lumFlag is set.
   */
  method ScoreCell(cell: Tile, lib: Tile, numBlocks: nat, w: Weights) returns (score: int)
    requires numBlocks <= BLOCKS
    ensures score == Score(cell, lib, numBlocks, w)
    ensures NonNegative(w) ==> score >= 0
  {
    if w.we != 0 {
      score := ScoreWithEdges(cell, lib, numBlocks, w);
    } else {
      score := ScoreWithoutEdges(cell, lib, numBlocks, w);
    }
  }

  /** The two loops that add the edge term. */
  method ScoreWithEdges(cell: Tile, lib: Tile, numBlocks: nat, w: Weights) returns (score: int)
    requires numBlocks <= BLOCKS
    ensures score == Score(cell, lib, numBlocks, w)
  {
    score := 0;
    if w.lumFlag {
      var j := 0;
      while j < numBlocks
        invariant j <= numBlocks
        invariant score == BlockSum(cell, lib, 0, w, j)
      {
        BlockSumStep(cell, lib, 0, w, j);
        var c, l := cell.pixels[j], lib.pixels[j];
        score := score + w.wy * Abs(c.y - l.y)
                 + w.wc * ((Abs(c.u - l.u) + Abs(c.v - l.v)) / 2)
                 + w.we * Abs(c.e - l.e);
        j := j + 1;
      }
    } else {
      var yDelta := cell.yDelta - lib.yDelta;
      var j := 0;
      while j < numBlocks
        invariant j <= numBlocks
        invariant score == BlockSum(cell, lib, yDelta, w, j)
      {
        BlockSumStep(cell, lib, yDelta, w, j);
        var c, l := cell.pixels[j], lib.pixels[j];
        score := score + w.wy * Abs(c.y - l.y + yDelta)
                 + w.wc * ((Abs(c.u - l.u) + Abs(c.v - l.v)) / 2)
                 + w.we * Abs(c.e - l.e);
        j := j + 1;
      }
    }
  }

  /** The two loops without the edge term, taken when the edge weight is 0. */
  method ScoreWithoutEdges(cell: Tile, lib: Tile, numBlocks: nat, w: Weights) returns (score: int)
    requires numBlocks <= BLOCKS && w.we == 0
    ensures score == Score(cell, lib, numBlocks, w)
  {
    score := 0;
    if w.lumFlag {
      var j := 0;
      while j < numBlocks
        invariant j <= numBlocks
        invariant score == BlockSum(cell, lib, 0, w, j)
      {
        BlockSumStep(cell, lib, 0, w, j);
        var c, l := cell.pixels[j], lib.pixels[j];
        score := score + w.wy * Abs(c.y - l.y)
                 + w.wc * ((Abs(c.u - l.u) + Abs(c.v - l.v)) / 2);
        j := j + 1;
      }
    } else {
      var yDelta := cell.yDelta - lib.yDelta;
      var j := 0;
      while j < numBlocks
        invariant j <= numBlocks
        invariant score == BlockSum(cell, lib, yDelta, w, j)
      {
        BlockSumStep(cell, lib, yDelta, w, j);
        var c, l := cell.pixels[j], lib.pixels[j];
        score := score + w.wy * Abs(c.y - l.y + yDelta)
                 + w.wc * ((Abs(c.u - l.u) + Abs(c.v - l.v)) / 2);
        j := j + 1;
      }
    }
  }
}
