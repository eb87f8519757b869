/**
  The mirrored variant of a library tile (flipTileVertically,
  src/mosaic.c:446-462).  The first `xBlocks * yBlocks` blocks form a grid of
  `yBlocks` rows of `xBlocks` blocks; in every row block `x` trades places
  with block `xBlocks - 1 - x`, and the tile identity is negated to mark the
  mirrored orientation.
 */
module Flip {
  import opened Tiles
  import Arith

  /** The block that trades places with block `m` of the grid. */
  function Mirror(m: nat, xBlocks: nat, yBlocks: nat): (r: nat)
    requires m < xBlocks * yBlocks
    ensures r < xBlocks * yBlocks
    ensures r / xBlocks == m / xBlocks
    ensures r % xBlocks == xBlocks - 1 - m % xBlocks
  {
    var row, col := m / xBlocks, m % xBlocks;
    assert row < yBlocks by {
      if row >= yBlocks { Arith.MulMono(yBlocks, row, xBlocks); }
    }
    Arith.MulMono(row + 1, yBlocks, xBlocks);
    Arith.RowCol(row, xBlocks, xBlocks - 1 - col);
    row * xBlocks + (xBlocks - 1 - col)
  }

  /** Mirroring a block twice gives the block back. */
  lemma MirrorMirror(m: nat, xBlocks: nat, yBlocks: nat)
    requires m < xBlocks * yBlocks
    ensures Mirror(Mirror(m, xBlocks, yBlocks), xBlocks, yBlocks) == m
  {
    var r := Mirror(m, xBlocks, yBlocks);
    var r2 := Mirror(r, xBlocks, yBlocks);
    assert r2 / xBlocks == m / xBlocks && r2 % xBlocks == m % xBlocks;
  }

  /** Block `x` of row `y` trades places with block `xBlocks - 1 - x` of row `y`. */
  lemma MirrorAt(y: nat, x: nat, xBlocks: nat, yBlocks: nat)
    requires y < yBlocks && x < xBlocks
    ensures y * xBlocks + x < xBlocks * yBlocks
    ensures Mirror(y * xBlocks + x, xBlocks, yBlocks) == y * xBlocks + (xBlocks - 1 - x)
  {
    Arith.MulMono(y + 1, yBlocks, xBlocks);
    Arith.RowCol(y, xBlocks, x);
    var r := Mirror(y * xBlocks + x, xBlocks, yBlocks);
    assert r == (r / xBlocks) * xBlocks + r % xBlocks;
  }

  /** The pixels of a tile with every grid row reversed. */
  function FlipPixels(px: seq<Pixel>, xBlocks: nat, yBlocks: nat): (r: seq<Pixel>)
    requires xBlocks * yBlocks <= |px|
    ensures |r| == |px|
  {
    seq(|px|, m requires 0 <= m < |px| =>
      if m < xBlocks * yBlocks then px[Mirror(m, xBlocks, yBlocks)] else px[m])
  }

  /** The mirrored variant of a tile, under the negated identity. */
  function Flip(t: Tile, xBlocks: nat, yBlocks: nat): (r: Tile)
    requires xBlocks * yBlocks <= BLOCKS
  {
    t.(pixels := FlipPixels(t.pixels, xBlocks, yBlocks), imageID := -t.imageID)
  }

  /**
    What the mirror does: in row `y`, block `x` shows what block
    `xBlocks - 1 - x` showed before; blocks past the grid and all other
    fields stay put, and the identity is negated.
   */
  lemma FlipSwapsColumns(t: Tile, xBlocks: nat, yBlocks: nat, y: nat, x: nat)
    requires xBlocks * yBlocks <= BLOCKS
    requires y < yBlocks && x < xBlocks
    ensures y * xBlocks + x < BLOCKS && y * xBlocks + (xBlocks - 1 - x) < BLOCKS
    ensures Flip(t, xBlocks, yBlocks).pixels[y * xBlocks + x] == t.pixels[y * xBlocks + (xBlocks - 1 - x)]
    ensures forall m :: xBlocks * yBlocks <= m < BLOCKS ==> Flip(t, xBlocks, yBlocks).pixels[m] == t.pixels[m]
    ensures Flip(t, xBlocks, yBlocks).imageID == -t.imageID
    ensures Flip(t, xBlocks, yBlocks).magic == t.magic && Flip(t, xBlocks, yBlocks).yDelta == t.yDelta
  {
    MirrorAt(y, x, xBlocks, yBlocks);
  }

  /** Mirroring twice restores every pixel and the original identity. */
  lemma FlipInvolution(t: Tile, xBlocks: nat, yBlocks: nat)
    requires xBlocks * yBlocks <= BLOCKS
    ensures Flip(Flip(t, xBlocks, yBlocks), xBlocks, yBlocks) == t
  {
    var f := Flip(Flip(t, xBlocks, yBlocks), xBlocks, yBlocks);
    forall m | 0 <= m < BLOCKS
      ensures f.pixels[m] == t.pixels[m]
    {
      if m < xBlocks * yBlocks {
        MirrorMirror(m, xBlocks, yBlocks);
      }
    }
  }

  /** With an odd number of columns the middle column never moves. */
  lemma FlipKeepsMiddleColumn(t: Tile, xBlocks: nat, yBlocks: nat, y: nat)
    requires xBlocks * yBlocks <= BLOCKS
    requires xBlocks % 2 == 1 && y < yBlocks
    ensures y * xBlocks + xBlocks / 2 < BLOCKS
    ensures Flip(t, xBlocks, yBlocks).pixels[y * xBlocks + xBlocks / 2] == t.pixels[y * xBlocks + xBlocks / 2]
  {
    MirrorAt(y, xBlocks / 2, xBlocks, yBlocks);
  }

  /**
    Progress of the swap loops on the pixels `orig`: every block before
    `yline + x`, and the last `x` blocks of the row starting at `yline`,
    already show their mirror image; every other block is untouched.
   */
  ghost predicate Swapped(px: seq<Pixel>, orig: seq<Pixel>, xBlocks: nat, yBlocks: nat, yline: nat, x: nat)
    requires |orig| == BLOCKS && xBlocks * yBlocks <= BLOCKS
  {
    && |px| == BLOCKS
    && forall m :: 0 <= m < BLOCKS ==>
         px[m] == (if m < xBlocks * yBlocks && (m < yline + x || yline + xBlocks - 1 - x < m < yline + xBlocks)
                   then orig[Mirror(m, xBlocks, yBlocks)] else orig[m])
  }

  /** One swap of the inner loop extends the mirrored part of the row. */
  lemma SwapStep(px: seq<Pixel>, orig: seq<Pixel>, xBlocks: nat, yBlocks: nat, y: nat, x: nat)
    requires |orig| == BLOCKS && xBlocks * yBlocks <= BLOCKS
    requires y < yBlocks && x < xBlocks / 2
    requires Swapped(px, orig, xBlocks, yBlocks, y * xBlocks, x)
    ensures y * xBlocks + xBlocks - 1 - x < BLOCKS
    ensures var a, b := y * xBlocks + x, y * xBlocks + xBlocks - 1 - x;
      Swapped(px[a := px[b]][b := px[a]], orig, xBlocks, yBlocks, y * xBlocks, x + 1)
  {
    MirrorAt(y, x, xBlocks, yBlocks);
    MirrorAt(y, xBlocks - 1 - x, xBlocks, yBlocks);
  }

  /** After the inner loop the whole row shows its mirror image. */
  lemma RowDone(px: seq<Pixel>, orig: seq<Pixel>, xBlocks: nat, yBlocks: nat, y: nat)
    requires |orig| == BLOCKS && xBlocks * yBlocks <= BLOCKS
    requires y < yBlocks
    requires Swapped(px, orig, xBlocks, yBlocks, y * xBlocks, xBlocks / 2)
    ensures Swapped(px, orig, xBlocks, yBlocks, (y + 1) * xBlocks, 0)
  {
    Arith.MulMono(y + 1, yBlocks, xBlocks);
    var yline := y * xBlocks;
    forall m | 0 <= m < BLOCKS
      ensures px[m] == (if m < xBlocks * yBlocks && m < yline + xBlocks
                        then orig[Mirror(m, xBlocks, yBlocks)] else orig[m])
    {
      if yline + xBlocks / 2 <= m <= yline + xBlocks - 1 - xBlocks / 2 {
        MirrorAt(y, m - yline, xBlocks, yBlocks);
      }
    }
  }

  /** Once every row is done the pixels are the mirrored pixels. */
  lemma AllRowsDone(px: seq<Pixel>, orig: seq<Pixel>, xBlocks: nat, yBlocks: nat)
    requires |orig| == BLOCKS && xBlocks * yBlocks <= BLOCKS
    requires Swapped(px, orig, xBlocks, yBlocks, yBlocks * xBlocks, 0)
    ensures px == FlipPixels(orig, xBlocks, yBlocks)
  {
  }

  /**
    The swap loops as written: for each row, swap the outer pairs of
    blocks moving inwards, then negate the identity.
   */
  method FlipTileVertically(lib: Tile, xBlocks: nat, yBlocks: nat) returns (r: Tile)
    requires xBlocks * yBlocks <= BLOCKS
    ensures r == Flip(lib, xBlocks, yBlocks)
  {
    var px := lib.pixels;
    var halfX := xBlocks / 2;
    var w := xBlocks - 1;
    var yline := 0;
    var y := 0;
    while y < yBlocks
      invariant y <= yBlocks
      invariant yline == y * xBlocks
      invariant Swapped(px, lib.pixels, xBlocks, yBlocks, yline, 0)
    {
      var x := 0;
      while x < halfX
        invariant x <= halfX
        invariant Swapped(px, lib.pixels, xBlocks, yBlocks, yline, x)
      {
        SwapStep(px, lib.pixels, xBlocks, yBlocks, y, x);
        var pixel := px[yline + x];
        px := px[yline + x := px[yline + w - x]];
        px := px[yline + w - x := pixel];
        x := x + 1;
      }
      RowDone(px, lib.pixels, xBlocks, yBlocks, y);
      assert yline + xBlocks == (y + 1) * xBlocks;
      yline := yline + xBlocks;
      y := y + 1;
    }
    AllRowsDone(px, lib.pixels, xBlocks, yBlocks);
    r := lib.(pixels := px, imageID := lib.imageID * -1);
  }
}
