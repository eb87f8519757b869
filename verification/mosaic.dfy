/**
  The mosaic program end to end (src/mosaic.c:473-596): the ranking matrix
  is built from the library stream, then one line is printed per grid cell.
 */
module Mosaic {
  import opened Tiles
  import opened Ranking
  import opened Matching
  import opened Resolver
  import opened Scoring
  import Flip

  /** The program as written: a failed run prints nothing. */
  function Compute(cells: seq<Tile>, libs: seq<Tile>, cfg: Config): (r: Result<seq<OutRow>>)
    requires ValidConfig(cfg)
    ensures r.Ok? ==> |r.value| == |cells|
  {
    var run := Run(cells, libs, cfg);
    if run.Fail? then Fail(run.error) else Ok(Output(cells, run.value, cfg.dups))
  }

  /** The program with the corrected resolution. */
  function ComputeChecked(cells: seq<Tile>, libs: seq<Tile>, cfg: Config): (r: Result<seq<OutRow>>)
    requires ValidConfig(cfg)
  {
    var run := Run(cells, libs, cfg);
    if run.Fail? then Fail(run.error) else CheckedOutput(cells, run.value, cfg.dups)
  }

  /**
    When the cap equals the number of cells, every cell prints its best
    slot.  That slot scores no more than any library record, or its mirror,
    scores for the cell, and when written it is a whole candidate of the
    cell: a record's identity beside that record's score for the cell, or,
    with mirroring on, the negated identity beside the mirrored record's
    score.  So the printed tile is at least as good as every record.
   */
  lemma FastPathPrintsBest(cells: seq<Tile>, libs: seq<Tile>, cfg: Config)
    requires ValidConfig(cfg) && |cells| == cfg.dups
    ensures var r := Compute(cells, libs, cfg);
      r.Ok? ==>
        var m := Run(cells, libs, cfg).value;
        forall i :: 0 <= i < |cells| ==>
          && r.value[i].id == m[i][0].id
          && (forall l :: 0 <= l < |libs| ==> BeatsRecord(m, cells, libs[l], cfg, i))
          && (m[i][0].score < INT_MAX ==>
                exists l :: 0 <= l < |libs| &&
                  (|| m[i][0] == Candidate(cells[i], libs[l], cfg)
                   || (cfg.vflip && m[i][0] == Candidate(cells[i], Flip.Flip(libs[l], cfg.xBlocks, cfg.yBlocks), cfg))))
  {
    RunKeepsInv(cells, libs, cfg);
    RunOrigins(cells, libs, cfg);
    var run := Run(cells, libs, cfg);
    if run.Ok? {
      var m: seq<seq<TileScore>> := run.value;
      forall i | 0 <= i < |cells| && m[i][0].score < INT_MAX
        ensures m[i][0] in Candidates(cells[i], libs, cfg)
      {
        assert RowFrom(m[i], Candidates(cells[i], libs, cfg));
      }
    }
  }

  /**
    The corrected program fails on an empty or badly tagged database like
    the original; when it succeeds it prints what the original prints,
    every printed identity is a library record's, or with mirroring on its
    negation, when the cap is below the number of cells, and no key is
    printed more than `dups` times.
   */
  lemma ComputeCheckedSound(cells: seq<Tile>, libs: seq<Tile>, cfg: Config, key: int)
    requires ValidConfig(cfg)
    ensures var r := ComputeChecked(cells, libs, cfg);
      && (Run(cells, libs, cfg).Fail? ==> r == Fail(Run(cells, libs, cfg).error))
      && (r.Ok? ==>
            && r == Compute(cells, libs, cfg)
            && Printed(r.value, key) <= cfg.dups
            && (|cells| != cfg.dups ==> forall i :: 0 <= i < |cells| ==> r.value[i].id in Origins(libs, cfg)))
  {
    var run := Run(cells, libs, cfg);
    if run.Ok? {
      var m := run.value;
      RunKeepsInv(cells, libs, cfg);
      RunOrigins(cells, libs, cfg);
      assert RowsSorted(m) by {
        forall i | 0 <= i < |m| ensures Sorted(m[i]) {
          assert RowInv(m[i], Window(i, cfg.dups));
        }
      }
      CheckedOutputSound(cells, m, cfg.dups, key);
      var n := |cells|;
      if n != cfg.dups && ComputeChecked(cells, libs, cfg).Ok? {
        CheckedSound(m, cfg.dups, n);
        var out := ComputeChecked(cells, libs, cfg).value;
        forall i | 0 <= i < n
          ensures out[i].id in Origins(libs, cfg)
        {
          assert CommitsWritten(m, ResolveChecked(m, cfg.dups, n).value.choices[i], i);
          var p :| 0 <= p <= i && m[i][p].score < INT_MAX && out[i].id == m[i][p].id;
          assert RowFrom(m[i], Candidates(cells[i], libs, cfg));
          CandidateOrigin(cells[i], libs, cfg);
        }
      }
    }
  }

  // ---------------------------------------------------------------------
  // The two resolver findings, from the library stream to the printed lines.

  /** Two cells numbered 1 and 2, both all zero. */
  const TwoCells: seq<Tile> := [ZeroTile.(imageID := 1), ZeroTile.(imageID := 2)]

  /** A single validly tagged library tile with identity 1. */
  const OneTile: Tile := ZeroTile.(magic := TILE_MAGIC, imageID := 1)

  /** An empty block grid (every score is 0), cap 1, optionally mirroring. */
  function TinyConfig(vflip: bool): (cfg: Config)
    ensures ValidConfig(cfg)
  {
    Config(0, 0, Weights(1, 1, 0, true), vflip, 1)
  }

  /** The first pass of the one-tile stream: tile 1 scores 0 and enters both rows. */
  lemma TinyFirstPass(vflip: bool)
    ensures ProcessLib(TwoCells, InitScores(2), OneTile, TinyConfig(vflip))
         == [[TileScore(0, 1)], [TileScore(0, 1), Unset]]
  {
    var cfg := TinyConfig(vflip);
    var a := TileScore(0, 1);
    var m0 := InitScores(2);
    assert |m0[0]| == 1 && |m0[1]| == 2;
    assert m0[0][0] == Unset && m0[1][0] == Unset && m0[1][1] == Unset;
    assert m0[0] == [Unset] && m0[1] == [Unset, Unset];
    assert Candidate(TwoCells[0], OneTile, cfg) == a;
    assert Candidate(TwoCells[1], OneTile, cfg) == a;
    assert Window(0, 1) == 0 && Window(1, 1) == 1;
    assert Offer(TwoCells, m0, OneTile, cfg, 0) == [a];
    assert Shift([Unset, Unset], 1, a) == [a, Unset];
    assert Offer(TwoCells, m0, OneTile, cfg, 1) == [a, Unset];
    var m' := ProcessLib(TwoCells, m0, OneTile, cfg);
    assert m'[0] == [a] && m'[1] == [a, Unset];
  }

  /** The mirrored pass: the mirror -1 also scores 0, loses cell 0 and fills cell 1's last slot. */
  lemma TinyMirrorPass()
    ensures ProcessLib(TwoCells, [[TileScore(0, 1)], [TileScore(0, 1), Unset]], Flip.Flip(OneTile, 0, 0), TinyConfig(true))
         == [[TileScore(0, 1)], [TileScore(0, 1), TileScore(0, -1)]]
  {
    var cfg := TinyConfig(true);
    var a, b := TileScore(0, 1), TileScore(0, -1);
    var m1 := [[a], [a, Unset]];
    var mirror := Flip.Flip(OneTile, 0, 0);
    assert Candidate(TwoCells[0], mirror, cfg) == b;
    assert Candidate(TwoCells[1], mirror, cfg) == b;
    assert Window(0, 1) == 0 && Window(1, 1) == 1;
    assert Offer(TwoCells, m1, mirror, cfg, 0) == [a];
    assert Shift(m1[1], 1, b) == [a, b];
    assert Offer(TwoCells, m1, mirror, cfg, 1) == [a, b];
    var m' := ProcessLib(TwoCells, m1, mirror, cfg);
    assert m'[0] == [a] && m'[1] == [a, b];
  }

  /** The whole matching phase of the one-tile stream, with and without mirroring. */
  lemma TinyRun(vflip: bool)
    ensures Run(TwoCells, [OneTile], TinyConfig(vflip))
         == Ok(if vflip then [[TileScore(0, 1)], [TileScore(0, 1), TileScore(0, -1)]]
               else [[TileScore(0, 1)], [TileScore(0, 1), Unset]])
  {
    var cfg := TinyConfig(vflip);
    TinyFirstPass(vflip);
    if vflip {
      TinyMirrorPass();
    }
    var m := Step(TwoCells, InitScores(2), OneTile, cfg);
    assert RunFrom(TwoCells, m, [OneTile], 1, cfg) == Ok(m);
  }

  /**
    The first finding end to end: with one library tile, two cells and cap
    1, the program as written prints cell 2 with the never-written
    placeholder identity 0; the corrected program reports cell 1 (counting
    from 0) as exhausted.
   */
  lemma PlaceholderPrinted()
    ensures Compute(TwoCells, [OneTile], TinyConfig(false)) == Ok([OutRow(1, 0, 1), OutRow(2, 0, 0)])
    ensures ComputeChecked(TwoCells, [OneTile], TinyConfig(false)) == Fail(ResolutionExhausted(1))
  {
    var a := TileScore(0, 1);
    var m := [[a], [a, Unset]];
    TinyRun(false);
    PlaceholderCommitted(0);
    var out := Output(TwoCells, m, 1);
    assert out[0] == OutRow(1, 0, 1) && out[1] == OutRow(2, 0, 0);
    assert out == [OutRow(1, 0, 1), OutRow(2, 0, 0)];
  }

  /**
    The second finding end to end: with mirroring on, one library tile,
    two cells and cap 1, the tile and its mirror fill cell 2's row and the
    program as written prints key 1 on both lines; the corrected program
    reports cell 1 (counting from 0) as exhausted.
   */
  lemma ExhaustedPrinted()
    ensures Compute(TwoCells, [OneTile], TinyConfig(true)) == Ok([OutRow(1, 0, 1), OutRow(2, 0, -1)])
    ensures Printed([OutRow(1, 0, 1), OutRow(2, 0, -1)], 1) == 2
    ensures ComputeChecked(TwoCells, [OneTile], TinyConfig(true)) == Fail(ResolutionExhausted(1))
  {
    var a, b := TileScore(0, 1), TileScore(0, -1);
    var m := [[a], [a, b]];
    TinyRun(true);
    ExhaustedExceedsCap(0, 0);
    var out := Output(TwoCells, m, 1);
    assert out[0] == OutRow(1, 0, 1) && out[1] == OutRow(2, 0, -1);
    assert out == [OutRow(1, 0, 1), OutRow(2, 0, -1)];
    assert out[..1] == [OutRow(1, 0, 1)];
    assert out[..1][..0] == [];
  }
}
