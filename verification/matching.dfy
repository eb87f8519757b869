/**
  The matching phase of the mosaic engine: every library record is scored
  against every grid cell and offered to that cell's ranking row
  (processLibImg, src/mosaic.c:200-316), and the library stream is consumed
  record by record, optionally once more mirrored (src/mosaic.c:552-576).
 */
module Matching {
  import opened Tiles
  import opened Scoring
  import opened Ranking
  import Flip
  import Arith

  /**
    The run configuration: the block grid of a tile, the scorer weights,
    whether mirrored variants are tried too, and the reuse cap `dups`.
   */
  datatype Config = Config(xBlocks: nat, yBlocks: nat, w: Weights, vflip: bool, dups: int)

  /** Tiles hold BLOCKS blocks, and the reuse cap is at least one. */
  predicate ValidConfig(cfg: Config) {
    cfg.xBlocks * cfg.yBlocks <= BLOCKS && cfg.dups >= 1
  }

  function NumBlocks(cfg: Config): nat {
    cfg.xBlocks * cfg.yBlocks
  }

  /** The ranking matrix for `n` cells. */
  predicate Matrix(m: seq<seq<TileScore>>, n: nat) {
    |m| == n && Shaped(m)
  }

  /** The entry library tile `lib` would occupy in the row of `cell`: its score for the cell and its identity. */
  function Candidate(cell: Tile, lib: Tile, cfg: Config): TileScore
    requires ValidConfig(cfg)
  {
    TileScore(Score(cell, lib, NumBlocks(cfg), cfg.w), lib.imageID)
  }

  /** Library tile `lib` offered to cell `i`, against the cell's window. */
  function Offer(cells: seq<Tile>, m: seq<seq<TileScore>>, lib: Tile, cfg: Config, i: nat): (row: seq<TileScore>)
    requires ValidConfig(cfg) && Matrix(m, |cells|) && i < |cells|
    ensures |row| == i + 1
  {
    var c := Candidate(cells[i], lib, cfg);
    InsertCandidate(m[i], Window(i, cfg.dups), c.score, c.id)
  }

  /** One library tile offered to every cell. */
  function ProcessLib(cells: seq<Tile>, m: seq<seq<TileScore>>, lib: Tile, cfg: Config): (m': seq<seq<TileScore>>)
    requires ValidConfig(cfg) && Matrix(m, |cells|)
    ensures Matrix(m', |cells|)
  {
    seq(|cells|, i requires 0 <= i < |cells| => Offer(cells, m, lib, cfg, i))
  }

  /**
    Offering a library tile keeps the store invariant, and afterwards each
    cell's best slot scores no more than that tile does for the cell.
   */
  lemma ProcessLibKeepsInv(cells: seq<Tile>, m: seq<seq<TileScore>>, lib: Tile, cfg: Config)
    requires ValidConfig(cfg) && Matrix(m, |cells|) && StoreInv(m, cfg.dups)
    ensures StoreInv(ProcessLib(cells, m, lib, cfg), cfg.dups)
    ensures forall i :: 0 <= i < |cells| ==>
      ProcessLib(cells, m, lib, cfg)[i][0].score <= Score(cells[i], lib, NumBlocks(cfg), cfg.w)
    ensures forall i :: 0 <= i < |cells| ==>
      ProcessLib(cells, m, lib, cfg)[i][0].score <= m[i][0].score
  {
    var m' := ProcessLib(cells, m, lib, cfg);
    forall i | 0 <= i < |cells|
      ensures RowInv(m'[i], Window(i, cfg.dups))
      ensures m'[i][0].score <= Score(cells[i], lib, NumBlocks(cfg), cfg.w)
      ensures m'[i][0].score <= m[i][0].score
    {
      InsertKeepsRowInv(m[i], Window(i, cfg.dups), Score(cells[i], lib, NumBlocks(cfg), cfg.w), lib.imageID);
    }
  }

  /**
    The cell loop as written: a countdown `dupCount` advances the window
    boundary `k` once every `dups` cells, starting from 0 for every
    library tile, so that cell `i` is offered with boundary `i / dups`.
   */
  method ProcessLibImg(lib: Tile, cells: seq<Tile>, m: seq<seq<TileScore>>, cfg: Config)
    returns (m': seq<seq<TileScore>>)
    requires ValidConfig(cfg) && Matrix(m, |cells|)
    ensures m' == ProcessLib(cells, m, lib, cfg)
  {
    var dups := cfg.dups;
    var dupCount := dups;
    m' := m;
    var k := 0;
    var i := 0;
    while i < |cells|
      invariant i <= |cells|
      invariant k == i / dups && dupCount == dups - i % dups
      invariant |m'| == |cells|
      invariant forall c :: 0 <= c < i ==> m'[c] == Offer(cells, m, lib, cfg, c)
      invariant forall c :: i <= c < |cells| ==> m'[c] == m[c]
    {
      Arith.DivModStep(i, dups);
      Arith.DivAtMost(i, dups);
      var score := ScoreCell(cells[i], lib, NumBlocks(cfg), cfg.w);
      m' := m'[i := InsertCandidate(m'[i], k, score, lib.imageID)];
      dupCount := dupCount - 1;
      if dupCount == 0 {
        dupCount := dups;
        k := k + 1;
      }
      i := i + 1;
    }
  }

  /** One library record: the tile itself, then its mirrored variant if enabled. */
  function Step(cells: seq<Tile>, m: seq<seq<TileScore>>, lib: Tile, cfg: Config): (m': seq<seq<TileScore>>)
    requires ValidConfig(cfg) && Matrix(m, |cells|)
    ensures Matrix(m', |cells|)
  {
    var m1 := ProcessLib(cells, m, lib, cfg);
    if cfg.vflip then ProcessLib(cells, m1, Flip.Flip(lib, cfg.xBlocks, cfg.yBlocks), cfg) else m1
  }

  /** The record loop from record `j` on: a bad tag stops the run. */
  function RunFrom(cells: seq<Tile>, m: seq<seq<TileScore>>, libs: seq<Tile>, j: nat, cfg: Config)
    : (r: Result<seq<seq<TileScore>>>)
    requires ValidConfig(cfg) && Matrix(m, |cells|) && j <= |libs|
    ensures r.Ok? ==> Matrix(r.value, |cells|)
    decreases |libs| - j
  {
    if j == |libs| then Ok(m)
    else if !ValidMagic(libs[j]) then Fail(BadMagic(j))
    else RunFrom(cells, Step(cells, m, libs[j], cfg), libs, j + 1, cfg)
  }

  /**
    The matching phase over the library stream `libs`: an empty database
    is refused, otherwise the ranking matrix starts all Unset and each
    record is folded in, in stream order.
   */
  function Run(cells: seq<Tile>, libs: seq<Tile>, cfg: Config): (r: Result<seq<seq<TileScore>>>)
    requires ValidConfig(cfg)
    ensures r.Ok? ==> Matrix(r.value, |cells|)
  {
    if |libs| == 0 then Fail(EmptyDatabase)
    else RunFrom(cells, InitScores(|cells|), libs, 0, cfg)
  }

  /** A record is bad exactly when its tag is not TILE_MAGIC. */
  predicate AllValid(libs: seq<Tile>, from: nat, to: nat)
    requires from <= to <= |libs|
  {
    forall j :: from <= j < to ==> ValidMagic(libs[j])
  }

  /** The loop fails exactly at the first bad record from `j` on. */
  lemma {:induction false} RunFromFailure(cells: seq<Tile>, m: seq<seq<TileScore>>, libs: seq<Tile>, j: nat, cfg: Config)
    requires ValidConfig(cfg) && Matrix(m, |cells|) && j <= |libs|
    ensures var r := RunFrom(cells, m, libs, j, cfg);
      && (r.Ok? <==> AllValid(libs, j, |libs|))
      && (r.Fail? ==> r.error.BadMagic? && j <= r.error.record < |libs|
                      && !ValidMagic(libs[r.error.record])
                      && AllValid(libs, j, r.error.record))
    decreases |libs| - j
  {
    if j < |libs| && ValidMagic(libs[j]) {
      RunFromFailure(cells, Step(cells, m, libs[j], cfg), libs, j + 1, cfg);
    }
  }

  /**
    The run fails on an empty database or on a bad record, and then on the
    first bad record; it succeeds exactly when the database is non-empty
    and every record carries TILE_MAGIC.
   */
  lemma RunFailure(cells: seq<Tile>, libs: seq<Tile>, cfg: Config)
    requires ValidConfig(cfg)
    ensures var r := Run(cells, libs, cfg);
      && (r.Ok? <==> |libs| > 0 && AllValid(libs, 0, |libs|))
      && (r == Fail(EmptyDatabase) <==> |libs| == 0)
      && (r.Fail? && r.error.BadMagic? ==>
            r.error.record < |libs| && !ValidMagic(libs[r.error.record])
            && AllValid(libs, 0, r.error.record))
  {
    if |libs| > 0 {
      RunFromFailure(cells, InitScores(|cells|), libs, 0, cfg);
    }
  }

  /** The candidates cell `i` is offered for one record. */
  predicate BeatsRecord(m: seq<seq<TileScore>>, cells: seq<Tile>, lib: Tile, cfg: Config, i: nat)
    requires ValidConfig(cfg) && Matrix(m, |cells|) && i < |cells|
  {
    && m[i][0].score <= Score(cells[i], lib, NumBlocks(cfg), cfg.w)
    && (cfg.vflip ==> m[i][0].score <= Score(cells[i], Flip.Flip(lib, cfg.xBlocks, cfg.yBlocks), NumBlocks(cfg), cfg.w))
  }

  /** One record step keeps the invariant and the best-slot bound. */
  lemma StepKeepsInv(cells: seq<Tile>, m: seq<seq<TileScore>>, lib: Tile, cfg: Config)
    requires ValidConfig(cfg) && Matrix(m, |cells|) && StoreInv(m, cfg.dups)
    ensures StoreInv(Step(cells, m, lib, cfg), cfg.dups)
    ensures forall i :: 0 <= i < |cells| ==> BeatsRecord(Step(cells, m, lib, cfg), cells, lib, cfg, i)
    ensures forall i :: 0 <= i < |cells| ==> Step(cells, m, lib, cfg)[i][0].score <= m[i][0].score
  {
    ProcessLibKeepsInv(cells, m, lib, cfg);
    if cfg.vflip {
      ProcessLibKeepsInv(cells, ProcessLib(cells, m, lib, cfg), Flip.Flip(lib, cfg.xBlocks, cfg.yBlocks), cfg);
    }
  }

  /** A record beaten by a best slot stays beaten once that slot improves. */
  lemma BeatsRecordLater(m: seq<seq<TileScore>>, m': seq<seq<TileScore>>, cells: seq<Tile>, lib: Tile, cfg: Config, i: nat)
    requires ValidConfig(cfg) && Matrix(m, |cells|) && Matrix(m', |cells|) && i < |cells|
    requires BeatsRecord(m, cells, lib, cfg, i) && m'[i][0].score <= m[i][0].score
    ensures BeatsRecord(m', cells, lib, cfg, i)
  {
  }

  /** The loop keeps the store invariant, and best slots only improve. */
  lemma {:induction false} RunFromKeepsInv(cells: seq<Tile>, m: seq<seq<TileScore>>, libs: seq<Tile>, j: nat, cfg: Config)
    requires ValidConfig(cfg) && Matrix(m, |cells|) && j <= |libs| && StoreInv(m, cfg.dups)
    ensures var r := RunFrom(cells, m, libs, j, cfg);
      r.Ok? ==>
        && StoreInv(r.value, cfg.dups)
        && (forall i :: 0 <= i < |cells| ==> r.value[i][0].score <= m[i][0].score)
    decreases |libs| - j
  {
    if j < |libs| && ValidMagic(libs[j]) {
      var m1 := Step(cells, m, libs[j], cfg);
      StepKeepsInv(cells, m, libs[j], cfg);
      RunFromKeepsInv(cells, m1, libs, j + 1, cfg);
    }
  }

  /** Every record from `j` on is beaten by the final best slots. */
  lemma {:induction false} RunFromBeats(cells: seq<Tile>, m: seq<seq<TileScore>>, libs: seq<Tile>, j: nat, cfg: Config)
    requires ValidConfig(cfg) && Matrix(m, |cells|) && j <= |libs| && StoreInv(m, cfg.dups)
    ensures var r := RunFrom(cells, m, libs, j, cfg);
      r.Ok? ==>
        forall i, l :: 0 <= i < |cells| && j <= l < |libs| ==> BeatsRecord(r.value, cells, libs[l], cfg, i)
    decreases |libs| - j
  {
    if j < |libs| && ValidMagic(libs[j]) {
      var m1 := Step(cells, m, libs[j], cfg);
      StepKeepsInv(cells, m, libs[j], cfg);
      RunFromBeats(cells, m1, libs, j + 1, cfg);
      RunFromKeepsInv(cells, m1, libs, j + 1, cfg);
      var r := RunFrom(cells, m1, libs, j + 1, cfg);
      if r.Ok? {
        forall i, l | 0 <= i < |cells| && j <= l < |libs|
          ensures BeatsRecord(r.value, cells, libs[l], cfg, i)
        {
          if l == j {
            BeatsRecordLater(m1, r.value, cells, libs[j], cfg, i);
          }
        }
      }
    }
  }

  /**
    After a successful run every row is sorted with only its window
    written, and every cell's best slot scores no more than any library
    tile (or, with mirroring, any mirrored tile) scores for that cell.
   */
  lemma RunKeepsInv(cells: seq<Tile>, libs: seq<Tile>, cfg: Config)
    requires ValidConfig(cfg)
    ensures var r := Run(cells, libs, cfg);
      r.Ok? ==>
        && StoreInv(r.value, cfg.dups)
        && (forall i, l :: 0 <= i < |cells| && 0 <= l < |libs| ==> BeatsRecord(r.value, cells, libs[l], cfg, i))
  {
    if |libs| > 0 {
      InitStoreInv(|cells|, cfg.dups);
      RunFromKeepsInv(cells, InitScores(|cells|), libs, 0, cfg);
      RunFromBeats(cells, InitScores(|cells|), libs, 0, cfg);
    }
  }

  /**
    The entries a library stream can place in the row of `cell`: each
    record's candidate and, with mirroring on, each mirrored record's.
   */
  function Candidates(cell: Tile, libs: seq<Tile>, cfg: Config): (cands: set<TileScore>)
    requires ValidConfig(cfg)
    ensures forall e :: e in cands <==>
      exists l :: 0 <= l < |libs| &&
        (e == Candidate(cell, libs[l], cfg) || (cfg.vflip && e == Candidate(cell, Flip.Flip(libs[l], cfg.xBlocks, cfg.yBlocks), cfg)))
  {
    (set l | 0 <= l < |libs| :: Candidate(cell, libs[l], cfg))
    + (if cfg.vflip then set l | 0 <= l < |libs| :: Candidate(cell, Flip.Flip(libs[l], cfg.xBlocks, cfg.yBlocks), cfg) else {})
  }

  /**
    The identities a library stream can place: each record's and, only
    with mirroring on, each record's negated identity.
   */
  function Origins(libs: seq<Tile>, cfg: Config): (ids: set<int>)
    ensures forall id :: id in ids <==>
      exists l :: 0 <= l < |libs| && (id == libs[l].imageID || (cfg.vflip && id == -libs[l].imageID))
  {
    (set l | 0 <= l < |libs| :: libs[l].imageID)
    + (if cfg.vflip then set l | 0 <= l < |libs| :: -libs[l].imageID else {})
  }

  /** A candidate of any cell carries one of the stream's identities. */
  lemma CandidateOrigin(cell: Tile, libs: seq<Tile>, cfg: Config)
    requires ValidConfig(cfg)
    ensures forall e :: e in Candidates(cell, libs, cfg) ==> e.id in Origins(libs, cfg)
  {
    forall e | e in Candidates(cell, libs, cfg)
      ensures e.id in Origins(libs, cfg)
    {
      var l :| 0 <= l < |libs| &&
        (e == Candidate(cell, libs[l], cfg) || (cfg.vflip && e == Candidate(cell, Flip.Flip(libs[l], cfg.xBlocks, cfg.yBlocks), cfg)));
      assert e.id == libs[l].imageID || (cfg.vflip && e.id == -libs[l].imageID);
    }
  }

  /** Every written slot of row `i` holds one of cell `i`'s candidates. */
  predicate StoreFrom(m: seq<seq<TileScore>>, cells: seq<Tile>, libs: seq<Tile>, cfg: Config)
    requires ValidConfig(cfg) && |m| == |cells|
  {
    forall i :: 0 <= i < |m| ==> RowFrom(m[i], Candidates(cells[i], libs, cfg))
  }

  /** Offering a tile that is a candidate of every cell keeps the store drawn from the candidates. */
  lemma ProcessLibKeepsFrom(cells: seq<Tile>, m: seq<seq<TileScore>>, lib: Tile, libs: seq<Tile>, cfg: Config)
    requires ValidConfig(cfg) && Matrix(m, |cells|) && StoreInv(m, cfg.dups)
    requires StoreFrom(m, cells, libs, cfg)
    requires forall i :: 0 <= i < |cells| ==> Candidate(cells[i], lib, cfg) in Candidates(cells[i], libs, cfg)
    ensures StoreFrom(ProcessLib(cells, m, lib, cfg), cells, libs, cfg)
  {
    forall i | 0 <= i < |cells|
      ensures RowFrom(ProcessLib(cells, m, lib, cfg)[i], Candidates(cells[i], libs, cfg))
    {
      var c := Candidate(cells[i], lib, cfg);
      InsertKeepsRowFrom(m[i], Window(i, cfg.dups), c.score, c.id, Candidates(cells[i], libs, cfg));
    }
  }

  /** A step on record `l` places only that record's candidates and, with mirroring, its mirror's. */
  lemma StepKeepsFrom(cells: seq<Tile>, m: seq<seq<TileScore>>, libs: seq<Tile>, l: nat, cfg: Config)
    requires ValidConfig(cfg) && Matrix(m, |cells|) && StoreInv(m, cfg.dups) && l < |libs|
    requires StoreFrom(m, cells, libs, cfg)
    ensures StoreFrom(Step(cells, m, libs[l], cfg), cells, libs, cfg)
  {
    ProcessLibKeepsFrom(cells, m, libs[l], libs, cfg);
    if cfg.vflip {
      ProcessLibKeepsInv(cells, m, libs[l], cfg);
      ProcessLibKeepsFrom(cells, ProcessLib(cells, m, libs[l], cfg), Flip.Flip(libs[l], cfg.xBlocks, cfg.yBlocks), libs, cfg);
    }
  }

  /** The loop from record `j` on places only candidates of the stream's records. */
  lemma {:induction false} RunFromKeepsFrom(cells: seq<Tile>, m: seq<seq<TileScore>>, libs: seq<Tile>, j: nat, cfg: Config)
    requires ValidConfig(cfg) && Matrix(m, |cells|) && j <= |libs| && StoreInv(m, cfg.dups)
    requires StoreFrom(m, cells, libs, cfg)
    ensures var r := RunFrom(cells, m, libs, j, cfg);
      r.Ok? ==> StoreFrom(r.value, cells, libs, cfg)
    decreases |libs| - j
  {
    if j < |libs| && ValidMagic(libs[j]) {
      StepKeepsFrom(cells, m, libs, j, cfg);
      StepKeepsInv(cells, m, libs[j], cfg);
      RunFromKeepsFrom(cells, Step(cells, m, libs[j], cfg), libs, j + 1, cfg);
    }
  }

  /**
    After a successful run no slot scores above INT_MAX, and every written
    slot of a cell's row is a whole candidate of that cell: a library
    record's score for the cell beside that record's identity, or, with
    mirroring on, the mirrored record's score beside the negated identity.
   */
  lemma RunOrigins(cells: seq<Tile>, libs: seq<Tile>, cfg: Config)
    requires ValidConfig(cfg)
    ensures var r := Run(cells, libs, cfg);
      r.Ok? ==> StoreFrom(r.value, cells, libs, cfg)
  {
    if |libs| > 0 {
      InitStoreInv(|cells|, cfg.dups);
      RunFromKeepsFrom(cells, InitScores(|cells|), libs, 0, cfg);
    }
  }
}
