/**
  The duplicate filter of the tile-database tool (src/filterdb.c): it copies
  a tile database record by record and drops every record that lies within
  a score threshold of one of the previous `lastnum` records.  The previous
  records are kept in a ring buffer that starts out zeroed.
 */
module FilterDb {
  import opened Tiles
  import Scoring
  import Arith

  /** Exclusive upper bound on the look-back length. */
  const LASTNUM_MAX: int := 1000

  /** The largest distance of one block: luma 255 + 65535 offset, chroma 255. */
  const MAX_BLOCK_DISTANCE: nat := 66045

  // ---------------------------------------------------------------------
  // The distance of the filter.

  /**
    The distance of one block of a past record `p` from the same block of
    the current record `t`: luma corrected by `yd`, plus the floor-halved
    chroma distance.  No edge term.
   */
  function BlockDistance(p: Pixel, t: Pixel, yd: int): (r: nat)
    ensures -65535 <= yd <= 65535 ==> r <= MAX_BLOCK_DISTANCE
  {
    Abs(p.y - t.y + yd) + (Abs(p.u - t.u) + Abs(p.v - t.v)) / 2
  }

  /** Block distances of the first `n` blocks, accumulated in block order. */
  function DistanceSum(past: Tile, tile: Tile, yd: int, n: nat): (r: nat)
    requires n <= BLOCKS
    ensures -65535 <= yd <= 65535 ==> r <= n * MAX_BLOCK_DISTANCE
  {
    if n == 0 then 0
    else DistanceSum(past, tile, yd, n - 1) + BlockDistance(past.pixels[n - 1], tile.pixels[n - 1], yd)
  }

  /**
    How far the current record `tile` is from the past record `past`: the
    luma offset is the past record's brightness offset minus the current
    one's.  The distance never reaches INT_MAX, so it cannot be confused
    with the "no past record" value.
   */
  function TileDistance(past: Tile, tile: Tile): (r: nat)
    ensures r <= BLOCKS * MAX_BLOCK_DISTANCE < INT_MAX
  {
    DistanceSum(past, tile, past.yDelta - tile.yDelta, BLOCKS)
  }

  /** The block sums of the two programs agree under weights (1, 1, 0). */
  lemma {:induction false} DistanceSumIsBlockSum(past: Tile, tile: Tile, yd: int, n: nat)
    requires n <= BLOCKS
    ensures DistanceSum(past, tile, yd, n) == Scoring.BlockSum(past, tile, yd, Scoring.Weights(1, 1, 0, false), n)
  {
    if n > 0 {
      DistanceSumIsBlockSum(past, tile, yd, n - 1);
    }
  }

  /**
    The filter's distance is the mosaic score with luma weight 1, chroma
    weight 1, no edge weight and corrected luma, the past record taking
    the place of the grid cell.
   */
  lemma DistanceIsMosaicScore(past: Tile, tile: Tile)
    ensures TileDistance(past, tile) == Scoring.Score(past, tile, BLOCKS, Scoring.Weights(1, 1, 0, false))
  {
    DistanceSumIsBlockSum(past, tile, past.yDelta - tile.yDelta, BLOCKS);
  }

  /** The distance does not depend on which record is the past one. */
  lemma {:induction false} DistanceSumSymmetric(a: Tile, b: Tile, n: nat)
    requires n <= BLOCKS
    ensures DistanceSum(a, b, a.yDelta - b.yDelta, n) == DistanceSum(b, a, b.yDelta - a.yDelta, n)
  {
    if n > 0 {
      DistanceSumSymmetric(a, b, n - 1);
    }
  }

  lemma DistanceSymmetric(a: Tile, b: Tile)
    ensures TileDistance(a, b) == TileDistance(b, a)
  {
    DistanceSumSymmetric(a, b, BLOCKS);
  }

  /** A record is at distance 0 from itself. */
  lemma {:induction false} DistanceSumSelf(t: Tile, n: nat)
    requires n <= BLOCKS
    ensures DistanceSum(t, t, 0, n) == 0
  {
    if n > 0 {
      DistanceSumSelf(t, n - 1);
    }
  }

  lemma DistanceSelf(t: Tile)
    ensures TileDistance(t, t) == 0
  {
    DistanceSumSelf(t, BLOCKS);
  }

  // ---------------------------------------------------------------------
  // The minimum over the past records.

  /**
    The smallest distance of `tile` from the validly tagged records among
    the first `n` of `past`, scanned in order; INT_MAX when there is none.
   */
  function MinTileScore(tile: Tile, past: seq<Tile>, n: nat): (r: int)
    requires n <= |past|
    ensures 0 <= r <= INT_MAX
    ensures r == INT_MAX <==> forall j :: 0 <= j < n ==> !ValidMagic(past[j])
    ensures forall j :: 0 <= j < n && ValidMagic(past[j]) ==> r <= TileDistance(past[j], tile)
    ensures r < INT_MAX ==> exists j :: 0 <= j < n && ValidMagic(past[j]) && r == TileDistance(past[j], tile)
  {
    if n == 0 then INT_MAX
    else
      var best := MinTileScore(tile, past, n - 1);
      if !ValidMagic(past[n - 1]) then best
      else
        var s := TileDistance(past[n - 1], tile);
        if s < best then s else best
  }

  // ---------------------------------------------------------------------
  // The ring of past records.

  /** The past records and the slot the next record is written to. */
  datatype Ring = Ring(slots: seq<Tile>, pos: nat)

  /** The ring as allocated: `lastnum` zeroed records, writing at slot 0. */
  function EmptyRing(lastnum: nat): (r: Ring)
    requires lastnum >= 1
    ensures |r.slots| == lastnum && r.pos < lastnum
    ensures forall s :: 0 <= s < lastnum ==> !ValidMagic(r.slots[s])
  {
    Ring(seq(lastnum, _ => ZeroTile), 0)
  }

  /** Store `tile` at the write position and advance it, wrapping to 0. */
  function Push(ring: Ring, tile: Tile): (r: Ring)
    requires ring.pos < |ring.slots|
    ensures |r.slots| == |ring.slots| && r.pos < |r.slots|
  {
    var pos := ring.pos + 1;
    Ring(ring.slots[ring.pos := tile], if pos >= |ring.slots| then 0 else pos)
  }

  /** The ring after the first `n` records have been pushed. */
  function Pushes(tiles: seq<Tile>, n: nat, lastnum: nat): (r: Ring)
    requires n <= |tiles| && lastnum >= 1
    ensures |r.slots| == lastnum && r.pos < lastnum
  {
    if n == 0 then EmptyRing(lastnum) else Push(Pushes(tiles, n - 1, lastnum), tiles[n - 1])
  }

  /**
    After `n` pushes the write position is `n` modulo `lastnum`, record `j`
    of the last `lastnum` sits in slot `j` modulo `lastnum`, and the slots
    not yet reached are still zeroed.
   */
  lemma {:induction false} RingHoldsRecent(tiles: seq<Tile>, n: nat, lastnum: nat)
    requires n <= |tiles| && lastnum >= 1
    ensures Pushes(tiles, n, lastnum).pos == n % lastnum
    ensures forall j :: 0 <= j < n && n - lastnum <= j ==> Pushes(tiles, n, lastnum).slots[j % lastnum] == tiles[j]
    ensures forall s :: n <= s < lastnum ==> Pushes(tiles, n, lastnum).slots[s] == ZeroTile
  {
    if n > 0 {
      var m := n - 1;
      RingHoldsRecent(tiles, m, lastnum);
      var ring := Pushes(tiles, m, lastnum);
      var ring' := Pushes(tiles, n, lastnum);
      assert ring' == Push(ring, tiles[m]);
      Arith.ModStep(m, lastnum);
      forall j | 0 <= j < n && n - lastnum <= j
        ensures ring'.slots[j % lastnum] == tiles[j]
      {
        if j < m {
          Arith.ModDistinct(j, m, lastnum);
        }
      }
      if m < lastnum {
        Arith.DivModUnique(m, lastnum, 0, m);
      }
    }
  }

  /** Every slot below `min(n, lastnum)` belongs to one of the last `lastnum` records. */
  lemma SlotOwner(n: nat, lastnum: nat, s: nat) returns (j: nat)
    requires lastnum >= 1 && s < lastnum && s < n
    ensures j < n && n - lastnum <= j && j % lastnum == s
  {
    if n <= lastnum {
      j := s;
      Arith.DivModUnique(s, lastnum, 0, s);
    } else {
      var base := n - lastnum;
      var r := base % lastnum;
      var q := base / lastnum;
      if s >= r {
        j := base - r + s;
        Arith.DivModUnique(j, lastnum, q, s);
      } else {
        j := base - r + s + lastnum;
        Arith.DivModUnique(j, lastnum, q + 1, s);
      }
    }
  }

  /** A validly tagged slot after `n` validly tagged records holds one of the last `lastnum`. */
  lemma ValidSlotOwner(tiles: seq<Tile>, n: nat, lastnum: nat, s: nat) returns (j: nat)
    requires n <= |tiles| && lastnum >= 1 && s < lastnum
    requires ValidMagic(Pushes(tiles, n, lastnum).slots[s])
    ensures j < n && n - lastnum <= j && Pushes(tiles, n, lastnum).slots[s] == tiles[j]
  {
    RingHoldsRecent(tiles, n, lastnum);
    if s >= n {
      assert false;
    }
    j := SlotOwner(n, lastnum, s);
  }

  // ---------------------------------------------------------------------
  // The filter.

  /**
    The command-line settings: whether duplicates are filtered, the
    threshold at or below which a record counts as a duplicate, and how
    many past records are looked at.
   */
  datatype Options = Options(dupes: bool, score: int, lastnum: int)

  /** The settings the command line accepts. */
  predicate ValidOptions(o: Options) {
    0 <= o.score <= INT_MAX && 1 <= o.lastnum < LASTNUM_MAX
  }

  /**
    How a run ends: every record processed, or stopped by a fatal error
    after writing `written`.
   */
  datatype Outcome =
    | Finished(written: seq<Tile>)
    | Stopped(written: seq<Tile>, error: Error)

  /**
    The record loop from record `i` on.  Each record is checked for its
    tag, scored against the ring before it enters the ring, and written
    unless it scores at or below the threshold.  Every record enters the
    ring, written or not.
   */
  function FilterFrom(tiles: seq<Tile>, o: Options, i: nat, ring: Ring, written: seq<Tile>): (r: Outcome)
    requires ValidOptions(o) && i <= |tiles|
    requires |ring.slots| == o.lastnum && ring.pos < o.lastnum
    decreases |tiles| - i
  {
    if i == |tiles| then Finished(written)
    else
      var t := tiles[i];
      if !ValidMagic(t) then Stopped(written, BadMagic(i))
      else if o.dupes then
        var drop := MinTileScore(t, ring.slots, o.lastnum) <= o.score;
        FilterFrom(tiles, o, i + 1, Push(ring, t), if drop then written else written + [t])
      else
        FilterFrom(tiles, o, i + 1, ring, written + [t])
  }

  /** The whole filter run; a database without a single record is fatal. */
  function Filter(tiles: seq<Tile>, o: Options): (r: Outcome)
    requires ValidOptions(o)
  {
    if |tiles| == 0 then Stopped([], EmptyDatabase)
    else FilterFrom(tiles, o, 0, EmptyRing(o.lastnum), [])
  }

  // ---------------------------------------------------------------------
  // The reference: which records survive.

  /**
    Record `i` survives when duplicates are not filtered, or when the
    threshold is below INT_MAX and every one of the previous `lastnum`
    records is farther than the threshold from it.
   */
  predicate Kept(tiles: seq<Tile>, i: nat, o: Options)
    requires i < |tiles|
  {
    || !o.dupes
    || (&& o.score < INT_MAX
        && forall j :: 0 <= j < i && i - o.lastnum <= j ==> TileDistance(tiles[j], tiles[i]) > o.score)
  }

  /** The surviving records among the first `n`, in input order. */
  function Survivors(tiles: seq<Tile>, o: Options, n: nat): (r: seq<Tile>)
    requires n <= |tiles|
    ensures |r| <= n
  {
    if n == 0 then []
    else Survivors(tiles, o, n - 1) + (if Kept(tiles, n - 1, o) then [tiles[n - 1]] else [])
  }

  /** The indices of the surviving records among the first `n`. */
  function KeptIndices(tiles: seq<Tile>, o: Options, n: nat): (ks: seq<nat>)
    requires n <= |tiles|
    ensures |ks| <= n
    ensures forall a :: 0 <= a < |ks| ==> ks[a] < n
  {
    if n == 0 then []
    else KeptIndices(tiles, o, n - 1) + (if Kept(tiles, n - 1, o) then [n - 1] else [])
  }

  /** Every kept index is the index of a surviving record. */
  lemma {:induction false} KeptIndicesSound(tiles: seq<Tile>, o: Options, n: nat)
    requires n <= |tiles|
    ensures forall a :: 0 <= a < |KeptIndices(tiles, o, n)| ==> Kept(tiles, KeptIndices(tiles, o, n)[a], o)
  {
    if n > 0 {
      KeptIndicesSound(tiles, o, n - 1);
      var ks, ks' := KeptIndices(tiles, o, n), KeptIndices(tiles, o, n - 1);
      forall a | 0 <= a < |ks|
        ensures Kept(tiles, ks[a], o)
      {
        if a < |ks'| {
          assert ks[a] == ks'[a];
        }
      }
    }
  }

  /** The kept indices are strictly increasing, so they list the survivors in input order. */
  lemma {:induction false} KeptIndicesIncreasing(tiles: seq<Tile>, o: Options, n: nat)
    requires n <= |tiles|
    ensures forall a, b :: 0 <= a < b < |KeptIndices(tiles, o, n)| ==> KeptIndices(tiles, o, n)[a] < KeptIndices(tiles, o, n)[b]
  {
    if n > 0 {
      KeptIndicesIncreasing(tiles, o, n - 1);
      var ks, ks' := KeptIndices(tiles, o, n), KeptIndices(tiles, o, n - 1);
      forall a, b | 0 <= a < b < |ks|
        ensures ks[a] < ks[b]
      {
        assert ks[a] == ks'[a];
        if b < |ks'| {
          assert ks[b] == ks'[b];
        }
      }
    }
  }

  /** Every surviving record among the first `n` has its index kept. */
  lemma {:induction false} KeptIndicesComplete(tiles: seq<Tile>, o: Options, n: nat)
    requires n <= |tiles|
    ensures forall j :: 0 <= j < n && Kept(tiles, j, o) ==> j in KeptIndices(tiles, o, n)
  {
    if n > 0 {
      KeptIndicesComplete(tiles, o, n - 1);
      var ks, ks' := KeptIndices(tiles, o, n), KeptIndices(tiles, o, n - 1);
      assert ks == ks' + (if Kept(tiles, n - 1, o) then [n - 1] else []);
      forall j | 0 <= j < n && Kept(tiles, j, o)
        ensures j in ks
      {
        if j < n - 1 {
          assert j in ks';
        } else {
          assert ks[|ks| - 1] == j;
        }
      }
    }
  }

  /**
    The survivors are an order-preserving selection: survivor `a` is the
    record at the `a`-th kept index, and those indices are exactly the kept
    records, strictly increasing.
   */
  lemma {:induction false} SurvivorsAreKept(tiles: seq<Tile>, o: Options, n: nat)
    requires n <= |tiles|
    ensures var ks := KeptIndices(tiles, o, n);
      && |Survivors(tiles, o, n)| == |ks|
      && forall a :: 0 <= a < |ks| ==> Survivors(tiles, o, n)[a] == tiles[ks[a]]
  {
    if n > 0 {
      SurvivorsAreKept(tiles, o, n - 1);
      var ks, ks' := KeptIndices(tiles, o, n), KeptIndices(tiles, o, n - 1);
      var sv, sv' := Survivors(tiles, o, n), Survivors(tiles, o, n - 1);
      if Kept(tiles, n - 1, o) {
        assert ks == ks' + [n - 1] && sv == sv' + [tiles[n - 1]];
      } else {
        assert ks == ks' && sv == sv';
      }
      forall a | 0 <= a < |ks|
        ensures sv[a] == tiles[ks[a]]
      {
        if a < |ks'| {
          assert sv[a] == sv'[a] && ks[a] == ks'[a];
        }
      }
    }
  }

  /** Without duplicate filtering every record survives. */
  lemma {:induction false} NoDupesKeepsAll(tiles: seq<Tile>, o: Options, n: nat)
    requires n <= |tiles| && !o.dupes
    ensures Survivors(tiles, o, n) == tiles[..n]
  {
    if n > 0 {
      NoDupesKeepsAll(tiles, o, n - 1);
      assert tiles[..n] == tiles[..n - 1] + [tiles[n - 1]];
    }
  }

  /** An exact repeat of one of the previous `lastnum` records never survives. */
  lemma RepeatDropped(tiles: seq<Tile>, o: Options, i: nat, j: nat)
    requires ValidOptions(o) && o.dupes
    requires j < i < |tiles| && i - o.lastnum <= j && tiles[j] == tiles[i]
    ensures !Kept(tiles, i, o)
  {
    DistanceSelf(tiles[i]);
  }

  /**
    With all earlier records validly tagged, the ring's minimum is above
    the threshold exactly when record `i` survives.
   */
  lemma KeepDecision(tiles: seq<Tile>, o: Options, i: nat)
    requires ValidOptions(o) && o.dupes && i < |tiles|
    requires forall j :: 0 <= j < i ==> ValidMagic(tiles[j])
    ensures (MinTileScore(tiles[i], Pushes(tiles, i, o.lastnum).slots, o.lastnum) > o.score) <==> Kept(tiles, i, o)
  {
    if MinTileScore(tiles[i], Pushes(tiles, i, o.lastnum).slots, o.lastnum) > o.score {
      MinAboveKept(tiles, o, i);
    }
    if Kept(tiles, i, o) {
      KeptMinAbove(tiles, o, i);
    }
  }

  /** A minimum above the threshold means every recent record is farther than it. */
  lemma MinAboveKept(tiles: seq<Tile>, o: Options, i: nat)
    requires ValidOptions(o) && o.dupes && i < |tiles|
    requires forall j :: 0 <= j < i ==> ValidMagic(tiles[j])
    requires MinTileScore(tiles[i], Pushes(tiles, i, o.lastnum).slots, o.lastnum) > o.score
    ensures Kept(tiles, i, o)
  {
    var L := o.lastnum;
    var slots := Pushes(tiles, i, L).slots;
    RingHoldsRecent(tiles, i, L);
    forall j | 0 <= j < i && i - L <= j
      ensures TileDistance(tiles[j], tiles[i]) > o.score
    {
      assert slots[j % L] == tiles[j];
      assert ValidMagic(slots[j % L]);
    }
  }

  /** A surviving record leaves the ring's minimum above the threshold. */
  lemma KeptMinAbove(tiles: seq<Tile>, o: Options, i: nat)
    requires ValidOptions(o) && o.dupes && i < |tiles|
    requires forall j :: 0 <= j < i ==> ValidMagic(tiles[j])
    requires Kept(tiles, i, o)
    ensures MinTileScore(tiles[i], Pushes(tiles, i, o.lastnum).slots, o.lastnum) > o.score
  {
    var L := o.lastnum;
    var slots := Pushes(tiles, i, L).slots;
    var best := MinTileScore(tiles[i], slots, L);
    if best < INT_MAX {
      var s :| 0 <= s < L && ValidMagic(slots[s]) && best == TileDistance(slots[s], tiles[i]);
      var j := ValidSlotOwner(tiles, i, L, s);
      assert TileDistance(tiles[j], tiles[i]) > o.score;
    }
  }

  /** The state the loop body leaves after validly tagged record `i`. */
  function RingAfter(tiles: seq<Tile>, o: Options, i: nat): (r: Ring)
    requires ValidOptions(o) && i <= |tiles|
    ensures |r.slots| == o.lastnum && r.pos < o.lastnum
  {
    if o.dupes then Pushes(tiles, i, o.lastnum) else EmptyRing(o.lastnum)
  }

  /**
    One pass of the loop body over a validly tagged record `i` turns the
    state after `i` records into the state after `i + 1`.
   */
  lemma FilterStep(tiles: seq<Tile>, o: Options, i: nat)
    requires ValidOptions(o) && i < |tiles| && ValidMagic(tiles[i])
    requires forall j :: 0 <= j < i ==> ValidMagic(tiles[j])
    ensures FilterFrom(tiles, o, i, RingAfter(tiles, o, i), Survivors(tiles, o, i))
         == FilterFrom(tiles, o, i + 1, RingAfter(tiles, o, i + 1), Survivors(tiles, o, i + 1))
  {
    var t := tiles[i];
    var ring := RingAfter(tiles, o, i);
    var written := Survivors(tiles, o, i);
    var written' := Survivors(tiles, o, i + 1);
    var ring' := RingAfter(tiles, o, i + 1);
    if o.dupes {
      KeepDecision(tiles, o, i);
      assert ring' == Push(ring, t);
      if Kept(tiles, i, o) {
        assert written' == written + [t];
        assert FilterFrom(tiles, o, i, ring, written) == FilterFrom(tiles, o, i + 1, ring', written + [t]);
      } else {
        assert written' == written;
        assert FilterFrom(tiles, o, i, ring, written) == FilterFrom(tiles, o, i + 1, ring', written);
      }
    } else {
      assert written' == written + [t] && ring' == ring;
      assert FilterFrom(tiles, o, i, ring, written) == FilterFrom(tiles, o, i + 1, ring, written + [t]);
    }
  }

  /**
    The loop from record `i` on, entered with the ring and the output the
    first `i` records leave behind, ends as the reference says: when record
    `stop` is the first wrongly tagged one, the survivors before it are
    written and the run stops there; when there is none, all survivors are
    written.
   */
  lemma {:induction false} FilterFromSurvivors(tiles: seq<Tile>, o: Options, i: nat, stop: nat)
    requires ValidOptions(o) && i <= stop <= |tiles|
    requires forall j :: 0 <= j < stop ==> ValidMagic(tiles[j])
    requires stop < |tiles| ==> !ValidMagic(tiles[stop])
    ensures FilterFrom(tiles, o, i, RingAfter(tiles, o, i), Survivors(tiles, o, i))
        == if stop == |tiles| then Finished(Survivors(tiles, o, stop))
           else Stopped(Survivors(tiles, o, stop), BadMagic(stop))
    decreases stop - i
  {
    if i < stop {
      FilterStep(tiles, o, i);
      FilterFromSurvivors(tiles, o, i + 1, stop);
    }
  }

  /**
    The filter's outcome: an empty database is fatal; otherwise the
    survivors are written in input order, and a wrongly tagged record stops
    the run after the survivors before it have been written.
   */
  lemma FilterOutcome(tiles: seq<Tile>, o: Options)
    requires ValidOptions(o)
    ensures |tiles| == 0 ==> Filter(tiles, o) == Stopped([], EmptyDatabase)
    ensures |tiles| > 0 && (forall j :: 0 <= j < |tiles| ==> ValidMagic(tiles[j]))
      ==> Filter(tiles, o) == Finished(Survivors(tiles, o, |tiles|))
    ensures forall b :: (0 <= b < |tiles| && !ValidMagic(tiles[b]) && (forall j :: 0 <= j < b ==> ValidMagic(tiles[j]))
      ==> Filter(tiles, o) == Stopped(Survivors(tiles, o, b), BadMagic(b)))
  {
    if |tiles| > 0 {
      if forall j :: 0 <= j < |tiles| ==> ValidMagic(tiles[j]) {
        FilterFromSurvivors(tiles, o, 0, |tiles|);
      }
      forall b | 0 <= b < |tiles| && !ValidMagic(tiles[b]) && (forall j :: 0 <= j < b ==> ValidMagic(tiles[j]))
        ensures Filter(tiles, o) == Stopped(Survivors(tiles, o, b), BadMagic(b))
      {
        FilterFromSurvivors(tiles, o, 0, b);
      }
    }
  }
}
