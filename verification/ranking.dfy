/**
  The per-cell ranking store of the mosaic engine: row `i` of the score
  matrix keeps the best candidates seen so far for grid cell `i`, ascending
  by score (src/mosaic.c:156-159, 206, 212, 300-313, 512).

  Row `i` has `i + 1` slots.  Only the window `0..k` with `k = i / dups` is
  ever written; a candidate enters the window only if it beats slot `k`,
  whose entry then falls off the end.
 */
module Ranking {
  import opened Tiles
  import Arith

  /** Scores are non-decreasing from left to right. */
  predicate Sorted(w: seq<TileScore>) {
    forall a, b :: 0 <= a < b < |w| ==> w[a].score <= w[b].score
  }

  /**
    The window boundary for cell `i`.  The scorer restarts its counter at
    0 for every library tile and advances it once every `dups` cells, so
    the boundary depends on the cell index only.
   */
  function Window(i: nat, dups: int): (k: nat)
    requires dups >= 1
    ensures k <= i
  {
    Arith.DivAtMost(i, dups);
    i / dups
  }

  /** Row `i` of the matrix has `i + 1` slots. */
  predicate Shaped(m: seq<seq<TileScore>>) {
    forall i :: 0 <= i < |m| ==> |m[i]| == i + 1
  }

  /** A row is sorted and every slot past its window still holds Unset. */
  predicate RowInv(row: seq<TileScore>, k: nat) {
    && k < |row|
    && Sorted(row)
    && forall j :: k < j < |row| ==> row[j] == Unset
  }

  /** The invariant of the whole ranking store. */
  predicate StoreInv(m: seq<seq<TileScore>>, dups: int)
    requires dups >= 1
  {
    && Shaped(m)
    && forall i :: 0 <= i < |m| ==> RowInv(m[i], Window(i, dups))
  }

  /** The matrix as initialised for `n` cells: every slot Unset. */
  function InitScores(n: nat): (m: seq<seq<TileScore>>)
    ensures |m| == n && Shaped(m)
    ensures forall i, j :: 0 <= i < n && 0 <= j < |m[i]| ==> m[i][j] == Unset
  {
    seq(n, i requires 0 <= i => seq(i + 1, _ => Unset))
  }

  /** The initial matrix satisfies the store invariant for any `dups`. */
  lemma InitStoreInv(n: nat, dups: int)
    requires dups >= 1
    ensures StoreInv(InitScores(n), dups)
  {
  }

  // ---------------------------------------------------------------------
  // The reference: ordered placement after equal scores.

  /** Number of entries of `w` that score at most `s`. */
  function CountAtMost(w: seq<TileScore>, s: int): (c: nat)
    ensures c <= |w|
  {
    if |w| == 0 then 0
    else CountAtMost(w[..|w| - 1], s) + (if w[|w| - 1].score <= s then 1 else 0)
  }

  /** In a sorted sequence the entries scoring at most `s` form a prefix. */
  lemma {:induction false} CountSplits(w: seq<TileScore>, s: int)
    requires Sorted(w)
    ensures forall a :: 0 <= a < CountAtMost(w, s) ==> w[a].score <= s
    ensures forall a :: CountAtMost(w, s) <= a < |w| ==> w[a].score > s
  {
    if |w| > 0 {
      var w' := w[..|w| - 1];
      assert Sorted(w');
      CountSplits(w', s);
      if w[|w| - 1].score <= s {
        assert CountAtMost(w', s) == |w'|;
      }
    }
  }

  /**
    `e` placed into `w` after every entry scoring at most `e.score`: the
    reference for an ordered insertion in which ties go after the entries
    already present.
   */
  function Place(w: seq<TileScore>, e: TileScore): (r: seq<TileScore>)
    ensures |r| == |w| + 1
  {
    var p := CountAtMost(w, e.score);
    w[..p] + [e] + w[p..]
  }

  /** Placing adds exactly `e`: the result is a permutation of `w` plus `e`. */
  lemma PlacePermutes(w: seq<TileScore>, e: TileScore)
    ensures multiset(Place(w, e)) == multiset(w) + multiset{e}
  {
    var p := CountAtMost(w, e.score);
    assert w == w[..p] + w[p..];
  }

  /**
    Placing into a sorted sequence keeps it sorted; `e` lands at index
    `p`, after every entry scoring at most `e.score` and before every entry
    scoring more; the entries keep their relative order.
   */
  lemma PlaceOrdered(w: seq<TileScore>, e: TileScore)
    requires Sorted(w)
    ensures var r, p := Place(w, e), CountAtMost(w, e.score);
      && r[p] == e
      && (forall a :: 0 <= a < p ==> r[a] == w[a] && r[a].score <= e.score)
      && (forall a :: p < a < |r| ==> r[a] == w[a - 1] && r[a].score > e.score)
      && Sorted(r)
  {
    CountSplits(w, e.score);
  }

  // ---------------------------------------------------------------------
  // The insertion as written.

  /**
    The shifting loop: walking down from slot `j`, move each entry that
    scores strictly more than `e` one slot up, then write `e` into the
    slot left free.
   */
  function Shift(row: seq<TileScore>, j: nat, e: TileScore): (r: seq<TileScore>)
    requires j < |row|
    ensures |r| == |row|
    ensures r[j + 1..] == row[j + 1..]
    decreases j
  {
    if j != 0 && e.score < row[j - 1].score then Shift(row[j := row[j - 1]], j - 1, e)
    else row[j := e]
  }

  /**
    Offer candidate (s, id) to a row whose window ends at slot `k`: it is
    rejected unless it scores strictly below slot `k`.
   */
  function InsertCandidate(row: seq<TileScore>, k: nat, s: int, id: int): (r: seq<TileScore>)
    requires k < |row|
    ensures |r| == |row|
    ensures r[k + 1..] == row[k + 1..]
    ensures s >= row[k].score ==> r == row
  {
    if s < row[k].score then Shift(row, k, TileScore(s, id)) else row
  }

  /** On a sorted prefix the shifting loop performs the ordered placement. */
  lemma {:induction false} ShiftPlaces(row: seq<TileScore>, j: nat, e: TileScore)
    requires j < |row|
    requires Sorted(row[..j])
    ensures Shift(row, j, e) == Place(row[..j], e) + row[j + 1..]
    decreases j
  {
    var w := row[..j];
    if j != 0 && e.score < row[j - 1].score {
      var row' := row[j := row[j - 1]];
      assert row'[..j - 1] == w[..j - 1];
      ShiftPlaces(row', j - 1, e);
      assert row'[j..] == [w[j - 1]] + row[j + 1..];
      PlaceDropLast(w, e);
    } else {
      PlaceAtEnd(w, e);
      assert row == w + [row[j]] + row[j + 1..];
    }
  }

  /** Placing after a last entry that scores at most `e.score` appends. */
  lemma PlaceAtEnd(w: seq<TileScore>, e: TileScore)
    requires Sorted(w)
    requires |w| == 0 || w[|w| - 1].score <= e.score
    ensures Place(w, e) == w + [e]
  {
    CountSplits(w, e.score);
    assert w[..|w|] == w;
  }

  /** Placing after a larger last entry is placing before that entry. */
  lemma PlaceDropLast(w: seq<TileScore>, e: TileScore)
    requires |w| > 0 && e.score < w[|w| - 1].score
    ensures Place(w, e) == Place(w[..|w| - 1], e) + [w[|w| - 1]]
  {
    var w' := w[..|w| - 1];
    var p := CountAtMost(w, e.score);
    assert p == CountAtMost(w', e.score);
    assert p <= |w'|;
    assert w[..p] == w'[..p];
    assert w[p..] == w'[p..] + [w[|w| - 1]];
  }

  /**
    A successful insertion replaces the window by the old window without
    its last entry, with (s, id) placed in order after equal scores.
   */
  lemma InsertWindow(row: seq<TileScore>, k: nat, s: int, id: int)
    requires k < |row|
    requires Sorted(row[..k + 1])
    requires s < row[k].score
    ensures InsertCandidate(row, k, s, id)[..k + 1] == Place(row[..k], TileScore(s, id))
    ensures multiset(InsertCandidate(row, k, s, id)[..k + 1])
         == multiset(row[..k]) + multiset{TileScore(s, id)}
  {
    InsertPlaces(row, k, s, id);
    PlacePermutes(row[..k], TileScore(s, id));
  }

  /** The window after a successful insertion is the ordered placement. */
  lemma InsertPlaces(row: seq<TileScore>, k: nat, s: int, id: int)
    requires k < |row|
    requires Sorted(row[..k + 1])
    requires s < row[k].score
    ensures InsertCandidate(row, k, s, id)[..k + 1] == Place(row[..k], TileScore(s, id))
  {
    assert row[..k + 1][..k] == row[..k];
    ShiftPlaces(row, k, TileScore(s, id));
  }

  /**
    Insertion preserves the row invariant, and afterwards slot 0 scores no
    more than the candidate and no more than before.
   */
  lemma InsertKeepsRowInv(row: seq<TileScore>, k: nat, s: int, id: int)
    requires RowInv(row, k)
    ensures RowInv(InsertCandidate(row, k, s, id), k)
    ensures InsertCandidate(row, k, s, id)[0].score <= s
    ensures InsertCandidate(row, k, s, id)[0].score <= row[0].score
  {
    var r := InsertCandidate(row, k, s, id);
    if s < row[k].score {
      InsertedWindowBounded(row, k, s, id);
      forall a, b | 0 <= a < b < |r|
        ensures r[a].score <= r[b].score
      {
        if b > k {
          assert r[b] == row[b];
          if a > k {
            assert r[a] == row[a];
          } else {
            assert row[k].score <= row[b].score;
          }
        } else {
          assert r[..k + 1][a] == r[a] && r[..k + 1][b] == r[b];
        }
      }
    }
  }

  /**
    After a successful insertion into a sorted row the window is sorted,
    no entry of it scores more than the evicted slot `k` did, and slot 0
    scores at most the candidate and at most the old slot 0.
   */
  lemma InsertedWindowBounded(row: seq<TileScore>, k: nat, s: int, id: int)
    requires k < |row| && Sorted(row)
    requires s < row[k].score
    ensures var r := InsertCandidate(row, k, s, id);
      && Sorted(r[..k + 1])
      && (forall a :: 0 <= a <= k ==> r[a].score <= row[k].score)
      && r[0].score <= s && r[0].score <= row[0].score
  {
    var r := InsertCandidate(row, k, s, id);
    var w' := row[..k];
    assert Sorted(row[..k + 1]);
    InsertPlaces(row, k, s, id);
    PlaceBounded(w', TileScore(s, id), row[k].score);
    var w := r[..k + 1];
    forall a | 0 <= a <= k
      ensures r[a].score <= row[k].score
    {
      assert r[a] == w[a];
    }
    assert r[0] == w[0];
    if k > 0 {
      assert w'[0] == row[0];
    }
  }

  /**
    Placing into a sorted sequence whose scores are all at most `bound` a
    candidate scoring at most `bound` gives a sorted sequence bounded the
    same way, whose first entry scores at most the candidate and at most
    the old first entry.
   */
  lemma PlaceBounded(w: seq<TileScore>, e: TileScore, bound: int)
    requires Sorted(w) && e.score <= bound
    requires forall a :: 0 <= a < |w| ==> w[a].score <= bound
    ensures var r := Place(w, e);
      && Sorted(r)
      && (forall a :: 0 <= a < |r| ==> r[a].score <= bound)
      && r[0].score <= e.score
      && (|w| > 0 ==> r[0].score <= w[0].score)
  {
    PlaceOrdered(w, e);
    var r, p := Place(w, e), CountAtMost(w, e.score);
    if p > 0 {
      assert r[0] == w[0];
    } else if |w| > 0 {
      assert r[1] == w[0];
    }
  }

  // ---------------------------------------------------------------------
  // Where the entries come from.

  /**
    No slot of `row` scores above INT_MAX, and every written slot (one
    scoring below INT_MAX) holds one of the candidates `cands`, score and
    identity together.
   */
  predicate RowFrom(row: seq<TileScore>, cands: set<TileScore>) {
    forall j :: 0 <= j < |row| ==> row[j].score <= INT_MAX && (row[j].score < INT_MAX ==> row[j] in cands)
  }

  /** Offering one of the candidates `cands` keeps the row drawn from `cands`. */
  lemma InsertKeepsRowFrom(row: seq<TileScore>, k: nat, s: int, id: int, cands: set<TileScore>)
    requires RowInv(row, k) && RowFrom(row, cands) && TileScore(s, id) in cands
    ensures RowFrom(InsertCandidate(row, k, s, id), cands)
  {
    var r := InsertCandidate(row, k, s, id);
    var e := TileScore(s, id);
    if s < row[k].score {
      assert Sorted(row[..k + 1]);
      InsertWindow(row, k, s, id);
      forall j | 0 <= j < |r|
        ensures r[j].score <= INT_MAX && (r[j].score < INT_MAX ==> r[j] in cands)
      {
        if j <= k {
          assert r[j] == r[..k + 1][j];
          assert r[j] in multiset(r[..k + 1]);
          if r[j] != e {
            assert r[j] in multiset(row[..k]);
            var a :| 0 <= a < k && row[..k][a] == r[j];
            assert row[a] == r[j];
          }
        } else {
          assert r[j] == row[j];
        }
      }
    }
  }
}
