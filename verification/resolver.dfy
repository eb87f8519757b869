/**
  The duplicate resolver (writeTiles, src/mosaic.c:374-439): after matching,
  one tile is chosen per grid cell in cell order, honouring the reuse cap
  `dups` through a usage counter keyed by the unsigned tile identity (the
  JudyL array of the original becomes a map).
 */
module Resolver {
  import opened Tiles
  import opened Ranking

  /** The counter key of a candidate: its identity without orientation sign. */
  function Key(id: int): nat {
    Abs(id)
  }

  /** A key can still be taken: it is unused, or used fewer than `dups` times. */
  predicate Free(used: map<int, int>, key: int, dups: int) {
    key !in used || used[key] < dups
  }

  /**
    The first of slots `j..i` of `row` whose key is free, or `i + 1` when
    none is.
   */
  function FirstFree(row: seq<TileScore>, used: map<int, int>, dups: int, j: nat, i: nat): (p: nat)
    requires i < |row| && j <= i + 1
    ensures j <= p <= i + 1
    ensures p <= i ==> Free(used, Key(row[p].id), dups)
    ensures forall q :: j <= q < p ==> !Free(used, Key(row[q].id), dups)
    decreases i + 1 - j
  {
    if j > i then i + 1
    else if Free(used, Key(row[j].id), dups) then j
    else FirstFree(row, used, dups, j + 1, i)
  }

  /** One more use of `key`: its count goes up by one, or starts at one. */
  function Bump(used: map<int, int>, key: int): (u: map<int, int>)
    ensures u.Keys == used.Keys + {key}
    ensures u[key] == (if key in used then used[key] + 1 else 1)
    ensures forall k :: k in used && k != key ==> u[k] == used[k]
  {
    used[key := if key in used then used[key] + 1 else 1]
  }

  /**
    What a cell prints: the signed identity of the chosen slot, and whether
    the choice was counted against the cap.
   */
  datatype Choice = Choice(id: int, committed: bool)

  datatype Resolution = Resolution(choices: seq<Choice>, used: map<int, int>)

  /**
    Cell `i` scans slots `0..i` of its row.  The first slot whose key is
    free is committed and counted.  When no slot is free the scan simply
    runs out and the cell prints the identity of slot `i`, uncounted.
   */
  function ResolveCell(row: seq<TileScore>, used: map<int, int>, dups: int, i: nat): (r: (Choice, map<int, int>))
    requires i < |row|
  {
    var p := FirstFree(row, used, dups, 0, i);
    if p <= i then (Choice(row[p].id, true), Bump(used, Key(row[p].id)))
    else (Choice(row[i].id, false), used)
  }

  /** Cells `0..n-1` resolved in index order, sharing one usage counter. */
  function Resolve(m: seq<seq<TileScore>>, dups: int, n: nat): (r: Resolution)
    requires n <= |m| && Shaped(m)
    ensures |r.choices| == n
  {
    if n == 0 then Resolution([], map[])
    else
      var prev := Resolve(m, dups, n - 1);
      var (c, u) := ResolveCell(m[n - 1], prev.used, dups, n - 1);
      Resolution(prev.choices + [c], u)
  }

  /** How many of `choices` were committed under key `key`. */
  function Committed(choices: seq<Choice>, key: int): (c: nat)
    ensures c <= |choices|
  {
    if |choices| == 0 then 0
    else Committed(choices[..|choices| - 1], key)
         + (var last := choices[|choices| - 1]; if last.committed && Key(last.id) == key then 1 else 0)
  }

  /** The counter holds, per key, the number of committed choices, at most `dups`. */
  ghost predicate CounterMatches(r: Resolution, dups: int) {
    && (forall key :: Committed(r.choices, key) == (if key in r.used then r.used[key] else 0))
    && (forall key :: key in r.used ==> 1 <= r.used[key] <= dups)
  }

  /**
    The counter records exactly the committed choices: a key is present
    iff some cell committed it, its count is the number of such cells, and
    that count never exceeds the cap.
   */
  lemma {:induction false} ResolveCounts(m: seq<seq<TileScore>>, dups: int, n: nat)
    requires n <= |m| && Shaped(m) && dups >= 1
    ensures CounterMatches(Resolve(m, dups, n), dups)
  {
    if n > 0 {
      ResolveCounts(m, dups, n - 1);
      var prev := Resolve(m, dups, n - 1);
      var r := Resolve(m, dups, n);
      var cu := ResolveCell(m[n - 1], prev.used, dups, n - 1);
      var c := cu.0;
      assert r == Resolution(prev.choices + [c], cu.1);
      assert r.choices[..n - 1] == prev.choices;
      var p := FirstFree(m[n - 1], prev.used, dups, 0, n - 1);
      var k0 := Key(c.id);
      if p <= n - 1 {
        assert c.committed && r.used == Bump(prev.used, k0);
        assert Free(prev.used, k0, dups);
      } else {
        assert !c.committed && r.used == prev.used;
      }
      forall key
        ensures Committed(r.choices, key) == (if key in r.used then r.used[key] else 0)
      {
        assert Committed(prev.choices, key) == (if key in prev.used then prev.used[key] else 0);
        assert Committed(r.choices, key)
            == Committed(prev.choices, key) + (if c.committed && k0 == key then 1 else 0);
        if c.committed && k0 == key {
          assert r.used[key] == (if key in prev.used then prev.used[key] + 1 else 1);
        } else {
          assert (key in r.used) == (key in prev.used);
          assert key in r.used ==> r.used[key] == prev.used[key];
        }
      }
    }
  }

  /** The reuse cap: no key is committed by more than `dups` cells. */
  lemma CommittedWithinCap(m: seq<seq<TileScore>>, dups: int, n: nat, key: int)
    requires n <= |m| && Shaped(m) && dups >= 1
    ensures Committed(Resolve(m, dups, n).choices, key) <= dups
  {
    ResolveCounts(m, dups, n);
  }

  /** Later cells do not change the choices of earlier ones. */
  lemma {:induction false} ResolvePrefix(m: seq<seq<TileScore>>, dups: int, n: nat, i: nat)
    requires n <= |m| && Shaped(m) && i <= n
    ensures Resolve(m, dups, n).choices[..i] == Resolve(m, dups, i).choices
    decreases n
  {
    if i < n {
      ResolvePrefix(m, dups, n - 1, i);
      assert Resolve(m, dups, n).choices[..n - 1] == Resolve(m, dups, n - 1).choices;
    }
  }

  /**
    Cell `i` commits the first slot `p <= i` whose key was free given the
    cells before it, and prints that slot's signed identity; when no slot
    is free it prints slot `i`'s identity and commits nothing.
   */
  lemma ResolveChoice(m: seq<seq<TileScore>>, dups: int, n: nat, i: nat)
    requires n <= |m| && Shaped(m) && i < n
    ensures var used := Resolve(m, dups, i).used;
      var c := Resolve(m, dups, n).choices[i];
      && (c.committed <==> exists p :: 0 <= p <= i && Free(used, Key(m[i][p].id), dups))
      && (c.committed ==> exists p :: 0 <= p <= i && c.id == m[i][p].id && Free(used, Key(m[i][p].id), dups)
                                       && forall q :: 0 <= q < p ==> !Free(used, Key(m[i][q].id), dups))
      && (!c.committed ==> c.id == m[i][i].id)
  {
    ResolvePrefix(m, dups, n, i + 1);
    var used := Resolve(m, dups, i).used;
    var c := ResolveCell(m[i], used, dups, i).0;
    assert Resolve(m, dups, i + 1).choices == Resolve(m, dups, i).choices + [c];
    assert Resolve(m, dups, n).choices[i] == Resolve(m, dups, n).choices[..i + 1][i] == c;
    var p := FirstFree(m[i], used, dups, 0, i);
    if p <= i {
      assert c == Choice(m[i][p].id, true);
    } else {
      forall q | 0 <= q <= i
        ensures !Free(used, Key(m[i][q].id), dups)
      {
      }
    }
  }

  /** One output line: the cell position, its brightness offset, the chosen identity. */
  datatype OutRow = OutRow(pos: int, yDelta: int, id: int)

  /**
    The lines printed for the cells: when the cap equals the number of
    cells every cell takes its best slot, otherwise the resolution decides.
   */
  function Output(cells: seq<Tile>, m: seq<seq<TileScore>>, dups: int): (out: seq<OutRow>)
    requires |m| == |cells| && Shaped(m)
    ensures |out| == |cells|
    ensures forall i :: 0 <= i < |cells| ==> out[i].pos == cells[i].imageID && out[i].yDelta == cells[i].yDelta
    ensures |cells| == dups ==> forall i :: 0 <= i < |cells| ==> out[i].id == m[i][0].id
  {
    var n := |cells|;
    if n == dups then
      seq(n, i requires 0 <= i < n => OutRow(cells[i].imageID, cells[i].yDelta, m[i][0].id))
    else
      var r := Resolve(m, dups, n);
      seq(n, i requires 0 <= i < n => OutRow(cells[i].imageID, cells[i].yDelta, r.choices[i].id))
  }

  /**
    The scan of cell `i` as written: walk slots `0..i`, stop at the first
    whose key is under the cap after counting it, and report the identity
    last looked at.
   */
  method ScanCell(row: seq<TileScore>, used: map<int, int>, dups: int, i: nat) returns (id: int, used': map<int, int>)
    requires i < |row|
    ensures id == ResolveCell(row, used, dups, i).0.id
    ensures used' == ResolveCell(row, used, dups, i).1
  {
    ghost var p := FirstFree(row, used, dups, 0, i);
    used' := used;
    id := 0;
    var j := 0;
    while j <= i
      invariant j <= i + 1
      invariant used' == used
      invariant FirstFree(row, used, dups, j, i) == p
      invariant j > 0 ==> id == row[j - 1].id
    {
      id := row[j].id;
      var key := Abs(id);
      if key in used' {
        if used'[key] < dups {
          used' := used'[key := used'[key] + 1];
          return;
        }
      } else {
        used' := used'[key := 1];
        return;
      }
      j := j + 1;
    }
  }

  /**
    The resolver loops as written: the fast path copies slot 0; otherwise
    each cell scans its slots against the counter, stopping at the first
    free key, and prints the identity last looked at.
   */
  method WriteTiles(cells: seq<Tile>, dups: int, m: seq<seq<TileScore>>) returns (out: seq<OutRow>)
    requires |m| == |cells| && Shaped(m)
    ensures out == Output(cells, m, dups)
  {
    var n := |cells|;
    out := [];
    if n == dups {
      var i := 0;
      while i < n
        invariant i <= n
        invariant out == Output(cells, m, dups)[..i]
      {
        out := out + [OutRow(cells[i].imageID, cells[i].yDelta, m[i][0].id)];
        i := i + 1;
      }
    } else {
      var used: map<int, int> := map[];
      var i := 0;
      while i < n
        invariant i <= n
        invariant used == Resolve(m, dups, i).used
        invariant |out| == i
        invariant forall c :: 0 <= c < i ==>
          out[c] == OutRow(cells[c].imageID, cells[c].yDelta, Resolve(m, dups, i).choices[c].id)
      {
        ghost var before := Resolve(m, dups, i);
        var id;
        id, used := ScanCell(m[i], used, dups, i);
        ghost var after := Resolve(m, dups, i + 1);
        assert after.choices == before.choices + [ResolveCell(m[i], before.used, dups, i).0];
        out := out + [OutRow(cells[i].imageID, cells[i].yDelta, id)];
        i := i + 1;
      }
    }
  }

  // ---------------------------------------------------------------------
  // The exhausted cell, corrected.

  /**
    A slot a cell may commit: written by a library tile (a score below
    INT_MAX) and under the cap.
   */
  predicate Eligible(row: seq<TileScore>, used: map<int, int>, dups: int, p: nat)
    requires p < |row|
  {
    row[p].score < INT_MAX && Free(used, Key(row[p].id), dups)
  }

  /** The first eligible slot of `j..i`, or `i + 1` when there is none. */
  function FirstEligible(row: seq<TileScore>, used: map<int, int>, dups: int, j: nat, i: nat): (p: nat)
    requires i < |row| && j <= i + 1
    ensures j <= p <= i + 1
    ensures p <= i ==> Eligible(row, used, dups, p)
    ensures forall q :: j <= q < p ==> !Eligible(row, used, dups, q)
    decreases i + 1 - j
  {
    if j > i then i + 1
    else if Eligible(row, used, dups, j) then j
    else FirstEligible(row, used, dups, j + 1, i)
  }

  /**
    The resolution as evidently intended: each cell commits its first
    eligible slot, and a cell without one is a resolution failure instead
    of a silent placeholder.
   */
  function ResolveChecked(m: seq<seq<TileScore>>, dups: int, n: nat): (r: Result<Resolution>)
    requires n <= |m| && Shaped(m)
    ensures r.Ok? ==> |r.value.choices| == n
    ensures r.Fail? ==> r.error.ResolutionExhausted? && r.error.cell < n
  {
    if n == 0 then Ok(Resolution([], map[]))
    else
      var prev := ResolveChecked(m, dups, n - 1);
      if prev.Fail? then prev
      else
        var row, used := m[n - 1], prev.value.used;
        var p := FirstEligible(row, used, dups, 0, n - 1);
        if p <= n - 1 then Ok(Resolution(prev.value.choices + [Choice(row[p].id, true)], Bump(used, Key(row[p].id))))
        else Fail(ResolutionExhausted(n - 1))
  }

  /** Every row is sorted. */
  predicate RowsSorted(m: seq<seq<TileScore>>) {
    forall i :: 0 <= i < |m| ==> Sorted(m[i])
  }

  /** In a sorted row an eligible slot, when there is one, is the first free slot. */
  lemma {:induction false} FirstEligibleIsFirstFree(row: seq<TileScore>, used: map<int, int>, dups: int, j: nat, i: nat)
    requires i < |row| && j <= i + 1 && Sorted(row)
    requires FirstEligible(row, used, dups, j, i) <= i
    ensures FirstFree(row, used, dups, j, i) == FirstEligible(row, used, dups, j, i)
    decreases i + 1 - j
  {
    if j <= i && !Free(used, Key(row[j].id), dups) {
      FirstEligibleIsFirstFree(row, used, dups, j + 1, i);
    }
  }

  /** Whenever the corrected resolution succeeds it agrees with the resolution as written. */
  lemma {:induction false} CheckedAgrees(m: seq<seq<TileScore>>, dups: int, n: nat)
    requires n <= |m| && Shaped(m) && RowsSorted(m)
    ensures ResolveChecked(m, dups, n).Ok? ==> ResolveChecked(m, dups, n).value == Resolve(m, dups, n)
  {
    if n > 0 && ResolveChecked(m, dups, n).Ok? {
      CheckedAgrees(m, dups, n - 1);
      var used := Resolve(m, dups, n - 1).used;
      FirstEligibleIsFirstFree(m[n - 1], used, dups, 0, n - 1);
    }
  }

  /** Cell `i` committed its choice to a written slot of its row, at or before slot `i`. */
  predicate CommitsWritten(m: seq<seq<TileScore>>, c: Choice, i: nat)
    requires i < |m| && Shaped(m)
  {
    c.committed && exists p :: 0 <= p <= i && m[i][p].score < INT_MAX && c.id == m[i][p].id
  }

  /**
    A successful corrected resolution commits every cell, each to a
    written slot of its row; a failure names the first cell none of whose
    slots is eligible given the cells before.
   */
  lemma {:induction false} CheckedSound(m: seq<seq<TileScore>>, dups: int, n: nat)
    requires n <= |m| && Shaped(m)
    ensures var r := ResolveChecked(m, dups, n);
      r.Ok? ==> forall i :: 0 <= i < n ==> CommitsWritten(m, r.value.choices[i], i)
    ensures var r := ResolveChecked(m, dups, n);
      r.Fail? ==> var c := r.error.cell;
        && ResolveChecked(m, dups, c).Ok?
        && forall p :: 0 <= p <= c ==> !Eligible(m[c], ResolveChecked(m, dups, c).value.used, dups, p)
  {
    CheckedOkCommits(m, dups, n);
    CheckedFailNamesCell(m, dups, n);
  }

  /** A successful corrected resolution commits, for every cell, a written slot of its row. */
  lemma {:induction false} CheckedOkCommits(m: seq<seq<TileScore>>, dups: int, n: nat)
    requires n <= |m| && Shaped(m)
    ensures var r := ResolveChecked(m, dups, n);
      r.Ok? ==> forall i :: 0 <= i < n ==> CommitsWritten(m, r.value.choices[i], i)
  {
    if n > 0 {
      var prev := ResolveChecked(m, dups, n - 1);
      var r := ResolveChecked(m, dups, n);
      if r.Ok? {
        assert prev.Ok?;
        CheckedOkCommits(m, dups, n - 1);
        var p := FirstEligible(m[n - 1], prev.value.used, dups, 0, n - 1);
        var cs, cs' := r.value.choices, prev.value.choices;
        assert cs == cs' + [Choice(m[n - 1][p].id, true)];
        forall i | 0 <= i < n
          ensures CommitsWritten(m, cs[i], i)
        {
          if i < n - 1 {
            assert cs[i] == cs'[i];
          } else {
            assert cs[i].id == m[i][p].id && m[i][p].score < INT_MAX;
          }
        }
      }
    }
  }

  /** A failed corrected resolution names a cell reached successfully that has no eligible slot. */
  lemma {:induction false} CheckedFailNamesCell(m: seq<seq<TileScore>>, dups: int, n: nat)
    requires n <= |m| && Shaped(m)
    ensures var r := ResolveChecked(m, dups, n);
      r.Fail? ==> var c := r.error.cell;
        && ResolveChecked(m, dups, c).Ok?
        && forall p :: 0 <= p <= c ==> !Eligible(m[c], ResolveChecked(m, dups, c).value.used, dups, p)
  {
    if n > 0 {
      var prev := ResolveChecked(m, dups, n - 1);
      var r := ResolveChecked(m, dups, n);
      if prev.Fail? {
        CheckedFailNamesCell(m, dups, n - 1);
        assert r == prev;
      } else if r.Fail? {
        var p := FirstEligible(m[n - 1], prev.value.used, dups, 0, n - 1);
        assert p > n - 1;
        assert r.error.cell == n - 1;
      }
    }
  }

  /** The corrected resolution never commits a key more than `dups` times. */
  lemma CheckedWithinCap(m: seq<seq<TileScore>>, dups: int, n: nat, key: int)
    requires n <= |m| && Shaped(m) && RowsSorted(m) && dups >= 1
    ensures ResolveChecked(m, dups, n).Ok? ==> Committed(ResolveChecked(m, dups, n).value.choices, key) <= dups
  {
    CheckedAgrees(m, dups, n);
    CommittedWithinCap(m, dups, n, key);
  }

  /**
    As written, a cell whose written slots are all at the cap commits the
    never-written placeholder id 0: two cells, cap 1, a single library
    tile 1 scoring `s` for both cells.  The corrected resolution reports
    cell 1 as exhausted.
   */
  lemma PlaceholderCommitted(s: int)
    requires s < INT_MAX
    ensures var a := TileScore(s, 1);
      var m := [[a], [a, Unset]];
      && StoreInv(m, 1)
      && Resolve(m, 1, 2).choices == [Choice(1, true), Choice(0, true)]
      && ResolveChecked(m, 1, 2) == Fail(ResolutionExhausted(1))
  {
    var a := TileScore(s, 1);
    var m := [[a], [a, Unset]];
    assert Resolve(m, 1, 1).used == map[1 := 1];
    assert ResolveChecked(m, 1, 0) == Ok(Resolution([], map[]));
    assert FirstEligible(m[0], map[], 1, 0, 0) == 0;
    assert Bump(map[], Key(1)) == map[1 := 1];
    assert [] + [Choice(1, true)] == [Choice(1, true)];
    assert ResolveChecked(m, 1, 1) == Ok(Resolution([] + [Choice(1, true)], Bump(map[], Key(1))));
  }

  /**
    As written, a cell whose slots are all at the cap prints slot `i`
    uncounted, so a tile can appear more than `dups` times: two cells, cap
    1, tile 1 (scoring `s`) and its mirror -1 (scoring `t`, no better)
    share key 1, and both cells print key 1.
   */
  lemma ExhaustedExceedsCap(s: int, t: int)
    requires s <= t < INT_MAX
    ensures var a, b := TileScore(s, 1), TileScore(t, -1);
      var m := [[a], [a, b]];
      && StoreInv(m, 1)
      && Resolve(m, 1, 2).choices == [Choice(1, true), Choice(-1, false)]
      && Key(1) == Key(-1)
      && ResolveChecked(m, 1, 2) == Fail(ResolutionExhausted(1))
  {
    var a, b := TileScore(s, 1), TileScore(t, -1);
    var m := [[a], [a, b]];
    assert Resolve(m, 1, 1).used == map[1 := 1];
    assert ResolveChecked(m, 1, 0) == Ok(Resolution([], map[]));
    assert FirstEligible(m[0], map[], 1, 0, 0) == 0;
    assert Bump(map[], Key(1)) == map[1 := 1];
    assert [] + [Choice(1, true)] == [Choice(1, true)];
    assert ResolveChecked(m, 1, 1) == Ok(Resolution([] + [Choice(1, true)], Bump(map[], Key(1))));
  }

  /** The printed lines with the corrected resolution; the fast path is unchanged. */
  function CheckedOutput(cells: seq<Tile>, m: seq<seq<TileScore>>, dups: int): (r: Result<seq<OutRow>>)
    requires |m| == |cells| && Shaped(m)
    ensures r.Ok? ==> |r.value| == |cells|
  {
    var n := |cells|;
    if n == dups then Ok(Output(cells, m, dups))
    else
      var rc := ResolveChecked(m, dups, n);
      if rc.Fail? then Fail(rc.error)
      else Ok(seq(n, i requires 0 <= i < n => OutRow(cells[i].imageID, cells[i].yDelta, rc.value.choices[i].id)))
  }

  /** How many printed lines show a tile under key `key`. */
  function Printed(out: seq<OutRow>, key: int): (c: nat)
    ensures c <= |out|
  {
    if |out| == 0 then 0
    else Printed(out[..|out| - 1], key) + (if Key(out[|out| - 1].id) == key then 1 else 0)
  }

  /** When every choice is committed and printed in order, printing counts what committing counts. */
  lemma {:induction false} PrintedCommitted(out: seq<OutRow>, choices: seq<Choice>, key: int)
    requires |out| == |choices|
    requires forall i :: 0 <= i < |out| ==> choices[i].committed && out[i].id == choices[i].id
    ensures Printed(out, key) == Committed(choices, key)
  {
    if |out| > 0 {
      PrintedCommitted(out[..|out| - 1], choices[..|choices| - 1], key);
    }
  }

  /**
    The corrected output, when it succeeds, prints what the output as
    written prints, and then no tile appears under one key more than
    `dups` times.
   */
  lemma CheckedOutputSound(cells: seq<Tile>, m: seq<seq<TileScore>>, dups: int, key: int)
    requires |m| == |cells| && Shaped(m) && RowsSorted(m) && dups >= 1
    ensures var r := CheckedOutput(cells, m, dups);
      r.Ok? ==> r.value == Output(cells, m, dups) && Printed(r.value, key) <= dups
  {
    var n := |cells|;
    var r := CheckedOutput(cells, m, dups);
    if n != dups && r.Ok? {
      CheckedAgrees(m, dups, n);
      CheckedSound(m, dups, n);
      CheckedWithinCap(m, dups, n, key);
      PrintedCommitted(r.value, ResolveChecked(m, dups, n).value.choices, key);
    }
  }
}
