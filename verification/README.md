# pmosaic matching core in Dafny

A model of the photo-mosaic engine of pmosaic, with proofs about it.

The engine reads a target image already cut into grid cells. Each cell is a
tile record of 64 blocks, and each block holds luma, two chroma components
and an edge value. The engine then streams a database of library tile
records.

- **Matching.** Each library record is scored against every cell, and
  optionally once more as a vertically mirrored variant. The score is then
  offered to that cell's ranking row. A ranking row is a bounded, sorted
  window of the best candidates seen so far.
- **Resolution.** After the stream ends, a duplicate resolver picks one
  tile per cell in cell order. A usage counter keyed by the unsigned tile
  identity enforces the reuse cap `dups`.
- **Filter.** The companion tool `filterdb` copies a tile database and
  drops every record that lies within a score threshold of one of the
  previous `lastnum` records. It keeps those records in a ring buffer.

Modules, one per file:

- `Tiles` (tiles.dfy): records, constants and errors (src/mosaic.h).
- `Scoring` (scoring.dfy): the block-wise distance score.
- `Ranking` (ranking.dfy): the ranking matrix and its bounded insertion.
- `Flip` (flip.dfy): the mirrored variant of a library tile.
- `Matching` (matching.dfy): one library record offered to all cells, and
  the record loop as a fold.
- `Resolver` (resolver.dfy): the duplicate resolver, as written and
  corrected.
- `Mosaic` (mosaic.dfy): the program end to end.
- `FilterDb` (filterdb.dfy): the duplicate filter.
- `Arith` (arith.dfy): helper facts about division and remainder.

Four loops of the C code have a Dafny method with the same loop structure:
the scorer's four branches (`Scoring.ScoreCell` with its two helpers), the
cell loop with its `dupCount` countdown (`Matching.ProcessLibImg`), the
in-place flip (`Flip.FlipTileVertically`), and the resolver with its fast
path and its scan that stops at the first free key (`Resolver.WriteTiles`
and `Resolver.ScanCell`). Each method is proved equal to a functional
definition, and the properties are proved about that definition. The other
loops are modelled directly as recursive functions. The insertion shift is
`Ranking.Shift`, and minTileScore's loop over the ring is
`FilterDb.MinTileScore`. The record loops of mosaic and filterdb are folds
over the record sequence (`Matching.RunFrom`, `FilterDb.FilterFrom`).

The model follows the code in three places that are easy to misread:

- The window boundary of cell `i` is `i / dups`. The cell loop restarts its
  counter at 0 for every library record, so the boundary depends on the
  cell index. It does not grow with the number of records processed.
- The resolver prints the signed identity of the chosen slot, not its
  absolute value. Only the counter key is unsigned.
- A cell whose scan finds nothing free is not an error. It prints the
  identity of its last slot without counting it. Findings below shows why
  this matters and models the corrected behaviour next to it.

## Model

| member | source | states |
|---|---|---|
| Scoring.ScoreCell | src/mosaic.c:213-262 | All four branches (edge weight set or not, normalised luma or not) compute one score. The edge term vanishes when its weight is 0, and the luma correction vanishes when lumFlag is set. The score is non-negative for non-negative weights. |
| Scoring.ScoreWithEdges | src/mosaic.c:221-242 | The two loops that add the edge term, with normalised or corrected luma, both compute the reference block score. |
| Scoring.ScoreWithoutEdges | src/mosaic.c:243-262 | With the edge weight 0, the two loops that leave the edge term out still compute the reference block score. |
| Scoring.BlockSum | src/mosaic.c:225-259 | The accumulated block terms are non-negative whenever the weights are. |
| Ranking.Window | src/mosaic.c:313 | The window boundary of cell `i` never passes the row's last slot `i`. |
| Ranking.InitScores | src/mosaic.c:154-159 | The initial matrix has `i + 1` slots in row `i`, all holding (INT_MAX, 0). |
| Ranking.InitStoreInv | src/mosaic.c:154-159 | The initial matrix satisfies the store invariant: rows sorted, nothing written past the window. |
| Ranking.PlacePermutes | src/mosaic.c:300-311 | The reference placement adds exactly the new candidate: a permutation of the old entries plus it. |
| Ranking.PlaceOrdered | src/mosaic.c:300-311 | The reference placement puts the candidate after every entry with an equal or lower score and before every higher one. Entries keep their order and the result is sorted. |
| Ranking.Shift | src/mosaic.c:303-309 | The shifting loop leaves every slot above its start untouched and keeps the row length. |
| Ranking.InsertCandidate | src/mosaic.c:300-311 | A candidate scoring at or above the boundary slot leaves the row unchanged. Slots past the window are never touched. |
| Ranking.ShiftPlaces | src/mosaic.c:302-310 | On a sorted prefix the shifting loop is exactly the reference placement into that prefix. |
| Ranking.InsertWindow | src/mosaic.c:300-311 | An accepted candidate turns the window into the old window minus its boundary entry, with the candidate placed in order. As multisets, the new window is the old window without its last entry, plus the candidate. |
| Ranking.InsertKeepsRowInv | src/mosaic.c:300-311 | Insertion keeps the row sorted and unwritten past the window. Slot 0 afterwards scores at most the candidate and at most the old slot 0. |
| Ranking.InsertedWindowBounded | src/mosaic.c:300-311 | After an accepted insertion the window is sorted and no entry in it scores more than the evicted boundary slot. Slot 0 scores at most the candidate and at most the old slot 0. |
| Ranking.PlaceBounded | src/mosaic.c:300-311 | Placing a candidate into a sorted window bounded by some score keeps the window sorted and within that bound. The first entry never gets worse. |
| Ranking.InsertKeepsRowFrom | src/mosaic.c:300-311 | Offering an entry from a candidate set keeps every written slot a member of that set, score and identity together. |
| Flip.Mirror | src/mosaic.c:453-457 | The partner of a block lies in the same grid row, in the mirrored column. |
| Flip.MirrorMirror | src/mosaic.c:453-457 | Mirroring a block position twice gives it back. |
| Flip.FlipSwapsColumns | src/mosaic.c:446-462 | In row `y`, block `x` shows what block `xBlocks-1-x` showed. Blocks past the grid, the tag and the brightness offset stay, and the identity is negated. |
| Flip.FlipInvolution | src/mosaic.c:446-462 | Flipping a tile twice restores it exactly. |
| Flip.FlipKeepsMiddleColumn | src/mosaic.c:449-458 | With an odd number of columns the middle column does not move. |
| Flip.FlipTileVertically | src/mosaic.c:446-462 | The in-place swap loops compute the mirrored tile under the negated identity. |
| Matching.ProcessLibImg | src/mosaic.c:200-316 | The cell loop with its `dupCount` countdown offers the record to cell `i` with boundary `i / dups`, scored by the block scorer. |
| Matching.ProcessLibKeepsInv | src/mosaic.c:213-314 | Offering one record to all cells keeps the store invariant. Every cell's slot 0 afterwards scores at most that record's score for the cell, and at most the old slot 0. |
| Matching.StepKeepsInv | src/mosaic.c:565-571 | One record, and its mirrored variant when enabled, keeps the store invariant and is beaten by each cell's slot 0. |
| Matching.RunFromFailure | src/mosaic.c:552-576 | The record loop succeeds exactly when every remaining record carries TILE_MAGIC. Otherwise it stops at the first wrongly tagged record. |
| Matching.RunFailure | src/mosaic.c:526-576 | The run fails with EmptyDatabase exactly for an empty database. It succeeds exactly when the database is non-empty and every record is tagged, and otherwise names the first bad record. |
| Matching.RunFromKeepsInv | src/mosaic.c:552-576 | The record loop keeps the store invariant, and slot 0 of each cell only improves. |
| Matching.RunFromBeats | src/mosaic.c:552-576 | After the loop, every cell's slot 0 scores at most what any later record, or its mirror when enabled, scores for that cell. |
| Matching.RunKeepsInv | src/mosaic.c:552-576 | After a successful run all rows are sorted and unwritten past their windows. Each cell's slot 0 is at least as good as every library record and, with mirroring, every mirrored record. |
| Matching.Candidates | src/mosaic.c:309-310 | The entries a stream can place in a cell's row are exactly each record's score for the cell beside its identity and, only with mirroring on, each mirrored record's score beside the negated identity. |
| Matching.Origins | src/mosaic.c:461 | The identities a stream can place are exactly the records' identities and, only with mirroring on, their negations. |
| Matching.CandidateOrigin | src/mosaic.c:461 | A candidate entry of any cell carries one of the stream's identities. |
| Matching.ProcessLibKeepsFrom | src/mosaic.c:300-311 | Offering a tile that is a candidate of every cell keeps every written slot a whole candidate of its cell. |
| Matching.StepKeepsFrom | src/mosaic.c:565-571 | A record step places only that record's candidates and, with mirroring on, its mirror's. |
| Matching.RunFromKeepsFrom | src/mosaic.c:552-576 | The record loop places only candidates of the records in the stream. |
| Matching.RunOrigins | src/mosaic.c:552-576 | After a successful run no slot scores above INT_MAX. Every written slot of a cell is a record's score for that cell beside that record's identity, or, with mirroring on, the mirrored record's score beside the negated identity. |
| Resolver.FirstFree | src/mosaic.c:404-429 | The scan stops at a slot whose key is under the cap, and every slot it passed is at the cap. |
| Resolver.Bump | src/mosaic.c:414-426 | Committing a key raises its count by one, or starts it at 1 when absent. It adds only that key and leaves every other count unchanged. |
| Resolver.ResolveCounts | src/mosaic.c:400-432 | The usage counter equals, per key, the number of committed cells, and every count lies between 1 and `dups`. |
| Resolver.CommittedWithinCap | src/mosaic.c:415 | No key is committed by more than `dups` cells. |
| Resolver.ResolvePrefix | src/mosaic.c:400-432 | The choice of a cell depends only on the cells before it. |
| Resolver.ResolveChoice | src/mosaic.c:404-431 | A cell commits iff some slot up to its index has a free key. It then commits the first such slot, and otherwise prints slot `i` uncounted. |
| Resolver.Output | src/mosaic.c:387-432 | One line per cell carries the cell's position and brightness offset. When `dups` equals the number of cells, every cell prints its best slot. |
| Resolver.ScanCell | src/mosaic.c:404-429 | The scan loop with its counter and `break` stops where the resolution of the cell stops, reports the identity last looked at, and leaves the counter as the resolution does. |
| Resolver.WriteTiles | src/mosaic.c:374-439 | The fast-path loop and the per-cell scans print exactly the lines the resolution defines. |
| Resolver.ResolveChecked | src/mosaic.c:404-431 | The corrected resolution either resolves every cell or fails naming a cell. |
| Resolver.FirstEligibleIsFirstFree | src/mosaic.c:404-429 | In a sorted row, an eligible written slot, when one exists, is where the original scan stops. |
| Resolver.CheckedAgrees | src/mosaic.c:400-432 | Whenever the corrected resolution succeeds, it makes exactly the choices of the resolution as written. |
| Resolver.CheckedSound | src/mosaic.c:404-431 | On success every cell commits a written slot of its row. A failure names the first cell with no eligible slot given the cells before it. |
| Resolver.CheckedWithinCap | src/mosaic.c:415 | The corrected resolution never commits a key more than `dups` times. |
| Resolver.PlaceholderCommitted | src/mosaic.c:404-431 | Counterexample: with two cells, cap 1 and one library tile, the scan as written commits the unwritten placeholder id 0. The corrected resolution reports cell 1 as exhausted. |
| Resolver.ExhaustedExceedsCap | src/mosaic.c:404-431 | Counterexample: with cap 1, a tile and its mirror fill cell 1's row. As written, cell 1 prints the same key as cell 0, uncounted. The corrected resolution reports cell 1 as exhausted. |
| Resolver.Printed | src/mosaic.c:431 | The number of printed lines showing a key never exceeds the number of lines. |
| Resolver.PrintedCommitted | src/mosaic.c:404-431 | When every cell commits, the printed lines per key are the committed cells per key. |
| Resolver.CheckedOutputSound | src/mosaic.c:387-432 | When the corrected output succeeds, it equals the output as written, and no key is printed more than `dups` times. |
| Mosaic.Compute | src/mosaic.c:552-596 | A successful run prints one line per grid cell. |
| Mosaic.FastPathPrintsBest | src/mosaic.c:387-395 | With `dups` equal to the number of cells, every cell prints its slot 0. That slot scores at most what any library record or its mirror scores for the cell. When written, it is one record's score for the cell beside that record's identity, or, with mirroring on, the mirror's score beside the negated identity. So the printed tile is at least as good as every record. |
| Mosaic.ComputeCheckedSound | src/mosaic.c:552-596 | The corrected program fails on the same databases as the original. When it succeeds it prints what the original prints, never more than `dups` lines per key. Below the fast path, it prints only library identities or mirrored ones. |
| Mosaic.PlaceholderPrinted | src/mosaic.c:404-431 | From the library stream on: with two cells, one tile with id 1 and cap 1, the program as written prints placeholder id 0 for the second cell. The corrected program reports that cell as exhausted. |
| Mosaic.ExhaustedPrinted | src/mosaic.c:404-431 | From the library stream on: with mirroring, two cells, one tile with id 1 and cap 1, the program as written prints key 1 on both lines. The corrected program reports the second cell as exhausted. |
| FilterDb.BlockDistance | src/filterdb.c:130-132 | One block's distance is at most 66045 when the brightness-offset difference fits two int16 values. |
| FilterDb.DistanceSum | src/filterdb.c:128-133 | The sum over `n` blocks is at most `n` times the largest block distance. |
| FilterDb.TileDistance | src/filterdb.c:127-133 | The distance of two records stays below INT_MAX, so it cannot be mistaken for "no past record". |
| FilterDb.DistanceSumIsBlockSum | src/filterdb.c:115-134 | Block by block, the filter's sum equals the mosaic scorer's sum under weights (1, 1, 0). |
| FilterDb.DistanceIsMosaicScore | src/filterdb.c:108-139 | The filter's distance is the mosaic score with luma weight 1, chroma weight 1, no edge weight and corrected luma, with the past record in the cell's place. |
| FilterDb.DistanceSymmetric | src/filterdb.c:127-133 | The distance is the same whichever record counts as the past one. |
| FilterDb.DistanceSelf | src/filterdb.c:127-133 | A record is at distance 0 from itself. |
| FilterDb.MinTileScore | src/filterdb.c:108-139 | The minimum is INT_MAX exactly when no past slot is validly tagged. Otherwise it is the distance of some tagged slot and at most every tagged slot's distance. |
| FilterDb.EmptyRing | src/filterdb.c:170-173 | The ring starts with `lastnum` zeroed slots, none validly tagged. |
| FilterDb.Push | src/filterdb.c:227-230 | Storing a record keeps the ring size, and the write position stays inside the ring. |
| FilterDb.RingHoldsRecent | src/filterdb.c:223-231 | After `n` records the write position is `n mod lastnum`, each of the last `lastnum` records sits in its slot, and unreached slots are still zeroed. |
| FilterDb.ValidSlotOwner | src/filterdb.c:223-231 | A validly tagged slot holds one of the last `lastnum` records. |
| FilterDb.MinAboveKept | src/filterdb.c:223-225 | If the ring minimum is above the threshold, every one of the previous `lastnum` records is farther than the threshold, so the record survives. |
| FilterDb.KeptMinAbove | src/filterdb.c:223-225 | If the record survives, meaning the threshold is below INT_MAX and every one of the previous `lastnum` records is farther than it, then the ring minimum is above the threshold. |
| FilterDb.KeepDecision | src/filterdb.c:223-225 | The ring minimum is above the threshold exactly when the record survives: the threshold is below INT_MAX and every one of the previous `lastnum` records is farther than the threshold. |
| FilterDb.KeptIndices | src/filterdb.c:233-237 | Among the first `n` records there are at most `n` kept indices, each below `n`. |
| FilterDb.KeptIndicesSound | src/filterdb.c:233-237 | Every kept index belongs to a record that survives the duplicate test. |
| FilterDb.KeptIndicesIncreasing | src/filterdb.c:233-237 | The kept indices are strictly increasing, following the input order. |
| FilterDb.KeptIndicesComplete | src/filterdb.c:233-237 | Every record that survives the duplicate test has its index kept. |
| FilterDb.SurvivorsAreKept | src/filterdb.c:233-237 | The written records are the records at the kept indices, in input order. |
| FilterDb.NoDupesKeepsAll | src/filterdb.c:222-237 | Without duplicate filtering every record is written. |
| FilterDb.RepeatDropped | src/filterdb.c:224-225 | A record identical to one of the previous `lastnum` records is never written. |
| FilterDb.FilterStep | src/filterdb.c:199-238 | One pass of the loop body turns the ring and output left by `i` records into those left by `i + 1`. |
| FilterDb.FilterFromSurvivors | src/filterdb.c:199-239 | From any point, the loop writes the survivors up to the first wrongly tagged record and stops there, or writes all survivors. |
| FilterDb.FilterOutcome | src/filterdb.c:184-239 | An empty database is fatal with nothing written. Otherwise the survivors are written in input order, and a wrongly tagged record stops the run after the survivors before it. |

## Left out

- Input and output are not modelled. This covers reading the CSV target description, reading and writing tile databases, printing the output CSV, progress and timing messages, and `die`. Cells and library records arrive as sequences, and a fatal error is a `Fail` or `Stopped` value.
- A trailing partial record in a database is not modelled. The programs ignore it when they divide the file size by the record size, and it is invisible in a sequence of records.
- The JudyL usage counter is a `map`, and its allocation failure (`PJERR`) is left out.
- Memory allocation and its failures are left out (calloc/malloc of the cell array, ranking rows and ring buffer).
- The flags word is not decoded (bit 0 is lumFlag, bit 1 is vflip). The configuration carries the two booleans directly.
- Command-line parsing is left out. `FilterDb.ValidOptions` states the ranges the parser accepts: a threshold of at least 0 and `lastnum` in 1..999.
- The aspect-ratio filter of filterdb is left out because it works on floating point. The model treats it as switched off.
- C integer overflow is not modelled. Scores, weights and identities are unbounded integers, and negating INT_MIN is not covered. The filter's distance provably fits an int.
- Scoring.ScoreCell: no 32-bit wrap-around of the accumulated score, which can only occur with very large weights.
- The configuration line (src/mosaic.c:494-499) is read without range checks. `Matching.ValidConfig` assumes `dups >= 1` and `xBlocks * yBlocks <= 64`. The code checks neither. With `dups` at most 0 the `dupCount` countdown goes negative and never restarts, so every cell keeps a window of slot 0 only. With more than 64 blocks the scorer reads past the end of a record. Neither behaviour is modelled.
- initArrays' numbering of cells (`imageID = i + 1`) and readTilesFromCSV are left out. The cells are an input.
- The lumFlag branch of minTileScore is dead code (its flag is the constant 0) and is not modelled.
- Left out as debug and dead code: testPrintScores, the commented-out insertion sort and the commented-out allocation blocks.

## Findings

| source | as written | input that shows it | evidently intended | confidence | as-written member | corrected member |
|---|---|---|---|---|---|---|
| src/mosaic.c:404-431 | The scan of cell `i` runs over all slots `0..i`, including slots no library tile was written to. It commits the first slot whose key is under the cap, so an unwritten slot's placeholder id 0 can be committed and printed. | Two cells, `dups` 1, one library tile with id 1 scoring `s` below INT_MAX for both cells. The rows are [(s,1)] and [(s,1), (INT_MAX,0)]. Cell 1 prints id 0; `Mosaic.PlaceholderPrinted` derives this from the library stream. | Only written slots are eligible. A cell without one is a resolution failure. | not executed | Resolver.PlaceholderCommitted | Resolver.ResolveChecked |
| src/mosaic.c:404-431 | When every slot of cell `i` is at the cap, the loop runs out and prints slot `i`'s identity without counting it. That tile then appears more than `dups` times. | Two cells, `dups` 1, vflip on, one tile with id 1 whose mirror scores no better. The rows are [(s,1)] and [(s,1), (t,-1)]. Both cells print key 1; `Mosaic.ExhaustedPrinted` derives this from the library stream. | An exhausted cell is a resolution failure, and no key is printed more than `dups` times. | not executed | Resolver.ExhaustedExceedsCap | Resolver.ResolveChecked |

`Resolver.CheckedSound`, `Resolver.CheckedWithinCap` and `Resolver.CheckedAgrees` prove the corrected resolution's properties. It commits only written slots, never commits a key more than `dups` times, and changes nothing wherever it succeeds. `Mosaic.ComputeCheckedSound` carries them to the whole program.
