# Tetris game engine and high-score table, modelled in Dafny

This project models the game-state engine of the C Tetris in `tetris.c`:
- the 24 × 16 integer playfield `gPlayfield`;
- the falling `Piece` records: shape, position, velocity, 4 × 4 matrix and landed flag;
- the collision scan, the two quarter turns, and input handled as velocity;
- the move that resolves the column first and then the row;
- writing a piece into the playfield and erasing it again;
- the in-place compaction that drops full rows;
- `piece_spawn`;
- score, level and fall-rate arithmetic;
- one pass of the main loop.

It also models the high-score program `c_version/scores2.c`. That program splits each `name;score` line with `strtok` and `atoi` into one of ten `Score` records, then sorts the records in place with a descending insertion sort.

The model has two layers:
- **Meaning as values.** Pure functions on values give the meaning of each operation. `Board.Added`, `Board.Dropped`, `Pieces.Moved`, `GameLoop.Step`, `HighScores.ParseAll` and `HighScores.InsertionSorted` are examples.
- **The code's own form.** The C code mutates a global array, `Piece` records and an array of `Score` records. That code becomes:
  - methods on `array2<int>`;
  - a `Piece` class;
  - a `Game` class holding `main`'s state;
  - methods on `array<Score>`.

  Each method's contract ties the new state to the value-level function. Lemmas prove what the code promises about those functions: rotations are inverses, compaction keeps the rows that are not full in order, the sort is descending, a permutation and stable, and formatting a record and parsing it back gives the same record.

Modules (one file each):
- `Shapes` (shapes.dfy): piece matrices, rotations, the seven catalog pieces.
- `Board` (board.dfy): the playfield as a value, collision, footprint, compaction.
- `Pieces` (pieces.dfy): piece state, events, movement, and class `Piece`.
- `Playfield` (playfield.dfy): the in-place playfield operations.
- `Progression` (progression.dfy): score, level and fall rate.
- `GameLoop` (game_loop.dfy): one pass of the main loop, and class `Game`.
- `HighScores` (high_scores.dfy): the line parser and the insertion sort.

In two places the code does less than one might expect, and the model follows the code:
- **Collision above the top row.** One might expect the cells of a piece above row 0 never to collide. `piece_collided` (tetris.c:316-333) instead reads `gPlayfield[i + posy]` without checking the row. The model therefore keeps `posy >= 0` as an invariant of every piece, together with `vely >= 0`, which is what maintains it.
- **The fall-rate floor.** `level_timer_ticks` (tetris.c:288-294) has a branch that returns a 50 ms floor once the delay goes negative. The code computes the delay in `uint32_t`, so that branch is never taken. The game loop is modelled with the delay as written; see Findings.

## Model

| member | source | states |
|---|---|---|
| Shapes.Clockwise | tetris.c:432-445 | the turned matrix is again a 0/1 4×4 matrix, and the cell at (i, j) moves to (j, 3 - i) |
| Shapes.Anticlockwise | tetris.c:416-429 | the turned matrix is again a 0/1 4×4 matrix, and the cell at (i, j) moves to (3 - j, i) |
| Shapes.AnticlockwiseUndoesClockwise | tetris.c:356-359 | an anticlockwise turn restores the matrix exactly after a clockwise one (the undo of a rejected `w`) |
| Shapes.ClockwiseUndoesAnticlockwise | tetris.c:351-354 | a clockwise turn restores the matrix exactly after an anticlockwise one (the undo of a rejected `q`) |
| Shapes.FourClockwiseIsIdentity | tetris.c:432-445 | four clockwise turns give back the original matrix |
| Shapes.ClockwiseKeepsOccupiedCount | tetris.c:432-445 | a clockwise turn maps the occupied cells one-to-one onto the turned cells, so their number is unchanged |
| Shapes.AnticlockwiseKeepsOccupiedCount | tetris.c:416-429 | an anticlockwise turn keeps the number of occupied cells |
| Shapes.Catalog | tetris.c:84-180 | each of the seven catalog pieces I, J, L, O, S, T, Z is a 0/1 4×4 matrix |
| Board.Blocked | tetris.c:322-325 | a piece cell at (row, col) is rejected exactly when col < 0, col ≥ 16, row ≥ 24, or the playfield cell there is not 0 (row ≥ 0 is required, as the code reads the row unchecked) |
| Board.Collides | tetris.c:316-333 | a piece collides exactly when some cell with matrix value 1 is blocked at its playfield position; `Piece.Collided` is proved to return exactly this |
| Board.Added | tetris.c:448-463 | the playfield after a write: the shape id in each cell under a 1-cell of the matrix, every other cell as before; the result is again 24 × 16 |
| Board.Removed | tetris.c:556-571 | the playfield after an erase: 0 in each cell under a 1-cell of the matrix, every other cell as before; the result is again 24 × 16 |
| Board.RowFull | tetris.c:480-487 | a row is full exactly when none of its cells is 0 |
| Board.RemoveUndoesAdd | tetris.c:736-749 | if the piece does not collide, erasing it after writing it leaves the playfield exactly as before |
| Board.AddedInRange | tetris.c:448-463 | writing a piece with shape id 1..7 keeps every cell 0 or a shape id |
| Board.AddedOnlyTouchesSpan | tetris.c:452-457 | writing a piece changes no row outside the four rows its matrix spans |
| Board.FullRows | tetris.c:479-491 | the recorded full rows are at most as many as the rows scanned |
| Board.FullRowsEntries | tetris.c:479-491 | each recorded index is a full row, and the indices run bottom-up in strictly decreasing order |
| Board.FullRowsPrefix | tetris.c:479-491 | the full rows at or below a row come first in the record, and later entries lie above it |
| Board.Kept | tetris.c:523-539 | each row from lo down is either full or kept, so the kept rows plus the full rows number all of them |
| Board.KeptSuffix | tetris.c:523-539 | the rows kept from a lower start are the tail of those kept from a higher start |
| Board.KeptNotFull | tetris.c:523-539 | every kept row is a row of the playfield that is not full |
| Board.ZeroRow | tetris.c:532-533 | an empty row has WIDTH zero cells |
| Board.EmptyGrid | tetris.c:276-280 | the initial playfield is 24 × 16 with every cell 0 |
| Board.EmptyGridClean | tetris.c:276-280 | the empty playfield is in range and has no full row |
| Board.Dropped | tetris.c:466-542 | compaction keeps the number of rows |
| Board.DroppedMovesRow | tetris.c:525-539 | a row that is not full moves down by exactly the number of full rows below it, unchanged |
| Board.DroppedTopRowsEmpty | tetris.c:532-533 | the top nrows rows after compaction are empty |
| Board.DroppedIsGrid | tetris.c:466-542 | compaction yields a 24 × 16 playfield |
| Board.DroppedIsClean | tetris.c:466-542 | after compaction every cell is still in range and no full row remains |
| Board.KeptAllRows | tetris.c:510-512 | with no full row from lo down, every row from lo down is kept |
| Board.DroppedWithoutFullRows | tetris.c:510-512 | with no full row the playfield is unchanged |
| Board.NoFullRowsCount | tetris.c:479-492 | a playfield without full rows records none |
| Board.FullRowsWithinSpan | tetris.c:479-491 | when only the rows a piece spans can be full, at most four are recorded |
| Board.AtMostFourFullRows | tetris.c:739-741 | writing one piece into a playfield without full rows makes at most four rows full, so nrows is a valid index into POINTS |
| Pieces.TryTurn | tetris.c:351-360 | a rotation key keeps the turned matrix only if it does not collide, else restores the original; nothing else changes |
| Pieces.Handle | tetris.c:336-382 | presses and releases change only the velocity, by at most one; rotation keys change only the matrix; a Down release clamps vely at 0; vely stays ≥ 0 and position, shape and landed are untouched |
| Pieces.ReleaseUndoesPress | tetris.c:342-379 | releasing Down, Left or Right after pressing it restores the piece exactly |
| Pieces.LeftAndRightCancel | tetris.c:345-350 | pressing Left and Right together, in either order, leaves the horizontal velocity as it was |
| Pieces.HandleAll | tetris.c:712-717 | handling a frame's events in order keeps the piece valid and leaves position, shape and landed alone |
| Pieces.StepAcross | tetris.c:386-391 | the horizontal step keeps the piece valid |
| Pieces.StepDown | tetris.c:392-400 | the vertical step keeps the piece valid, and so posy ≥ 0 |
| Pieces.Moved | tetris.c:385-401 | the column step is taken unless it collides; then the row step is taken unless it collides, and a rejected row step sets landed; a piece that did not collide does not collide afterwards |
| Pieces.MovedAtRest | tetris.c:385-401 | a piece at rest that does not collide stays put |
| Pieces.Descended | tetris.c:723-727 | the timed descent moves the piece down by vely + 1 rows or not at all, and restores the velocity |
| Pieces.Spawned | tetris.c:404-413 | spawning resets position to (6, 0), velocity to 0 and landed to false, keeping the shape and the possibly turned matrix |
| Pieces.Piece.constructor | tetris.c:84-96 | a catalog record: the given shape and matrix, at the origin, at rest, with a fresh matrix array |
| Pieces.Piece.Collided | tetris.c:316-333 | the scan reports a collision exactly when some occupied cell is left or right of the playfield, below its last row, or on a nonzero cell |
| Pieces.Piece.Store | tetris.c:423-427 | the copy back from the temporary array leaves the piece's matrix equal to it |
| Pieces.Piece.RotateClock | tetris.c:432-445 | the matrix is replaced by its clockwise turn, and the result is whether the turned piece collides |
| Pieces.Piece.RotateAnticlock | tetris.c:416-429 | the matrix is replaced by its anticlockwise turn, and the result is whether the turned piece collides |
| Pieces.Piece.HandleEvent | tetris.c:336-382 | the record's new state is `Handle` of its old state |
| Pieces.Piece.Spawn | tetris.c:404-413 | the record's new state is `Spawned` of its old state |
| Pieces.Piece.MoveAcross | tetris.c:386-391 | the record's new state is `StepAcross` of its old state |
| Pieces.Piece.MoveDown | tetris.c:392-400 | the record's new state is `StepDown` of its old state |
| Pieces.Piece.Move | tetris.c:385-401 | the record's new state is `Moved` of its old state |
| Pieces.Piece.Descend | tetris.c:723-727 | the record's new state is `Descended` of its old state |
| Playfield.Clear | tetris.c:276-280 | the playfield afterwards is the empty grid |
| Playfield.AddPiece | tetris.c:448-463 | the playfield afterwards is `Added`: the shape id in every cell under a 1-cell of the matrix, every other cell unchanged |
| Playfield.RemovePiece | tetris.c:556-571 | the playfield afterwards is `Removed`: 0 in every cell under a 1-cell of the matrix, every other cell unchanged |
| Playfield.IsRowFull | tetris.c:480-487 | the early-exit scan reports exactly whether the row has no zero cell |
| Playfield.FillRow | tetris.c:531-538 | row i receives row k, or zeros once k < 0, and no other row changes |
| Playfield.RecordFullRows | tetris.c:472-492 | full_rows holds the full rows' indices bottom-up, followed by the sentinel -99; nrows is their number |
| Playfield.Compact | tetris.c:523-539 | the in-place i/k/ptr walk leaves exactly the compacted grid `Dropped` |
| Playfield.SkipFullRows | tetris.c:527-530 | the skip loop stops with k = i - ptr, on a row that is not the next recorded full row, with ptr counting the full rows below k (those with a greater index) |
| Playfield.DropFullRows | tetris.c:466-542 | the result is the number of full rows, and the playfield afterwards is `Dropped` of the old one |
| Playfield.SkipFullRow | tetris.c:527-530 | skipping the next recorded full row counts it among the full rows from k on |
| Playfield.NextRowKept | tetris.c:527-531 | where the skip loop stops on an existing row, that row is not full |
| Playfield.SourceRow | tetris.c:525-539 | where the skip loop stops, row i of the compacted grid is source row k, or empty once k < 0 |
| Progression.UpdateScore | tetris.c:682-684 | no rows score 0; from level 1, n rows score at least 50·n and four rows at least 1000 |
| Progression.UpdateScoreMonotone | tetris.c:682-684 | clearing more rows at once never earns fewer points |
| Progression.UpdateLevel | tetris.c:674-679 | the level only rises once at least twelve rows are cleared |
| Progression.RowsIntoLevel | tetris.c:678 | the position within the current block of twelve is below twelve |
| Progression.RowsIntoLevelIsRemainder | tetris.c:678 | it equals total_rows % 12 for a total that is not negative |
| Progression.UpdateLevelWindow | tetris.c:674-679 | update_level is true exactly when the total lies within 12k .. 12k + 3 for some k ≥ 1 |
| Progression.CrossingRaisesLevel | tetris.c:739-744 | a landing of one to four rows that crosses a multiple of twelve always raises the level |
| Progression.U32 | tetris.c:289 | the uint32_t conversion yields 0 .. 2^32 - 1, is the identity there, and adds 2^32 to small negative values |
| Progression.LevelTimerTicksAsWritten | tetris.c:288-294 | as written, the delay is 1000 - (level - 1)·100 ms for levels 1..11 and is never below 0 |
| Progression.LevelTimerTicksWraps | tetris.c:289-291 | as written, from level 12 on the delay wraps to 2^32 + 1000 - (level - 1)·100 ms |
| Progression.LevelTwelveAsWritten | tetris.c:288-294 | as written, level_timer_ticks(12) is 4294967196, not 50 |
| Progression.LevelTimerTicks | tetris.c:288-294 | the delay is 1000 - (level - 1)·100 ms for levels 1..11 and 50 ms from level 12 on |
| Progression.DescentDue | tetris.c:720 | a timed descent is due exactly when the game timer exceeds the delay as the code computes it, in `uint32_t` |
| Progression.DescentWithinOneSecond | tetris.c:288-294 | with the corrected delay, more than a second on the game timer always exceeds the delay, at every level |
| Progression.NoDescentAsWritten | tetris.c:720 | with the delay as written, at a level l from 12 on, no descent is due while the timer is at most 2^32 + 1000 - (l - 1)·100 ms: 4294967196 ms, about 49.7 days, at level 12 |
| GameLoop.CatalogPiece | tetris.c:703 | slot k starts as a valid piece with shape k + 1 that has not landed |
| GameLoop.CatalogSlots | tetris.c:703 | the pieces array starts as the seven catalog pieces in order |
| GameLoop.Initial | tetris.c:695-704 | the loop starts on an empty playfield, with score 0, level 1, total 0, the catalog pieces and slot r spawned as current |
| GameLoop.AfterEvents | tetris.c:712-717 | the event loop changes only the current piece, and keeps the state consistent |
| GameLoop.AfterDescent | tetris.c:719-728 | the descent block changes only the current piece |
| GameLoop.AfterMove | tetris.c:730 | the move changes only the current piece, and a piece that has not landed does not collide afterwards |
| GameLoop.Counted | tetris.c:739-744 | the total grows by nrows and the score by level·POINTS[nrows]; the level rises by exactly one iff nrows ≠ 0 and update_level holds for the new total |
| GameLoop.Respawned | tetris.c:745 | slot r becomes current and is spawned; every other slot, the playfield and the counters are unchanged |
| GameLoop.Settled | tetris.c:736-749 | the bookkeeping leaves a state that keeps every invariant: cells in range, no full row, valid pieces, a current piece that has not landed |
| GameLoop.Step | tetris.c:708-749 | one pass preserves the loop invariant |
| GameLoop.StepWithoutLanding | tetris.c:747-749 | a pass whose piece does not land leaves the playfield, the counters and the current slot as they were; only the piece moves |
| GameLoop.StepWithLanding | tetris.c:738-746 | a pass whose piece lands drops the n ≤ 4 full rows it makes, adds n to the total and level·POINTS[n] to the score, raises the level iff n ≠ 0 and update_level holds, and spawns slot r |
| GameLoop.SettledWhenLanded | tetris.c:738-746 | the landing bookkeeping, stated on the state before it |
| GameLoop.StepCountersGrow | tetris.c:738-746 | score and level never decrease, the level rises by at most one, and the total grows by at most four per pass |
| GameLoop.LandingWithoutClearKeepsPiece | tetris.c:736-746 | a landing that completes no row leaves the piece's cells written into the playfield |
| GameLoop.NewPieces | tetris.c:703 | the pieces array: seven fresh, distinct, valid records in catalog order |
| GameLoop.NewPiecesFrom | tetris.c:703 | entries k..6 of the pieces array: fresh, distinct, valid, each holding its catalog piece |
| GameLoop.Game.constructor | tetris.c:695-705 | the game state afterwards is `Initial(r)`, and it satisfies the loop invariant |
| GameLoop.Game.InitialIsValid | tetris.c:695-705 | the initial state satisfies the loop invariant |
| GameLoop.Game.SlotsAreCatalog | tetris.c:703 | seven records in their catalog state make up the catalog slots |
| GameLoop.Game.HandleEvents | tetris.c:712-717 | the state afterwards is `AfterEvents`, and quit is set exactly when a quit request was among the events |
| GameLoop.Game.TimedDescent | tetris.c:719-728 | the state afterwards is `AfterDescent`, and the timer restarts exactly when the descent was due |
| GameLoop.Game.DescendCurrent | tetris.c:723-727 | only the current piece takes the timed descent |
| GameLoop.Game.MovePiece | tetris.c:730 | the state afterwards is `AfterMove` |
| GameLoop.Game.Settle | tetris.c:736-749 | the state afterwards is `Settled`, and it satisfies the loop invariant |
| GameLoop.Game.SettleLanded | tetris.c:738-746 | for a landed piece, the state afterwards is `Settled` |
| GameLoop.Game.ClearRows | tetris.c:736-740 | nrows is the number of full rows once the piece is written (at most four), and the playfield is then compacted |
| GameLoop.Game.Count | tetris.c:740-744 | the counters afterwards are `Counted` |
| GameLoop.Game.SpawnNext | tetris.c:745 | the state afterwards is `Respawned` on slot r |
| GameLoop.Game.Lift | tetris.c:736-748 | writing and then erasing a piece that does not collide leaves the playfield as it was |
| GameLoop.Game.Tick | tetris.c:708-749 | one pass leaves exactly `Step` of the old state, keeps the loop invariant, reports a quit request and reports whether the game timer restarts |
| HighScores.UpToNul | c_version/scores2.c:39 | the C string in a buffer is no longer than the buffer |
| HighScores.UpToNulIsCString | c_version/scores2.c:39 | it is the prefix up to the first NUL and holds no NUL |
| HighScores.SkipDelims | c_version/scores2.c:40 | strtok's scan for a token start stops at a character that is not ';' |
| HighScores.SkipDelimsSkipsDelims | c_version/scores2.c:40 | everything skipped before a token is ';' |
| HighScores.TokenEnd | c_version/scores2.c:40 | the end of a token lies between its start and the end of the line |
| HighScores.TokenEndStopsAtDelim | c_version/scores2.c:40 | a token runs up to the first ';' or the end |
| HighScores.Strtok | c_version/scores2.c:40-42 | a token is non-empty, and the next call resumes past it |
| HighScores.StrtokTokens | c_version/scores2.c:40-42 | strtok returns NULL exactly when only ';' remain, and a token never holds ';' |
| HighScores.LeadingSpaces | c_version/scores2.c:43 | the white space atoi skips lies within the string |
| HighScores.LeadingSpacesStop | c_version/scores2.c:43 | atoi skips exactly the leading white space |
| HighScores.DigitRun | c_version/scores2.c:43 | the digits atoi reads lie within the string |
| HighScores.DigitRunStops | c_version/scores2.c:43 | atoi reads exactly the run of digits that follows |
| HighScores.DigitsValue | c_version/scores2.c:43 | the decimal value of a run of digits, most significant first, as atoi accumulates it |
| HighScores.DigitsValueNotNegative | c_version/scores2.c:43 | the value of a run of digits is not negative |
| HighScores.Atoi | c_version/scores2.c:43 | atoi: leading white space skipped, an optional sign, then the value of the digits that follow (0 when there are none) |
| HighScores.ParseLine | c_version/scores2.c:38-44 | a line that splits yields a name of 1..10 characters and a score within uint32_t |
| HighScores.Digit | c_version/scores2.c:23 | the `%d` of the writer in the commented-out block at c_version/scores2.c:14-28, modelled only as the partner of the round-trip proof: printf's digit for 0..9 is a digit character with that value |
| HighScores.Decimal | c_version/scores2.c:23 | the `%d` of the writer in the commented-out block at c_version/scores2.c:14-28, modelled only as the partner of the round-trip proof: `%d` of a value that is not negative is a non-empty run of digits |
| HighScores.Signed | c_version/scores2.c:23 | the `%d` of the writer in the commented-out block at c_version/scores2.c:14-28, modelled only as the partner of the round-trip proof: a minus sign before the digits of a negative value; never empty |
| HighScores.AsInt32 | c_version/scores2.c:23 | the `%d` of the writer in the commented-out block at c_version/scores2.c:14-28, modelled only as the partner of the round-trip proof: a uint32_t printed with `%d` is the int32 with the same bits, and converts back to the same uint32_t |
| HighScores.FormatLine | c_version/scores2.c:23 | the line the commented-out writer at c_version/scores2.c:14-28 prints, modelled only as the partner of the round-trip proof: a written line ends in a newline |
| HighScores.DigitsValueOfDecimal | c_version/scores2.c:43 | the digits `%d` writes read back as the same value |
| HighScores.DigitRunOfDigits | c_version/scores2.c:43 | atoi reads a whole run of digits |
| HighScores.AtoiOfSigned | c_version/scores2.c:43 | atoi reads back what `%d` writes, negative values included |
| HighScores.AtoiOfDigits | c_version/scores2.c:43 | atoi of a run of digits is its value |
| HighScores.AtoiOfNegative | c_version/scores2.c:43 | atoi of a minus sign and digits is minus their value |
| HighScores.SplitFormatted | c_version/scores2.c:40-42 | the two strtok calls on a written line give back its name and digits |
| HighScores.UpToNulWithoutNul | c_version/scores2.c:39 | a buffer without NUL is its own C string |
| HighScores.TokenEndAt | c_version/scores2.c:40 | a token ends exactly at the first ';' |
| HighScores.ParseFormatLine | c_version/scores2.c:38-44 | the parse inverts the commented-out writer at c_version/scores2.c:14-28: a record with a writable name parses back from the line written for it, for every uint32_t score |
| HighScores.SignedHasNoSeparator | c_version/scores2.c:23 | the `%d` of the writer in the commented-out block at c_version/scores2.c:14-28, modelled only as the partner of the round-trip proof: `%d` writes neither ';' nor NUL |
| HighScores.AllPresent | c_version/scores2.c:38-44 | when every line splits, there is one record per line |
| HighScores.AllPresentAt | c_version/scores2.c:38-44 | record k is what entry k holds |
| HighScores.AllPresentFails | c_version/scores2.c:38-44 | one line that does not split fails the whole run |
| HighScores.AllPresentOf | c_version/scores2.c:38-44 | entries that each hold a value give exactly those values |
| HighScores.AllPresentFailsOnward | c_version/scores2.c:38-44 | a failure among the first k lines fails the whole run |
| HighScores.AllPresentExtend | c_version/scores2.c:38-44 | one more line that splits extends the records by its record |
| HighScores.SplitLines | c_version/scores2.c:38-44 | there is one result per line |
| HighScores.SplitLinesAt | c_version/scores2.c:38-44 | result k is what line k splits into |
| HighScores.ParseAll | c_version/scores2.c:38-44 | a run of lines that parses yields one record per line |
| HighScores.ParseAllSplitsEveryLine | c_version/scores2.c:38-44 | the lines parse iff every line splits, and then record k is what line k splits into |
| HighScores.LineResults | c_version/scores2.c:38-44 | the per-line results, line by line |
| HighScores.LoadScores | c_version/scores2.c:38-44 | ok iff every line splits; then scores[0..n) holds the parsed records, and the rest of the array is untouched either way |
| HighScores.StoreLine | c_version/scores2.c:39-43 | line i's record is stored at scores[i] when it splits, and the later entries are untouched |
| HighScores.Insert | c_version/scores2.c:49-53 | one pass of the outer loop adds exactly one record |
| HighScores.InsertionSorted | c_version/scores2.c:48-54 | the sort keeps the number of records |
| HighScores.InsertPermutes | c_version/scores2.c:49-53 | an insertion adds the key and loses or duplicates nothing |
| HighScores.InsertionSortedPermutes | c_version/scores2.c:48-54 | the sort is a permutation of the records: names travel with their scores |
| HighScores.InsertAt | c_version/scores2.c:50-53 | where the inner loop stops, the key lands at j + 1, the records before stay, and the lower ones after it move right by one |
| HighScores.InsertAbove | c_version/scores2.c:50-53 | a lower bound on every score survives an insertion |
| HighScores.InsertKeepsDescending | c_version/scores2.c:50-53 | inserting into a descending prefix keeps it descending |
| HighScores.InsertionSortedIsDescending | c_version/scores2.c:48-54 | after the sort the scores are non-increasing |
| HighScores.WithScore | c_version/scores2.c:50 | the records with a given score, in order, all have that score |
| HighScores.WithScoreAppend | c_version/scores2.c:50 | picking the records of one score distributes over concatenation |
| HighScores.InsertKeepsTies | c_version/scores2.c:50 | because the shift uses strict `<`, the key goes behind every record with its score |
| HighScores.InsertionSortedIsStable | c_version/scores2.c:48-54 | the sort is stable: for every score, the records with that score keep their order |
| HighScores.SortScores | c_version/scores2.c:48-54 | the array afterwards is the insertion sort of its old contents; after pass i the prefix scores[0..i] is sorted |
| HighScores.InsertionSortedStep | c_version/scores2.c:48-49 | sorting one more record inserts it into the sorted prefix |
| HighScores.InsertKey | c_version/scores2.c:49-53 | one outer pass leaves scores[0..i] as the key inserted into the sorted prefix, and the rest unchanged |
| HighScores.PlacedIsInsert | c_version/scores2.c:51-53 | the records shifted right with the key stored at j + 1 are exactly the insertion |
| HighScores.ShiftLower | c_version/scores2.c:50-52 | the inner loop ends with j ≥ -1; records below the key's score between j + 1 and i - 1 moved right by one; scores[j], if any, is at least the key's |
| HighScores.LoadAndSort | c_version/scores2.c:38-54 | ok iff every line splits, and then the array is the sort of the parsed records followed by the rest of the array |

## Left out

- SDL window, renderer, textures, fonts and text drawing (`initialize` apart from clearing the playfield, `close_all`, `load_media`, `texture_*`, `playfield_render`, the info texts): library plumbing with no game state.
- Audio (`Mix_PlayChannel` in `piece_move` and `playfield_drop_full_rows`): no effect on the state.
- Timers and the frame cap: the time on the game timer is the input `elapsed` of `GameLoop.Game.Tick`, and restarting the timer is its output `restart`.
- `rand()` in `piece_spawn`: the chosen slot is the input `r`.
- `SDL_PollEvent` and `SDL_Event`: a frame's events are a sequence of the `Event` datatype. A quit request is reported as `quit`; the loop ends after that pass.
- `playfield_print`: console output only.
- Game over: the code has none, so the model has none.
- `Progression.UpdateScore` and `GameLoop.Counted`: the int score, level and total are unbounded; C's signed overflow after some 2^31 points is not modelled.
- `Pieces.Handle`: velx and vely are unbounded ints; their overflow after about 2^31 key events is not modelled.
- `HighScores.LoadScores`: at most ten lines, each at least one character long (the program has no bound, and writes past the array beyond ten lines).
- `HighScores.ParseLine`: the name stops at the end of the token and keeps at most ten characters. `memcpy` always copies ten bytes: from a shorter token it copies the NUL strtok wrote and then reads past it. The program's field lacks a NUL only for tokens of ten or more characters.
- `HighScores.ParseLine`: a line where strtok returns NULL gives None; the program hands NULL to `memcpy` or `atoi`, which is undefined.
- `HighScores.Atoi`: the digits are read as an unbounded integer; `atoi`'s undefined behaviour on out-of-range values is not modelled. The result is then reduced modulo 2^32, as the assignment to a `uint32_t` does.
- File handling (`fopen`, `getline`, `malloc`, `free`) and the final `printf` loop of scores2.c: the lines are an input; the unfilled array entries are whatever the array held.
- src/main.py and c_version/scores.c are not part of this model: one is a tkinter prototype, the other raw binary file I/O.

## Findings

| source | as written | input that shows it | evidently intended | confidence | as-written member | corrected member |
|---|---|---|---|---|---|---|
| tetris.c:288-294 | the delay is computed into a `uint32_t`, so `ticks < 0` is never true and the 50 ms floor is dead | level 12: 1000 - 11·100 = -100 wraps to 4294967196 ms, about 49.7 days between timed descents (`NoDescentAsWritten`) | a signed delay with a floor of 50 ms from level 12 on | not executed | Progression.LevelTwelveAsWritten | Progression.LevelTimerTicks |
