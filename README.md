# Tetris rule engine in Dafny

This project models the rule engine of a small SDL Tetris clone (`src/tetris.cpp`):
- the 10 × 22 byte board and its row tests;
- the seven piece templates and the rotation sampler;
- the piece fit test, merge, spawn and soft drop;
- the search for full rows and their removal;
- scoring, levels and gravity speed;
- the per-tick phase machine START → PLAY → LINE → PLAY … → GAMEOVER → START.

Modules:
- `Grid`: `matrix_get`/`matrix_set`, the row tests, and the board read as a sequence of rows.
- `Tetrinos`: the template tables and `tetrino_get`.
- `Placement`: which board cells a piece covers, `check_piece_valid`, and what `merge_piece` writes.
- `Lines`: `find_lines` and the two-cursor compaction `clear_lines`.
- `Scoring`: `compute_points`, `get_lines_for_next_level`, `FRAMES_PER_DROP` and `random_int`.
- `Engine`: the class `Game` (the fields of `Game_State`) with the update functions as methods that change it in place.

The board and the row markers are arrays. The scans and copies over them are loops, each proved against a specification function or predicate on `a[..]`:
- `RowFilled`, `RowEmpty` and `FullMarks` for the scans;
- `ClearedRows` for the compaction: the unmarked rows, in order, packed at the bottom under empty rows;
- `TemplateFits` for the fit test;
- `Stamped`/`MergedInto` for the merge: piece cells take the template value, every other cell keeps its own.

Conventions:
- Time is an integer number of frames of 1/60 s. The drop interval at level `l` is `FRAMES_PER_DROP[min(l, 29)]` frames, and the line highlight lasts 30 frames.
- Every value of `rand()` is a parameter (`roll`, or `draw(k)` for the `k`-th piece spawned within one tick).

Behaviours of the code that the model keeps:
- Left, right and rotate are applied to one tentative copy of the piece, which is checked once. A rotation that does not fit also cancels a sideways move pressed in the same tick.
- `tetrino_get` reads 0 for any rotation outside 0..3. Rotation 4 of the O piece is therefore empty, not rotation 0.
- Gravity is written as a loop, `while (time >= next_drop_time) soft_drop(game);`. Both outcomes of `soft_drop` reschedule gravity from the current time. With time counted in whole frames, the body therefore runs at most once per tick.
- `update_game_line` does not reschedule gravity.
- `compute_points` gives 0 for a clear of more than 4 rows.
- `spawn_piece` does not check that the new piece fits. The game ends only when the top row holds a block after a play tick, and that test wins over a line clear found in the same tick.
- The row markers are not reset when a new game starts.
- `start_level` has no upper bound.

## Model

| member | source | states |
|---|---|---|
| Grid.MatrixGet | src/tetris.cpp:188-193 | the cell read lies in the buffer and is entry `col` of the `row`-th block of `width` consecutive cells: the buffer holds the rows one after another |
| Grid.MatrixSet | src/tetris.cpp:195-200 | cell (row, col) reads the new value; every other cell of the grid reads what it read before |
| Grid.IndexInjective | src/tetris.cpp:188-200 | row-major indexing sends distinct cells of the grid to distinct positions |
| Grid.CheckRowFilled | src/tetris.cpp:220-233 | the scan answers true exactly when no cell of the row is 0 |
| Grid.CheckRowEmpty | src/tetris.cpp:235-248 | the scan answers true exactly when every cell of the row is 0 |
| Grid.FilledAndEmptyOnlyWhenNarrow | src/tetris.cpp:220-248 | a row is both filled and empty exactly when the width is 0 |
| Grid.ZeroBoardRows | src/tetris.cpp:466 | after `memset` of the board, no row is full and every row is empty |
| Grid.ZeroBoardCells | src/tetris.cpp:466 | after `memset` of the board, every cell is within any non-negative bound |
| Grid.CellsAtMostByRows | src/tetris.cpp:188-193 | a bound on every cell read through `matrix_get` is the same bound read row by row |
| Tetrinos.TemplatesWellFormed | src/tetris.cpp:76-127 | seven templates, each a square of side 2 to 4, whose cells hold 0 or the template's own id |
| Tetrinos.Template | src/tetris.cpp:119-127 | the template for an index 0..6 is a well-formed square of side 2..4 |
| Tetrinos.SourceIndexInRange | src/tetris.cpp:202-218 | for an in-square cell and rotation 0..3, the index read lies inside the template data |
| Tetrinos.RotationsAreQuarterTurns | src/tetris.cpp:202-218 | rotations 0, 1, 2 and 3 read the template through 0, 1, 2 and 3 quarter turns; four quarter turns are the identity |
| Tetrinos.TetrinoGet | src/tetris.cpp:202-218 | the value read is 0 or a value of the template |
| Tetrinos.ViewAfterQuarterTurn | src/tetris.cpp:202-218 | each rotation's view is the previous rotation's view turned one quarter; rotation 0 follows rotation 3 |
| Tetrinos.OutOfRangeRotationIsEmpty | src/tetris.cpp:202-218 | any rotation outside 0..3 reads 0 at every cell |
| Tetrinos.RotationNotPeriodic | src/tetris.cpp:202-218 | rotation 4 of the O piece reads 0 where rotation 0 reads 2 |
| Tetrinos.OccupiedCell | src/tetris.cpp:76-127 | every rotation 0..3 of every template has an occupied cell |
| Placement.SquareOnBoardInBounds | src/tetris.cpp:383-390 | a template whose whole square lies on the board has every occupied cell on the board, under any rotation |
| Placement.CheckPieceValid | src/tetris.cpp:296-340 | true exactly when every occupied cell of the rotated template, at the piece offset, is on the board and over a 0 cell |
| Placement.ScanTemplate | src/tetris.cpp:301-339 | the nested loops accept exactly when no occupied cell is off the board or over a nonzero cell |
| Placement.FitsIsInBounds | src/tetris.cpp:296-340 | a template that fits has every occupied cell on the board |
| Placement.ValidIsInBounds | src/tetris.cpp:296-340 | a piece that passes the check lies on the board |
| Placement.InBoundsAboveFloor | src/tetris.cpp:296-340 | a piece on the board has its row offset above the last row |
| Placement.BelowFloorStaysInvalid | src/tetris.cpp:296-340 | once an occupied cell is below the last row, no further lowering passes the check |
| Placement.FallsFreelyEveryRow | src/tetris.cpp:393-407 | a piece that can fall n rows one at a time fits k rows below its position, for every k in 1..n |
| Placement.StampTemplate | src/tetris.cpp:342-363 | the merge loops write each occupied template cell at the offset; every other cell keeps its value |
| Placement.StampTemplateRow | src/tetris.cpp:349-361 | the inner merge loop writes the occupied cells of one local row; every other cell keeps its value |
| Placement.StampOfFittingTemplate | src/tetris.cpp:342-363 | merging a fitting template writes only over 0 cells, gives each covered cell the template value, and leaves the uncovered cells alone |
| Placement.StampShowsTemplate | src/tetris.cpp:342-363 | after merging a fitting template, each occupied template cell is on the board and shows its template value |
| Placement.MergeOfValidPiece | src/tetris.cpp:342-363 | after a passing check, the merge writes exactly the piece cells, which held 0 before, and leaves all other cells unchanged |
| Placement.MergeShowsPiece | src/tetris.cpp:342-363 | after a passing check and a merge, every occupied piece cell shows `tetrino_get` of that cell |
| Placement.StampKeepsBound | src/tetris.cpp:342-363 | stamping a template whose values are within a bound onto a board within that bound keeps the board within it |
| Placement.MergeKeepsPieceIds | src/tetris.cpp:342-363 | merging any piece into a board whose cells are 0 or a piece id 1..7 leaves such a board |
| Lines.Kept | src/tetris.cpp:265-293 | the rows that survive a clear are the in-range rows whose marker is 0 |
| Lines.KeptOrderedAndComplete | src/tetris.cpp:265-293 | the surviving rows are listed top to bottom, and every unmarked row is listed |
| Lines.KeptStep | src/tetris.cpp:268-291 | one more row examined adds it to the survivors exactly when unmarked |
| Lines.KeptPrefix | src/tetris.cpp:268-291 | the survivors among the top rows are a prefix of all survivors |
| Lines.KeptAt | src/tetris.cpp:269-291 | an unmarked row sits in the survivor list right after the survivors above it |
| Lines.KeptAllUnmarked | src/tetris.cpp:265-293 | with no marked row, every row survives, in order |
| Lines.CountZeroIffNoneMarked | src/tetris.cpp:250-263 | the marked count is at least 0, and it is 0 exactly when no row is marked |
| Lines.FindLines | src/tetris.cpp:250-263 | each marker is 1 exactly when its row is full and 0 otherwise; the result is the number of marked rows |
| Lines.ClearedRows | src/tetris.cpp:265-293 | the cleared board has as many rows as before |
| Lines.ClearedRowAt | src/tetris.cpp:265-293 | row d of the cleared board is empty above the survivors, else the matching surviving row |
| Lines.ClearNothing | src/tetris.cpp:265-293 | with no row marked, clearing leaves the board unchanged |
| Lines.ClearedHasNoFullRow | src/tetris.cpp:250-293 | clearing exactly the full rows leaves no full row |
| Lines.ClearedKeepsBound | src/tetris.cpp:265-293 | compaction only moves rows and adds empty ones, so a bound on every cell survives it |
| Lines.ClearLines | src/tetris.cpp:265-293 | the board becomes the surviving rows in order, packed at the bottom, with 0 rows above them |
| Lines.FillRow | src/tetris.cpp:269-291 | one pass of the outer loop fills the destination row with its final contents and moves both cursors |
| Lines.SkipMarked | src/tetris.cpp:273-276 | the source cursor stops at the next unmarked row or above the board, keeping the cursors in step |
| Lines.CopyRow | src/tetris.cpp:284-289 | the destination row becomes a copy of the source row; the other rows are unchanged |
| Lines.ZeroRow | src/tetris.cpp:278-281 | the destination row becomes all 0; the other rows are unchanged |
| Lines.SameRowsFromCells | src/tetris.cpp:284-289 | a cell-by-cell copy of one row into another is the row-level copy |
| Lines.ClearedRowAbove | src/tetris.cpp:278-281 | once the source cursor has left the board, the destination row of the cleared board is empty |
| Lines.ClearedRowFrom | src/tetris.cpp:281-289 | an unmarked source row is the destination row of the cleared board |
| Lines.SkipOne | src/tetris.cpp:273-276 | skipping a marked source row keeps the cursors in step |
| Scoring.FramesPerDropTable | src/tetris.cpp:29-60 | 30 entries between 1 and 48, never increasing from one level to the next |
| Scoring.DropInterval | src/tetris.cpp:372-380 | the gravity interval is between 1 and 48 frames at every level |
| Scoring.DropIntervalNonIncreasing | src/tetris.cpp:372-380 | a higher level never falls more slowly, and from level 29 up the piece falls every frame |
| Scoring.ComputePoints | src/tetris.cpp:409-424 | at any level from 0 up, the award is never negative |
| Scoring.BaseAwards | src/tetris.cpp:409-424 | at level 0, clears of 1, 2, 3 and 4 rows score 40, 100, 300 and 1200; any other count scores 0 |
| Scoring.PointsScaleWithLevel | src/tetris.cpp:409-424 | every award is the level-0 award times level + 1 |
| Scoring.MoreLinesScoreMore | src/tetris.cpp:409-424 | at any level from 0 up, a clear of more rows (up to 4) scores strictly more |
| Scoring.Min | src/tetris.cpp:426-430 | the result is at most both arguments and equals one of them |
| Scoring.Max | src/tetris.cpp:431-435 | the result is at least both arguments and equals one of them |
| Scoring.LinesForNextLevel | src/tetris.cpp:437-449 | the threshold for `level` is at most 10 * level + 10 lines; for a start level from 0 up it is at least 10 lines plus 10 per level gained (exact values in `LevelThresholds`) |
| Scoring.LevelThresholds | src/tetris.cpp:437-449 | the first threshold is 10s+10 up to start level 9, 100 for start levels 10..15, and 10s-50 from 16 up; each later level adds 10 |
| Scoring.ThresholdExamples | src/tetris.cpp:437-449 | from start level 0 the first level-up is at 10 lines; from 9 it is at 100 |
| Scoring.RandomInt | src/tetris.cpp:365-370 | for a non-negative draw, the result lies in [min, max) |
| Engine.Spawned | src/tetris.cpp:383-390 | the spawned piece has a known template, rotation 0, row 0 and column WIDTH/2 |
| Engine.SpawnedInBounds | src/tetris.cpp:383-390 | a spawned piece lies on the board |
| Engine.TruncRem | src/tetris.cpp:519 | C's `%` gives a remainder strictly between -b and b, equal to the Euclidean remainder for a non-negative dividend |
| Engine.Tentative | src/tetris.cpp:508-520 | the tentative copy keeps the template and the row |
| Engine.TentativeMoves | src/tetris.cpp:508-520 | left and right together cancel out; a rotate press advances rotation 0..3 by one mod 4; four rotate presses restore the piece |
| Engine.Game.constructor | src/tetris.cpp:829 | the zero-initialised game: empty board, phase START, every counter 0; every board cell is 0 or a piece id |
| Engine.Game.MergePiece | src/tetris.cpp:342-363 | the board becomes the old board with the piece written in; cells that were 0 or a piece id 1..7 stay so |
| Engine.Game.SpawnPiece | src/tetris.cpp:383-390 | the piece becomes the spawned piece for the draw, and gravity is due one interval from now |
| Engine.Game.SoftDrop | src/tetris.cpp:393-407 | moves exactly when the piece fits one row lower: then only the row changes (+1). Otherwise it merges at the original row and spawns. Either way gravity is rescheduled into the future, and a board of empty cells and piece ids stays one |
| Engine.Game.TryMove | src/tetris.cpp:508-525 | the tentative piece replaces the current one exactly when it passes the check |
| Engine.Game.HardDrop | src/tetris.cpp:532-535 | the piece falls row by row while it fits, stops above the first row where it does not, is merged there, and a new piece spawns; a board of empty cells and piece ids stays one |
| Engine.Game.ApplyGravity | src/tetris.cpp:537-540 | before the due time nothing changes. Otherwise exactly one soft drop happens: the piece moves down when it fits, else it is merged and a piece spawns, and the next drop is due one interval after now. Either way the next drop is in the future, and a board of empty cells and piece ids stays one |
| Engine.Game.UpdatePlay | src/tetris.cpp:504-554 | after a play tick gravity is in the future, the markers flag exactly the full rows, and the pending count is their number. Top row occupied gives GAMEOVER; else rows found give LINE with a 30-frame highlight. With no drop press and gravity not yet due, the board and schedule are unchanged and the piece is the tentative move when it fits, else the old piece. A board of empty cells and piece ids stays one |
| Engine.Game.MoveAndFall | src/tetris.cpp:508-540 | without drop presses and before the due time, only the tentative move happens; gravity always ends in the future; a board of empty cells and piece ids stays one |
| Engine.Game.ScanLines | src/tetris.cpp:542-553 | markers and count match the full rows; the phase is GAMEOVER when the top row is occupied, even if rows were found, LINE when rows were found, and otherwise unchanged |
| Engine.Game.UpdateLine | src/tetris.cpp:484-502 | before the highlight ends nothing changes. Afterwards: marked rows removed, lines counted, points added at the pre-increment level, level raised by at most 1, play resumes; a board of empty cells and piece ids stays one |
| Engine.Game.NoFullRowAfterClear | src/tetris.cpp:487-489 | clearing the rows marked as full leaves no full row for the next play phase |
| Engine.Game.ClearKeepsPieceIds | src/tetris.cpp:487-489 | clearing rows of a board whose cells are 0 or a piece id leaves such a board |
| Engine.Game.UpdateGameOver | src/tetris.cpp:475-482 | a confirm press moves to START; nothing else changes |
| Engine.Game.ClearBoard | src/tetris.cpp:466 | every board cell becomes 0 |
| Engine.Game.UpdateStart | src/tetris.cpp:451-473 | up raises the start level and down lowers it, never below 0. On confirm: board cleared, counters restart at the chosen level, a piece spawns, play begins; either way a board of empty cells and piece ids stays one |
| Engine.Game.UpdateGame | src/tetris.cpp:556-575 | each tick dispatches on the phase and keeps the state well formed, the phase invariant (no full row in PLAY; markers exact in LINE) and the board invariant that every cell is 0 or a piece id 1..7 |

## Left out

- Rendering (`src/tetris.cpp:577-799`), including the ghost-piece preview, is not modelled. It reads the state and changes none of it.
- `main` (`src/tetris.cpp:801-886`) is not modelled: the SDL event loop, key-state edge detection into `dleft`…`da`, and setting `time` from the clock. The model takes each tick's `Input` and the current `time` as given. The debug override of the starting state inside `main` is not part of this model.
- `rand()` is not modelled; each value it would return is a parameter.
- Floating-point time is not modelled. Time is counted in whole frames, so a drop interval is `FRAMES_PER_DROP[min(level, 29)]` frames rather than that many times 1/60 s in single precision, and the highlight is 30 frames rather than 0.5 s.
- Float absorption in the gravity loop is not captured. `time` and `next_drop_time` are `f32` (`src/tetris.cpp:160-162`). Once `time` is large enough that adding the drop interval rounds back to `time`, `soft_drop` no longer moves `next_drop_time` past `time`, and the loop at `src/tetris.cpp:537-540` never exits. This first happens at levels 29 and up, after about 2^19 s (about 6 days) of uptime, and later at slower levels. With whole-frame time the model's `ApplyGravity` always terminates after at most one step.
- Integer widths are not modelled: `s32` counters and offsets, `u8` template index and `s8` input deltas are unbounded integers. Overflow of `points` or `line_count` is therefore not captured. Board and marker cells are bytes (0..255).
- `Engine.Game.UpdatePlay`: states the line scan, the phase, the schedule and the no-drop case in full. When a soft drop, hard drop or gravity step happens, the new piece and board are stated separately by `SoftDrop`, `HardDrop` and `ApplyGravity`, not composed here.
- `Engine.Game.MoveAndFall`: states only the no-drop case and that gravity ends in the future. What a soft drop, hard drop or gravity step does to the piece and board is stated separately by `SoftDrop`, `HardDrop` and `ApplyGravity`, not composed here.
- `Engine.Game.UpdateGame`: states well-formedness, the phase invariant, the board invariant and the per-phase facts above. The full new state of each phase is stated by the handler it calls.
- `Engine.Game.HardDrop`: the number of rows fallen is a ghost result, so the compiled method does not return it (the source returns nothing either).
- `Placement.StampTemplate` and `Engine.Game.MergePiece` require the piece to lie on the board. The source writes out of bounds in that case; a piece the game holds always lies on the board.
