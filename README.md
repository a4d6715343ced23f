# Falling-block core of `tetris.c`, in Dafny

This project models the simulation inside the terminal Tetris program
`tetris.c` and proves properties of that model. The simulation has:

- a 10 x 20 board of cells;
- seven tetrominoes, each with four precomputed 4 x 4 rotations;
- the falling piece, the next shape, and the counters `score`, `level` and
  `lines_cleared`;
- the actions of the main loop: move left or right, rotate, soft drop, hard
  drop, the gravity step, and quit.

The model has five modules:

- `Shapes` holds the constant shape table and the facts about its bitmaps.
  Every bitmap has exactly four cells. Only I has an empty top row in
  rotation 0.
- `Board` holds the grid as a value (`seq` of rows). On that grid it defines
  the reference functions:
  - the fit test `Fits`;
  - locking, `Locked`;
  - line clearing, `AfterClear`: the rows that are not full keep their order
    and sit at the bottom, and one empty row per removed row fills the top;
  - the one-row shift that `clear_lines` performs, `RemoveRow`;
  - the resting place of a hard drop, `Landed`;
  - the spawn placement, `SpawnAt`.

  It also holds the lemmas about these functions.
- `Scoring` holds the counters and the update made by one clear event.
- `Rules` holds the game as a state machine over values. There is one
  function per action of the main loop. `Inv` is what holds between two
  passes of the loop:
  - no row is full;
  - the counters are consistent;
  - the falling piece fits unless the game is over.

  Lemmas show that every pass, and every run of passes, keeps `Inv` and
  never lowers a counter.
- `Tetris` holds the class `Game`, the engine as the program runs it:
  - `board` is an `array2<Cell>` written in place by nested loops;
  - the piece and the counters are fields;
  - each method is proved to compute the `Rules` or `Board` function of the
    same operation, so everything proved about those functions holds of the
    engine.

  The ghost field `cells` mirrors the array as a value. `Wf` makes the two
  agree cell by cell.

Inputs that the program reads from the environment are parameters:

- `rand() % 7` is a `ShapeId` argument.
- The key read by `getch` is a `Key`. `KeyOther` stands for "no key" and
  for every key the loop ignores.
- "The gravity interval has elapsed" is a `bool`.
- The program's `exit(0)` after a failed spawn is the flag `over`. Once it
  is set, no pass of the main loop (`Rules.Tick`, `Rules.Run`,
  `Tetris.Game.Tick`) changes anything. The single actions (`Rules.Fall`,
  `Tetris.Game.MoveLeft`, ...) do not look at `over`, just as the program's
  branches do not; only the loop stops calling them.

Two behaviours of the code are easy to misread, and the model follows the
code in both:

- **The fit test rejects cells above the top row.** The code rejects every
  occupied cell with a row index below 0 (`tetris.c:100`). It does not
  accept such cells as "still entering the board", even though the spawn
  places the box one row above the top (`tetris.c:154`). So at the spawn
  placement (row -1, rotation 0), every shape except I has a cell above the
  board and fails to fit. A game therefore ends at the first spawn of any
  shape other than I (`Board.SpawnFits`, `Rules.InitInv`).
- **The recheck of the same row does cascade.** After a row is removed,
  the row that slides into its place is examined again. That row is full
  whenever two adjacent rows were full. The loop in
  `Tetris.Game.RemoveFullRows` removes such runs one row at a time, and it
  is verified for every grid, including grids with several full rows.

## Model

| member | source | states |
|---|---|---|
| Shapes.FourCells | tetris.c:33-83 | every rotation of every shape in the table has exactly four occupied cells |
| Shapes.HasCell | tetris.c:33-83 | every rotation of every shape occupies at least one cell of its box |
| Shapes.ScanCountsCells | tetris.c:94-96 | the number of occupied entries met by the row-major scan over positions 4*ry+rx equals the bitmap's cell count taken row by row |
| Shapes.FlatI | tetris.c:36 | the I piece in rotation 0 occupies exactly row 1, columns 0-3 of its box |
| Shapes.TopRowOccupied | tetris.c:41-81 | every shape other than I has an occupied cell in row 0 of its box in rotation 0 |
| Board.Fits | tetris.c:93-105 | the fit test as a predicate: every occupied cell of the piece's bitmap lies on the board (0<=x<10, 0<=y<20) and on an empty cell |
| Board.Locked | tetris.c:107-118 | the board after `lock_piece`: the stamp of the piece's bitmap at its box corner |
| Board.Stamp | tetris.c:108-117 | a board whose cells under an occupied cell of the bitmap are filled, every other cell as before |
| Board.FitsByCells | tetris.c:93-105 | a placement fits iff every occupied cell of its bitmap is on the board (0<=x<10, 0<=y<20) and lands on an empty cell; a cell with y<0 makes it fail |
| Board.LockExact | tetris.c:107-118 | locking fills exactly the on-board cells under the piece; every other cell keeps its value, and cells of the box that are off the board are dropped |
| Board.LockIdempotent | tetris.c:107-118 | locking the same piece twice gives the same board as locking it once |
| Board.LockAddsFour | tetris.c:107-118 | locking a piece that fits adds exactly four filled cells to the board |
| Board.LockedPieceBlocks | tetris.c:107-118 | after locking, the piece no longer fits at its own position |
| Board.KeepRows | tetris.c:122-131 | the surviving rows are the non-full ones; their number plus the number of full rows is the number of rows |
| Board.AfterClear | tetris.c:120-132 | after clearing, no row is full |
| Board.RemoveRow | tetris.c:127-128 | the board after one shift: an empty row on top, the rows above y one lower, row y gone, the rows below y unchanged |
| Board.RemoveRowAt | tetris.c:127-128 | one shift: row 0 becomes empty, rows 1..y take the rows above them, rows below y are unchanged |
| Board.RemoveRowCounts | tetris.c:125-131 | removing a full row lowers the full-row count by one and the filled-cell count by 10, and keeps the other rows in order below a new empty row |
| Board.RemoveRowStep | tetris.c:125-131 | removing a full row does not change the final result of clearing; the filled-cell count drops by 10, which makes the rescan terminate |
| Board.ClearFixesClearGrid | tetris.c:120-132 | a board with no full row is unchanged by clearing |
| Board.ClearIdempotent | tetris.c:120-132 | clearing twice gives the same board as clearing once |
| Board.ClearCount | tetris.c:120-132 | the filled cells after clearing plus 10 per cleared row equal the filled cells before |
| Board.AtMostFourFull | tetris.c:107-132 | locking a piece that fits into a board with no full row leaves at most four full rows |
| Board.Down | tetris.c:272 | the candidate one row lower (`tmp.y += 1`) |
| Board.FitsAboveFloor | tetris.c:100 | a piece that fits has its box start above the floor, which bounds every downward walk |
| Board.Landed | tetris.c:262-266 | a hard drop stops at the first position going down whose next step does not fit; the column, shape and rotation are kept, every position passed fits, and the resting position fits when the start did |
| Board.SpawnAt | tetris.c:150-154 | the spawn placement is column 3, row -1, rotation 0, with the next shape |
| Board.SpawnFits | tetris.c:149-155 | a spawned piece fits iff it is the I piece and columns 3-6 of row 0 are empty |
| Scoring.Points | tetris.c:137-142 | the points of the switch: 40, 100, 300 or 1200 times the level for 1, 2, 3 or more rows |
| Scoring.Award | tetris.c:133-146 | the counters after a clear event: unchanged for 0 rows, otherwise lines grow by the number cleared, the score by `Points` at the old level, and the level is recomputed |
| Scoring.AwardTable | tetris.c:133-146 | with 0 rows cleared the counters are unchanged; with 1, 2, 3 or 4+ rows the score grows by 40, 100, 300 or 1200 times the level before the update, the line count grows by the number cleared and the level becomes 1 + lines/10 |
| Scoring.AwardMonotone | tetris.c:133-146 | a clear event keeps the counters consistent and never lowers score, level or line count |
| Scoring.SinglesWithinLevel | tetris.c:133-146 | k single clears within one group of ten lines score 40*level each, and the level rises by one exactly when the group is completed |
| Scoring.FirstTenSingles | tetris.c:133-146 | from a fresh game, n<=10 singles give score 40n, line count n and level 1 + n/10 |
| Rules.Init | tetris.c:170-176 | the session after `init_game`: an empty board, the first shape drawn as next, one spawn, counters 0, 1, 0 |
| Rules.Spawn | tetris.c:149-168 | the session after `spawn_piece`: the next shape at the spawn placement, the drawn shape as next, over when the placement does not fit |
| Rules.Settle | tetris.c:276-278 | lock, clear and score, spawn |
| Rules.Try | tetris.c:250-258 | a move takes effect only when the candidate fits |
| Rules.MoveLeft | tetris.c:250-252 | the left arrow: try the piece one column left |
| Rules.MoveRight | tetris.c:253-255 | the right arrow: try the piece one column right |
| Rules.Rotate | tetris.c:256-258 | the rotate keys: try rotation (rot+1)%4 |
| Rules.Fall | tetris.c:269-279 | one row down if that fits, otherwise settle; soft drop (`tetris.c:259-261`) is the same step |
| Rules.Drop | tetris.c:262-266 | hard drop: settle at the resting place `Landed` |
| Rules.ApplyKey | tetris.c:248-267 | the key dispatch: each handled key's branch, no change for any other key or none |
| Rules.Tick | tetris.c:246-280 | one pass: nothing when over or on quit, otherwise the key's branch and then the gravity step when due and the game goes on |
| Rules.Running | tetris.c:249 | the loop continues after a pass unless the key was quit or the game is over |
| Rules.Run | tetris.c:240-288 | the main loop over a finite sequence of passes, stopping at quit or game over |
| Rules.InitInv | tetris.c:170-176 | a new game satisfies the invariant, is over at once iff the first shape is not I, and holds the first shape as current and the second as next |
| Rules.SpawnOutcome | tetris.c:149-168 | spawning puts the next shape at the spawn placement and draws the new next shape; the game ends iff that placement fails, and goes on iff the shape is I and columns 3-6 of row 0 are empty |
| Rules.SettleInv | tetris.c:276-278 | lock, clear and spawn keep the invariant |
| Rules.SettleCounts | tetris.c:276-278 | settling a fitting piece adds 4 filled cells and removes 10 per cleared row, and at most 4 rows are cleared |
| Rules.FallInv | tetris.c:269-279 | the fall-or-settle step keeps the invariant |
| Rules.DropInv | tetris.c:262-266 | a hard drop keeps the invariant |
| Rules.TickInv | tetris.c:246-280 | one pass of the loop keeps the invariant: no row is full, the counters are consistent, and the falling piece fits unless the game is over |
| Rules.SettleMonotone | tetris.c:276-278 | settling never lowers score, level or line count |
| Rules.KeyMonotone | tetris.c:248-267 | no key lowers score, level or line count |
| Rules.TickMonotone | tetris.c:246-280 | one pass never lowers score, level or line count |
| Rules.OverIsFinal | tetris.c:155-166 | once the game is over, no pass changes anything |
| Rules.TryOutcome | tetris.c:250-258 | a sideways move or a rotation changes only the falling piece, and changes it exactly when the candidate fits |
| Rules.LeftRightUndo | tetris.c:250-255 | a step left that takes effect is undone by a step right |
| Rules.RotateFourTimes | tetris.c:256-258 | when every rotation fits, four rotations by (rot+1)%4 bring the piece back |
| Rules.DropLocksLowest | tetris.c:262-266 | a hard drop settles the piece at the lowest position it reaches going down, where it fits and the next step down does not |
| Rules.RunInv | tetris.c:240-288 | every state the main loop reaches satisfies the invariant, with counters no lower than at the start |
| Tetris.Game.constructor | tetris.c:170-176 | `init_game` yields the state of `Rules.Init`: an empty board, one spawn, counters 0, 1, 0, with the invariant holding |
| Tetris.Game.Fits | tetris.c:93-105 | the scan returns true exactly when the placement fits the board, and changes nothing |
| Tetris.Game.FitsBitmap | tetris.c:94-104 | the nested scan with early return answers whether every cell of the box is free or unoccupied |
| Tetris.Game.LockPiece | tetris.c:107-118 | the board after the loop is `Locked` of the board before |
| Tetris.Game.LockBitmap | tetris.c:108-117 | the nested loop paints exactly the cells `Stamp` describes |
| Tetris.Game.LockCell | tetris.c:110-115 | one visit fills the visited cell when it is occupied and on the board |
| Tetris.Game.RowFull | tetris.c:123-124 | the scan of one row reports whether every cell is filled |
| Tetris.Game.ShiftDown | tetris.c:127-128 | the in-place shift turns the board into `RemoveRow` of it |
| Tetris.Game.RemoveFullRows | tetris.c:121-132 | the bottom-up scan with its recheck of the same row terminates, counts the rows that were full on entry, and leaves `AfterClear` of the board |
| Tetris.Game.AddScore | tetris.c:133-146 | the counters after the scoring block are `Award` of those before |
| Tetris.Game.ClearLines | tetris.c:120-147 | `clear_lines` leaves `AfterClear` of the board and `Award` of the counters for the number of rows that were full |
| Tetris.Game.SpawnPiece | tetris.c:149-168 | `spawn_piece` computes `Rules.Spawn` |
| Tetris.Game.Settle | tetris.c:276-278 | lock, clear, spawn compute `Rules.Settle` |
| Tetris.Game.MoveLeft | tetris.c:250-252 | the left arrow computes `Rules.MoveLeft` |
| Tetris.Game.MoveRight | tetris.c:253-255 | the right arrow computes `Rules.MoveRight` |
| Tetris.Game.Rotate | tetris.c:256-258 | the rotate keys compute `Rules.Rotate` |
| Tetris.Game.Fall | tetris.c:259-261 | soft drop and the gravity step compute `Rules.Fall` |
| Tetris.Game.HardDrop | tetris.c:262-266 | the hard-drop loop terminates and computes `Rules.Drop` |
| Tetris.Game.Tick | tetris.c:246-280 | one pass of the main loop computes `Rules.Tick`, keeps the invariant, and reports that the loop goes on exactly when the key is not quit and the game is not over |

## Left out

- Rendering is not modelled: `draw_board`, the game-over screen and the ncurses setup and teardown are terminal output.
- The wall-clock timer is not modelled: `clock_gettime`, the `double` fall interval scaled by the level, and `usleep` become the boolean `gravityDue` passed to each pass.
- `srand(time(NULL))` and `rand() % 7` are not modelled: each drawn shape is a parameter in [0, 7).
- The wait for a key on the game-over screen and `exit(0)` are not modelled: the model sets `over`, and no later pass of the main loop changes anything.
- `getch` is not modelled: its result is a `Key`. Keys the loop does not handle, and the absence of a key, are `KeyOther`.
- Scoring.Award: C `int` overflow of `score` and `lines_cleared` is not modelled. The counters are unbounded integers. C's truncating `/` agrees with Dafny's division here, because the line count is never negative.
- Rules.Run: models the main loop over a finite sequence of passes. The program's loop runs until quit or game over.
- breakout.c and ternary.c are not part of this model. They are a raylib graphics loop over floats and a demonstration of the `?:` operator.
