# Tetris engine model

This project models the game engine of `tetris.js`, a browser falling-block game. It covers the
`Tetris` class without its drawing and DOM code.

The engine holds three kinds of state:
- a 20 × 10 board of integers, where 0 is an empty cell and 1..7 is a settled cell of piece type + 1;
- an active piece, given as a 0/1 mask (its `shape`) and a `type`, placed with its top-left cell at (`pieceX`, `pieceY`);
- a next piece, the session counters `score`, `lines`, `level`, `dropInterval` and `dropCounter`, the frame clock `lastTime`, and the flags `gameRunning` and `gamePaused`.

The project has four modules:

- `Pieces` (`pieces.dfy`) holds the board dimensions and the seven templates. It also holds the 90-degree mask rotation of `rotate()`. `ComputeRotation` is the source's cell-by-cell loop. It is proved equal to the function `Rotation`, and `Rotation` is proved to swap the dimensions, keep the number of filled cells and give the mask back after four turns.
- `Board` (`board.dfy`) holds the grid-level logic on values:
  - the collision test (`Collides`, one `HitsAt` per filled mask cell);
  - the merged board (`Merged`);
  - the bottom-up list of full rows (`FullRows`);
  - the row-removal loop of `clearLines()` (`ClearRows`, one `RemoveRow` = `splice` + `unshift` per collected index).
- `Game` (`game.dfy`) holds one session as a value, `State`, and each engine step as a function of the state before it:
  - `Spawn`, `Move`, `Rotate`, `Drop`, `HardDrop` and `ClearLines`;
  - `HandleInput`, the drop-timer part of `gameLoop` (`Tick`) and `Start`.
  The lemmas state what each step does and that every step keeps the invariant `Consistent`:
  - the board is 20 × 10 with cells in 0..7;
  - the pieces are well formed;
  - `level` and `dropInterval` follow `lines`;
  - a running game's piece does not collide.
- `Engine` (`engine.dfy`) is the `Tetris` class itself:
  - its fields, with the board as an `array` of rows updated in place;
  - one method per source method, with the source's loops: the collision scan, the merge loop, the `hardDrop` while-loop and both loops of `clearLines`.
  Each of these methods ensures that the new fields, read as a `State` by `Snapshot()`, are the matching `Game` function of the old ones.
  `RemoveRowInPlace`, `FullRowIndices`, `RemoveRows`, `CountLines` and `LockPiece` are parts of source methods split out on their own, and `Collision` and `FullRowIndices` return a value instead of changing the fields.
  `HandleInput` and `GameLoop` also keep `Valid()`, which is `Consistent(Snapshot())`.

The random piece choice of `getRandomPiece` is a parameter. A `PieceIndex` in 0..6 is passed as `draw` (and as `spare` for the second draw that `spawnPiece` makes when there is no next piece). The frame time given to `gameLoop` is an integer number of milliseconds.

`clearLines()` is modelled as written. It collects the full rows from the bottom up and then removes them one collected index after the other from the board as it is at that moment. Once one row has been removed, the indices still to come point one row too high. So with two or more full rows the wrong rows can be removed and full rows can remain. `ClearSingleRow` proves that a single full row is cleared exactly. `BottomPairLeavesFullRow` proves that when the two bottom rows are full, a full row is still on the bottom row afterwards. The score still counts every collected row.

## Model

| member | source | states |
|---|---|---|
| Pieces.TemplatesOk | tetris.js:5-13 | every template is a non-empty rectangular mask with a filled cell, 1 to 4 wide and 1 to 2 high |
| Pieces.Rotation | tetris.js:176-183 | the rotated mask is rectangular, as high as the old one is wide and as wide as the old one is high |
| Pieces.RotationMoves | tetris.js:179-183 | cell (y, x) of the shape lands at rotated[x][h-1-y] |
| Pieces.ComputeRotation | tetris.js:176-183 | the zero-filled array filled cell by cell is exactly `Rotation(shape)` |
| Pieces.RotationOk | tetris.js:176-183 | a usable mask stays usable after a rotation and its dimensions are swapped |
| Pieces.RotationKeepsCount | tetris.js:176-183 | a rotation keeps the number of filled cells |
| Pieces.TurnCount | tetris.js:176-183 | turning the first w columns keeps the number of filled cells (by induction over the rows) |
| Pieces.HalfTurn | tetris.js:176-183 | two rotations mirror the mask in both directions |
| Pieces.FullTurn | tetris.js:176-183 | four rotations give back the original mask |
| Board.CollidesSpec | tetris.js:139-158 | `Collides` holds iff some filled mask cell lands off either side, below the floor, or on a non-empty cell of a row >= 0 |
| Board.NoCollisionFits | tetris.js:139-158 | when `collision()` is false, every filled cell lies between the walls and above the floor |
| Board.Merged | tetris.js:160-173 | the merged board keeps 20 rows of 10 cells |
| Board.MergeWrites | tetris.js:160-173 | on a non-colliding placement each filled cell at row >= 0 was empty and now holds type + 1, every other cell is unchanged, all cells stay in 0..7 |
| Board.FullRowsFromSpec | tetris.js:223-227 | the scan from row lo down to the bottom lists exactly the full rows at or below lo, bottom first |
| Board.FullRowsFromPrefix | tetris.js:223-227 | the full rows at or below k come first in the list, every later index is above k |
| Board.FullRowsSpec | tetris.js:221-227 | `linesToClear` (`FullRows`) lists every full row exactly once, bottom row first |
| Board.NoFullRows | tetris.js:223-229 | nothing is collected iff no row is full |
| Board.RemoveRow | tetris.js:233-234 | `splice(line, 1)` followed by `unshift` keeps the row count |
| Board.RemoveRowAt | tetris.js:233-234 | row 0 becomes empty, rows above `line` move down by one, rows below it are unchanged |
| Board.ClearRows | tetris.js:232-235 | the removal loop keeps 20 rows of 10 cells with values in 0..7 |
| Board.ClearRowsKeepsLower | tetris.js:232-235 | removing rows only above k leaves rows k..19 unchanged |
| Board.ClearNothing | tetris.js:220-229 | with no full row nothing is collected and the board is unchanged |
| Board.OnlyFullRow | tetris.js:223-227 | with exactly one full row y the collected list is [y] |
| Board.ClearOneRow | tetris.js:232-235 | a one-element list is one splice-and-unshift |
| Board.ClearSingleRow | tetris.js:220-235 | exactly one full row y: it is removed, rows above shift down by one, row 0 is empty, rows below are unchanged, no full row is left |
| Board.BottomPairListed | tetris.js:223-227 | when the two bottom rows are full they are collected first, and every later index is higher up |
| Board.BottomPairLeavesFullRow | tetris.js:220-235 | when the two bottom rows are full, the stale second index leaves the upper full row on the bottom row, still full |
| Game.EmptyBoard | tetris.js:73 | the new board has 20 rows, all empty |
| Game.Initial | tetris.js:34-47 | the constructor's state is consistent, not running and has no piece |
| Game.IntervalFor | tetris.js:240 | `max(100, 1000 - (level - 1) * 100)` is within 100..1000 from level 1 on, and is 100 exactly from level 10 on |
| Game.TemplateOk | tetris.js:130-137 | a freshly drawn piece is usable and at most 4 wide and 2 high |
| Game.Spawn | tetris.js:111-128 | the current piece becomes the old next piece (or the first draw), next becomes a new draw, the piece is centred on row 0, nothing else changes, and the game keeps running iff that placement does not collide |
| Game.Move | tetris.js:193-198 | only `pieceX` changes, by `dir` iff the shifted placement does not collide, and a placed piece stays placed |
| Game.MoveBack | tetris.js:193-198 | a move that went through is undone by the opposite move |
| Game.Rotate | tetris.js:175-191 | only the current mask changes: it becomes the rotation iff the rotated placement does not collide, the type is kept, and a placed piece stays placed |
| Game.RotateKeepsPiece | tetris.js:175-191 | after `rotate()` the piece is usable, has the same filled-cell count, and has swapped dimensions when the rotation was kept |
| Game.MergePiece | tetris.js:160-173 | `merge()` changes only the board, which keeps its shape; on a non-colliding placement of a piece type in 0..6 every cell stays in 0..7 |
| Game.LevelFor | tetris.js:239 | for lines >= 0 the level is at least 1 and is the one whose band of ten lines contains `lines` |
| Game.Counted | tetris.js:237-240 | only the four counters change: lines grows by the cleared rows, score by their points at the old level; from valid counters the new counters are consistent and the score never drops |
| Game.Points | tetris.js:238 | the points for k rows at level >= 1 are at least 100 per row |
| Game.PointsProduct | tetris.js:238 | the points are `k * 100 * level` |
| Game.ClearLines | tetris.js:220-243 | with no full row the state is unchanged; otherwise the board is the removal loop over the collected rows, lines grows by their number, score by their points at the old level, level and interval are recomputed, nothing else changes |
| Game.ClearLinesCounters | tetris.js:237-240 | clearLines keeps the board in 0..7 and the counters consistent, never lowers lines or score, and keeps the interval within 100..1000 |
| Game.Lock | tetris.js:203-206 | after merge, clearLines and spawnPiece the old next piece is current and a new draw is next |
| Game.LockConsistent | tetris.js:203-206 | the lock sequence keeps the state consistent |
| Game.Drop | tetris.js:200-208 | `dropPiece()` leaves the drop timer, the clock and the pause flag alone and keeps a next piece |
| Game.DropFalls | tetris.js:201-202 | when the row below is free, `dropPiece()` only adds 1 to `pieceY` |
| Game.DropLocksHere | tetris.js:202-206 | when the row below is blocked, `dropPiece()` is merge, clearLines, spawnPiece at the current row |
| Game.DropConsistent | tetris.js:200-208 | `dropPiece()` keeps the state consistent |
| Game.DropStep | tetris.js:200-208 | a free row below moves the piece down and keeps it placed |
| Game.DropLocks | tetris.js:200-208 | a blocked drop merges at the current row, clears the collected rows, counts them into lines and score, spawns the next piece, and keeps running iff the new piece fits |
| Game.FloorBelow | tetris.js:211-213 | a non-colliding piece is above the floor, so the `hardDrop` loop ends |
| Game.FirstBlocked | tetris.js:211-213 | the loop stops at the first colliding row at or below the start, and every row before it is free |
| Game.ReadyAt | tetris.js:211-214 | a ready piece moved to another free row of its column stays ready |
| Game.Landing | tetris.js:211-214 | after the loop and `pieceY--` the piece is free and ready, and blocked one row lower |
| Game.HardDrop | tetris.js:210-218 | `hardDrop()` makes the old next piece current and a new draw next |
| Game.HardDropPassesFreeRows | tetris.js:210-218 | at every row `hardDrop` passes, a `dropPiece()` would only move the piece down one row |
| Game.HardDropIsLastDrop | tetris.js:210-218 | `hardDrop()` equals a `dropPiece()` at the landing row, which locks there |
| Game.HardDropConsistent | tetris.js:210-218 | `hardDrop()` keeps the state consistent |
| Game.HandleInput | tetris.js:404-434 | input is ignored when not running; while paused every key but 'p'/'P' is ignored; 'p'/'P' on a running game only toggles the pause; unknown keys change nothing |
| Game.InputConsistent | tetris.js:404-434 | every key keeps the state consistent |
| Game.Timed | tetris.js:93-97 | the frame adds `time - lastTime` to `dropCounter`, sets `lastTime`, and changes nothing else |
| Game.Tick | tetris.js:90-103 | a game that is not running is untouched; while paused only `lastTime` changes; while the timer does not pass `dropInterval` the frame only advances the timer; once it passes, one `dropPiece()` happens and the timer restarts at 0 |
| Game.Retimed | tetris.js:93-97 | the clock and the drop timer take no part in consistency |
| Game.TimedReady | tetris.js:96-100 | the timed state handed to `dropPiece()` is ready for it |
| Game.DropAndReset | tetris.js:99-102 | a timer drop followed by the reset keeps the state consistent |
| Game.TickConsistent | tetris.js:90-103 | every frame keeps the state consistent |
| Game.TickFiresConsistent | tetris.js:99-102 | the state after a timer-fired drop is consistent |
| Game.EmptyBoardClear | tetris.js:120-125 | a template placed at its spawn column on row 0 or 1 of an empty board does not collide |
| Game.Opening | tetris.js:72-85 | after the resets and both `spawnPiece()` calls the game is unpaused on an empty board with score 0, lines 0, level 1 and a 1000 ms interval; the timer is untouched; the current and next pieces are the expected draws on row 0 |
| Game.OpeningReady | tetris.js:72-85 | that opening state is running, consistent, its piece placed, and the row below it is free |
| Game.Start | tetris.js:72-88 | `start()` always gives a consistent running game on an empty board with score 0, level 1 and a 1000 ms interval; the first `gameLoop(0)` drops the piece one row iff `dropCounter - lastTime` exceeds 1000, and then the state is the opening one with the piece on row 1 and the timer at 0 |
| Engine.Tetris.constructor | tetris.js:34-47 | the new object's fields are the initial state, which is valid |
| Engine.Tetris.Collision | tetris.js:139-158 | the scan returns true iff some filled mask cell lands off the sides, below the floor, or on a non-empty cell at a row >= 0 |
| Engine.Tetris.Merge | tetris.js:160-173 | the cell-by-cell writes leave the board equal to `Merged` and no other field changes |
| Engine.Tetris.Rotate | tetris.js:175-191 | the fields afterwards are `Game.Rotate` of the fields before |
| Engine.Tetris.Move | tetris.js:193-198 | the fields afterwards are `Game.Move` of the fields before |
| Engine.Tetris.SpawnPiece | tetris.js:111-128 | the fields afterwards are `Game.Spawn` of the fields before, the same board array is kept |
| Engine.Tetris.GameOver | tetris.js:392-393 | only `gameRunning` changes, to false |
| Engine.Tetris.RemoveRowInPlace | tetris.js:233-234 | shifting the rows above `line` down in place and emptying row 0 gives `RemoveRow` |
| Engine.Tetris.FullRowIndices | tetris.js:221-227 | the bottom-up scan returns exactly `FullRows` of the board |
| Engine.Tetris.RemoveRows | tetris.js:232-235 | the removal loop leaves the board equal to `ClearRows` over the collected indices |
| Engine.Tetris.CountLines | tetris.js:237-240 | the counter updates are the ones `Game.ClearLines` makes for that many rows |
| Engine.Tetris.ClearLines | tetris.js:220-243 | the fields afterwards are `Game.ClearLines` of the fields before |
| Engine.Tetris.LockPiece | tetris.js:203-206 | merge, clearLines and spawnPiece in a row give `Game.Lock` |
| Engine.Tetris.DropPiece | tetris.js:200-208 | the fields afterwards are `Game.Drop` of the fields before |
| Engine.Tetris.HardDrop | tetris.js:210-218 | the while-loop and the lock give `Game.HardDrop` of the fields before |
| Engine.Tetris.HandleInput | tetris.js:404-434 | the fields afterwards are `Game.HandleInput` of the fields before, and the object stays valid |
| Engine.Tetris.GameLoop | tetris.js:90-103 | the fields afterwards are `Game.Tick` of the fields before, and the object stays valid |
| Engine.Tetris.Start | tetris.js:72-88 | a fresh board array, and the fields afterwards are `Game.Start` of the fields before, and the object is valid |

## Left out

- Drawing is left out as pixel and DOM output with no effect on game state: `draw`, `drawBlock`, `drawNextPiece`, `drawThumbnail`, the game-over overlay in `gameOver`, and `updateScore`.
- The fireworks (`createFireworks`, `updateFireworks`) and the `COLORS` strings are left out. They are floating-point particle effects and colours with no effect on game state, so `Piece` carries no colour.
- The constructor's canvas lookups, `init` and its event-listener wiring, and `e.preventDefault()` are left out as host plumbing.
- The `requestAnimationFrame` rescheduling at the end of `gameLoop` is left out as host scheduling. So are the extra frame chains that a second `start()` click would add. `GameLoop` models one frame.
- `Math.random()` in `getRandomPiece` is replaced by the supplied piece index (`draw`, `spare`).
- `main.js` and `updater.js` are not part of this model. They are the Electron window, update feed and IPC wiring, and DOM status text.
- Numbers are unbounded integers. The source uses JavaScript doubles, whose values stay small here. Frame times are whole milliseconds.
- Engine.Tetris.Merge: requires a non-colliding placement. Every caller provides one, because `dropPiece` and `hardDrop` step back to a free row. On a colliding placement the source does one of three things: a cell over a settled cell overwrites it inside the board (tetris.js:168); a cell on row 20 or below reads an undefined row and the assignment throws a TypeError; a cell off either side sets a property of the row array, and column 10 lengthens the row to 11 entries. The model does not cover that.
- Engine.Tetris.DropPiece: requires a placed piece with a next piece, which holds in every running game (`Valid`). The behaviour on a piece that already collides is not covered.
- Engine.Tetris.HardDrop: requires a ready piece, which holds in every running game. For a piece that already collides, the source's loop does not run and the piece is merged one row higher; the model does not cover that.
- Engine.Tetris.Rotate: requires a rectangular mask, which every template and every rotation of one is.
- Engine.Tetris.Merge writes a cell by replacing its row value (`board[r] := board[r][c := v]`). The board is an array of row values, so `splice`/`unshift` move whole rows as in the source, but rows are never shared between two board indices.
- The source mutates `currentPiece.shape` inside the piece object. The model replaces the current piece value, which is equivalent because no other reference to that object is read.
