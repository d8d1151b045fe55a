# Falling-block game engine in Dafny

This project models the game-state engine of a browser falling-block puzzle
game (a Tetris clone) and proves properties of it. It covers three parts:

- the `Game` class of `js/main.js`:
  - the 20 x 10 board of empty-or-coloured cells;
  - the collision test;
  - locking a piece into the grid and sweeping full rows;
  - moving, soft and hard dropping, rotating and holding the current piece;
  - the ghost-piece projection;
  - the pause and game-over flags, the drop timer and reset;
- the piece catalogue of `js/pieces.js`: seven tetrominoes, each with one
  colour and one base shape;
- the keyboard dispatcher of `js/controls.js`.

Modules, one per concern:

- `Shapes` (`shapes.dfy`): shape matrices and the quarter-turn index
  transform of `rotatePiece`. It includes the nested loops that build the
  turned matrix, and the rotation algebra.
- `Pieces` (`pieces.dfy`): the `COLORS` and `SHAPES` tables, `randomPiece`,
  and the orientations a piece of each kind can take.
- `Board` (`board.dfy`): the grid, `collide`, the effect of `merge` and of
  `clearLines`, and the row a dropped piece lands on.
- `GameState` (`state.dfy`): the fields of `Game` as one `State` value, and
  the invariant `ValidState` that every operation keeps. The invariant says:
  - the grid is 20 x 10;
  - every piece is one of its kind's four orientations, with its kind's
    colour, at row 0 or below;
  - the next piece is fresh from the catalogue;
  - while the game is not over, the current piece does not collide.
- `Rules` (`rules.dfy`): what each method leaves behind, as a function
  `AfterX` on `State`, and the lemmas about those functions.
- `Engine` (`engine.dfy`): the class `Game`, with the game-state fields of
  the JavaScript class; each method updates them step by step, loops
  included. `dropInterval` is not a field but the constant
  `GameState.DROP_INTERVAL` (1000 ms), since the class never reassigns it.
  `showGhostPiece` and the canvas and DOM handles (`ctx`, `holdCtx`,
  `nextCtx` and the modal elements) are not fields: they only affect drawing
  and the page.
  - The piece and state operations (lock, move, drop, hard drop, rotate,
    hold, pause, reset, update, one animation frame) are proved to keep
    `Valid()` and to leave `Snapshot() == AfterX(old(Snapshot()), ...)`.
  - `Merge`, `UpdateScore`, `UpdateLines` and `ClearLines` state the new
    value of each field they modify (the grid, the score, the line counter).
  - `GetGhostPiece` modifies nothing and returns the current piece at its
    landing row.
- `Controls` (`controls.dfy`): the `keyActions` table, the keydown handler
  `HandleKey` on a `Game`, its specification `KeySpec`, and lemmas about
  runs of key presses.

The random choice in `randomPiece` is a parameter. Every operation that may
spawn a piece takes the kind to spawn, and reset takes two kinds. As in the
source, `updateScore` and `updateLines` assign rather than add. After a
clear of k > 0 rows the score is 100·k and the line counter is k, whatever
they were before.

## Model

| member | source | states |
|---|---|---|
| Shapes.RotateCW | js/main.js:341-351 | The clockwise turn of an N x N matrix is again N x N. |
| Shapes.RotateCCW | js/main.js:341-351 | The counter-clockwise turn of an N x N matrix is again N x N. |
| Shapes.Rotate | js/main.js:341-351 | The turn in the chosen direction is N x N; the algebra is in CCWUndoesCW, CWUndoesCCW and FourTurns. |
| Shapes.Rotated | js/main.js:341-351 | The nested loops fill an N x N matrix equal to the turn of the shape in the chosen direction. |
| Shapes.CCWUndoesCW | js/main.js:349 | A clockwise turn followed by a counter-clockwise turn gives back the shape. |
| Shapes.CWUndoesCCW | js/main.js:349 | A counter-clockwise turn followed by a clockwise turn gives back the shape. |
| Shapes.FourTurns | js/main.js:349 | Four clockwise turns give back the shape. |
| Shapes.CWCells | js/main.js:349 | The filled cells of a clockwise turn are the old filled cells moved by (i, j) to (j, N-1-i). |
| Shapes.CWKeepsCount | js/main.js:349 | A clockwise turn keeps the number of filled cells. |
| Shapes.CCWKeepsCount | js/main.js:349 | A counter-clockwise turn keeps the number of filled cells. |
| Pieces.ColorOf | js/pieces.js:1-9 | The COLORS table, one colour per kind; RandomPiece and the invariant's piece colour rest on it. |
| Pieces.BaseShape | js/pieces.js:11-47 | The SHAPES table, one base matrix per kind; its sizes and cells are proved in Pieces.BaseShapeFacts. |
| Pieces.RandomPiece | js/pieces.js:49-59 | A spawned piece is at column 3, row 0, with the shape, colour and type of the chosen kind. |
| Pieces.BaseShapeFacts | js/pieces.js:11-47 | Every base shape is square (2 x 2 for O, 4 x 4 for I, 3 x 3 otherwise) and has exactly four filled cells, all in matrix rows 0 and 1. |
| Pieces.TurnOfClosed | js/main.js:341-351 | Turns of a square matrix are closed under turning either way, and keep its size. |
| Pieces.TurnOfCount | js/main.js:341-351 | Every turn of a square matrix has its number of filled cells. |
| Pieces.OrientationFacts | js/pieces.js:11-47 | Every orientation of a kind is square, 2 to 4 wide, with four filled cells. |
| Pieces.RotateKeepsOrientation | js/main.js:341-358 | Turning keeps a shape among its kind's orientations. |
| Pieces.RandomPieceOriented | js/pieces.js:49-58 | A spawned piece has its kind's base orientation. |
| Board.EmptyRow | js/main.js:271 | `Array(COLS).fill(null)`, as `createGrid` (js/main.js:58) and `clearLines` build it: a row of 10 cells; Board.EmptyGrid, built from it, states that every cell is empty, and Board.ClearedFacts puts one on top per removed row. |
| Board.EmptyGrid | js/main.js:57-59 | `createGrid` gives 20 rows of 10 empty cells. |
| Board.Blocked | js/main.js:233-238 | The tests made for one filled cell: left of column 0, right of column 9, below row 19, or on a non-empty cell of a row at or below 0; Board.CollideIff states `collide` in terms of them. |
| Board.CollideFrom | js/main.js:226-244 | The nested scan with its early return; characterised in Board.CollideFromIff. |
| Board.Collide | js/main.js:225-244 | `collide(piece)`; characterised in Board.CollideIff. |
| Board.CollideFromIff | js/main.js:225-244 | The scan of the nested loops from shape cell (dy, dx) on returns true exactly when a filled cell at or after (dy, dx) is out of bounds or on a locked cell. |
| Board.CollideIff | js/main.js:225-244 | `collide` holds exactly when some filled cell lands left of column 0, right of column 9, below row 19, or on a non-empty cell of a row at or below 0. |
| Board.FreeIsOnBoard | js/main.js:225-244 | A piece at row 0 or below that does not collide lies on the board, over empty cells only. |
| Board.FreeIsAboveFloor | js/main.js:212-214 | A piece with a block that does not collide is above the floor, which bounds the drop loops. |
| Board.SpawnFreeOnEmpty | js/pieces.js:55-56 | A square shape at most 4 wide never collides at (3, 0) on the empty board. |
| Board.Merged | js/main.js:251-259 | Merging keeps a 20 x 10 grid. |
| Board.MergeWritesExactly | js/main.js:251-259 | Merging a free piece at row 0 or below writes its colour into exactly its filled cells, which were empty; no other cell changes. |
| Board.RowFull | js/main.js:269 | `row.every(cell => cell)`: every cell of the row is filled; Board.ClearedFacts proves no such row is left after the sweep. |
| Board.FullRowCount | js/main.js:266-272 | The `linesCleared` count; Board.RowsSplit proves it and the kept rows add up to the grid, and Engine.SweepDone proves the loop's counter equals it. |
| Board.NonFullRows | js/main.js:268-273 | The rows kept by the sweep are not full and come from the grid. |
| Board.Cleared | js/main.js:265-276 | The swept grid of a 20 x 10 grid is 20 x 10. |
| Board.RowsSplit | js/main.js:265-276 | Kept rows plus removed rows make up the whole grid. |
| Board.ClearedFacts | js/main.js:265-276 | After the sweep the grid is 20 x 10, has no full row, has one empty row on top per removed row, and keeps the other rows in order below them. |
| Board.ClearedIdempotent | js/main.js:265-276 | Sweeping twice is sweeping once; a grid with no full row is left as it is. |
| Board.ClearBottomRow | js/main.js:265-276 | With only the bottom row full, one row is removed and the rest shift down by one. |
| Board.NonFullAppend | js/main.js:265-276 | Removing full rows from two stacked grids is removing them from each. |
| Board.FirstCollision | js/main.js:211-214 | The drop loop stops at the first colliding row at or after the start, and every row before it is free. |
| Board.Landing | js/main.js:212-215 | The row where the loop of `getGhostPiece` (js/main.js:212-215) and of `hardDrop` (js/main.js:320-323) leaves the piece after the step back; Board.LandingIff characterises it exactly. |
| Board.LandingIff | js/main.js:211-215 | The landing row is the only row r with every row from the piece's own to r free and row r + 1 colliding; a free piece lands at or below its row, free there. |
| Rules.Initial | js/main.js:22-34 | The constructor's field values; Rules.InitialValid proves the invariant of it. |
| Rules.AfterMove | js/main.js:287-293 | If the shifted piece collides nothing changes; otherwise exactly the piece's column changes by `dir`. A free piece stays free. |
| Rules.AfterRotate | js/main.js:341-358 | If the turned shape collides nothing changes; otherwise exactly the piece's shape changes, to its turn. A free piece stays free. |
| Rules.AfterClearLines | js/main.js:265-281 | The sweep and the assigned counters; Engine.Game.ClearLines is proved to compute it and Board.ClearedFacts states the grid it leaves. |
| Rules.AfterLock | js/main.js:302-313 | The lock sequence; its properties are in Rules.LockFacts, Rules.LockValid and Rules.LockRearmsHold. |
| Rules.AfterDrop | js/main.js:299-314 | One row down if free, else lock; its properties are in Rules.SoftDropKeepsHold, Rules.DropValid and Rules.HardDropIsRepeatedDrop. |
| Rules.AfterHardDrop | js/main.js:319-334 | Lock at the landing row; its properties are in Rules.HardDropIsRepeatedDrop, Rules.HardDropValid and Rules.HardDropOOnEmpty. |
| Rules.AfterHold | js/main.js:364-390 | Both hold branches and the game-over test; their properties are in Rules.HoldFacts, Rules.HoldOncePerLock and Rules.HoldValid. |
| Rules.AfterTogglePause | js/main.js:395-396 | The pause flag flipped; Rules.OtherOpsKeepHold and Rules.GameOverSticky use it. |
| Rules.AfterReset | js/main.js:416-427 | The reset fields; Rules.ResetValid proves the result valid and not over. |
| Rules.AfterUpdate | js/main.js:468-476 | The timer step; its cases are in Rules.UpdateTiming and its invariant in Rules.UpdateValid. |
| Rules.AfterAnimate | js/main.js:498-503 | One frame; Rules.AnimateSteps and Rules.GameOverSticky state its cases. |
| Rules.InitialValid | js/main.js:20-34 | The constructed game satisfies the invariant. |
| Rules.ResetValid | js/main.js:416-427 | Reset gives a game that satisfies the invariant and is not over. |
| Rules.MoveValid | js/main.js:287-293 | Moving keeps the invariant. |
| Rules.RotateValid | js/main.js:341-358 | Rotating keeps the invariant. |
| Rules.LockValid | js/main.js:302-313 | The lock sequence keeps the invariant and leaves no full row. |
| Rules.DropValid | js/main.js:299-314 | Dropping keeps the invariant. |
| Rules.LandedValid | js/main.js:320-323 | The piece moved to its landing row still satisfies the invariant. |
| Rules.HardDropValid | js/main.js:319-334 | Hard dropping keeps the invariant. |
| Rules.HoldValid | js/main.js:364-390 | Holding keeps the invariant. |
| Rules.UpdateValid | js/main.js:468-476 | A timer update keeps the invariant. |
| Rules.AnimateSteps | js/main.js:498-503 | A frame records the time and, unless the game is over, updates by the elapsed time. |
| Rules.LockFacts | js/main.js:302-313 | Locking a free piece writes its colour into its cells, which were empty, then sweeps the grid. Hold is re-armed, the next piece becomes current, the held piece stays, and the game is over exactly when the new piece collides. |
| Rules.HardDropIsRepeatedDrop | js/main.js:299-334 | A hard drop locks where soft drops from the landing row would, and from the piece's row down to just above the landing row each soft drop only moves one row down. |
| Rules.HoldFacts | js/main.js:364-390 | A permitted hold either swaps with the held piece, which returns at (3, 0) with its shape kept, or holds the current piece and brings in the next. The grid is untouched, and the game is over exactly when the new piece collides. |
| Rules.HoldOncePerLock | js/main.js:364-385 | Hold ends with `canHold` false; with `canHold` false it changes nothing, so a second hold is a no-op. |
| Rules.LockRearmsHold | js/main.js:305 | Locking sets `canHold` again (js/main.js:305 in `dropPiece`, js/main.js:327 in `hardDrop`). |
| Rules.OtherOpsKeepHold | js/main.js:287-293 | Moving, rotating and pausing leave `canHold` alone. |
| Rules.SoftDropKeepsHold | js/main.js:299-301 | A drop to a free row moves the piece one row down and changes nothing else. |
| Rules.GameOverSticky | js/main.js:498-507 | Once the game is over, no piece operation (move, rotate, lock, drop, hard drop, hold, pause, timer update; js/main.js:287-390 only ever set the flag to true) clears the flag, and a frame changes only the frame time. |
| Rules.HardDropOOnEmpty | js/main.js:319-334 | On the empty board an O piece from the spawn lands on row 18 and clears nothing. |
| Rules.MoveUndo | js/main.js:287-293 | A move that went through is undone by the opposite move. |
| Rules.RotateUndo | js/main.js:341-358 | A rotation that went through is undone by the rotation the other way. |
| Rules.DropIgnoresTimer | js/main.js:299-314 | Locking and dropping neither read nor write the drop timer. |
| Rules.UpdateTiming | js/main.js:468-476 | While paused, update changes nothing. Otherwise the timer grows by the elapsed time; past 1000 ms the piece drops as `dropPiece` would and the timer restarts at 0. |
| Rules.LockIgnoresPause | js/main.js:302-313 | Locking neither reads nor writes the pause flag. |
| Rules.DropIgnoresPause | js/main.js:299-314 | Dropping neither reads nor writes the pause flag. |
| Rules.HardDropIgnoresPause | js/main.js:319-334 | Hard dropping neither reads nor writes the pause flag. |
| Engine.Game.constructor | js/main.js:20-34 | The new game is the initial state with the two picked kinds and satisfies the invariant. |
| Engine.Game.GetGhostPiece | js/main.js:203-218 | The ghost is the current piece moved to its landing row; nothing is modified. |
| Engine.Game.Merge | js/main.js:251-259 | The loops leave the grid equal to the merged grid; only the grid changes. |
| Engine.Game.UpdateScore | js/main.js:446-451 | The score is set to the given points. |
| Engine.Game.UpdateLines | js/main.js:457-462 | The line counter is set to the given count. |
| Engine.Game.ClearLines | js/main.js:265-281 | The sweep leaves the cleared grid. With k > 0 full rows the score becomes 100·k and the lines k; otherwise neither changes. |
| Engine.Game.LockPiece | js/main.js:302-313 | The state becomes the lock of the old state, and the invariant is kept. |
| Engine.Game.MovePiece | js/main.js:287-293 | The state becomes the move of the old state, and the invariant is kept. |
| Engine.Game.DropPiece | js/main.js:299-314 | The state becomes the drop of the old state, and the invariant is kept. |
| Engine.Game.HardDrop | js/main.js:319-334 | The loop stops at the first colliding row and the step back puts the piece on its landing row; then the piece locks, and the state becomes the hard drop of the old state. |
| Engine.Game.RotatePiece | js/main.js:341-358 | The state becomes the rotation of the old state, and the invariant is kept. |
| Engine.Game.HoldPiece | js/main.js:364-390 | The state becomes the hold of the old state, and the invariant is kept. |
| Engine.Game.TogglePause | js/main.js:395-396 | Only the pause flag flips. |
| Engine.Game.ResetGame | js/main.js:416-430 | The state becomes the reset of the old state with the two picked kinds and satisfies the invariant; pause and timer fields are kept. |
| Engine.Game.Update | js/main.js:468-476 | The state becomes the timer update of the old state, and the invariant is kept. |
| Engine.Game.Animate | js/main.js:498-503 | The state becomes one frame of the old state at the given time, and the invariant is kept. |
| Engine.SweepRow | js/main.js:268 | During the sweep the row looked at holds the next original row. |
| Engine.SweepFull | js/main.js:269-273 | Splicing out a full row and putting an empty one on top advances the sweep by one removed row. |
| Engine.SweepKeep | js/main.js:268-274 | A row that is not full stays where it is. |
| Engine.SweepDone | js/main.js:266-276 | The finished sweep is the cleared grid, and its counter is the number of full rows. |
| Controls.KEY_ACTIONS | js/controls.js:5-17 | The `keyActions` table; its entries are stated in Controls.KeyCodes. |
| Controls.KeyAction | js/controls.js:5-22 | A code has an action exactly when it is in the table, and the action is the table's. |
| Controls.KeyCodes | js/controls.js:5-17 | The eleven codes map to the operations of the table: both arrows sideways, ArrowUp and KeyX clockwise, KeyZ counter-clockwise, and so on. |
| Controls.Perform | js/controls.js:6-16 | Every action on a running game keeps the invariant. |
| Controls.KeySpec | js/controls.js:19-24 | Handling a key keeps the invariant. |
| Controls.RunKeys | js/controls.js:19-24 | Any run of keys keeps the invariant. |
| Controls.HandleKey | js/controls.js:19-24 | The handler leaves the game in the state its specification gives, and keeps the invariant. |
| Controls.KeySteps | js/controls.js:22-23 | On a running game a mapped key performs the table's action, which is the matching `Game` method. |
| Controls.GameOverIgnoresKeys | js/controls.js:20 | Once the game is over, no run of keys changes anything, KeyR included. |
| Controls.UnmappedKeyIgnored | js/controls.js:16-23 | A code outside the table, or KeyM, changes nothing. |
| Controls.KeyTable | js/controls.js:6-15 | On a running game each mapped key does what its `Game` method does. |
| Controls.PauseNotConsulted | js/controls.js:19-24 | In a paused game every key but KeyP does what it does in a running one and leaves the flag as it was. |
| Controls.PerformIgnoresPause | js/controls.js:6-16 | Every action but pause neither reads nor writes the pause flag. |
| Controls.ArrowsUndo | js/controls.js:6-7 | ArrowLeft undoes an ArrowRight that moved the piece, and the other way round. |
| Controls.TurnKeysUndo | js/controls.js:10-11 | KeyZ undoes a KeyX that turned the piece, and the other way round. |

## Left out

- Canvas drawing is not modelled: `drawCell`, `drawPiece`, `drawNextPiece`, `drawHeldPiece`, `drawGrid`, `draw` and the canvas setup. It is output only.
- `shadeColor` is not modelled. It is floating-point colour arithmetic for display.
- DOM work is not modelled: the modals of `togglePause` and `showGameOverModal`, the `textContent` updates in `updateScore` and `updateLines`, and the button and `visibilitychange` listeners. These are browser calls.
- The `visibilitychange` handler, which pauses a hidden page, is left out too, for the same reason.
- `requestAnimationFrame` is left out. `Animate` models one frame. The chain of frames, and the extra chain that `togglePause` starts on resume, are host scheduling.
- Frame timestamps are modelled as integer milliseconds, not floating point.
- `toggleGhostPiece` and `HOLD_OFFSETS` are left out. They only affect drawing.
- The music key KeyM is mapped to an action that leaves the game alone. js/audio.js and the music and pause buttons of js/controls.js are not part of this model; they call browser audio.
- `Math.random` is a parameter: the kind to spawn is passed to the operation that spawns it.
- Shape cells are booleans. The engine only tests them for truthiness.
- Grid cells are empty or a colour string.
- Engine.Game.DropPiece: requires that the game is not over. Every caller checks this: the key handler's guard and the animation loop. The invariant makes the current piece free only while the game runs, and Rules.LockValid needs a free piece to know it is on the board. In the source a game-over piece sits at its spawn over locked cells, so a drop there would overwrite them; that path is never taken.
- Engine.Game.HardDrop: requires that the game is not over, for the same reason.
- Engine.Game.Update: requires that the game is not over, because `animate` calls it only then.
- Engine.Game.LockPiece: requires that the game is not over, for the same reason as `dropPiece`.
- Engine.Game.Merge: requires that every filled cell is on the board. In the source, `this.grid[-1]` and `this.grid[20]` are `undefined`, so writing into row -1 or row 20 throws a TypeError; a column past 9 grows that row's array, and column -1 adds a non-index property to it. The invariant keeps every piece at row 0 or below, and free while the game runs.
- Pieces are values (a datatype), not shared objects. The source never lets two fields alias the same piece object in a way that a later in-place update could see: `getGhostPiece` copies, and every spawn builds a new record.
