# Falling-block game engine, modelled in Dafny

This project models the game-state engine of a small WPF falling-block puzzle game (the
`MainWindow` class of `WpfApp2/MainWindow.xaml.cs`) with the rendering removed. The
modelled parts are:

- the 20 x 10 occupancy grid (`int` cells, 0 empty, 1 occupied, indexed `grid[y][x]`);
- the catalog of seven four-block templates;
- the active piece (anchor plus template);
- the collision test;
- the transitions the window drives: start, the timer tick (`GameLoop`) and the four
  handled keys (left, right, down, space).

The model is functional. A game state is an immutable `Game` value:

- `grid`;
- `score`;
- `isGameOver`;
- `piece`, which is `None` before the first start, when the window has no template yet.

Every operation is a function from states to states. Three loops of the source are
also written as methods with loop invariants and proved to compute the same thing as
the functions:

- the collision scan (`Collision.CheckCollision`);
- the row-clear pass (`RowClear.ClearRowsScan`);
- the space key's `while (MoveShape(0, 1)) { }` (`Engine.HardDropLoop`).

Modules, leaf first:

- `Board`: the grid, its dimensions and its 0/1 invariant, the empty grid, full rows.
- `Pieces`: points, pieces, the template table, the spawn point, translation.
- `Collision`: `Blocked`, `Collides`, `Fits` and the collision scan.
- `RowClear`: the single bottom-to-top clearing pass and its properties.
- `Engine`: the game state and every transition.
- `GameProperties`: properties that relate several transitions or fix a scenario.
- `Session`: events (click, tick, key) and runs of events from the new window. It proves
  that every reachable state satisfies the engine invariant `Engine.Valid`.

Modelling choices:

- The source's `Point` holds doubles, but every value in it is a whole number, so
  coordinates are `int` and the `(int)` casts are identities.
- `new Random()` is replaced by a shape index `k` in `[0, 7)`, passed to `SpawnShape`,
  `Tick` and `Start`.
- The timer only runs between a start and the end of the game, so `Tick` requires a
  running game.
- Left, right, down and space read `currentShapeBlocks`, which is null before the first
  start. `KeyDown` therefore requires the game to be over, the key to be an unhandled
  one, or a piece to exist.
- A full row is one with no cell equal to 0, which is the test the code makes.
- `EndGame` is folded into `Engine.SpawnShape`. Its only modelled effect is setting the
  game-over flag; the score is kept.

Two places where the code does not do what a player might expect: that every full row
clears at once, and that the square falls 19 rows on an empty board. The model follows
the code in both:

- Clearing is one pass. After row `i` is cleared, the scan moves on to `i - 1` and never
  looks at the row that has just dropped into `i`. Two adjacent full rows therefore give
  one clear and 100 points, not two clears and 200, and a full row stays on the board
  (`RowClear.AdjacentFullRowsClearedOnce`). The model proves only an upper bound, "at most
  100 points per full row", and an if-and-only-if, "some points exactly when some row is
  full". A row left full this way is cleared, and scored, at the next lock-in even when
  the new piece completes nothing (`GameProperties.LeftoverFullRowScores`).
- On an empty board the square stops at anchor row 18, with its blocks on rows 18 and 19.
  So it makes 18 one-row falls, not 19 (`GameProperties.SquareHardDropAfterStart`).

## Model

| member | source | states |
|---|---|---|
| `Pieces.CatalogFacts` | WpfApp2/MainWindow.xaml.cs:45-54 | seven templates of four offsets each; every column offset is in [-1, 2] and every row offset is in {0, 1}; the first offset is on row 0 and every template contains (0, 0) |
| `Pieces.SpawnCellsInBounds` | WpfApp2/MainWindow.xaml.cs:170-177 | a piece anchored at (Columns / 2, 0) lies wholly on the board and covers its anchor cell, so the spawn lookup `grid[y, x]` is always in range |
| `Collision.CheckCollision` | WpfApp2/MainWindow.xaml.cs:234-247 | the block-by-block scan with early return answers true exactly when some shifted block has x < 0, x >= Columns, y >= Rows, or y >= 0 on an occupied cell; every grid read is in range |
| `Collision.FitsIffNoCollision` | WpfApp2/MainWindow.xaml.cs:241 | on a 0/1 grid, "no collision and no block above row 0" is the same as "every block on the board over an empty cell" |
| `RowClear.ShiftDown` | WpfApp2/MainWindow.xaml.cs:283-294 | removing row i: rows 1..i take the row above, row 0 becomes empty, rows below i are unchanged, and the 0/1 property is kept |
| `RowClear.ClearFrom` | WpfApp2/MainWindow.xaml.cs:268-300 | the rest of the pass from row i upward keeps the dimensions and the 0/1 property, leaves rows below i alone, and clears at most i + 1 rows |
| `RowClear.ClearRows` | WpfApp2/MainWindow.xaml.cs:266-300 | the whole pass keeps a well-formed grid and clears at most Rows rows |
| `RowClear.ClearRowsScan` | WpfApp2/MainWindow.xaml.cs:266-300 | the nested loops compute the pass: the column scan that breaks at the first 0, the row-by-row shift, the emptying of row 0, and +100 per clear |
| `RowClear.ClearsIffSomeFull` | WpfApp2/MainWindow.xaml.cs:268-281 | the pass clears something exactly when some scanned row was full at the start |
| `RowClear.NoFullRowNoChange` | WpfApp2/MainWindow.xaml.cs:268-281 | with no full row the pass leaves the grid unchanged and clears nothing |
| `RowClear.SkipNonFullRows` | WpfApp2/MainWindow.xaml.cs:268-281 | rows that are not full are passed over without effect |
| `RowClear.ClearsLowestFullRowOnly` | WpfApp2/MainWindow.xaml.cs:268-299 | if the lowest full row is r and no row above r - 1 is full, the pass is one shift of row r and one clear, whether or not row r - 1 is full |
| `RowClear.SingleFullRowCleared` | WpfApp2/MainWindow.xaml.cs:281-298 | a single full row is removed, the rows above move down one, and exactly one clear is counted |
| `RowClear.AdjacentFullRowsClearedOnce` | WpfApp2/MainWindow.xaml.cs:268-299 | two adjacent full rows give only one clear in a pass, and a full row remains at the lower index |
| `RowClear.ClearsAtMostFullRows` | WpfApp2/MainWindow.xaml.cs:268-299 | a pass never clears more rows than the grid held full rows |
| `Engine.ResetGame` | WpfApp2/MainWindow.xaml.cs:153-161 | every cell becomes 0, the score 0 and the game-over flag false; the piece fields are untouched |
| `Engine.SpawnShape` | WpfApp2/MainWindow.xaml.cs:163-181 | a spawn is a no-op once the game is over; otherwise it anchors template k at (Columns / 2, 0) and ends the game exactly when that piece collides; grid and score are kept; the invariant is preserved and a successful spawn fits |
| `Engine.MoveShape` | WpfApp2/MainWindow.xaml.cs:216-232 | the move is made exactly when the moved piece does not collide; on a predicted collision nothing changes; otherwise the anchor moves by exactly (dx, dy); grid, score and flag never change; in a valid running game with dy >= 0 the move happens exactly when the moved piece fits, and the invariant is preserved |
| `Engine.PlaceBlocks` | WpfApp2/MainWindow.xaml.cs:251-260 | marking the blocks one after another yields a grid that is 1 on exactly the cells the piece covers and unchanged elsewhere |
| `Engine.PlaceShape` | WpfApp2/MainWindow.xaml.cs:249-264 | locking in sets exactly the piece's cells to 1, changes no other cell, and leaves score, flag and piece fields alone |
| `Engine.ClearFullRows` | WpfApp2/MainWindow.xaml.cs:266-300 | the score grows by 100 per cleared row and stays a non-negative multiple of 100 |
| `Engine.Tick` | WpfApp2/MainWindow.xaml.cs:206-214 | if the piece fits one row lower, only its row grows by 1; otherwise a new piece of template k is spawned (`Engine.TickLocksIn` identifies this branch with the lock-in); the invariant is preserved; the score never drops and grows by at most 100 × Rows |
| `Engine.TickLocksIn` | WpfApp2/MainWindow.xaml.cs:206-213 | a tick in which the piece cannot move down is exactly the lock-in: place, clear, spawn |
| `Engine.LockIn` | WpfApp2/MainWindow.xaml.cs:208-213 | place, then clear, then spawn. The grid is the placed grid after clearing. The score grows exactly when the grid after placing has a full row, possibly one left over from an earlier pass, and by at most 100 per full row. The game ends exactly when the new piece collides with the grid |
| `Engine.HardDrop` | WpfApp2/MainWindow.xaml.cs:317-318 | the fall terminates with the grid, score, column and template unchanged; one more row down would collide; every row passed on the way fits |
| `Engine.HardDropLoop` | WpfApp2/MainWindow.xaml.cs:318 | the `while (MoveShape(0, 1))` loop terminates (measure Rows minus the anchor row) and stops where the hard drop stops |
| `Engine.KeyDown` | WpfApp2/MainWindow.xaml.cs:302-321 | once the game is over every key is a no-op; no key changes the grid, the score or the flag; the template is kept and the invariant is preserved |
| `Engine.Start` | WpfApp2/MainWindow.xaml.cs:130-135 | reset then spawn: the game is running, the score is 0, the grid is empty and the piece is template k at the spawn point |
| `GameProperties.SideMoveChangesOnlyColumn` | WpfApp2/MainWindow.xaml.cs:308-313 | left and right never change the row; they move the piece one column exactly when the shifted piece fits and leave it in place otherwise |
| `GameProperties.SoftDropNeverLocks` | WpfApp2/MainWindow.xaml.cs:314-316 | down keeps the column, moves one row exactly when the lower piece fits, and never touches the grid or the score, even when the piece cannot fall |
| `GameProperties.HardDropRests` | WpfApp2/MainWindow.xaml.cs:317-319 | after space the piece cannot move down, and the grid is unchanged, so nothing is locked in |
| `GameProperties.PlacingKeepsFullRows` | WpfApp2/MainWindow.xaml.cs:251-260 | locking a piece in only sets cells to 1, so a row that was full stays full |
| `GameProperties.LeftoverFullRowScores` | WpfApp2/MainWindow.xaml.cs:206-213 | a lock-in raises the score whenever the grid already held a full row, whether or not the piece completes one |
| `GameProperties.RestingRowOnEmptyGrid` | WpfApp2/MainWindow.xaml.cs:241 | on an empty grid, a piece that fits but would collide one row lower has its lowest block on the last row, which is where a hard drop leaves it |
| `GameProperties.SquareHardDropAfterStart` | WpfApp2/MainWindow.xaml.cs:47 | after a start with the square, a hard drop leaves the anchor at (5, 18) |
| `GameProperties.SpawnOnEmptyGridSucceeds` | WpfApp2/MainWindow.xaml.cs:170-181 | on an empty grid a spawn never ends the game and the new piece fits |
| `GameProperties.OccupiedSpawnCellEndsGame` | WpfApp2/MainWindow.xaml.cs:170-181 | if cell (row 0, column Columns / 2) is occupied, every template ends the game and the score is kept |
| `GameProperties.GameOverFreezes` | WpfApp2/MainWindow.xaml.cs:165 | with the game over, no key and no spawn changes the state |
| `Session.Step` | WpfApp2/MainWindow.xaml.cs:130-321 | each handler keeps the invariant; nothing but start lowers the score; once the game is over nothing but start changes the state |
| `Session.Run` | WpfApp2/MainWindow.xaml.cs:130-321 | every state reached from a valid state by enabled events is valid |
| `Session.InitialIsValid` | WpfApp2/MainWindow.xaml.cs:14-44 | the new window (zero grid, score 0, flag false, no piece) is valid and has no running game |
| `Session.ReachableStatesAreValid` | WpfApp2/MainWindow.xaml.cs:130-321 | every state reachable from the new window satisfies the invariant |
| `Session.ScoreNeverDecreases` | WpfApp2/MainWindow.xaml.cs:296 | without a start click the score never goes down |
| `Session.GameOverUntilStart` | WpfApp2/MainWindow.xaml.cs:199-204 | after the game ends, only a start click changes the state |

## Left out

- Drawing is left out because it is layout with floating point. This covers `DrawGrid`,
  the `Rectangle` list `currentShape`, `Canvas.SetLeft`/`SetTop`, the score label, and the
  `BlockSize` derived from the screen height.
- The `DispatcherTimer` (creation, the 500 ms interval, start, stop) is left out; a tick is
  an explicit operation, enabled while a game runs.
- The help and game-over message boxes, the help button and the exit button are left out
  as user-interface and process I/O. The game-over dialog only displays the score, which
  the model keeps.
- `System.Random` is left out; the template index is an input.
- The WPF event-argument types are left out; each key maps to a `Key` value.
- `Engine.KeyDown`: before the first start, left, right, down and space make the source
  throw a `NullReferenceException`. The `foreach` over the null `currentShapeBlocks` in
  `CheckCollision` (line 236) is reached from the key handler (lines 309-318). The model
  does not represent the exception; its precondition excludes that case instead.
- `Engine.Tick`: the score is an unbounded integer. The source's 32-bit `int` would wrap
  only after more than 21 million clears.
- `RowClear.ClearRowsScan`: it copies and empties whole rows, where the source copies
  cell by cell. The effect on the grid is the same.
