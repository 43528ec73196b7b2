# TetrisWidget game engine in Dafny

This project models the falling-block engine of `TetrisWidget`, a Qt Tetris
game. The engine's state is a 22 x 10 board of `int` cells, where 0 means
empty. Rows 0..19 are where pieces can be; rows 20 and 21 lie below that and
stay empty. The rest of the state is the active piece with its position, the
score and the pause flag. The engine's operations are:

- the two rotations of a piece;
- the collision-checked move `tryMove`;
- gravity: `oneLineDown` and `dropDown`;
- locking: `pieceDropped`;
- row removal and scoring: `removeFullLines`;
- spawning and reset: `newPiece` and `clearBoard`;
- the effect on the game of the key and timer handlers.

There are three modules, one file each:

- `pieces.dfy` (module `Pieces`) covers the piece value type:
  - a 4 x 4 mask plus one of the seven palette colours;
  - the shape table;
  - the two quarter turns, as pure functions.
- `grid.dfy` (module `Grid`) gives each board operation its meaning as a
  function on the board's rows:
  - the placement test `Fits`;
  - the locked board `Lock`;
  - the landing row `LandingY`;
  - the compacted board `Compacted`;
  - a transition system `Sweep` for the row-removal loop.

  It also holds the facts the game relies on.
- `tetris.dfy` (module `Tetris`) models the widget. It is a class with the
  same fields as the C++ one: `board` is an `array2<int>`, plus
  `currentPiece`, `currentX`, `currentY`, `score` and `isPaused`. Its
  methods keep the loops of the C++ methods. Each method is proved against
  the `Grid` function for its operation, through the ghost view `Rows()` of
  the array.

The object invariant `Valid()` says four things:

- every cell is empty or a palette colour;
- rows 20 and 21 are empty;
- the score is not negative;
- the active piece has four cells and lies inside columns 0..9 and above
  row 20.

The constructor establishes `Valid()`. `DropDown`, `OneLineDown`,
`PieceDropped`, `KeyPress` and `TimerTick` require it and keep it. The other
methods neither require nor ensure it; each states only its effect on the
board and fields. These are `ClearBoard`, `NewPiece`, `TryMove`,
`WritePiece`, `RemoveFullLines`, `SweepOnce`, `IsRowFull` and
`ShiftRowsDown`. `TryMove` on its own accepts any piece that fits, including
one without four cells. The game only ever passes it the current piece, a
rotation of it, or a freshly spawned piece.

Facts about the code that the model keeps as they are:

- **No game-over flag.** No field records that the game is over. A failed
  spawn only stops the gravity timer and shows a dialog. The piece stays at
  the spawn position and play can go on. `NewPiece` returns whether the
  placement fitted, and no state records it.
- **Row 0 is copied down, not cleared.** The shift copies row `yy - 1` to
  row `yy` for `yy` from `y` down to 1 and never writes row 0. Row 0
  therefore stays as it was and is duplicated. `Compacted` is stated that
  way: one copy of the old row 0 per removed row, then the old non-full rows
  in order.
- **A full row 0 hangs `removeFullLines`.** After a shift the loop examines
  the same index again, so a full row 0 is shifted onto itself for ever.
  `Grid.SweepFullTopRowNeverExits` proves that the loop never exits in that
  case. The methods that can reach `removeFullLines` require that locking
  does not fill row 0.
- **Down and Up rotate.** The Down key turns the piece clockwise and the Up
  key turns it anticlockwise. Neither key moves the piece down.
- **The `tryMove` signature.** The header declares `tryMove` with a
  malformed last parameter (`intY`, at `tetriswidget.h:66`). The model
  follows the definition at `tetriswidget.cpp:178`.

The random shape choice of `newPiece` is a parameter `index` in 0..6. Every
method that can spawn a piece takes it.

## Model

| member | source | states |
|---|---|---|
| Pieces.RotatedRight | tetriswidget.cpp:134-141 | a clockwise turn keeps the piece's colour |
| Pieces.RotatedLeft | tetriswidget.cpp:143-150 | an anticlockwise turn keeps the piece's colour |
| Pieces.RotateLeftUndoesRight | tetriswidget.cpp:134-150 | turning right then left gives back the same mask and colour |
| Pieces.RotateRightUndoesLeft | tetriswidget.cpp:134-150 | turning left then right gives back the same mask and colour |
| Pieces.FourRightTurnsIdentity | tetriswidget.cpp:134-141 | four clockwise turns give back the original piece |
| Pieces.RotatedRightKeepsCellCount | tetriswidget.cpp:134-141 | a clockwise turn keeps the number of occupied cells |
| Pieces.RotatedLeftKeepsCellCount | tetriswidget.cpp:143-150 | an anticlockwise turn keeps the number of occupied cells |
| Pieces.Spawned | tetriswidget.cpp:154-166 | each of the seven shape-table pieces has exactly four occupied cells, all in the mask's first two rows |
| Grid.EmptyGrid | tetriswidget.cpp:127-131 | the cleared board is 22 x 10, every cell is valid and the two hidden rows are empty |
| Grid.SpawnInBounds | tetriswidget.cpp:168-169 | at the spawn position (3, 0) every mask cell lies in columns 3..6 and rows 0..3, so it is in bounds |
| Grid.InBoundsAboveFloor | tetriswidget.cpp:184 | a piece that passes the bounds test has its corner above row 20, which bounds every downward move |
| Grid.LockWritesOnlyPieceCells | tetriswidget.cpp:214-222 | locking changes only cells the piece covers, and each covered cell gets the piece's non-zero colour |
| Grid.LockBlocksSamePlacement | tetriswidget.cpp:214-222 | once a piece with a cell at row >= 0 is locked, the same placement no longer fits |
| Grid.LockKeepsInvariants | tetriswidget.cpp:214-222 | locking keeps every cell empty or a palette colour, and never writes rows 20 and 21 |
| Grid.LandingY | tetriswidget.cpp:199-210 | the landing row of a drop: every row passed on the way fits, the row below it does not, and the piece stays in bounds |
| Grid.ShiftedAt | tetriswidget.cpp:240-241 | one shift for row y moves rows 0..y-1 down by one, keeps row 0 and leaves the rows below y unchanged |
| Grid.NonFullLength | tetriswidget.cpp:228-251 | the kept rows plus the removed rows make up the whole board |
| Grid.NonFullRows | tetriswidget.cpp:230-243 | every kept row is a non-full row of the old board |
| Grid.CompactedShape | tetriswidget.cpp:228-251 | with row 0 not full, the result is a 22 x 10 board of old rows with no full row left |
| Grid.CompactedWithoutFullRows | tetriswidget.cpp:245-251 | a board without full rows is left unchanged |
| Grid.CompactedKeepsInvariants | tetriswidget.cpp:228-251 | row removal keeps every cell empty or a palette colour, and keeps rows 20 and 21 empty |
| Grid.PartialExamined | tetriswidget.cpp:230-238 | the row examined at index y is the next original row, or else a copy of row 0, so a full one is never row 0 |
| Grid.PartialRemovesFullRow | tetriswidget.cpp:238-243 | shifting at a full original row removes exactly that row, adds one copy of row 0 on top and raises the count by one |
| Grid.PartialKeepsRow | tetriswidget.cpp:230-244 | a non-full row is kept in place and not counted |
| Grid.SweepFullTopRowNeverExits | tetriswidget.cpp:238-243 | with row 0 full, the loop index stays at or above 0 after any number of iterations, so removeFullLines never returns |
| Grid.SweepStepKeepsForm | tetriswidget.cpp:230-244 | with row 0 not full, each iteration keeps the loop state in its invariant form and decreases the progress measure |
| Grid.SweepRuns | tetriswidget.cpp:230-244 | from any reachable loop state, some later iteration ends with the compacted board and the full-row count |
| Grid.SweepComputesCompacted | tetriswidget.cpp:228-244 | with row 0 not full, the loop exits with the compacted board and the number of full rows |
| Tetris.TetrisWidget.constructor | tetriswidget.cpp:12-34 | a new game has an empty board, score 0, is not paused and has the piece for `index` at the spawn position |
| Tetris.TetrisWidget.ClearBoard | tetriswidget.cpp:127-131 | every cell of the board becomes 0 |
| Tetris.TetrisWidget.NewPiece | tetriswidget.cpp:153-175 | piece `index` is set at (3, 0) whether or not it fits, and the result says whether tryMove accepted it |
| Tetris.TetrisWidget.TryMove | tetriswidget.cpp:178-196 | returns true exactly when the piece is in bounds and overlaps no filled cell at row >= 0; it commits its arguments on true and changes nothing on false |
| Tetris.TetrisWidget.DropDown | tetriswidget.cpp:199-201 | terminates with the piece locked at its landing row, full rows removed, 10 points per removed row and a new piece spawned |
| Tetris.TetrisWidget.OneLineDown | tetriswidget.cpp:204-210 | moves the piece down one row exactly when it fits there; otherwise locks it, removes full rows, scores and spawns |
| Tetris.TetrisWidget.PieceDropped | tetriswidget.cpp:213-225 | the board becomes the locked board with full rows removed, the score rises by 10 per removed row, a new piece is spawned and the invariant is kept |
| Tetris.TetrisWidget.WritePiece | tetriswidget.cpp:214-222 | the board becomes the locked board: the piece's colour in its cells at row >= 0, every other cell unchanged |
| Tetris.TetrisWidget.RemoveFullLines | tetriswidget.cpp:228-251 | with row 0 not full, the board becomes its compaction and the score rises by exactly 10 times the number of full rows |
| Tetris.TetrisWidget.SweepOnce | tetriswidget.cpp:231-243 | one loop iteration performs exactly one step of the row-removal transition system |
| Tetris.TetrisWidget.IsRowFull | tetriswidget.cpp:231-237 | the result is true exactly when row y has no empty cell |
| Tetris.TetrisWidget.ShiftRowsDown | tetriswidget.cpp:240-241 | rows y..1 each receive the row above them, and row 0 is unchanged |
| Tetris.TetrisWidget.KeyPress | tetriswidget.cpp:78-113 | while paused only P acts; P toggles pause; Left and Right shift and Down and Up rotate, each through tryMove; Space drops |
| Tetris.TetrisWidget.TimerTick | tetriswidget.cpp:116-124 | does nothing while paused; otherwise has the effect of one oneLineDown |

## Left out

- Painting, `update()` calls, labels and the time display
  (`paintEvent`, `drawBoard`, `drawPiece`, `initUI`, `updateTimeDisplay`)
  are drawing and clock plumbing. They hold no game logic.
- Background music and the line-clear sound are external media.
- The gravity timer, the clock timer and the elapsed-time clock are not
  modelled. A tick is the call `TimerTick`.
- Dialogs and the `scoreChanged` signal only notify the user.
- The random draw in `newPiece` comes from a foreign generator. It is the
  parameter `index`.
- Colours are modelled as the seven palette integers. Only their identity
  and the fact that they are non-zero matter.
- The Qt event objects are reduced to the `Key` datatype. Keys other than
  the six the game handles go to the base widget, and the model treats them
  as doing nothing to the game.
- `TimerTick` does not compare timer ids. The clock timer in the source
  runs through a signal, not through `timerEvent`.
- The destructor only stops the music.
- Tetris.TetrisWidget.RemoveFullLines: requires that row 0 is not full,
  because otherwise the source never returns (see
  Grid.SweepFullTopRowNeverExits). The score is an unbounded integer, so
  32-bit overflow of `score` is not modelled.
- Tetris.TetrisWidget.PieceDropped: requires that locking the piece does not
  fill row 0, the condition under which `removeFullLines` returns.
- Tetris.TetrisWidget.OneLineDown: requires that row 0 stays open when the
  piece cannot move down and is locked. The reason is the same as for
  PieceDropped.
- Tetris.TetrisWidget.DropDown: requires that locking at the landing row
  does not fill row 0. The reason is the same as for PieceDropped.
- Tetris.TetrisWidget.KeyPress: Space carries the requirement of DropDown.
  On P, the stopping and restarting of timers and music and the pause
  dialog are not modelled, only the flag.
- Tetris.TetrisWidget.TimerTick: carries the requirement of OneLineDown.
- Tetris.TetrisWidget.NewPiece: on a failed placement, the stopping of the
  timer and the "Game Over" dialog are reported only as the `placed`
  result.
- Tetris.TetrisWidget.constructor: the source leaves `currentPiece` unset
  until `newPiece` runs. The model starts it as the spawned piece, which
  `newPiece` overwrites anyway.
