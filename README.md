# tetrisInC: board, rotation and game step, verified in Dafny

This project models the simulation core of a small C Tetris clone. The core has four parts:

- **The board.** A 20 × 10 grid of 0/1 cells. It has the placement test (`checkCollision`), locking a piece in (`lockPiece`), the full-row test (`isLineComplete`), removing one row (`clearLine`), and the bottom-up scan that removes every complete row (`clearCompleteLines`).
- **Rotation.** Copying a 4 × 4 mask (`copyPiece`), the clockwise quarter turn (`rotatePiece`), and rotation with wall kicks (`rotatePieceWithKicks`). The kick search tries the turn in place first, then the seven kick offsets in table order. It commits the first placement that fits, or changes nothing.
- **The game step.** The locals of one game inside `main` are board, piece, anchor, type, score, line total and running flag. The model covers how the session starts, what the gravity tick does, what the held arrow keys do, and how the queued quit events of one pass are handled.
- **The constants.** Board size, spawn anchor, the piece enumeration, the seven masks and their colours, the scoring multiplier and the wall-kick table.

Each file follows the structure of the C code:

- `constants.dfy` (module `Constants`) holds the constants and tables as values.
- `board.dfy` (module `Board`) and `rotation.dfy` (module `Rotation`) hold the array routines as methods on `array2<Bit>`. Each method is proved against a function on the array's contents. `Collides`, `Lock`, `RemoveRow`, `Compacted`, `Rotated` and `TryRotate` are those functions.
- `rules.dfy` (module `Rules`) states the turn rules as functions on a `GameState` value. It proves what they keep: no full row is left, the piece is one of the four orientations of its catalogue shape, and the running piece never collides.
- `session.dfy` (module `GameLoop`) holds the class `Session`. Its fields are the loop's locals. Its methods make the same updates step by step, and each method's new state is proved equal to the corresponding rule in `Rules`.

The inputs that come from outside the core are parameters:

- The piece type drawn by `rand()` is a parameter (`first`, `next`). `RandomPiece` gives the mapping `rand() % NUM_PIECES` from a random value to a type.
- Whether the fall delay has elapsed is a flag (`gravityDue`).
- The queued SDL events are a sequence of `Event` values.
- The keyboard state is a `Keys` value.
- Where the code calls `saveScore`, the model returns a `Report(score, lines)` to the caller.

Two features of the code are modelled exactly as written:

- **Within one pass, quit events do not stop the update.** Every close-window or Escape event reports the current score. The pass then still runs the gravity tick and the held keys. So a quit and a top-out in the same pass report twice (`QuitAndTopOutReportTwice`). One might expect a single report per session and an immediate stop on quit; the code keeps running the pass and reports again on a top-out, and the model does the same. The reverse also happens: when a quit is followed in the same pass by a landing that clears rows without topping out, the points of that landing are added to the score but never reported (`QuitThenClearUnreported`).
- **Cells above the top edge never collide.** A mask cell in a row above the board (row < 0) blocks only if it is past a side wall. `lockPiece` drops such cells silently.

## Model

| member | source | states |
|---|---|---|
| Constants.PieceType.Index | constants.h:27-37 | the enumerator value of every piece type is below NUM_PIECES (7) |
| Constants.FromIndex | constants.h:27-37 | casting a value 0..6 back to PieceType gives the type with that enumerator value |
| Constants.IndexRoundTrip | constants.h:27-37 | enumerator value and cast are inverse: FromIndex(t.Index()) == t |
| Constants.RandomPiece | main.c:111-114 | the type drawn from a random value r is the one whose enumerator value is r mod NUM_PIECES |
| Constants.RandomPieceCoversAllTypes | main.c:111-114 | `rand() % NUM_PIECES` can produce every type, and the draw depends only on the value modulo 7 |
| Constants.CatalogueIsTetrominoes | constants.h:41-97 | the catalogue has 7 entries and every mask has exactly four occupied cells |
| Constants.ColorsAreDistinct | constants.h:101-109 | one colour entry per type, and two types share a colour only if they are the same type |
| Constants.Points | main.c:749 | a landing that clears n rows scores nothing exactly when n is 0, and at least PointsMultiplier per cleared row |
| Constants.PointsTable | constants.h:123-129 | clearing 0, 1, 2, 3, 4 rows scores 0, 100, 400, 900, 1600 |
| Constants.PointsRewardCombos | constants.h:123-129 | clearing a + b rows in one landing scores strictly more than clearing a and b rows in two landings |
| Constants.WallKicksAreSmall | constants.h:133-143 | the kick table has NUM_WALL_KICKS (7) entries, each shifting at most two columns and never down, by at most one row up |
| Board.CheckCollision | main.c:13-38 | returns true exactly when some occupied mask cell lands past a side wall, below the floor, or on an occupied board cell; cells above the top edge are open |
| Board.EmptyBoardCollision | main.c:13-38 | on an empty board a placement collides if and only if some occupied cell is past a side wall or below the floor |
| Board.EmptyBoardFits | main.c:13-38 | on an empty board any mask whose box lies within the walls and above the floor fits, however high it starts |
| Board.AboveTheBoardFits | main.c:28-33 | on any board, a mask whose box lies between the walls and entirely above row 0 fits |
| Board.SpawnFitsOnEmptyBoard | constants.h:23-24 | every catalogue piece fits at the spawn anchor (3, 0) of an empty board, so a fresh game never starts game-over |
| Board.PastTheWallCollides | main.c:25-26 | a mask with an occupied cell in the first (last) column collides when moved one column further left (right) |
| Board.LockPiece | main.c:41-60 | the new grid is Lock of the old one: every occupied mask cell that lands on the board is set to 1; all other cells and off-board mask cells are ignored |
| Board.LockKeepsOccupied | main.c:41-60 | locking never empties a cell, and locking the same placement twice is the same as once |
| Board.LockedPlacementCollides | main.c:41-60 | after locking a piece with a cell on the board, the same placement collides |
| Board.IsLineComplete | main.c:63-71 | returns true exactly when every column of the row is occupied |
| Board.ClearLine | main.c:74-89 | the new grid is RemoveRow of the old one: the given row is taken out and an empty row is put on top |
| Board.RemoveRowAt | main.c:74-89 | after removing row k: row 0 is empty, rows 1..k hold the old rows 0..k-1, rows below k are unchanged |
| Board.RemoveFullRowCount | main.c:74-89 | removing a full row takes exactly GridWidth occupied cells off the board |
| Board.ClearCompleteLines | main.c:92-108 | returns the number of full rows of the old grid and leaves the compacted grid: the non-full rows in their order at the bottom, one empty row on top per cleared row; terminates on Occupied count paired with the row index |
| Board.ScanClears | main.c:99-104 | after clearing a row the scan re-examines the same index, and the occupied count drops strictly |
| Board.ScanSkips | main.c:97-99 | a row that is not full stays where it is and the scan moves one row up |
| Board.CompactedHasNoFullRows | main.c:92-108 | after clearCompleteLines no row is complete |
| Board.CompactedCount | main.c:92-108 | at most GridHeight rows are cleared, and the occupied count drops by exactly cleared × GridWidth |
| Board.CompactedIdempotent | main.c:92-108 | a grid without full rows is left unchanged, so a second clear does nothing |
| Board.LockFillsAtMostFourRows | main.c:741-744 | locking one piece into a grid without full rows completes at most four rows |
| Rotation.CopyPiece | main.c:117-126 | afterwards the destination array holds exactly the source mask |
| Rotation.RotatePiece | main.c:130-152 | the piece array afterwards holds the clockwise quarter turn of its old contents |
| Rotation.RotatedAt | main.c:130-152 | cell (i, j) of the turned mask is cell (3 - j, i) of the original |
| Rotation.RotationKeepsCellCount | main.c:130-152 | a turn neither adds nor removes occupied cells |
| Rotation.FourTurnsAreIdentity | main.c:130-152 | four quarter turns give back the original mask |
| Rotation.FirstFit | main.c:174-186 | the index found is in range, fits, and every earlier offset collides; None means every offset collides |
| Rotation.FirstFitIsFirst | main.c:174-186 | if offset k fits and all earlier offsets collide, the search returns k |
| Rotation.FirstFitMisses | main.c:174-186 | when the search finds nothing, the mask collides at every offset |
| Rotation.FindKick | main.c:174-186 | the kick loop returns the index of the first wall kick at which the turned mask fits, or None, as FirstFit does |
| Rotation.Place | main.c:164-189 | a placement found holds the given mask at an anchor where it does not collide |
| Rotation.TryRotate | main.c:156-190 | a rotation that succeeds installs the turned mask at an anchor where it does not collide |
| Rotation.PlaceOutcome | main.c:164-189 | a placement is refused exactly when the mask collides in place and at all seven kicks; an anchor other than the original is used only when the mask collides in place |
| Rotation.TryRotateOutcome | main.c:156-190 | a rotation is refused exactly when the turn collides in place and at every wall kick; a kick is used only when the turn collides in place |
| Rotation.InPlaceWins | main.c:164-170 | a turn that fits in place is taken in place, before any kick |
| Rotation.KicksCollideStep | main.c:174-186 | one more colliding kick extends the colliding prefix of the table |
| Rotation.NoKickFits | main.c:174-189 | when every kick collides the search finds none |
| Rotation.NoKickFound | main.c:174-189 | when the search finds no kick, every kick collides |
| Rotation.KickUsed | main.c:174-186 | when the mask collides in place, the kick the search finds decides the anchor |
| Rotation.NoKickUsed | main.c:186-189 | when the mask collides in place and no kick fits, nothing is placed |
| Rotation.KickTaken | main.c:174-186 | kick k is taken when the turn collides in place, kick k fits and every earlier kick collides |
| Rotation.RotatePieceWithKicks | main.c:156-190 | on success the piece array and anchor become the placement TryRotate gives; on failure TryRotate refuses and mask and anchor are unchanged |
| Rules.TurnsKeepCellCount | main.c:816-821 | any number of turns keeps the number of occupied cells |
| Rules.TurnAgain | main.c:816-821 | turning one of the four orientations of a shape gives another of them |
| Rules.InvariantPieceHasFourCells | main.c:664 | while the invariant holds the falling piece has exactly four cells |
| Rules.NewGame | main.c:646-672 | a new game is running and its first piece does not collide at the spawn anchor |
| Rules.NoFullRowsOnEmptyGrid | main.c:649-655 | the zeroed board has no complete row |
| Rules.NewGameIsValid | main.c:646-672 | a new game runs, scores nothing, has no complete row, and its first piece does not collide |
| Rules.Land | main.c:739-781 | landing never lowers the score or the line total and can only stop the game, never restart it |
| Rules.Gravity | main.c:729-785 | a gravity tick never lowers the score or the line total and can only stop the game |
| Rules.GravityOutcome | main.c:729-785 | a free piece falls one row and nothing else changes; a grounded one is locked, its n ≤ 4 completed rows are removed together with n × GridWidth cells, score grows by n² × 100 and lines by n, the next piece is at (3, 0), and the game stops exactly when that piece collides there |
| Rules.GravityKeepsInvariant | main.c:729-785 | a gravity tick keeps the invariant: no full row left, the piece is an orientation of its shape, no collision while running |
| Rules.MoveBy | main.c:789-815 | a held left, right or down key changes only the anchor: board, mask, type, score, lines and running flag stay |
| Rules.MoveOutcome | main.c:789-815 | a held left, right or down key moves the anchor to the target exactly when the shifted piece fits there, and is a no-op otherwise; only the anchor ever changes |
| Rules.MoveKeepsInvariant | main.c:789-815 | a move keeps the invariant and leaves board, type, score, lines and running flag alone |
| Rules.Rotate | main.c:816-822 | a held up key leaves board, type, score, lines and running flag alone |
| Rules.ApplyKeys | main.c:787-822 | the four held keys together leave board, type, score, lines and running flag alone |
| Rules.RotateKeepsInvariant | main.c:816-822 | rotation keeps the invariant (the piece stays one of its shape's orientations) and leaves board and score alone |
| Rules.KeysKeepInvariant | main.c:787-822 | the four held keys, applied in the order tested, keep the invariant and never touch board, score, lines or running flag |
| Rules.QuitCount | main.c:680-724 | the number of quit events is at most the number of events, and is zero exactly when none is a quit |
| Rules.Repeat | main.c:686-722 | n reports, each carrying the same (score, lines) |
| Rules.Frame | main.c:676-822 | one pass never lowers the score or the line total, and the game still runs after it only if it ran before and no quit event came |
| Rules.FrameOutcome | main.c:676-822 | one pass keeps the invariant, never lowers score or line total, reports once per quit event plus once on a top-out, and the game has stopped after it exactly when it reported; every quit report carries the (score, lines) the pass started with, and the top-out report, after them, carries the final ones |
| Rules.QuitAndTopOutReportTwice | main.c:686-779 | a quit and a top-out in the same pass hand the score to the store twice |
| Rules.QuitThenClearUnreported | main.c:686-781 | after a quit, a landing in the same pass that clears rows without topping out raises the score beyond the last report: only the quit reports are made, and they carry the lower pre-landing score |
| GameLoop.Session.constructor | main.c:646-672 | the new session is NewGame(first): zeroed board, first piece at (3, 0), score and lines 0, running |
| GameLoop.Session.LockAndClear | main.c:741-744 | the board becomes the settled board (locked, then compacted) and the count returned is the number of rows completed |
| GameLoop.Session.SpawnNext | main.c:755-780 | the next piece is at the spawn anchor, and the game stops exactly when it collides there; nothing else changes |
| GameLoop.Session.LandPiece | main.c:739-781 | the session becomes Land of the old state: settled board, scored, next piece spawned |
| GameLoop.Session.GravityTick | main.c:729-785 | the session becomes Gravity of the old state, and the result says whether the tick topped out |
| GameLoop.Session.Shift | main.c:789-815 | the session becomes MoveBy of the old state |
| GameLoop.Session.RotateCurrent | main.c:816-822 | the session becomes Rotate of the old state |
| GameLoop.Session.HandleEvents | main.c:680-724 | one report of the old (score, lines) per quit event, and the running flag cleared if there was one |
| GameLoop.Session.HandleKeys | main.c:787-822 | the session becomes ApplyKeys of the old state |
| GameLoop.Session.RunFrame | main.c:676-822 | state and reports after one pass are those Frame gives for the old state |

## Left out

- Rendering, the SDL window, fonts and the on-screen menus (main.c:193-631 and 824-891, ui.c): presentation, with no effect on the game state.
- The login, registration and play-again menus, and the `playAgain` flag they set: these are navigation around the game, not part of it. So the model does not show that a top-out in a pass that also quit calls the play-again menu, whose answer can override the quit's `playAgain = false`.
- `saveScore`, `printTopScores` and the SQLite store (database.c): foreign calls. The model returns each (score, lines) pair handed to `saveScore` as a `Report`. Success or failure of the store is not modelled, since the loop ignores it except for logging.
- `printf` logging: output only.
- `SDL_GetTicks`, `SDL_Delay` and the fall-delay comparison (main.c:729-730, 784, 796, 805, 814, 821): time is an input flag, `gravityDue`. The `Uint32` wrap-around of the tick difference is therefore not modelled.
- `rand()` and `srand()`: the drawn type is a parameter. `RandomPiece` models only the `% NUM_PIECES` mapping.
- SDL event polling and the keyboard-state array: replaced by an `Event` sequence and a `Keys` value. Event kinds other than close-window and key-down are `OtherEvent`, and they do nothing.
- GameLoop.Session.LandPiece: `score` and `totalLinesCleared` are unbounded naturals, so the model does not capture C `int` overflow. Reaching it would take millions of cleared rows in one game.
- The colour constants for the background and grid lines (constants.h:113-121), `CELL_SIZE`, the window size, `FALL_DELAY`, `MOVE_DELAY`, `ROTATE_DELAY` and `TARGET_FPS`: these are used only by rendering and timing, which are left out.
