# Falling-block game engine, modelled in Dafny

This project models the game-state core of a small browser Tetris (`tetris.js`):
- the seven piece templates and the rotation transform;
- the collision test of a piece against the 20 × 10 grid;
- writing a piece into the grid (merge) and deleting full rows (clearLines);
- spawning, the gravity step (drop) with its lock, and the three player moves;
- the hard-drop loop, the restart, and the gravity-interval formula.

Five modules, one per file:

- `Pieces` (pieces.dfy): the piece table, `Rotate`, and its geometric properties.
- `Field` (field.dfy): the grid and the collision predicate `Collides`.
  - `Collide` is the source's scanning loop, proved equal to `Collides`.
  - `Merged` and `Cleared` say what a lock does to the grid.
  - `RemoveFullRows` is the source's bottom-up row loop, proved equal to `Cleared`.
- `Engine` (engine.dfy): the whole game state as a value (`State`).
  - Each event is a function on `State`: `SpawnStep`, `DropStep`, `ShiftStep`,
    `RotateStep`, `HardDropStep`, `TickStep` and `StartStep`.
  - The invariant `Inv`, and a lemma per event showing that the event keeps it.
  - `Inv` says: the game is running (`over` is false), the grid stays 20 × 10 with cells in
    0..7 and no full row,
    `score == 100 * lines`, `level == 1 + lines / 10`, and the falling piece is well formed
    and does not collide.
- `Board` (game.dfy): class `Game`, whose fields are the source's module-level variables.
  - Its methods change those fields in place, as the source's functions do.
  - Each method is proved to have exactly the effect of its `Engine` step on `Snapshot()`.
- `Scenarios` (scenarios.dfy): the O piece dropped onto the empty field, worked through
  to its resting row and the grid it leaves.

The random piece choice becomes a parameter `idx < 7` of every operation that spawns a piece.

Three behaviours of the code differ from what a reader of a Tetris game may expect; the model
follows the code:
- `rotate` turns a piece a quarter turn **counter-clockwise**, not the usual clockwise:
  `out[i][j] = in[j][W-1-i]`, so sub-cell (r, c) moves to (W-1-c, r).
- `newPiece` ends the game when the new piece collides where it spawns, but that never happens.
  - In the code a spawned piece sits at `y = -height`, so all its sub-cells are above row 0.
  - Above row 0 only the side walls are tested, and the piece is centred between them.
  - So the spawn collision test never fires (`Engine.SpawnNeverEndsGame`).
  - When the field is full to the top, a piece locks above it, writes nothing
    (`Engine.LockAboveFieldChangesNothing`) and the next one spawns.
  - The game-over branch is modelled as written, and it never fires: `over` is part of the
    invariant `Inv`, so every event from page load or a restart leaves it false.
- `startGame` re-arms the gravity timer after `newPiece`, so a game over raised during that
  spawn would not stop the new game. `StartStep` therefore clears `over` last.
- `startGame` re-arms the timer with the interval that `loop` last computed, which it does
  not reset. A new game after a game that reached level 13 ticks every 120 ms from level 1.

## Model

| member | source | states |
|---|---|---|
| `Pieces.Rotate` | tetris.js:51-53 | an H×W matrix becomes a W×H matrix; a shape painted with one type id, or holding only cell values 0..7, still is |
| `Pieces.RotateMovesCell` | tetris.js:52 | sub-cell (r, c) lands at (W-1-c, r): a counter-clockwise quarter turn |
| `Pieces.HalfTurn` | tetris.js:51-53 | two rotations read the matrix backwards in both directions |
| `Pieces.FullTurn` | tetris.js:51-53 | four rotations give back the original matrix exactly |
| `Pieces.RotateFilledCells` | tetris.js:51-53 | the filled offsets after rotation are exactly the originals, each turned |
| `Pieces.RotateKeepsFilledCount` | tetris.js:51-53 | rotation keeps the number of filled sub-cells, so a shape stays non-empty |
| `Pieces.TemplateWellFormed` | tetris.js:10-18 | every template is a rectangle at most 4 wide, with a filled sub-cell, painted with its type id `i+1` |
| `Field.EmptyGrid` | tetris.js:125 | the reset grid is 20 × 10 and all cells are empty |
| `Field.Collide` | tetris.js:55-66 | the scan returns true iff some filled sub-cell is off the sides, below the floor, or on a locked cell at row ≥ 0 |
| `Field.FitsInside` | tetris.js:60 | a filled sub-cell of a piece that does not collide lies between the walls and above the floor |
| `Field.FloorBound` | tetris.js:55-66 | a non-empty shape that does not collide at row y has y < 20 |
| `Field.CentredAboveFits` | tetris.js:99-100 | a matrix no wider than the field, centred and entirely above row 0, never collides |
| `Field.MergedIsGrid` | tetris.js:68-72 | merging a piece with cell values 0..7 keeps a 20 × 10 grid with values 0..7 |
| `Field.MergeWritesPiece` | tetris.js:68-72 | for a piece that does not collide: each filled sub-cell at row ≥ 0 lands inside the field on a previously empty cell with its value; every other cell is unchanged |
| `Field.MergeAboveField` | tetris.js:70 | a piece entirely above row 0 writes nothing |
| `Field.SurvivorsLength` | tetris.js:76-83 | every row is either deleted and counted, or kept |
| `Field.SurvivorsAreNonFullRows` | tetris.js:76-83 | the kept rows are exactly the rows that were not full |
| `Field.NothingFullNothingCleared` | tetris.js:76-83 | with no full row the grid is unchanged |
| `Field.ClearedIsGrid` | tetris.js:74-83 | after clearing, the grid is 20 × 10 with values 0..7 and no row is full |
| `Field.RemoveFullRows` | tetris.js:74-83 | the bottom-up scan that re-tests the same index after a deletion yields the non-full rows in order under `k` empty rows, and counts `k` full rows |
| `Engine.GravityInterval` | tetris.js:121 | the interval is at least 120, at most 800 from level 1 on, and equals 120 exactly from level 13 on |
| `Engine.GravityNonIncreasing` | tetris.js:121 | a higher level never has a longer interval |
| `Engine.Spawn` | tetris.js:96-99 | the piece is template `idx` with type id `idx+1`, well formed, bottom row just above row 0, and centred (left margin equals right margin or one less) |
| `Engine.SpawnFits` | tetris.js:99-100 | a spawned piece never collides, whatever the grid holds |
| `Engine.SpawnNeverEndsGame` | tetris.js:96-103 | newPiece installs the spawned piece and never sets the game-over flag |
| `Engine.NoFullRowNothingCleared` | tetris.js:76-87 | on a grid with no full row, clearLines counts nothing and changes nothing |
| `Engine.DropKeepsInv` | tetris.js:105-113 | a gravity step keeps the invariant: game running, grid shape and values, no full row, score = 100·lines, level = 1 + lines/10, and a well-formed non-colliding falling piece |
| `Engine.TickKeepsInv` | tetris.js:120-123 | the timer callback keeps the invariant and sets the interval from the level it started with |
| `Engine.LockAboveFieldChangesNothing` | tetris.js:105-113 | a piece locking entirely above row 0 leaves grid, score, lines and level unchanged |
| `Engine.ShiftKeepsInv` | tetris.js:170-171 | a left or right move keeps the invariant and never changes the grid |
| `Engine.RotateKeepsInv` | tetris.js:174 | the rotate button keeps the invariant |
| `Engine.Landing` | tetris.js:173 | the hard-drop loop stops at the first row from which one more step collides; every row passed on the way is free |
| `Engine.LandedFits` | tetris.js:173 | the piece at its landing row does not collide |
| `Engine.HardDropLocks` | tetris.js:173 | a hard drop locks the piece at its landing row: merge, clear, score 100 per line, next piece |
| `Engine.HardDropKeepsInv` | tetris.js:173 | a hard drop keeps the invariant |
| `Engine.StartEstablishesInv` | tetris.js:124-130 | a restart from any state gives the invariant, score 0, level 1, a new piece, running, and keeps the last computed interval |
| `Board.Game.constructor` | tetris.js:117-118 | the state on page load: empty grid, no piece, zero counters, level 1, interval 800 |
| `Board.Game.Merge` | tetris.js:68-72 | the cell-by-cell write loop leaves exactly the merged grid and touches no other field |
| `Board.Game.ClearLines` | tetris.js:74-87 | grid becomes the cleared grid; when k > 0 rows were full, score += 100k, lines += k, level = 1 + lines/10; otherwise the counters are unchanged |
| `Board.Game.NewPiece` | tetris.js:96-103 | the falling piece becomes the spawned piece; `over` is set iff it collides there |
| `Board.Game.Drop` | tetris.js:105-115 | without a piece nothing changes; if the next row is free only `y` grows by one; otherwise merge, clearLines and newPiece in that order; the invariant holds after |
| `Board.Game.Tick` | tetris.js:120-123 | called only while the game runs (`Valid()` includes `!over`): the interval is recomputed from the level, then one drop, and the game is still running after |
| `Board.Game.MoveLeft` | tetris.js:170 | `x` decreases by one iff the shifted piece does not collide; nothing else changes |
| `Board.Game.MoveRight` | tetris.js:171 | `x` increases by one iff the shifted piece does not collide; nothing else changes |
| `Board.Game.RotatePiece` | tetris.js:174 | the shape is replaced by its rotation iff that does not collide in place; nothing else changes |
| `Board.Game.FallToLanding` | tetris.js:173 | the while loop moves the piece down to its landing row, terminates, and changes nothing else |
| `Board.Game.HardDrop` | tetris.js:173 | the loop moves the piece to its landing row and terminates; then one drop locks it |
| `Board.Game.StartGame` | tetris.js:124-132 | empty grid, counters reset, a new piece, game running; the invariant holds after |
| `Scenarios.OSpawnsCentred` | tetris.js:96-99 | the O piece spawns in columns 4-5 with its top row at -2 |
| `Scenarios.OOnEmptyField` | tetris.js:55-66 | on the empty field the O piece in columns 4-5 collides exactly from row 19 |
| `Scenarios.OLandsOnFloor` | tetris.js:173 | dropped from its spawn row onto the empty field, the O piece rests at row 18 |
| `Scenarios.OLocksOnFloor` | tetris.js:68-83 | locking it there fills cells (18..19, 4..5) with 2, clears no line, and leaves every other cell empty |

## Left out

- Drawing to the canvas (`draw`, `drawBlock`, the colour table, canvas sizing): output only.
- Writing score, lines and level into the page; the start screen and message box; the
  sparkle effect; background music and its fade-out. These are I/O and UI effects.
- Timer plumbing (`setInterval`, `clearInterval`, `loopId`).
  - `over` stands for the gravity timer having been stopped by the game-over handler.
  - The interval the timer callback computes takes effect only when `startGame` restarts the
    timer. The model records the value in a field (`Engine.StartEstablishesInv` shows a
    restart keeps it) but not the period at which ticks arrive.
- Keyboard and button wiring. Each button is one method of `Board.Game`.
  - The down button is `Drop`.
  - The restart button only shows the start screen.
  - The Enter key's guard on `loopId` is part of the timer plumbing.
- `Math.random`: the piece index is a parameter `idx` with `0 <= idx < 7`.
- Aliasing: shapes are values here.
  - The copy newPiece makes of a template is implicit.
  - No operation can change the piece table.
- JavaScript behaviour the engine never triggers is not modelled:
  - `rotate` of an empty or ragged matrix;
  - a write outside the grid arrays.
  - So `Pieces.Rotate` requires a non-empty rectangular matrix.
  - `Board.Game.Merge` requires the falling piece not to collide; drop calls it only in
    that case.
- `Field.Collide` requires the grid to be 20 × 10. The game's grid always is.
