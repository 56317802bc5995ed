# mp-tetris: the board and piece logic in Dafny

This project models the game logic of mp-tetris, a browser Tetris written in
TypeScript. It leaves out the DOM, timers and keyboard. It covers:

- the playing area (`Area`): a height × width grid of settled cells;
- the falling piece (`Puzzle`): its shape matrix, anchor, `running` and
  `stopped` flags, collision queries, moves, quarter turn, spawn and lock step;
- the game object (`Tetris`): gated key handlers and pause;
- the statistics counters (`Stats`);
- the cell index function `pos` of the configuration.

A settled cell is an integer: 0 is empty, and `t + 1` is a block of piece
type `t`. A piece matrix is an n × n 0/1 matrix.

Modules, leaves first:

- `Config`: `pos`, `COLUMNS` and `ROWS`.
- `Grid`: boards as values. It holds the reference definitions the area code
  is proved against: a row shift, the bottom-up clear scan, and an
  order-independent "compacted" board.
- `Areas`: class `Area`, on an `array2<int>` updated in place.
- `Pieces`: the shape table; the quarter turn; the collision rule `Fits` and
  the bounds predicate; the spawn anchor; the spawn test as written; and
  writing a piece into the cells.
- `Counters`: class `Stats`, plus the level-up, lock-score and drop-score rules
  as functions on a `Counts` value.
- `Steps`: the piece as a value (`PieceState`). Defines the lock step and the
  two timer ticks (`fallDown`, `forceMoveDown`), the key handlers and `space`,
  as functions on values, with lemmas about them.
- `Puzzles`: class `Puzzle`. Its methods update its fields, the area and the
  stats. Each is proved against the `Steps` and `Pieces` functions.
- `Game`: class `Tetris`, and the value form of `pause`.

What the code does, and the model follows:

- The code turns a piece a quarter to the left, into a fresh matrix: cell
  (r, c) goes to (n-1-c, r). It does not rotate clockwise in place.
- `getBlock` rejects only rows at or below the floor and columns at or past
  the right edge. A negative column reads as empty, and callers test `x < 0`
  themselves.
- The clear scan never tests row 0. Removing a row never moves row 0: the
  empty row appears at row 1, not at the top.
- The spawn test `mayPlace` is not the collision rule. It tests the blocks of
  the lowest occupied row of the shape and of the row directly above it, all
  against area row 1. It can accept a spawn that overlaps a block in row 0,
  and it can refuse a spawn that fits.
- The game builds a 12 × 22 area. The configuration says 12 × 23.
- A hard drop is a repeated one-row step (`forceMoveDown`), not a jump to a
  precomputed shadow row. The code has no shadow row.

## Model

| member | source | states |
|---|---|---|
| Config.Pos | src/config.ts:11-15 | the index is defined exactly when a point is given or a row accompanies a number |
| Config.PosFormsAgree | src/config.ts:12-13 | the point form equals the number form, whatever the second argument |
| Config.PosRowMajor | src/config.ts:11-15 | on the 12 × 23 board the index lies in [0, 276); the column is the index mod 12 and the row the index div 12 |
| Config.PosInjective | src/config.ts:11-15 | on the 12 × 23 board distinct cells have distinct indices |
| Grid.Empty | src/area.ts:16-21 | h rows of w cells, all 0 |
| Grid.ShiftDown | src/area.ts:80-95 | removing row y: rows 2..y hold the old rows 1..y-1, row 1 is empty, row 0 and the rows below y are unchanged; for y = 0 only row 0 is emptied |
| Grid.CountShiftDown | src/area.ts:80-95 | removing a full row removes exactly w blocks |
| Grid.ClearFrom | src/area.ts:48-58 | the bottom-up scan from row y to row 1, re-testing a row index after each removal; row 0 is never tested; the board keeps its h × w shape |
| Grid.ClearFromFullStep | src/area.ts:51-55 | after removing a full row, re-testing the same row index gives the same final board and one fewer removal |
| Grid.ClearFromSkipStep | src/area.ts:50-51 | a row that is not full is passed over |
| Grid.ClearFromNoFull | src/area.ts:48-57 | with no full row among rows 1..y, the scan changes nothing and counts 0 |
| Grid.ClearFromCompacts | src/area.ts:48-57 | the scan from row y up equals the reference board: full rows among 1..y gone, the rest sunk, empty rows under row 0; the count is those full rows |
| Grid.RemoveFullLinesCompacts | src/area.ts:48-57 | the whole scan yields the compacted board and the number of full rows below row 0 |
| Grid.CompactedProperties | src/area.ts:48-57 | the cleared board has the same shape, keeps row 0, has no full row below row 0, and has exactly w*k fewer blocks for k cleared rows |
| Grid.CompactedCount | src/area.ts:48-57 | the block count drops by exactly w times the number of cleared rows |
| Grid.RemoveFullLinesIdempotent | src/area.ts:48-57 | a second scan right after the first changes nothing and returns 0 |
| Areas.Area.constructor | src/area.ts:12-22 | a new area has h rows of w cells, all 0 |
| Areas.Area.Destroy | src/area.ts:29-38 | afterwards every cell is 0 |
| Areas.Area.GetBlock | src/area.ts:104-111 | 0 for any row above the area; an error exactly when the row is at or below the floor or the column at or past the right edge; otherwise the stored cell, with negative columns reading as 0 |
| Areas.Area.IsLineFull | src/area.ts:65-70 | true iff every cell of the row is nonzero |
| Areas.Area.ClearRow | src/area.ts:81-84 | the row is emptied and nothing else changes |
| Areas.Area.MoveRowDown | src/area.ts:87-94 | row r moves into the empty row r+1, row r is emptied, nothing else changes |
| Areas.Area.RemoveLine | src/area.ts:80-96 | the cells become the row shift of the old cells at y |
| Areas.Area.RemoveFullLines | src/area.ts:48-58 | the cells and the count are the bottom-up scan of the old cells; the cells are the compacted board; the count is the number of full rows below row 0 |
| Areas.Area.AddElement | src/area.ts:120-128 | a write of the one cell when it lies inside the area; an out-of-range position changes nothing |
| Pieces.Shape | src/puzzle.ts:36-72 | each of the 7 shapes is a square 0/1 matrix of size 2 to 4 |
| Pieces.Shapes | src/puzzle.ts:36-72 | the table has 7 entries, entry t being shape t |
| Pieces.ShapeLowestRow | src/puzzle.ts:36-72 | every shape has its lowest block in row 1 |
| Pieces.ShapesTable | src/puzzle.ts:36-72 | the table meets what the piece code relies on |
| Pieces.Rotated | src/puzzle.ts:373-390 | the turn keeps the matrix n × n and sends cell (r, c) to (n-1-c, r) |
| Pieces.HalfTurn | src/puzzle.ts:373-390 | two turns send (i, j) to (n-1-i, n-1-j) |
| Pieces.FourTurnsCell | src/puzzle.ts:4-6 | four turns give every cell back |
| Pieces.RotateFourTimes | src/puzzle.ts:4-6 | four turns give back the original matrix |
| Pieces.RotatedCells | src/puzzle.ts:373-390 | the filled cells of the turned matrix are the images of the filled cells |
| Pieces.RotatePreservesCount | src/puzzle.ts:373-390 | the turn keeps the number of filled cells |
| Pieces.RotatePreservesBinary | src/puzzle.ts:373-390 | the turn of a 0/1 matrix is a 0/1 matrix |
| Pieces.LowestRow | src/puzzle.ts:195-214 | the index of the lowest row holding a block, or -1 when there is none |
| Pieces.Fits | src/puzzle.ts:401-411 | the collision rule: every block of the matrix at the anchor is inside the columns, above the floor and on an empty cell, rows above the area being free; on an empty area it holds exactly when the piece is in bounds |
| Pieces.FitsInBounds | src/puzzle.ts:401-411 | a placement that fits lies within the columns and above the floor |
| Pieces.RotatedFits | src/puzzle.ts:352-366 | testing each block at the cell the turn sends it to is the collision rule for the turned matrix at the same anchor |
| Pieces.WallsBlock | src/puzzle.ts:432-473 | a block in column 0 rules out a move left, and a block in the last column a move right, whatever the cells hold |
| Pieces.SpawnX | src/puzzle.ts:150 | the spawn column (w - n) div 2, so that the matrix lies within the columns |
| Pieces.SpawnY | src/puzzle.ts:186-214 | the spawn row puts the lowest block of the shape in area row 1 |
| Pieces.SpawnInBounds | src/puzzle.ts:185-214 | a shape at its spawn anchor lies within the area |
| Pieces.MayPlaceAt | src/puzzle.ts:148-169 | the spawn test as coded: the blocks of the lowest occupied row and of the row above it are tested against area row 1; an empty row 1 always accepts, and an acceptance means the lowest row of the shape lands on empty cells of row 1 |
| Pieces.MayPlaceOnEmpty | src/puzzle.ts:148-169 | on an empty area every shape may be placed |
| Pieces.MayPlaceReadsRowOne | src/puzzle.ts:148-169 | the spawn test depends on nothing but area row 1 |
| Pieces.MayPlaceMissesRowZero | src/puzzle.ts:154-167 | a block in row 0 above a spawning T piece passes the spawn test although the piece overlaps it |
| Pieces.MayPlaceRefusesFreeSpawn | src/puzzle.ts:154-167 | a block in row 1 under the top row of a spawning S piece, clear of its blocks: the piece fits at the spawn anchor, yet the spawn test refuses it |
| Pieces.Stamp | src/puzzle.ts:279-281 | writing the piece into the settled cells with value type + 1; the board keeps its h × w shape |
| Pieces.StampCells | src/puzzle.ts:279-281 | writing the piece sets every block that lands inside the area to the given value and keeps every other cell |
| Counters.Stats.constructor | src/stats.ts:36-44 | the counters start at the reset values |
| Counters.Stats.Reset | src/stats.ts:36-50 | level 1, lines, score, pieces and actions 0 |
| Counters.Stats.Start | src/stats.ts:25-28 | start goes through reset |
| Counters.Stats.SetScore | src/stats.ts:59-62 | the getter returns the value set; only the score changes |
| Counters.Stats.SetLevel | src/stats.ts:64-67 | the getter returns the value set; only the level changes |
| Counters.Stats.SetLines | src/stats.ts:69-72 | the getter returns the value set; only the lines change |
| Counters.Stats.SetPuzzles | src/stats.ts:74-76 | the getter returns the value set; only the piece count changes |
| Counters.Stats.SetActions | src/stats.ts:78-80 | the getter returns the value set; only the actions change |
| Counters.AfterPlace | src/puzzle.ts:179-183 | the level goes up by one exactly when the count reaches 10 + 2*level, and the count then restarts at 0; otherwise the count goes up by one |
| Counters.PlaceWithinLevel | src/puzzle.ts:179-183 | below the threshold, k more pieces raise the count by k on the same level |
| Counters.PlaceSplit | src/puzzle.ts:179-183 | k + j pieces are k pieces followed by j |
| Counters.LevelUpAfterThreshold | src/puzzle.ts:179-183 | a level entered at count 0 is left after exactly 10 + 2*level pieces |
| Counters.FirstLevelUp | src/puzzle.ts:179-183 | a reset game levels up on its twelfth piece |
| Counters.PlacedCounts | src/puzzle.ts:179-183 | placing steps the level rule and leaves score, lines and actions alone |
| Counters.LockScore | src/puzzle.ts:283-287 | a lock that clears k rows adds 1000*level*k points, nothing when k = 0 |
| Counters.LockedCounts | src/puzzle.ts:283-287 | a lock adds k lines and the lock score and leaves level, pieces and actions alone |
| Counters.DropCounts | src/puzzle.ts:309-313 | a drop step adds 5 + level points and one action |
| Steps.ResetState | src/puzzle.ts:79-100 | the queued type becomes current and `next` is queued; the piece is neither running nor stopped, so no handler acts on it; it is well formed exactly when both types are shape indices |
| Steps.SpawnState | src/puzzle.ts:185-215 | a placed piece is running with the shape as its matrix |
| Steps.SpawnOutcome | src/puzzle.ts:290-295 | the reset piece spawns when the spawn test accepts and stops otherwise; spawning never writes the cells and never changes lines, score or actions |
| Steps.LockOutcome | src/puzzle.ts:277-295 | the lock: stamp, clear and credit, reset and spawn; the cells keep their shape, the queued type becomes current with `next` queued, lines never decrease and actions are unchanged |
| Steps.FallStep | src/puzzle.ts:272-297 | one fallDown tick: a running piece moves down when it fits and locks otherwise; the cells keep their shape, lines never decrease and no action is counted |
| Steps.ForceStep | src/puzzle.ts:307-337 | one forceMoveDown tick: a piece neither running nor stopped moves down for a drop score when it fits and locks otherwise; at most one action is counted, and the cells change only for such a piece |
| Steps.LockCredits | src/puzzle.ts:279-287 | the lock leaves the compacted board, with w*k fewer blocks and no full row below row 0; it adds k lines and 1000*level*k points |
| Steps.LockIsCompactedSpawn | src/puzzle.ts:279-294 | the lock step, whatever the scan order, is the spawn step on the compacted board with the cleared rows credited |
| Steps.LockSpawnsOrEnds | src/puzzle.ts:288-294 | after the lock, the queued type spawns, counting one piece, exactly when mayPlace accepts it; otherwise the reset piece is idle and the level rule untouched |
| Steps.Target | src/tetris.ts:127-162 | a move changes only the matrix or the anchor, never the types or flags |
| Steps.HandleMove | src/tetris.ts:127-162 | one key handler: types and the running flag are kept, lines, level and piece count never change, and at most one action is counted |
| Steps.HandleMoveCounters | src/tetris.ts:127-162 | an accepted handler adds exactly one action, and only down adds 5 + level points; a refused one changes no counter |
| Steps.HandleMoveGated | src/tetris.ts:127-162 | a piece that is not running, or is stopped, ignores every handler |
| Steps.HandleMoveKeepsPiece | src/tetris.ts:127-162 | every handler keeps the piece well formed and within the area |
| Steps.RefusedDownStops | src/tetris.ts:136-144 | a refused down marks the piece stopped, keeps the counters, and every later handler is ignored |
| Steps.SpaceStep | src/tetris.ts:164-169 | space: a ready piece is stopped and takes its first forced step, and a piece that is not ready is left with counters and cells as they were; lines never decrease and at most one action is counted |
| Steps.DropIgnoresInput | src/tetris.ts:164-169 | each hard-drop step either moves the piece one row down, still not running so that the handlers ignore it, or is the lock step |
| Puzzles.Puzzle.constructor | src/puzzle.ts:10-13 | the new piece is reset with the given current and queued types |
| Puzzles.Puzzle.Reset | src/puzzle.ts:79-100 | the queued type becomes current, the new draw is queued, flags down, matrix empty |
| Puzzles.Puzzle.Stop | src/puzzle.ts:342-344 | only `running` changes, to false |
| Puzzles.Puzzle.CreateEmptyPuzzle | src/puzzle.ts:254-263 | rows × cols zeros |
| Puzzles.Puzzle.MayPlace | src/puzzle.ts:148-169 | the result is the spawn test as written |
| Puzzles.Puzzle.CountPiece | src/puzzle.ts:179-183 | the counters step the level rule |
| Puzzles.Puzzle.Place | src/puzzle.ts:177-215 | the piece runs with the shape as its matrix at the spawn anchor, and the level rule is stepped |
| Puzzles.Puzzle.MayRotate | src/puzzle.ts:352-366 | true iff the turned matrix fits at the same anchor |
| Puzzles.Puzzle.Rotate | src/puzzle.ts:373-390 | the matrix becomes its quarter turn; nothing else changes |
| Puzzles.Puzzle.MayMoveDown | src/puzzle.ts:401-411 | true iff the piece fits one row lower; a refusal sets `stopped` and an acceptance leaves it alone |
| Puzzles.Puzzle.MayMoveLeft | src/puzzle.ts:432-442 | true iff the piece fits one column left; always false with a block in column 0 |
| Puzzles.Puzzle.WallsLeft | src/puzzle.ts:436 | a block in column 0 makes the left test fail |
| Puzzles.Puzzle.MayMoveRight | src/puzzle.ts:463-473 | true iff the piece fits one column right; always false with a block in the last column |
| Puzzles.Puzzle.WallsRight | src/puzzle.ts:467 | a block in the last column makes the right test fail |
| Puzzles.Puzzle.MoveDown | src/puzzle.ts:418-423 | y goes up by 1; nothing else changes |
| Puzzles.Puzzle.MoveLeft | src/puzzle.ts:449-454 | x goes down by 1; nothing else changes |
| Puzzles.Puzzle.MoveRight | src/puzzle.ts:480-485 | x goes up by 1; nothing else changes |
| Puzzles.Puzzle.AddToArea | src/puzzle.ts:279-281 | the area cells become the old cells with the piece written in |
| Puzzles.Puzzle.Settle | src/puzzle.ts:279-287 | the cells are the clear of the written cells; lines and score are credited for the rows removed |
| Puzzles.Puzzle.Respawn | src/puzzle.ts:288-294 | the reset piece spawns when mayPlace accepts it, and stops otherwise |
| Puzzles.Puzzle.Lock | src/puzzle.ts:278-295 | piece, counters and cells are the lock step on the old values |
| Puzzles.Puzzle.FallDown | src/puzzle.ts:272-297 | piece, counters and cells are the fall tick on the old values |
| Puzzles.Puzzle.Descend | src/puzzle.ts:274-275 | a piece that fits one row lower moves there and stays within the area |
| Puzzles.Puzzle.DropStep | src/puzzle.ts:309-313 | 5 + level points, one action, one row down |
| Puzzles.Puzzle.ForceMoveDown | src/puzzle.ts:307-335 | piece, counters and cells are the hard-drop tick on the old values |
| Game.PauseStep | src/tetris.ts:100-118 | only `running` changes; a paused game holds a piece that is not running; resuming runs the piece; the pause flag flips exactly when paused or running; a game neither paused nor running is left exactly as it was |
| Game.PauseResume | src/tetris.ts:100-118 | pausing and resuming gives a running piece back as it was |
| Game.FirstPieceSpawns | src/tetris.ts:73-79 | on the new 12 × 22 area the first piece always spawns, counted as the first piece of level 1 |
| Game.Tetris.constructor | src/tetris.ts:8-19 | no puzzle, not paused, counters at the reset values |
| Game.Tetris.Start | src/tetris.ts:67-80 | a refused confirmation changes nothing; otherwise a new 12 × 22 area and puzzle, reset counters, and the spawn outcome of the first type |
| Game.Tetris.Pause | src/tetris.ts:100-118 | nothing without a puzzle; otherwise the pause step; only the game and the piece may change, so the area cells and the statistics stay as they were |
| Game.Tetris.GameOver | src/tetris.ts:120-125 | the piece stops running |
| Game.Tetris.Up | src/tetris.ts:127-134 | the turn handler on values; nothing without a puzzle |
| Game.Tetris.Down | src/tetris.ts:136-144 | the down handler on values; nothing without a puzzle |
| Game.Tetris.Left | src/tetris.ts:146-153 | the left handler on values; nothing without a puzzle |
| Game.Tetris.Right | src/tetris.ts:155-162 | the right handler on values; nothing without a puzzle |
| Game.Tetris.Space | src/tetris.ts:164-169 | a ready piece is stopped and the hard drop takes its first step; nothing otherwise |

## Left out

- DOM work is not modelled: elements, `appendChild`/`removeChild`, pixel
  offsets, `innerHTML`, the next-piece preview, and the `elements` and
  `nextElements` lists. `addElement` is a write at integer coordinates.
- Timers are not modelled: `setTimeout`, `setInterval`, `clearTimeout` and the
  timer ids. Each call of `FallDown` or `ForceMoveDown` is one tick. The
  rescheduling is left to the caller. `Stats.stop` has no effect.
- `Math.random` is replaced by parameters: `first` and `next` are the drawn
  types.
- `speed = 80 + 700 / level`, `incTime`, `time` and `apm` are left out. They
  are floating-point and timer work.
- The `position` field is left out. It is set to 0 and never read.
- `Puzzle.destroy`, and the destruction of the old puzzle and area in
  `Tetris.reset` / `start`, are left out. The old objects are dropped and
  their cleanup is display work.
- `Tetris.area` is the same object as the puzzle's area. It is reached
  through the puzzle.
- The `confirm` dialog of `start` is the parameter `confirmed`.
- The bindings and window code in the `Tetris` constructor, and
  `src/keyboard.ts`, `src/controls.ts` and `src/tetris-window.ts`, are left
  out. They are input and display wiring.
- Resume schedules `this.puzzle.fallDown`, which loses its `this`. The timer
  is not modelled, so the model only sets `running` and `paused`.
- The `Stats` fields are undefined until the first reset. The model starts
  them at the reset values.
- A `null` anchor after reset is modelled as 0.
- The cell value written by the lock is `type + 1`. The source writes an
  element of class `"block" + type`, and a type-0 block must still read as
  occupied.
- Game.Tetris.Start: the game-over branch after the first `mayPlace` is
  marked unreachable. On a fresh area the spawn test always accepts
  (FirstPieceSpawns).
- Puzzles.Puzzle.constructor: requires an area of at least 4 columns and
  2 rows, which is what the spawn code reads. The game always builds
  12 × 22.
- Areas.Area.RemoveLine: requires the row to be full. The source calls
  `removeChild` on every cell of the row, which fails on an empty cell.
- Areas.Area.RemoveFullLines: requires a width of at least 1. With width 0
  every row counts as full and the source loop never ends.
- Puzzles.Puzzle.Rotate: requires a non-empty matrix, because the source
  reads `board[0]`.
- Non-integer coordinates (the `| 0` truncation in `getBlock`) do not arise
  with integer coordinates.
- The source has no shadow row, column profile or hard-drop jump, and neither
  does the model.
