# Falling-block engine of a Tetris game, in Dafny

This project models the engine of a small Tetris game written in Rust
(`src/block.rs`, `src/board.rs` and the game logic of `src/main.rs`) and proves
properties of it.

- **Shapes** (`shapes.dfy`, standing for the unshown `src/tetromino.rs`): a
  `Tetromino` is four rotation states plus a `Color`. Each rotation state is a
  non-empty list of `(dx, dy)` offsets from the piece's anchor. `Color` is an
  opaque type that only supports equality. No concrete shape table is assumed.
- **Blocks** (`block.dfy`): the falling piece `Block`. It is a value: a
  tetromino, a rotation index and an anchor position. `Rotate` and `Displace`
  return new values. `Cells` gives the absolute cells (anchor plus each offset
  of the current rotation).
- **Boards** (`board.dfy`): the class `Board` owns the 10×20 grid of settled
  cells, an `array` of rows. Row 0 is the top row.
  - `Overlap` is a read-only function.
  - `Merge` writes a landed piece into the grid in place, in a loop.
  - `RemoveLines` builds a new grid bottom-up in a loop: it skips and counts the
    full rows and copies the other rows down in order. Then it installs the new
    grid.
  - Pure functions on grid values (`Merged`, `FullRows`, `Survivors`,
    `Compacted`, `KeptRows`) specify these methods. Lemmas prove what the
    game relies on.
- **Game** (`game.dfy`): `Level`, and the class `Game`. Its fields are the
  driver's mutable locals: board, current and next piece, line count, free-fall
  count, score, pause and game-over flags.
  - `Tick` is one firing of the fall timer.
  - `Land` is the landing branch of a tick.
  - `Press` is one key press.
  - `HardDrop` is the drop loop.
  - `Game.Valid()` is preserved by every step. It says the falling piece always
    fits the board, and that the free-fall count never exceeds the piece's row.
    Together these prove that the unsigned landing-bonus subtraction never goes
    below zero.

Collision follows the code: a cell above the top row (y < 0) counts as out of
bounds, so `Overlap` is true for it (`src/board.rs:25-28`).

## Model

| member | source | states |
|---|---|---|
| `Blocks.Block.Rotate` | src/block.rs:29-32 | keeps the tetromino and position; a valid block stays valid, so the index stays in 0..3 |
| `Blocks.Block.Displace` | src/block.rs:34-41 | keeps the tetromino and rotation index; a valid block stays valid |
| `Blocks.Block.Rotation` | src/block.rs:51-53 | the offsets of the current rotation state, read from the four-entry table (the index is in range by `Valid`); never empty |
| `Blocks.Block.Color` | src/block.rs:47-49 | the colour of the block's tetromino |
| `Blocks.Block.Cells` | src/board.rs:22-24 | one absolute cell, anchor plus offset, per offset of the current rotation |
| `Blocks.New` | src/block.rs:21-27 | a new block of the chosen tetromino has rotation 0 and position (5,0), and is valid when the tetromino is |
| `Blocks.SpawnedBlock` | src/block.rs:43-53 | a new block shows rotation state 0 of its tetromino, in the tetromino's colour |
| `Blocks.RotateFourTimes` | src/block.rs:30 | four quarter turns give back the original block |
| `Blocks.DisplaceStep` | src/block.rs:34-41 | Left is x−1, Right is x+1, Down is y+1, and the other coordinate is unchanged |
| `Blocks.LeftRightInverse` | src/block.rs:36-37 | Left then Right is the identity, and so is Right then Left |
| `Blocks.DownIsNextRow` | src/block.rs:38 | moving down a block in a given column places it on the next row |
| `Blocks.DisplaceCells` | src/block.rs:34-41 | a move shifts every absolute cell of the block by the same one-cell step |
| `Boards.AnyBlocked` | src/board.rs:23-30 | the `any` over the offsets is true iff some offset placed at the anchor is off the grid (x<0, x≥10, y<0, y≥20) or on a settled cell |
| `Boards.Board.constructor` | src/board.rs:13-15 | a new board is 20 rows of 10 empty cells |
| `Boards.Board.Cells` | src/board.rs:17-19 | read-only view of the grid, 20 rows of 10 cells |
| `Boards.Board.Overlap` | src/board.rs:21-31 | true iff some absolute cell of the block is out of bounds (y<0 included) or occupied; when false, every cell of the block is a valid grid index; reads the board and changes nothing |
| `Boards.EmptyBoardOverlap` | src/board.rs:21-31 | on an empty board a block overlaps iff some cell of it lies outside the grid |
| `Boards.Paint` | src/board.rs:35-38 | writing the cells in order keeps the grid 20×10 |
| `Boards.PaintAt` | src/board.rs:35-38 | after the writes, a written cell holds the colour and every other cell holds what it held |
| `Boards.Merged` | src/board.rs:33-39 | the grid after a landing is still 20×10 |
| `Boards.MergedAt` | src/board.rs:33-39 | after merging, every cell of the block holds `Some(colour)` and every other cell is unchanged |
| `Boards.Board.Merge` | src/board.rs:33-39 | the in-place loop leaves exactly the merged grid: the block's cells are coloured and every other cell is unchanged; it requires every cell to be in range, which `Overlap` being false guarantees |
| `Boards.FullRows` | src/board.rs:47-54 | the count of full rows is at most the number of rows |
| `Boards.Survivors` | src/board.rs:44-57 | the rows that are not full: their number plus the full-row count is the row count, and each is a row of the grid that is not full |
| `Boards.Compacted` | src/board.rs:42-58 | clearing keeps the number of rows |
| `Boards.KeptRows` | src/board.rs:44-54 | the indices of the rows that are not full: ascending, in range, and an index is listed iff its row is not full |
| `Boards.SurvivorsInOrder` | src/board.rs:44-57 | the j-th surviving row is grid row `KeptRows[j]`, so the survivors keep their top-to-bottom order |
| `Boards.FullRowsAppend` | src/board.rs:47-54 | full rows of two stacked grids add up |
| `Boards.NoFullSurvivor` | src/board.rs:47-56 | no surviving row is full |
| `Boards.NoFullEmptyRows` | src/board.rs:42 | the empty rows put on top are not full |
| `Boards.CompactedHasNoFullRow` | src/board.rs:41-60 | after clearing no row is full, so clearing again right away returns 0 |
| `Boards.CompactedWithoutFullRows` | src/board.rs:41-60 | with no full row, clearing leaves the grid unchanged |
| `Boards.CompactedWellSized` | src/board.rs:42-58 | clearing a 20×10 grid yields a 20×10 grid |
| `Boards.ClearedLayout` | src/board.rs:42-58 | with k full rows: the top k rows are empty, and the bottom 20−k rows are the rows that were not full, in their original order |
| `Boards.Board.RemoveLines` | src/board.rs:41-60 | returns the number of full rows and leaves the compacted grid in a fresh array |
| `Game.Level` | src/main.rs:54-56 | the level is in 1..11: below 100 lines it is lines/10 + 1, and from 100 lines on it is 11 |
| `Game.LevelMonotone` | src/main.rs:55 | more cleared lines never give a lower level |
| `Game.LandingBonus` | src/main.rs:183 | the unsigned bonus 21 + 3·level − freefall, defined only when the subtraction does not underflow |
| `Game.FreefallWithinBonus` | src/main.rs:179-185 | a fitting piece whose free-fall count is at most its row keeps freefall ≤ 21 + 3·level, for shapes no more than 5 rows above their anchor |
| `Game.RestIsFirstBlocked` | src/main.rs:221-223 | a dropped piece stops no lower than the first blocked row below its start |
| `Game.DropIsUnique` | src/main.rs:221-223 | the drop's resting place is unique |
| `Game.DropKeepsFit` | src/main.rs:221-224 | a piece that fit before the drop fits where it rests |
| `Game.DescendStep` | src/main.rs:221-222 | one more free row extends the descent and brings the first cell closer to the floor (the loop's measure) |
| `Game.HardDrop` | src/main.rs:221-224 | the loop terminates; its result is the start moved straight down through free rows, and moving it down once more overlaps; it fits if the start fit |
| `Game.Game.constructor` | src/main.rs:59-69 | an empty board, the chosen next and current pieces at spawn, zero counters, neither paused nor over |
| `Game.Game.Tick` | src/main.rs:170-200 | paused or over: no change. A free fall moves the piece down and adds one to the free-fall count. A landing scores, merges, clears and counts lines, resets the free-fall count and clears the piece. With no piece: game over iff the next piece overlaps, otherwise it becomes current and a new next piece is spawned |
| `Game.Game.Land` | src/main.rs:183-191 | score += 21 + 3·level − freefall without underflow, free-fall count 0, grid = compacted merged grid, lines += full rows of the merged grid, no current piece |
| `Game.Game.Press` | src/main.rs:208-235 | Left, Right and Up apply the move only when the result fits, and otherwise keep the piece. Down and Space hard-drop. Nothing moves when paused or over. P toggles the pause unless the game is over |

## Left out

- Rendering, the window, fonts and assets (`src/main.rs:17-52`, `:73-167`): these are calls into the piston library with floating-point coordinates.
- Frame timing: `time`, `speed`, `args.dt` and `time += 1.0` after a hard drop (`src/main.rs:71`, `:171-176`, `:202`, `:225`) are floating point. A tick is an abstract event, so `Game.Game.Tick` models one firing of the timer. The extra `time += 1.0` only makes the next tick come sooner.
- Event dispatch (`window.next()`, `render_args`, `update_args`, `press_args`): I/O plumbing. `Tick` and `Press` are the state changes the update and press events trigger. Keys other than the arrows, Space and P are one `OtherKey`; Escape closing the window is window handling.
- Randomness (`src/block.rs:23`): the tetromino is a parameter of `New`, of the `Game` constructor and of `Tick`.
- `src/tetromino.rs` is not part of this model. The shape tables and `Color::as_rgba` are unknown here, so `Color` is opaque and the offsets are arbitrary. Properties that depend on concrete shapes, such as where a given piece comes to rest, are not stated.
- Integer widths: positions (`isize`) and counters (`usize`) are unbounded integers. Wrap-around of the position or of the score and line counters is not modelled. The one subtraction that could go below zero, the landing bonus, is proved safe.
- `Game.Game.Tick` requires every tetromino it is given to have no cell more than 5 rows above its anchor (`Playable`). This is an assumption about the unshown shape tables. It is what makes `21 + 3*level - freefall_count` (`src/main.rs:183`) non-negative: a fitting piece that has fallen n rows is anchored at row n or lower, and it keeps a cell on the grid.
- `Game.Game.constructor` requires the same of both initial tetrominoes. It also requires the first piece to fit the empty board at spawn. The source does not check this (`src/main.rs:62`). A first piece that sticks out exactly one row above row 0 falls into the grid on the first tick (`src/main.rs:179-181`) if the row below is free. A piece that sticks out two or more rows above row 0, or past a side wall or the floor, lands at once (`src/main.rs:182-187`) unless a key press first turns it to fit, and `merge` then casts and indexes outside the grid (`src/board.rs:36-37`). The model excludes all of these cases.
- `Shapes.Tetromino.Valid` requires every rotation state to be non-empty. The hard drop terminates only because of this. On an empty rotation `overlap` is false for every position (the `any` at `src/board.rs:23` has nothing to test), so the source's `while` at `src/main.rs:221` would never end.
- `Boards.Board.Merge` requires every cell of the block to be inside the grid. The source's casts would otherwise index outside the array; its only caller guarantees this through `Overlap`.
