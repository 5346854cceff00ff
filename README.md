# Game of Life engine, modelled in Dafny

This project models the engine of a small interactive Game of Life. The
engine is the `Game` record of `src/main.rs`. It owns a bounded
`width × height` grid of cells, each `Alive` or `Dead`. The grid is stored
column-major, as `cells[x][y]`. The engine also owns a generation counter
and a cursor that the user moves and uses to flip cells.

Its operations:

- `new` builds an all-dead grid.
- `randomize_cells` and `clear_cells` rewrite every cell in nested loops
  and reset the generation.
- `move_user` clamps the cursor to the grid on each axis.
- `reverse_by_user` flips the cell under the cursor.
- `update` computes one generation of the B3/S23 rule. For each cell it
  counts the live cells of the bounded Moore neighbourhood, with no
  wrap-around, and writes the cell's next state into a fresh buffer; it
  then swaps that buffer in and increments the generation.

Files:

- `life.dfy`, module `Life`: the pure specification. It has the cell
  states, the rule, the neighbour count (as partial sums over the rows of
  offsets, in the order the engine scans them), the whole-grid `Step`, the
  toggle, the clamp and cursor move, and the seeded grid for
  randomisation.
- `game.dfy`, module `Engine`: class `Game`. It holds the cells in an
  `array2<CellState>` whose first dimension is the width. Every operation
  is a method with the source's loops and their invariants. Each method
  is proved against the functions of `Life`. A ghost field `grid` holds the
  array's contents as a value, and `Valid()` ties the two together.
  `Valid()` also says the cursor is on the grid and that both dimensions
  lie in `1..32767`.
- `life_lemmas.dfy`, module `LifeProperties`: what the specification
  implies. This covers neighbour-count bounds at corners and edges,
  locality (no wrap-around, and no use of other cells' next states), a
  lone cell dying, the block still life wherever it fits, the blinker
  oscillator wherever both of its phases fit on the grid, toggle involution, and how the random draws map to cells.

The random source is a parameter, `rolls`. It is the sequence of draws
from `[0, 5)` that the engine consumes, one per cell, scanning rows in
order and columns within a row. Draw number `y * width + x` decides cell
`(x, y)`, which is alive exactly when that draw is 0 or 1.

The grid is stored column-major as nested vectors (`cells[x][y]`), and
the model keeps that layout.

The code does not reject zero dimensions; the model excludes them by
precondition (see "## Left out").

## Model

| member | source | states |
|---|---|---|
| `Life.Flip` | src/main.rs:69-72 | the toggled state always differs from the old one (Alive↔Dead) |
| `Life.Rule` | src/main.rs:120-125 | the next state is Alive exactly when the count is 3, or the cell is Alive and the count is 2 |
| `Life.Toggled` | src/main.rs:68-73 | the cell at (x, y) is flipped, every other cell is unchanged, and the dimensions are kept |
| `Life.RowCount` | src/main.rs:112-117 | the partial sum of the `dx` loop over one row of offsets is at most the number of offsets scanned; this bound is what keeps the 16-bit counter of `CountAlive` from overflowing |
| `Life.WindowCount` | src/main.rs:109-117 | the partial sum of the `dy` loop is at most three per row of offsets scanned, which bounds the 16-bit counter of `CountAlive` across rows |
| `Life.NeighbourCount` | src/main.rs:108-118 | the bounded neighbour count of a cell is at most 8 |
| `Life.NextState` | src/main.rs:120-125 | a cell's next state is Alive exactly when it has 3 live neighbours, or it is Alive and has 2 |
| `Life.Step` | src/main.rs:104-127 | the next generation has the same dimensions as the current one |
| `Life.Clamp` | src/main.rs:64-65 | the result lies in [lo, hi]: it is v when v is in range, lo below it, hi above it |
| `Life.Move` | src/main.rs:63-66 | the cursor lands on the grid; on each axis separately it moves by the delta when that stays in range, and otherwise stops at 0 or at the last column or row |
| `Life.Walk` | src/main.rs:63-66 | after any sequence of moves from an in-grid start, the cursor is still on the grid |
| `Life.ScanIndex` | src/main.rs:42-43 | the row-by-row scan position of an in-grid cell is below width × height |
| `Life.Seed` | src/main.rs:44-48 | a draw in [0, 5) yields Alive exactly when it lands in {0, 1} |
| `Life.SeededGrid` | src/main.rs:41-50 | for draws in [0, 5), a cell is alive exactly when its own draw is 0 or 1 |
| `LifeProperties.LiveDraws` | src/main.rs:44 | of the five possible draws, exactly 0 and 1 give a live cell |
| `Engine.Game.constructor` | src/main.rs:31-39 | a fresh width × height array of Dead cells, generation 0, cursor (0, 0), invariant established |
| `Engine.Game.RandomizeCells` | src/main.rs:41-52 | in place, every cell becomes the seeded value of its own draw; generation 0; the cursor, the dimensions and the array identity are unchanged |
| `Engine.Game.ClearCells` | src/main.rs:54-61 | in place, every cell becomes Dead; generation 0; the cursor and the dimensions are unchanged |
| `Engine.Game.MoveUser` | src/main.rs:63-66 | the cursor becomes the clamped move of the old cursor; cells and generation are unchanged |
| `Engine.Game.ReverseByUser` | src/main.rs:68-73 | the grid becomes the old grid with the cursor cell toggled; cursor and generation are unchanged |
| `Engine.Game.CountAlive` | src/main.rs:108-118 | the scan over the offsets, which skips out-of-grid rows, out-of-grid columns and the cell itself, returns, in a 16-bit unsigned counter that provably never overflows, the bounded neighbour count of the current grid |
| `Engine.Game.NextCell` | src/main.rs:108-125 | the rule applied to a cell's current state and its scanned 16-bit count gives that cell's next state over the current grid |
| `Engine.Game.Update` | src/main.rs:104-130 | the cells become a fresh array equal to `Step` of the old grid, each cell being Rule(old state, old neighbour count); generation + 1; cursor and dimensions unchanged |
| `Engine.ReverseTwice` | src/main.rs:68-73 | two toggles in a row restore every cell |
| `LifeProperties.OutsideRow` | src/main.rs:110 | a row of offsets outside the grid contributes nothing to the count |
| `LifeProperties.CountUnfold` | src/main.rs:108-118 | the count is the sum of the eight in-grid, non-centre neighbour contributions |
| `LifeProperties.CandidatesByRow` | src/main.rs:109-113 | the in-grid neighbours of a cell, row by row: Span(x) in each existing adjacent row, one fewer in the cell's own row |
| `LifeProperties.CountWithinCandidates` | src/main.rs:109-118 | the count never exceeds the number of in-grid neighbours |
| `LifeProperties.CountBounds` | src/main.rs:109-118 | the count is at most the number of in-grid neighbours: at most 8, at most 3 at a corner, at most 5 on an edge |
| `LifeProperties.AllAliveCount` | src/main.rs:109-118 | on a fully live grid the count equals the number of in-grid neighbours, so that bound is exact |
| `LifeProperties.CandidateCounts` | src/main.rs:109-113 | a corner has 3 in-grid neighbours, a non-corner edge cell 5, an interior cell 8 |
| `LifeProperties.CountIsLocal` | src/main.rs:109-118 | the count depends only on the in-grid cells of the 3 × 3 window, so nothing wraps around |
| `LifeProperties.StepIsLocal` | src/main.rs:104-127 | a cell's next state depends only on the current 3 × 3 window around it, never on cells already updated |
| `LifeProperties.LoneCellDies` | src/main.rs:104-130 | a grid with one live cell, a corner cell included, becomes all dead |
| `LifeProperties.DeadGridIsStill` | src/main.rs:104-130 | an all-dead grid stays all dead |
| `LifeProperties.BlockIsStill` | src/main.rs:104-130 | a 2 × 2 block on an otherwise dead grid is unchanged by a step wherever it lies, corners included |
| `LifeProperties.BlinkerOscillates` | src/main.rs:104-130 | three in a row become three in a column through the same centre, and the other way round |
| `LifeProperties.BlinkerPeriodTwo` | src/main.rs:104-130 | the blinker differs from itself after one step and returns after two |
| `LifeProperties.ToggleTwice` | src/main.rs:68-73 | toggling the same cell twice gives back the original grid |
| `LifeProperties.ScanIndexInjective` | src/main.rs:42-44 | distinct cells take distinct draws |

## Left out

- `draw` (src/main.rs:75-102): rendering with floating-point pixel arithmetic and drawing calls; it changes no engine state.
- `main` (src/main.rs:134-167): the frame loop, keyboard polling and the sizing of the grid from the screen size.
- Engine.Game.RandomizeCells: does not model the random number generator. The draws are a parameter, and the 2-in-5 chance of a live cell is not stated.
- Engine.Game.constructor: requires 1 ≤ width, height ≤ 32767. The source accepts any `usize`. With a zero dimension, `width as i32 - 1` in `move_user` is negative and wraps when cast back. Above 32767, the `i16` coordinates of `update` overflow.
- Engine.Game.MoveUser: requires the deltas and their sums with the cursor to fit in `i32`. A debug build of the source panics on that overflow and a release build wraps; neither is modelled.
- Engine.Game.Update: the generation is an unbounded `nat`. The source's `u32` counter overflows after 2^32 - 1 steps; that overflow is not modelled.
- Read access: the source has no query methods. The fields are read directly by `draw`, which is left out.
