# Game of Life with decay — simulation engine

A Dafny model of the simulation engine of a Game-of-Life variant written in
Rust (`src/main.rs`). The grid is a row-major buffer of `u8` "vitality"
values. A cell at the live value is alive. Each generation:

- a cell that is alive with two live neighbours, or has three, becomes live;
- any other nonzero cell loses one decay step;
- a dormant cell stays 0;
- every border cell is then overwritten with a random live or dormant cell.

The grid starts from a random fill, and a key press refills it the same way.

Modules:

- `Cells` (`cells.dfy`): the `u8` cell type and the configuration (width,
  height, live value, decay step) that replaces the program's constants. It
  also holds the start-up check that the decay step divides the live value,
  `random_cell_state` with the coin flip passed in, and the decay
  subtraction with `u8` wrap-around.
- `Coords` (`coords.dfy`): `coords_to_index`, `index_to_coords_with_grid_width`,
  `index_to_coords`, and their round trips.
- `Neighbours` (`neighbours.dfy`): `is_alive` on integer coordinates,
  `is_alive` on wrapped `usize` coordinates, and `count_neighbours`. The
  count is proved equal to the number of live in-grid Moore neighbours.
- `Generation` (`generation.dfy`): `step_grid` as a method over arrays. It
  is split into the per-cell pass and the two border loops, and proved equal
  to the function `Step`. The lemmas cover the rule, the decay, the border
  reseeding, the corner tie-break, locality and the value invariant.
- `Engine` (`engine.dfy`): the fill loop used at start-up and on reset,
  and the sequence of generations (one `Step` per frame). Across that
  sequence, an interior cell that is never rescued fades by one step per
  generation until it is dormant.

Modelling choices:

- Randomness is injected as a sequence of coin flips. `step_grid` uses
  `draws[2x]` and `draws[2x+1]` for the top and bottom cell of column `x`.
  It then uses `draws[2W+2y]` and `draws[2W+2y+1]` for the left and right
  cell of row `y`. The fill loops use `draws[i]` for cell `i`.
- Coordinates in `is_alive` are integers, so a neighbour outside the grid
  is simply dead. `WrappedNeighbourIsDead` shows that the release build's
  wrapped `usize` coordinates give the same answer.
- The decay subtraction wraps around as a release build does.
  `FadeKeepsReachable` and `EveryGenerationReachable` show that no wrap
  ever happens once the start-up check passes.
- The rayon `par_iter_mut` pass is modelled as a sequential loop. Each
  output cell is written once and only from the input buffer, so the order
  does not matter. `ApplyRule` requires distinct input and output buffers,
  and `StepIsLocal` shows that each cell depends only on its 3×3 window of
  the old generation.

## Model

| member | source | states |
|---|---|---|
| `Cells.StartupCheck` | src/main.rs:94-97 | start-up passes exactly when the decay step is nonzero and divides the live value; a zero step is its own error |
| `Cells.RandomCellState` | src/main.rs:29-31 | a fresh cell is live or dormant, and (for a positive live value) live exactly when the flip is heads |
| `Cells.Decay` | src/main.rs:76-77 | `v - DEATH_STEP` on `u8`: exact when `v >= DEATH_STEP`, otherwise wrapped by 256 |
| `Cells.Fade` | src/main.rs:76-78 | an unrescued cell: 0 stays 0 (the output buffer starts zeroed), a nonzero value loses one decay step, wrapping by 256 when below the step |
| `Cells.LiveIsReachable` | src/main.rs:94-97 | once the start-up check passes, the live value is a multiple of the decay step |
| `Cells.FadeKeepsReachable` | src/main.rs:76-77 | for a multiple of the decay step in `[0, live]`, decay never wraps: a nonzero cell loses exactly one step, 0 stays 0, and the result is again such a multiple |
| `Cells.FadeTimesFromLive` | src/main.rs:72-78 | `Fade` applied `k` times to the live value gives `live - k*step`, floored at 0, and stays a reachable value (`Engine.UnrescuedLiveCellBecomesDormant` carries this over to the generations of a run) |
| `Cells.LiveCellBecomesDormant` | src/main.rs:72-78 | `Fade` applied `k` times to the live value gives 0 exactly when `k >= live / step` (carried over to a run by `Engine.UnrescuedLiveCellBecomesDormant`) |
| `Coords.IndexToCoordsWithGridWidth` | src/main.rs:37-41 | the column is below the width, and column + width × row gives back the index |
| `Coords.CoordsToIndex` | src/main.rs:33-35 | for a column inside the grid, the index maps back to the same column and row |
| `Coords.IndexToCoords` | src/main.rs:43-45 | as above for the configured width; an index inside the grid lands on a row inside the grid |
| `Coords.IndexToCoordsExample` | src/main.rs:214-219 | index 9 with width 4 is column 1, row 2 |
| `Coords.CoordsRoundTrip` | src/main.rs:33-45 | every in-grid cell has an in-grid index that maps back to it |
| `Coords.IndexRoundTrip` | src/main.rs:33-45 | every in-grid index maps to an in-grid cell whose index is the original one |
| `Neighbours.IsAlive` | src/main.rs:47-51 | a coordinate outside `[0,W)×[0,H)` is never alive, and the lookup never leaves the grid |
| `Neighbours.IsAliveUsize` | src/main.rs:47-51 | `is_alive` as written on `usize` coordinates: only the upper bounds are checked, and a cell that passes is inside the grid |
| `Neighbours.WrappedNeighbourIsDead` | src/main.rs:47-64 | for neighbour coordinates of an in-memory grid, the wrapped `usize` test as written agrees with the integer test, so `x-1` at column 0 and `x+1 == W` count as dead and never wrap into another row |
| `Neighbours.CountNeighbours` | src/main.rs:53-64 | the count is at most 8 |
| `Neighbours.CountNeighboursIsLiveNeighbours` | src/main.rs:53-64 | the count equals the number of in-grid Moore neighbours holding a live value; no counted neighbour is outside the grid |
| `Neighbours.LoneCellHasNoLiveNeighbour` | src/main.rs:53-64 | a cell whose every other cell is below the live value counts no neighbour |
| `Neighbours.EdgeCellsCountFewer` | src/main.rs:53-64 | a border cell counts at most 5 neighbours, a corner cell at most 3 |
| `Neighbours.CheckedSub` | src/main.rs:56-63 | `usize` subtraction with debug overflow checks: it succeeds exactly when it does not go below 0, and then gives the difference |
| `Neighbours.CountNeighboursDebug` | src/main.rs:53-64 | `count_neighbours` in a debug build: it panics exactly for cells of row 0 or column 0, and otherwise counts at most 8 |
| `Neighbours.DebugCountPanicsOnFirstRowAndColumn` | src/main.rs:53-64 | with debug overflow checks, counting panics for every cell in row 0 or column 0, index 0 included |
| `Neighbours.DebugCountAgreesInside` | src/main.rs:53-64 | off row 0 and column 0, the debug count equals the integer-coordinate count |
| `Generation.Rescued` | src/main.rs:72-74 | the rescue test: a rescued cell has 2 or 3 live neighbours, 3 always rescues, and a cell below the live value is rescued only by 3 |
| `Generation.RuleCell` | src/main.rs:72-78 | the per-cell pass: a rescued cell becomes live, an unrescued nonzero cell decays by one step, an unrescued 0 stays 0 |
| `Generation.BorderCell` | src/main.rs:81-88 | the last of the border writes: always 0 or live, from the column loop's flip in the first and last column, from the row loop's flip elsewhere |
| `Generation.Step` | src/main.rs:66-91 | the next generation has as many cells as the current one |
| `Generation.StepGrid` | src/main.rs:66-91 | returns a new buffer equal to `Step` of the input, and does not modify the input |
| `Generation.ApplyRule` | src/main.rs:67-79 | over a zeroed output buffer distinct from the input, every cell becomes the rule's value: live if rescued, decayed if nonzero, else still 0 |
| `Generation.ReseedRows` | src/main.rs:81-84 | for each column, the top cell and then the bottom cell get the row loop's flips |
| `Generation.ReseedColumns` | src/main.rs:85-88 | for each row, the left cell and then the right cell get the column loop's flips, overriding earlier writes |
| `Generation.RowLoopAdvances` | src/main.rs:81-84 | one row-loop round changes only the top and bottom cell of its column, the bottom write winning on a one-row grid |
| `Generation.ColumnLoopAdvances` | src/main.rs:85-88 | one column-loop round changes only the left and right cell of its row, the right write winning on a one-column grid |
| `Generation.BorderLoopsGiveStep` | src/main.rs:81-88 | after both loops have run to the end, every cell holds its `Step` value |
| `Generation.BorderIsReseeded` | src/main.rs:81-88 | every border cell of the next generation is 0 or live, whatever the input grid |
| `Generation.BorderDrawOrder` | src/main.rs:81-88 | first and last column cells, corners included, keep the column loop's flip; other border cells keep the row loop's flip |
| `Generation.CornersKeepColumnLoopDraw` | src/main.rs:81-88 | cells of the first and last column, and so the four corners, do not depend on the row loop's flips |
| `Generation.InteriorFollowsRule` | src/main.rs:72-78 | an interior cell is live if alive with 2 neighbours or has 3; otherwise a nonzero cell decays and a zero cell stays 0; the flips do not matter |
| `Generation.ReachableCellStep` | src/main.rs:72-78 | on reachable values the next value is reachable, decay subtracts exactly one step, and an interior cell is live next exactly when rescued |
| `Generation.StepKeepsReachable` | src/main.rs:66-91 | if every cell is a multiple of the decay step in `[0, live]`, every cell of the next generation is too |
| `Generation.CountNeighboursLocal` | src/main.rs:53-64 | grids that agree on a cell's 3×3 window give it the same neighbour count |
| `Generation.StepIsLocal` | src/main.rs:66-79 | a cell's next value depends only on its 3×3 window of the old generation, never on other new cells |
| `Generation.IsolatedCentreDecays` | src/main.rs:66-91 | on a 3×3 grid with live 255, step 1 and only the centre live, the centre becomes 254 and every other cell is 0 or 255 |
| `Engine.RandomGrid` | src/main.rs:127-130 | a filled grid has one cell per grid position |
| `Engine.Reseed` | src/main.rs:165-167 | the reset loop makes every cell the fresh random cell of its flip |
| `Engine.InitialGrid` | src/main.rs:127-130 | start-up returns a new buffer filled cell by cell from the flips |
| `Engine.RandomGridIsFresh` | src/main.rs:127-130 | a freshly filled grid holds only 0 and live cells, live exactly where the flip was heads, all of them reachable values |
| `Engine.Run` | src/main.rs:192 | each frame's step keeps the grid's length |
| `Engine.RunKeepsReachable` | src/main.rs:192 | any number of steps keeps every cell a reachable value |
| `Engine.EveryGenerationReachable` | src/main.rs:127-192 | from a fresh fill, every generation reached with no reset in between holds only multiples of the decay step in `[0, live]`, so decay never wraps; a reset starts again from a fresh fill |
| `Engine.RunSnoc` | src/main.rs:192 | running one more frame applies one more step to the grid reached so far |
| `Engine.UnrescuedCellFades` | src/main.rs:72-78 | an interior cell that no generation of the run rescues holds its starting value faded once per generation |
| `Engine.UnrescuedLiveCellBecomesDormant` | src/main.rs:72-78 | a live interior cell that no generation rescues holds `live - n*step` after `n` generations, floored at 0, and is dormant exactly from generation `live / step` on |

## Findings

| source | as written | input that shows it | evidently intended | confidence | as-written member | corrected member |
|---|---|---|---|---|---|---|
| src/main.rs:53-64 | `count_neighbours` computes `x - 1` and `y - 1` on `usize`. With the overflow checks of a debug build this panics at column 0 or row 0. | any grid, index 0: `x == 0`, so `x - 1` overflows | out-of-grid neighbours count as dead; a release build's wrap-around gives this by accident | not executed; affects only builds with overflow checks on (the build profile is not part of this model) | `Neighbours.DebugCountPanicsOnFirstRowAndColumn` | `Neighbours.CountNeighboursIsLiveNeighbours` |

## Left out

- The SDL2 window, canvas, texture, event pump and key handling (src/main.rs:107-126, 140-190). They are I/O against a graphics library. A reset is modelled as a call to `Engine.Reseed`.
- The frame loop itself (src/main.rs:148-205) is left out. Only its `grid = step_grid(&grid)` is modelled, as `Engine.Run`.
- `val_to_colour` and the colour cache (src/main.rs:21-27, 132-136): floating-point display code.
- Frame timing, `sleep` and frame-time logging (src/main.rs:149, 173-175, 194-204): wall-clock time and floating point.
- Rayon parallelism (src/main.rs:69-71) is modelled as a sequential loop. Each cell is written once, from the old buffer only.
- The `rand` crate: each coin flip is an input.
- The `CELL_SIZE` assertions (src/main.rs:98-105): window scaling only.
- Fixed-size `[u8; GRID_LENGTH]` arrays become arrays whose length is the configured width times height. Every grid is assumed to fit in memory, which is what `usize` indexing needs.
