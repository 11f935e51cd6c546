# Conway's Game of Life engine, modelled in Dafny

This project models the simulation engine of a Rust Game of Life program
(`src/conway.rs`): a grid of cells with a one-cell padding ring, the
Moore-neighbourhood live count, the birth/survival rule with its
alive-streak counter (`ticks_alive_`), and the whole-grid update that clones
the grid and rewrites its interior. The model is functional: a world is an
immutable `GridWorld` value holding a `seq<seq<Cell>>`.

Modules, one per part of the engine:

- `Grid` (grid.dfy): `State`, `Cell`, `GridWorld`, well-formedness, and
  `New`, the constructor with its column-2 seed.
- `Neighbors` (neighbors.dfy): `LiveNeighborCount` with the eight reads in
  the source's order, its range condition, a reference definition as the set
  of live Moore positions, and the panicking behaviour outside that range.
- `Rule` (rule.dfy): `NextCell`, the rule on one cell and its neighbour
  count, and `GetUpdatedCell`, which counts at the cell's stored position.
- `Simulation` (update.dfy): `Update`, the synchronous whole-grid map, and
  `UpdateByClone`, the source's clone-then-overwrite loop, proved equal to it.
- `Evolution` (evolution.dfy): repeated updates as the host loop drives them,
  the border frame over any number of generations, and the meaning of the
  streak counter.
- `Seed` (seed.dfy): what one update does to the world `New` builds.
- `Patterns` (patterns.dfy): two classic patterns under the update, the
  2 x 2 block (a still life) and the blinker (an oscillator of period two),
  each alone in a world and clear of the padding ring. Since every world the
  constructor builds has ALIVE cells in its border, these lemmas are about
  worlds `New` never builds; they describe the rule and the update, not the
  default seed.

Two points where the code behaves differently from what a reader of a Game
of Life engine with a padding ring would expect; the model follows the code:

- A padding ring is usually kept DEAD so that it only supplies neighbours.
  Here the constructor seeds padded column 2 in every row, border rows
  included, so whenever `num_cols >= 1` the two border rows hold an ALIVE
  cell in column 2, and when `num_cols == 1` column 2 is the whole right
  border column (with `num_cols == 0` there is no column 2 and every cell is
  DEAD). Because the
  update never writes the border, all of these cells stay ALIVE for ever:
  `Seed.SeededBorderStaysAlive` states it for both border rows and, when
  `num_cols == 1`, for every row of column 2; `Evolution.Run` states more
  generally that every border cell keeps its initial value.
- One might expect the seeded stripe in column 2 to leave its neighbouring
  columns 1 and 3 DEAD after one update, each seeing a single live
  neighbour. In the code they see three (the stripe cell beside them and the
  two above and below it, counting the seeded border rows), so after one
  update of `New(5, 5)` they are born with a streak of one
  (`Seed.FirstUpdateOfSeed`, `Seed.FiveByFiveBaseline`).

## Model

| member | source | states |
|---|---|---|
| Grid.New | src/conway.rs:49-77 | the world has `num_rows + 2` rows of `num_cols + 2` cells, generation 0, every cell records its own row and column, every streak is 0, and a cell is ALIVE exactly when it is in padded column 2, border rows included |
| Neighbors.CountAlive | src/conway.rs:92-94 | the filter-and-count over the neighbour list never exceeds the number of cells listed |
| Neighbors.LiveNeighborCount | src/conway.rs:81-95 | with all eight neighbours inside the grid, the count is between 0 and 8 |
| Neighbors.LiveNeighborCountIsMoore | src/conway.rs:81-95 | the count equals the number of ALIVE positions among the eight Moore neighbours of `(row y, col x)`; each is counted once and the centre never |
| Neighbors.CheckedLiveNeighborCount | src/conway.rs:81-91 | on any coordinate the function panics exactly when one of the eight reads `grid[y±1][x±1]`, `grid[y][x±1]`, `grid[y±1][x]` is out of bounds (unsigned underflow at 0 included), and otherwise returns the Moore count, at most 8 |
| Rule.NextCell | src/conway.rs:100-121 | the next cell is ALIVE exactly when it has three live neighbours or is ALIVE with two; a survivor's streak grows by one, a newborn's is 1, every other outcome is DEAD with streak 0; the position is copied |
| Rule.GetUpdatedCell | src/conway.rs:99-122 | counting at the cell's stored column and row, the result is ALIVE exactly when the Moore neighbourhood has three live cells, or two and the cell is ALIVE; streak as in the rule; position copied |
| Simulation.Update | src/conway.rs:125-143 | the result keeps `rows_` and `cols_`, is stamped with the caller's generation, stays well formed, and every border cell is identical to the input's |
| Simulation.UpdateInterior | src/conway.rs:129-134 | every interior cell of the result is the rule applied to the same input cell with its neighbours counted in the input world |
| Simulation.UpdateByClone | src/conway.rs:125-143 | cloning the grid and overwriting interior cells row by row, while reading neighbours from the input, yields exactly the synchronous update |
| Simulation.UpdateIsLocal | src/conway.rs:129-134 | an updated cell depends only on the 3 x 3 block of the input around it, so no cell rewritten earlier in the pass can influence it |
| Evolution.Run | src/main.rs:30-39 | after any number of updates driven by an incrementing generation counter the world keeps its dimensions and well-formedness, carries the last generation number, and its border equals the starting border |
| Evolution.UpdateMovesCounter | src/conway.rs:104-114 | one update sets an interior cell's streak to 0 if it is DEAD, to 1 if it was just born, and to one more than before if it survived |
| Evolution.CounterIsStreak | src/conway.rs:104-114 | in any history that moves the counter this way and starts at 0, the last counter is the number of consecutive ALIVE steps at its end |
| Evolution.InteriorHistoryFollowsRule | src/conway.rs:129-134 | the successive values of an interior cell under repeated updates move the counter as one update does |
| Evolution.TicksAliveIsStreak | src/conway.rs:104-114 | after any number of updates an interior cell that started with streak 0 carries the number of consecutive updates, up to the last, after which it was ALIVE |
| Evolution.CounterAfterBirth | src/conway.rs:106-111 | a cell DEAD at one step and ALIVE for the next `n` steps carries the counter `n`: 1 just after birth, one more for each generation it survives |
| Seed.SeedNeighborCount | src/conway.rs:57-60 | in the freshly built world an interior cell has two live neighbours in column 2, three in columns 1 and 3, and none elsewhere |
| Seed.FirstUpdateOfSeed | src/conway.rs:57-66 | after one update of the freshly built world, interior cells in columns 1 to 3 are ALIVE with streak 1 and all other interior cells DEAD with streak 0 |
| Seed.FiveByFiveBaseline | src/conway.rs:50-51 | `New(5, 5)` is 7 x 7, and after the update stamped 1 its interior columns 1 to 3 are ALIVE with streak 1 and columns 4 and 5 DEAD with streak 0 |
| Seed.SeededBorderStaysAlive | src/conway.rs:58-60 | the seeded cells of column 2 in border rows 0 and `num_rows + 1`, and in every row when `num_cols == 1`, are ALIVE after any number of updates |
| Patterns.PatternCellUpdate | src/conway.rs:129-134 | when exactly a given set of positions is ALIVE, an interior cell's update is the rule applied to the number of its Moore neighbours in that set |
| Patterns.BlinkerTurnsVertical | src/conway.rs:125-143 | a world whose only ALIVE cells are a row of three becomes one whose only ALIVE cells are the column of three through its middle: the ends die with one neighbour, the middle survives with two, the cells above and below it are born with three |
| Patterns.BlinkerTurnsHorizontal | src/conway.rs:125-143 | a lone column of three becomes the lone row of three through its middle |
| Patterns.BlinkerHasPeriodTwo | src/conway.rs:125-143 | the blinker returns to a lone row of three after two updates, passing through a different pattern after one |
| Patterns.BlockIsStill | src/conway.rs:104-114 | a lone 2 x 2 block is unchanged by an update, each of its cells surviving with three neighbours so that its streak grows by one, and no cell around it is born |
| Patterns.BlockCellSurvives | src/conway.rs:106-108 | each cell of a lone 2 x 2 block survives an update and its streak grows by one |
| Patterns.BlockStaysStill | src/conway.rs:125-143 | a lone 2 x 2 block is still exactly the set of ALIVE cells after any number of updates, and the world stays updatable with the same dimensions |
| Patterns.BlockStreakGrows | src/conway.rs:106-108 | after `k` updates each cell of a lone block has a streak `k` larger than it started with |

## Left out

- `src/rendering.rs`: vertex generation, normalised float coordinates, shaders and draw calls. It only reads the grid.
- `src/main.rs`: window creation, event polling, frame pacing and the window-size constants. Only the generation sequence of its loop is modelled (`Evolution.Run`).
- `Grid.Cell`: `ticks_alive_` is a `u32` and `ticks_alive += 1` overflows after 2^32 consecutive generations (a panic in debug builds, wrap-around in release builds); the model uses an unbounded `nat`.
- `Grid.GridWorld`: `ticks_` is a `u32` and positions and dimensions are `usize`; the model uses `nat`, so `num_rows + 2` never overflows.
- `Simulation.Update`: requires a well-formed world (rectangular, each cell storing its own position). The source only needs the stored positions of interior cells to have all eight neighbours in range; worlds whose cells store other positions are not modelled. It also requires `rows_ >= 1` and, when the row loop runs, `cols_ >= 1`, where the source's `rows_ - 1` and `cols_ - 1` would underflow: a panic in debug builds, and in release builds a wrap to the largest `usize`, after which the loops either index out of bounds and panic or, for `rows_ == 0` with `cols_` of 1 or 2, run an empty inner loop about 2^64 times.
- `Neighbors.CheckedLiveNeighborCount`: models a panic as the `Panic` outcome; it does not distinguish the debug-build subtraction panic from the release-build out-of-bounds panic.
- Patterns: the block and blinker lemmas require the pattern to be the only ALIVE cell in the whole world, border included, rather than only isolated within its 3 x 3 surroundings; a pattern next to the constructor's seeded stripe is not covered.
- Gliders and other travelling patterns are not modelled; only the block and the blinker are.
