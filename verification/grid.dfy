/**
 The data model of the simulation: the two cell states, a cell, and the
 padded grid world, together with the construction of the initial world.

 The grid carries a one-cell padding ring around the user-visible area, so a
 world asked for with `numRows` x `numCols` cells holds
 `(numRows + 2) x (numCols + 2)` cells, indexed `[row][col]`.
 */
module Grid {

  /** Life state of one cell. */
  datatype State = Alive | Dead

  /**
   One grid position. `row` and `col` are the cell's own record of where it
   sits in the padded grid; `ticksAlive` is its alive-streak counter.
   The source stores the counter as a 32-bit unsigned integer; here it is a
   `nat` (see README, "Left out").
   */
  datatype Cell = Cell(row: nat, col: nat, state: State, ticksAlive: nat)

  /**
   The whole game state: the generation stamp written by the last update,
   the padded dimensions, and the cells, row-major.
   */
  datatype GridWorld = GridWorld(ticks: nat, rows: nat, cols: nat, grid: seq<seq<Cell>>)

  /** The grid holds exactly `rows` rows of `cols` cells each. */
  predicate Rectangular(w: GridWorld) {
    && |w.grid| == w.rows
    && forall r :: 0 <= r < |w.grid| ==> |w.grid[r]| == w.cols
  }

  /**
   Rectangular, and every cell records its own position. The update reads
   neighbours through the positions stored in the cell, so this is what makes
   it read the neighbourhood of the cell it is rewriting.
   */
  predicate WellFormed(w: GridWorld) {
    && Rectangular(w)
    && forall r, c :: 0 <= r < w.rows && 0 <= c < w.cols ==>
         w.grid[r][c].row == r && w.grid[r][c].col == c
  }

  /** `(r, c)` lies strictly inside the padding ring. */
  predicate IsInterior(w: GridWorld, r: nat, c: nat) {
    1 <= r < w.rows - 1 && 1 <= c < w.cols - 1
  }

  /** `(r, c)` is a position of the grid that lies on the padding ring. */
  predicate IsBorder(w: GridWorld, r: nat, c: nat) {
    r < w.rows && c < w.cols && !IsInterior(w, r, c)
  }

  /** The column the constructor seeds: every cell in it starts ALIVE. */
  const SeedColumn: nat := 2

  /** Initial state of the cell in column `c` of a freshly built world. */
  function SeedState(c: nat): State {
    if c == SeedColumn then Alive else Dead
  }

  /**
   Builds the padded world for a requested `numRows` x `numCols` area.
   Every cell starts with a zero streak and is DEAD, except that every cell
   in padded column 2 is ALIVE, in every row, the two border rows included.
   */
  function New(numRows: nat, numCols: nat): (w: GridWorld)
    ensures w.rows == numRows + 2 && w.cols == numCols + 2
    ensures w.ticks == 0
    ensures WellFormed(w)
    ensures forall r, c :: 0 <= r < w.rows && 0 <= c < w.cols ==>
              && w.grid[r][c].ticksAlive == 0
              && (w.grid[r][c].state == Alive <==> c == 2)
  {
    var rows := numRows + 2;
    var cols := numCols + 2;
    GridWorld(0, rows, cols,
      seq(rows, r requires 0 <= r < rows =>
        seq(cols, c requires 0 <= c < cols => Cell(r, c, SeedState(c), 0))))
  }
}
