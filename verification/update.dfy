/**
 One generation step of the whole grid.

 The source clones the grid and then overwrites the interior cells one by
 one, row by row, while every neighbour read goes to the unmodified input
 world. `Update` is the synchronous whole-grid map that this is meant to be;
 `UpdateByClone` is the clone-and-overwrite loop, proved to compute it.
 */
module Simulation {
  import opened Grid
  import opened Neighbors
  import opened Rule

  /**
   What the source needs of a world to update it without panicking: the
   grid is well formed, and `rows - 1` (and, once the row loop runs,
   `cols - 1`) does not underflow.
   */
  predicate CanUpdate(w: GridWorld) {
    && WellFormed(w)
    && w.rows >= 1
    && (w.rows > 2 ==> w.cols >= 1)
  }

  /** In a well-formed world every interior cell's neighbourhood lies inside the grid. */
  lemma InteriorNeighborsInRange(w: GridWorld, r: nat, c: nat)
    requires WellFormed(w) && IsInterior(w, r, c)
    ensures w.grid[r][c].row == r && w.grid[r][c].col == c
    ensures NeighborsInRange(w.grid, c, r)
  {
  }

  /** The value the update writes at `(r, c)`: the rule for interior cells, the old cell elsewhere. */
  function UpdatedAt(w: GridWorld, r: nat, c: nat): Cell
    requires WellFormed(w) && r < w.rows && c < w.cols
  {
    if IsInterior(w, r, c) then
      InteriorNeighborsInRange(w, r, c);
      GetUpdatedCell(w.grid[r][c], w)
    else
      w.grid[r][c]
  }

  /**
   The next generation, stamped with the caller's generation number `gen`.
   Every cell of the result is computed from the input world alone.
   */
  function Update(w: GridWorld, gen: nat): (u: GridWorld)
    requires CanUpdate(w)
    ensures u.ticks == gen && u.rows == w.rows && u.cols == w.cols
    ensures CanUpdate(u)
    ensures forall r: nat, c: nat :: IsBorder(w, r, c) ==> u.grid[r][c] == w.grid[r][c]
  {
    var g := seq(w.rows, r requires 0 <= r < w.rows =>
               seq(w.cols, c requires 0 <= c < w.cols => UpdatedAt(w, r, c)));
    GridWorld(gen, w.rows, w.cols, g)
  }

  /**
   Each interior cell of the next generation is the rule applied to the same
   cell of the input world, with its neighbours counted in the input world.
   */
  lemma UpdateInterior(w: GridWorld, gen: nat, r: nat, c: nat)
    requires CanUpdate(w) && IsInterior(w, r, c)
    ensures NeighborsInRange(w.grid, c, r)
    ensures Update(w, gen).grid[r][c] == NextCell(w.grid[r][c], LiveNeighborCount(c, r, w))
  {
  }

  /**
   The clone-and-overwrite loop of the source: start from a copy of the
   input grid, rewrite each interior cell in row-major order, and read every
   neighbourhood from the input world, never from the copy being written.
   */
  method UpdateByClone(w: GridWorld, gen: nat) returns (u: GridWorld)
    requires CanUpdate(w)
    ensures u == Update(w, gen)
  {
    var cells := w.grid;
    var row := 1;
    while row < w.rows - 1
      invariant 1 <= row <= w.rows
      invariant |cells| == w.rows
      invariant forall r :: 0 <= r < w.rows ==> |cells[r]| == w.cols
      invariant forall r, c :: 0 <= r < w.rows && 0 <= c < w.cols ==>
                  cells[r][c] == (if r < row then UpdatedAt(w, r, c) else w.grid[r][c])
    {
      var col := 1;
      var newRow := cells[row];
      while col < w.cols - 1
        invariant 1 <= col <= w.cols
        invariant |newRow| == w.cols
        invariant forall c :: 0 <= c < w.cols ==>
                    newRow[c] == (if c < col then UpdatedAt(w, row, c) else w.grid[row][c])
      {
        InteriorNeighborsInRange(w, row, col);
        newRow := newRow[col := GetUpdatedCell(w.grid[row][col], w)];
        col := col + 1;
      }
      cells := cells[row := newRow];
      row := row + 1;
    }
    u := GridWorld(gen, w.rows, w.cols, cells);
    forall r | 0 <= r < w.rows
      ensures cells[r] == Update(w, gen).grid[r]
    {
      assert forall c :: 0 <= c < w.cols ==> cells[r][c] == UpdatedAt(w, r, c);
    }
  }

  /**
   The new value of a cell depends only on the 3 x 3 block of the input
   around it: two worlds that agree there give the same updated cell,
   whatever the rest of the grids hold and whatever order cells are visited.
   */
  lemma {:induction false} UpdateIsLocal(w1: GridWorld, w2: GridWorld, gen1: nat, gen2: nat, r: nat, c: nat)
    requires CanUpdate(w1) && CanUpdate(w2)
    requires w1.rows == w2.rows && w1.cols == w2.cols
    requires IsInterior(w1, r, c)
    requires forall i, j :: r - 1 <= i <= r + 1 && c - 1 <= j <= c + 1 ==> w1.grid[i][j] == w2.grid[i][j]
    ensures Update(w1, gen1).grid[r][c] == Update(w2, gen2).grid[r][c]
  {
    InteriorNeighborsInRange(w1, r, c);
    InteriorNeighborsInRange(w2, r, c);
    assert NeighborCells(w1.grid, c, r) == NeighborCells(w2.grid, c, r);
  }
}
