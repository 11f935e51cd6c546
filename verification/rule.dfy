/**
 The birth/survival rule applied to one cell, and the alive-streak counter it
 keeps.
 */
module Rule {
  import opened Grid
  import opened Neighbors

  /**
   Conway's rule in its usual "B3/S23" form, as an independent reference: a
   cell is ALIVE in the next generation when it has exactly three live
   neighbours, or when it is ALIVE now and has exactly two.
   */
  predicate BornOrSurvives(alive: bool, n: nat) {
    n == 3 || (alive && n == 2)
  }

  /**
   The next value of `cell` when it has `n` live neighbours. A surviving cell
   extends its streak by one, a newborn cell starts a streak of one, and every
   other outcome is DEAD with the streak reset to zero, whatever it was. The
   position is carried over unchanged.
   */
  function NextCell(cell: Cell, n: nat): (r: Cell)
    ensures r.row == cell.row && r.col == cell.col
    ensures r.state == Alive <==> BornOrSurvives(cell.state == Alive, n)
    ensures r.state == Alive && cell.state == Alive ==> r.ticksAlive == cell.ticksAlive + 1
    ensures r.state == Alive && cell.state == Dead ==> r.ticksAlive == 1
    ensures r.state == Dead ==> r.ticksAlive == 0
  {
    var isAlive := cell.state == Alive;
    if isAlive && (n == 2 || n == 3) then
      Cell(cell.row, cell.col, Alive, cell.ticksAlive + 1)
    else if !isAlive && n == 3 then
      Cell(cell.row, cell.col, Alive, 1)
    else
      Cell(cell.row, cell.col, Dead, 0)
  }

  /**
   The source's per-cell update: count the live neighbours at the position
   the cell records (column `col`, row `row`) and apply the rule. Stated
   against the reference neighbourhood `LiveNeighbors`.
   */
  function GetUpdatedCell(cell: Cell, w: GridWorld): (r: Cell)
    requires NeighborsInRange(w.grid, cell.col, cell.row)
    ensures r.row == cell.row && r.col == cell.col
    ensures r.state == Alive <==>
              BornOrSurvives(cell.state == Alive, |LiveNeighbors(w.grid, cell.col, cell.row)|)
    ensures r.state == Alive && cell.state == Alive ==> r.ticksAlive == cell.ticksAlive + 1
    ensures r.state == Alive && cell.state == Dead ==> r.ticksAlive == 1
    ensures r.state == Dead ==> r.ticksAlive == 0
  {
    LiveNeighborCountIsMoore(cell.col, cell.row, w);
    NextCell(cell, LiveNeighborCount(cell.col, cell.row, w))
  }
}
