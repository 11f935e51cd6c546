/**
 What the default seed does: the world `New` builds (a vertical stripe of
 ALIVE cells in padded column 2, border rows included) after its first
 update.
 */
module Seed {
  import opened Grid
  import opened Neighbors
  import opened Simulation
  import opened Evolution

  /**
   In the freshly built world an interior cell in column 2 has two live
   neighbours (the stripe above and below it, the border rows included),
   a cell in column 1 or 3 has three, and every other interior cell none.
   */
  lemma SeedNeighborCount(numRows: nat, numCols: nat, r: nat, c: nat)
    requires IsInterior(New(numRows, numCols), r, c)
    ensures NeighborsInRange(New(numRows, numCols).grid, c, r)
    ensures LiveNeighborCount(c, r, New(numRows, numCols))
              == (if c == 2 then 2 else if c == 1 || c == 3 then 3 else 0)
  {
    var w := New(numRows, numCols);
    InteriorNeighborsInRange(w, r, c);
    CountAliveOfEight(NeighborCells(w.grid, c, r));
  }

  /**
   After one update of `New(numRows, numCols)`, the interior cells in
   columns 1 to 3 are ALIVE with a streak of one (column 2 survives with two
   neighbours, columns 1 and 3 are born with three) and every other interior
   cell is DEAD with a zero streak.
   */
  lemma FirstUpdateOfSeed(numRows: nat, numCols: nat, gen: nat, r: nat, c: nat)
    requires IsInterior(New(numRows, numCols), r, c)
    ensures Update(New(numRows, numCols), gen).grid[r][c]
              == Cell(r, c, if c <= 3 then Alive else Dead, if c <= 3 then 1 else 0)
  {
    var w := New(numRows, numCols);
    SeedNeighborCount(numRows, numCols, r, c);
    UpdateInterior(w, gen, r, c);
  }

  /**
   A concrete instance: `New(5, 5)` is a 7 x 7 world, and after the
   update stamped with generation 1 its interior columns 1, 2 and 3 are
   ALIVE with a streak of one and columns 4 and 5 are DEAD.
   */
  lemma FiveByFiveBaseline()
    ensures New(5, 5).rows == 7 && New(5, 5).cols == 7
    ensures Update(New(5, 5), 1).ticks == 1
    ensures forall r, c :: 1 <= r <= 5 && 1 <= c <= 3 ==>
              Update(New(5, 5), 1).grid[r][c] == Cell(r, c, Alive, 1)
    ensures forall r, c :: 1 <= r <= 5 && 4 <= c <= 5 ==>
              Update(New(5, 5), 1).grid[r][c] == Cell(r, c, Dead, 0)
  {
    forall r: nat, c: nat | 1 <= r <= 5 && 1 <= c <= 5
      ensures Update(New(5, 5), 1).grid[r][c]
                == Cell(r, c, if c <= 3 then Alive else Dead, if c <= 3 then 1 else 0)
    {
      FirstUpdateOfSeed(5, 5, 1, r, c);
    }
  }

  /**
   The seed also marks column 2 in the two border rows, and, when there is
   a single inner column, column 2 is the right border column in every row.
   Since the update never writes the border those cells stay ALIVE for ever.
   */
  lemma SeededBorderStaysAlive(numRows: nat, numCols: nat, first: nat, k: nat)
    requires numCols >= 1
    ensures Run(New(numRows, numCols), first, k).grid[0][2].state == Alive
    ensures Run(New(numRows, numCols), first, k).grid[numRows + 1][2].state == Alive
    ensures numCols == 1 ==>
              forall r :: 0 <= r < numRows + 2 ==> Run(New(numRows, numCols), first, k).grid[r][2].state == Alive
  {
    var w := New(numRows, numCols);
    assert IsBorder(w, 0, 2) && IsBorder(w, numRows + 1, 2);
    if numCols == 1 {
      forall r | 0 <= r < numRows + 2 ensures Run(w, first, k).grid[r][2].state == Alive {
        assert IsBorder(w, r, 2);
      }
    }
  }
}
