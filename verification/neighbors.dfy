/**
 Counting the live cells in the Moore neighbourhood of a grid position.

 Coordinates follow the source's argument order: `x` is the column and `y`
 the row, and the cell read is `grid[y][x]`. The source subtracts one from
 unsigned coordinates and indexes without checks, so it panics unless every
 one of the eight neighbours exists; `NeighborsInRange` is exactly that
 condition.
 */
module Neighbors {
  import opened Grid

  /** All eight reads `grid[y ± 1][x ± 1]`, `grid[y][x ± 1]`, `grid[y ± 1][x]` are in bounds. */
  predicate NeighborsInRange(g: seq<seq<Cell>>, x: nat, y: nat) {
    && 1 <= y && y + 1 < |g|
    && 1 <= x
    && x + 1 < |g[y - 1]| && x + 1 < |g[y]| && x + 1 < |g[y + 1]|
  }

  /** The eight neighbouring cells, in the order the source lists them. */
  function NeighborCells(g: seq<seq<Cell>>, x: nat, y: nat): (cells: seq<Cell>)
    requires NeighborsInRange(g, x, y)
    ensures |cells| == 8
  {
    [ g[y][x - 1],
      g[y][x + 1],
      g[y + 1][x - 1],
      g[y + 1][x + 1],
      g[y - 1][x + 1],
      g[y - 1][x - 1],
      g[y + 1][x],
      g[y - 1][x] ]
  }

  /** The number of ALIVE cells in `cells`. */
  function CountAlive(cells: seq<Cell>): (n: nat)
    ensures n <= |cells|
  {
    if |cells| == 0 then 0
    else
      CountAlive(cells[..|cells| - 1]) + (if cells[|cells| - 1].state == Alive then 1 else 0)
  }

  /** The source's neighbour count for the cell at column `x`, row `y`. */
  function LiveNeighborCount(x: nat, y: nat, w: GridWorld): (n: nat)
    requires NeighborsInRange(w.grid, x, y)
    ensures n <= 8
  {
    CountAlive(NeighborCells(w.grid, x, y))
  }

  /** 1 for an ALIVE cell, 0 for a DEAD one. */
  function AliveBit(cell: Cell): nat {
    if cell.state == Alive then 1 else 0
  }

  /** `CountAlive` on eight cells, written out as a sum. */
  lemma CountAliveOfEight(s: seq<Cell>)
    requires |s| == 8
    ensures CountAlive(s) == AliveBit(s[0]) + AliveBit(s[1]) + AliveBit(s[2]) + AliveBit(s[3])
                           + AliveBit(s[4]) + AliveBit(s[5]) + AliveBit(s[6]) + AliveBit(s[7])
  {
    var b0, b1, b2, b3 := AliveBit(s[0]), AliveBit(s[1]), AliveBit(s[2]), AliveBit(s[3]);
    var b4, b5, b6, b7 := AliveBit(s[4]), AliveBit(s[5]), AliveBit(s[6]), AliveBit(s[7]);
    assert CountAlive(s[..1]) == b0 by { CountAliveStep(s, 1); assert s[..0] == []; }
    assert CountAlive(s[..2]) == b0 + b1 by { CountAliveStep(s, 2); }
    assert CountAlive(s[..3]) == b0 + b1 + b2 by { CountAliveStep(s, 3); }
    assert CountAlive(s[..4]) == b0 + b1 + b2 + b3 by { CountAliveStep(s, 4); }
    assert CountAlive(s[..5]) == b0 + b1 + b2 + b3 + b4 by { CountAliveStep(s, 5); }
    assert CountAlive(s[..6]) == b0 + b1 + b2 + b3 + b4 + b5 by { CountAliveStep(s, 6); }
    assert CountAlive(s[..7]) == b0 + b1 + b2 + b3 + b4 + b5 + b6 by { CountAliveStep(s, 7); }
    assert CountAlive(s[..8]) == b0 + b1 + b2 + b3 + b4 + b5 + b6 + b7 by { CountAliveStep(s, 8); }
    assert s[..8] == s;
  }

  /** Counting a prefix one cell longer adds that cell's bit. */
  lemma CountAliveStep(s: seq<Cell>, k: nat)
    requires 0 < k <= |s|
    ensures CountAlive(s[..k]) == CountAlive(s[..k - 1]) + AliveBit(s[k - 1])
  {
    assert s[..k][..k - 1] == s[..k - 1];
  }

  /**
   Reference definition: the set of positions in the 3 x 3 block centred on
   `(y, x)`, the centre excluded, that hold an ALIVE cell.
   */
  ghost function LiveNeighbors(g: seq<seq<Cell>>, x: nat, y: nat): set<(int, int)>
    requires NeighborsInRange(g, x, y)
  {
    set r: int, c: int | y - 1 <= r <= y + 1 && x - 1 <= c <= x + 1 && (r, c) != (y, x)
                          && g[r][c].state == Alive :: (r, c)
  }

  /** The positions the source reads, in its order, as `(row, col)` pairs. */
  function NeighborPositions(x: nat, y: nat): seq<(int, int)> {
    [(y, x - 1), (y, x + 1), (y + 1, x - 1), (y + 1, x + 1),
     (y - 1, x + 1), (y - 1, x - 1), (y + 1, x), (y - 1, x)]
  }

  /** Each position the source reads lies in the 3 x 3 block and is not its centre; no two coincide. */
  lemma NeighborPositionsAreMoore(x: nat, y: nat)
    ensures forall i :: 0 <= i < 8 ==>
              var p := NeighborPositions(x, y)[i];
              y - 1 <= p.0 <= y + 1 && x - 1 <= p.1 <= x + 1 && p != (y, x)
    ensures forall i, j :: 0 <= i < j < 8 ==> NeighborPositions(x, y)[i] != NeighborPositions(x, y)[j]
  {
  }

  /** Where in the source's order the neighbour at `(r, c)` is read. */
  function PositionIndex(x: nat, y: nat, r: int, c: int): (i: nat)
    requires y - 1 <= r <= y + 1 && x - 1 <= c <= x + 1 && (r, c) != (y, x)
    ensures i < 8 && NeighborPositions(x, y)[i] == (r, c)
  {
    if r == y then (if c < x then 0 else 1)
    else if r == y + 1 then (if c < x then 2 else if c > x then 3 else 6)
    else (if c > x then 4 else if c < x then 5 else 7)
  }

  /** The live positions among the first `k` positions the source reads. */
  ghost function LiveAmongFirst(g: seq<seq<Cell>>, x: nat, y: nat, k: nat): (s: set<(int, int)>)
    requires NeighborsInRange(g, x, y) && k <= 8
    ensures forall p :: p in s ==> p in NeighborPositions(x, y)[..k]
  {
    if k == 0 then {}
    else
      var p := NeighborPositions(x, y)[k - 1];
      LiveAmongFirst(g, x, y, k - 1) + (if g[p.0][p.1].state == Alive then {p} else {})
  }

  /** Each of the first `k` neighbour positions is in `LiveAmongFirst` exactly when its cell is ALIVE. */
  lemma {:induction false} LiveAmongFirstMembers(g: seq<seq<Cell>>, x: nat, y: nat, k: nat)
    requires NeighborsInRange(g, x, y) && k <= 8
    ensures forall i :: 0 <= i < k ==>
              var p := NeighborPositions(x, y)[i];
              (p in LiveAmongFirst(g, x, y, k) <==> g[p.0][p.1].state == Alive)
  {
    if k > 0 {
      LiveAmongFirstMembers(g, x, y, k - 1);
      NeighborPositionsAreMoore(x, y);
    }
  }

  /** Counting the first `k` neighbour cells gives the number of live positions among the first `k`. */
  lemma {:induction false} CountPrefixIsLiveAmongFirst(g: seq<seq<Cell>>, x: nat, y: nat, k: nat)
    requires NeighborsInRange(g, x, y) && k <= 8
    ensures CountAlive(NeighborCells(g, x, y)[..k]) == |LiveAmongFirst(g, x, y, k)|
  {
    if k > 0 {
      var cells := NeighborCells(g, x, y);
      var p := NeighborPositions(x, y)[k - 1];
      var bit := if g[p.0][p.1].state == Alive then 1 else 0;
      assert CountAlive(cells[..k]) == CountAlive(cells[..k - 1]) + bit by {
        CountAliveStep(cells, k);
      }
      assert |LiveAmongFirst(g, x, y, k)| == |LiveAmongFirst(g, x, y, k - 1)| + bit by {
        NewPositionIsFresh(g, x, y, k);
      }
      CountPrefixIsLiveAmongFirst(g, x, y, k - 1);
    }
  }

  /** The `k`-th neighbour position is new to the first `k - 1`, so it adds its bit to the set's size. */
  lemma NewPositionIsFresh(g: seq<seq<Cell>>, x: nat, y: nat, k: nat)
    requires NeighborsInRange(g, x, y) && 0 < k <= 8
    ensures var p := NeighborPositions(x, y)[k - 1];
            |LiveAmongFirst(g, x, y, k)|
              == |LiveAmongFirst(g, x, y, k - 1)| + (if g[p.0][p.1].state == Alive then 1 else 0)
  {
    var ps := NeighborPositions(x, y);
    var p := ps[k - 1];
    var before := LiveAmongFirst(g, x, y, k - 1);
    NeighborPositionsAreMoore(x, y);
    assert p !in before;
  }

  /**
   The source's count is the number of ALIVE cells among the eight Moore
   neighbours: each neighbour is counted once, the centre never.
   */
  lemma {:induction false} LiveNeighborCountIsMoore(x: nat, y: nat, w: GridWorld)
    requires NeighborsInRange(w.grid, x, y)
    ensures LiveNeighborCount(x, y, w) == |LiveNeighbors(w.grid, x, y)|
    ensures (y, x) !in LiveNeighbors(w.grid, x, y)
  {
    var g := w.grid;
    var ps := NeighborPositions(x, y);
    CountPrefixIsLiveAmongFirst(g, x, y, 8);
    assert NeighborCells(g, x, y)[..8] == NeighborCells(g, x, y);
    LiveAmongFirstMembers(g, x, y, 8);
    NeighborPositionsAreMoore(x, y);
    forall p | p in LiveNeighbors(g, x, y)
      ensures p in LiveAmongFirst(g, x, y, 8)
    {
      var i := PositionIndex(x, y, p.0, p.1);
    }
    forall p | p in LiveAmongFirst(g, x, y, 8)
      ensures p in LiveNeighbors(g, x, y)
    {
      assert p in ps[..8];
      var i :| 0 <= i < 8 && ps[i] == p;
    }
    assert LiveAmongFirst(g, x, y, 8) == LiveNeighbors(g, x, y);
  }

  /** Outcome of the neighbour count on an arbitrary coordinate. */
  datatype CountOutcome = Count(n: nat) | Panic

  /**
   The neighbour count on any coordinate: the source panics (unsigned
   underflow or an out-of-bounds index) exactly when one of the eight reads
   falls outside the grid, and otherwise returns the count.
   */
  function CheckedLiveNeighborCount(x: nat, y: nat, w: GridWorld): (o: CountOutcome)
    ensures o.Panic? <==> !NeighborsInRange(w.grid, x, y)
    ensures o.Count? ==> o.n <= 8 && o.n == |LiveNeighbors(w.grid, x, y)|
  {
    if NeighborsInRange(w.grid, x, y) then
      LiveNeighborCountIsMoore(x, y, w);
      Count(LiveNeighborCount(x, y, w))
    else
      Panic
  }
}
