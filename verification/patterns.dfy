/**
 Two classic patterns under the update: the 2 x 2 block, which never
 changes, and the blinker, a row of three cells that turns into a column of
 three and back. Each is stated for a world in which the pattern is the only
 thing ALIVE and lies inside the padding ring.
 */
module Patterns {
  import opened Grid
  import opened Neighbors
  import opened Rule
  import opened Simulation
  import opened Evolution

  /** The cells of `w` that are ALIVE are exactly those at the positions in `s`. */
  predicate AliveExactlyAt(w: GridWorld, s: set<(int, int)>) {
    && Rectangular(w)
    && forall r, c :: 0 <= r < w.rows && 0 <= c < w.cols ==>
         (w.grid[r][c].state == Alive <==> (r, c) in s)
  }

  /** 1 when `(r, c)` is one of the positions in `s`, else 0. */
  function Bit(s: set<(int, int)>, r: int, c: int): nat {
    if (r, c) in s then 1 else 0
  }

  /** How many of the eight Moore neighbours of `(i, j)` are positions in `s`. */
  function NeighborsIn(s: set<(int, int)>, i: int, j: int): nat {
    Bit(s, i, j - 1) + Bit(s, i, j + 1) + Bit(s, i + 1, j - 1) + Bit(s, i + 1, j + 1)
    + Bit(s, i - 1, j + 1) + Bit(s, i - 1, j - 1) + Bit(s, i + 1, j) + Bit(s, i - 1, j)
  }

  /** When exactly the positions in `s` are ALIVE, the neighbour count is the number of neighbours in `s`. */
  lemma PatternNeighborCount(w: GridWorld, s: set<(int, int)>, x: nat, y: nat)
    requires AliveExactlyAt(w, s) && NeighborsInRange(w.grid, x, y)
    ensures LiveNeighborCount(x, y, w) == NeighborsIn(s, y, x)
  {
    CountAliveOfEight(NeighborCells(w.grid, x, y));
  }

  /** A row of three cells centred on `(r, c)`. */
  function Horizontal(r: int, c: int): set<(int, int)> {
    {(r, c - 1), (r, c), (r, c + 1)}
  }

  /** A column of three cells centred on `(r, c)`. */
  function Vertical(r: int, c: int): set<(int, int)> {
    {(r - 1, c), (r, c), (r + 1, c)}
  }

  /** The 2 x 2 block whose top-left cell is `(r, c)`. */
  function Block(r: int, c: int): set<(int, int)> {
    {(r, c), (r, c + 1), (r + 1, c), (r + 1, c + 1)}
  }

  /** The 3 x 3 square centred on `(r, c)` lies inside the padding ring. */
  predicate RoomForBlinker(w: GridWorld, r: nat, c: nat) {
    2 <= r && r + 2 < w.rows && 2 <= c && c + 2 < w.cols
  }

  /** The 2 x 2 square with top-left cell `(r, c)` lies inside the padding ring. */
  predicate RoomForBlock(w: GridWorld, r: nat, c: nat) {
    1 <= r && r + 2 < w.rows && 1 <= c && c + 2 < w.cols
  }

  /**
   One interior cell under an update of a world in which exactly the
   positions in `s` are ALIVE: the rule applied to the number of its
   neighbours in `s`.
   */
  lemma PatternCellUpdate(w: GridWorld, gen: nat, s: set<(int, int)>, i: nat, j: nat)
    requires CanUpdate(w) && IsInterior(w, i, j) && AliveExactlyAt(w, s)
    ensures Update(w, gen).grid[i][j] == NextCell(w.grid[i][j], NeighborsIn(s, i, j))
  {
    UpdateInterior(w, gen, i, j);
    PatternNeighborCount(w, s, j, i);
  }

  /**
   Applying the rule at `(i, j)` to a world in which exactly the positions in
   `s` are ALIVE leaves it ALIVE exactly when `(i, j)` is in `t`.
   */
  predicate RuleTakes(s: set<(int, int)>, t: set<(int, int)>, i: int, j: int) {
    BornOrSurvives((i, j) in s, NeighborsIn(s, i, j)) <==> (i, j) in t
  }

  /** Under the rule, the cells of a row of three and its surroundings give a column of three. */
  lemma HorizontalGivesVertical(r: int, c: int, i: int, j: int)
    ensures RuleTakes(Horizontal(r, c), Vertical(r, c), i, j)
  {
    if i == r - 1 || i == r + 1 {
    } else if i == r {
    } else {
      assert NeighborsIn(Horizontal(r, c), i, j) == 0;
    }
  }

  /** Under the rule, the cells of a column of three and its surroundings give a row of three. */
  lemma VerticalGivesHorizontal(r: int, c: int, i: int, j: int)
    ensures RuleTakes(Vertical(r, c), Horizontal(r, c), i, j)
  {
    if j == c - 1 || j == c + 1 {
    } else if j == c {
    } else {
      assert NeighborsIn(Vertical(r, c), i, j) == 0;
    }
  }

  /** Under the rule, every cell of a 2 x 2 block survives and no cell around it is born. */
  lemma BlockGivesBlock(r: int, c: int, i: int, j: int)
    ensures RuleTakes(Block(r, c), Block(r, c), i, j)
  {
    if r - 1 <= i <= r + 2 && c - 1 <= j <= c + 2 {
    } else {
      assert NeighborsIn(Block(r, c), i, j) == 0;
    }
  }

  /**
   One interior cell of a world in which exactly the positions in `s` are
   ALIVE: when the rule takes `s` to `t` at that cell, it is ALIVE after the
   update exactly when it is in `t`.
   */
  lemma PatternCellState(w: GridWorld, gen: nat, s: set<(int, int)>, t: set<(int, int)>, i: nat, j: nat)
    requires CanUpdate(w) && IsInterior(w, i, j) && AliveExactlyAt(w, s)
    requires RuleTakes(s, t, i, j)
    ensures Update(w, gen).grid[i][j].state == Alive <==> (i, j) in t
  {
    assert w.grid[i][j].state == Alive <==> (i, j) in s;
    PatternCellUpdate(w, gen, s, i, j);
  }

  /** A lone horizontal blinker becomes a lone vertical one. */
  lemma BlinkerTurnsVertical(w: GridWorld, gen: nat, r: nat, c: nat)
    requires CanUpdate(w) && RoomForBlinker(w, r, c)
    requires AliveExactlyAt(w, Horizontal(r, c))
    ensures AliveExactlyAt(Update(w, gen), Vertical(r, c))
  {
    var u := Update(w, gen);
    forall i, j | 0 <= i < w.rows && 0 <= j < w.cols
      ensures u.grid[i][j].state == Alive <==> (i, j) in Vertical(r, c)
    {
      if IsInterior(w, i, j) {
        HorizontalGivesVertical(r, c, i, j);
        PatternCellState(w, gen, Horizontal(r, c), Vertical(r, c), i, j);
      }
    }
  }

  /** A lone vertical blinker becomes a lone horizontal one. */
  lemma BlinkerTurnsHorizontal(w: GridWorld, gen: nat, r: nat, c: nat)
    requires CanUpdate(w) && RoomForBlinker(w, r, c)
    requires AliveExactlyAt(w, Vertical(r, c))
    ensures AliveExactlyAt(Update(w, gen), Horizontal(r, c))
  {
    var u := Update(w, gen);
    forall i, j | 0 <= i < w.rows && 0 <= j < w.cols
      ensures u.grid[i][j].state == Alive <==> (i, j) in Horizontal(r, c)
    {
      if IsInterior(w, i, j) {
        VerticalGivesHorizontal(r, c, i, j);
        PatternCellState(w, gen, Vertical(r, c), Horizontal(r, c), i, j);
      }
    }
  }

  /**
   The blinker has period two: after one update it is vertical, which is a
   different pattern, and after two it is horizontal again.
   */
  lemma BlinkerHasPeriodTwo(w: GridWorld, gen1: nat, gen2: nat, r: nat, c: nat)
    requires CanUpdate(w) && RoomForBlinker(w, r, c)
    requires AliveExactlyAt(w, Horizontal(r, c))
    ensures AliveExactlyAt(Update(w, gen1), Vertical(r, c))
    ensures Vertical(r, c) != Horizontal(r, c)
    ensures AliveExactlyAt(Update(Update(w, gen1), gen2), Horizontal(r, c))
  {
    var u := Update(w, gen1);
    BlinkerTurnsVertical(w, gen1, r, c);
    assert RoomForBlinker(u, r, c);
    BlinkerTurnsHorizontal(u, gen2, r, c);
    BlinkerPhasesDiffer(r, c);
  }

  /** The two phases of a blinker are different patterns. */
  lemma BlinkerPhasesDiffer(r: int, c: int)
    ensures Vertical(r, c) != Horizontal(r, c)
  {
    assert (r, c - 1) in Horizontal(r, c);
  }

  /** A lone block is unchanged by an update, and each of its cells extends its streak by one. */
  lemma BlockIsStill(w: GridWorld, gen: nat, r: nat, c: nat)
    requires CanUpdate(w) && RoomForBlock(w, r, c)
    requires AliveExactlyAt(w, Block(r, c))
    ensures AliveExactlyAt(Update(w, gen), Block(r, c))
    ensures forall i, j :: r <= i <= r + 1 && c <= j <= c + 1 ==>
              Update(w, gen).grid[i][j].ticksAlive == w.grid[i][j].ticksAlive + 1
  {
    var u := Update(w, gen);
    assert AliveExactlyAt(u, Block(r, c)) by {
      forall i, j | 0 <= i < w.rows && 0 <= j < w.cols
        ensures u.grid[i][j].state == Alive <==> (i, j) in Block(r, c)
      {
        if IsInterior(w, i, j) {
          BlockGivesBlock(r, c, i, j);
          PatternCellState(w, gen, Block(r, c), Block(r, c), i, j);
        }
      }
    }
    forall i, j | r <= i <= r + 1 && c <= j <= c + 1
      ensures u.grid[i][j].ticksAlive == w.grid[i][j].ticksAlive + 1
    {
      BlockCellSurvives(w, gen, r, c, i, j);
    }
  }

  /** A cell of a lone block survives an update, so its streak grows by one. */
  lemma BlockCellSurvives(w: GridWorld, gen: nat, r: nat, c: nat, i: nat, j: nat)
    requires CanUpdate(w) && RoomForBlock(w, r, c)
    requires AliveExactlyAt(w, Block(r, c))
    requires r <= i <= r + 1 && c <= j <= c + 1
    ensures Update(w, gen).grid[i][j].ticksAlive == w.grid[i][j].ticksAlive + 1
  {
    var n := NeighborsIn(Block(r, c), i, j);
    assert BornOrSurvives(true, n) by {
      assert (i, j) in Block(r, c);
      BlockGivesBlock(r, c, i, j);
    }
    assert w.grid[i][j].state == Alive by {
      assert (i, j) in Block(r, c);
    }
    PatternCellUpdate(w, gen, Block(r, c), i, j);
  }

  /** One update of a world holding a lone block: the block stays, and the world can be updated again. */
  lemma BlockStep(v: GridWorld, gen: nat, r: nat, c: nat)
    requires CanUpdate(v) && RoomForBlock(v, r, c)
    requires AliveExactlyAt(v, Block(r, c))
    ensures CanUpdate(Update(v, gen)) && RoomForBlock(Update(v, gen), r, c)
    ensures AliveExactlyAt(Update(v, gen), Block(r, c))
  {
    BlockIsStill(v, gen, r, c);
  }

  /** A lone block stays exactly where it is across any number of updates. */
  lemma {:induction false} BlockStaysStill(w: GridWorld, first: nat, k: nat, r: nat, c: nat)
    requires CanUpdate(w) && RoomForBlock(w, r, c)
    requires AliveExactlyAt(w, Block(r, c))
    ensures CanUpdate(Run(w, first, k)) && RoomForBlock(Run(w, first, k), r, c)
    ensures AliveExactlyAt(Run(w, first, k), Block(r, c))
  {
    if k > 0 {
      BlockStaysStill(w, first, k - 1, r, c);
      BlockStep(Run(w, first, k - 1), first + k - 1, r, c);
    }
  }

  /** A counter that grows by one at every step has grown by the number of steps. */
  lemma {:induction false} GrowsByOneEachStep(h: seq<Cell>)
    requires |h| > 0
    requires forall m :: 0 < m < |h| ==> h[m].ticksAlive == h[m - 1].ticksAlive + 1
    ensures h[|h| - 1].ticksAlive == h[0].ticksAlive + (|h| - 1)
  {
    if |h| > 1 {
      GrowsByOneEachStep(h[..|h| - 1]);
    }
  }

  /** Each cell of a lone block extends its streak by one on every update: after `k` updates it has grown by `k`. */
  lemma BlockStreakGrows(w: GridWorld, first: nat, k: nat, r: nat, c: nat, i: nat, j: nat)
    requires CanUpdate(w) && RoomForBlock(w, r, c)
    requires AliveExactlyAt(w, Block(r, c))
    requires r <= i <= r + 1 && c <= j <= c + 1
    ensures Run(w, first, k).grid[i][j].ticksAlive == w.grid[i][j].ticksAlive + k
  {
    var h := CellHistory(w, first, k, i, j);
    forall m | 0 < m < |h| ensures h[m].ticksAlive == h[m - 1].ticksAlive + 1 {
      BlockStreakStep(w, first, m, r, c, i, j);
    }
    GrowsByOneEachStep(h);
  }

  /** The `k`-th update of a world that started with a lone block grows each block cell's streak by one. */
  lemma BlockStreakStep(w: GridWorld, first: nat, k: nat, r: nat, c: nat, i: nat, j: nat)
    requires CanUpdate(w) && RoomForBlock(w, r, c) && k > 0
    requires AliveExactlyAt(w, Block(r, c))
    requires r <= i <= r + 1 && c <= j <= c + 1
    ensures Run(w, first, k).grid[i][j].ticksAlive == Run(w, first, k - 1).grid[i][j].ticksAlive + 1
  {
    BlockStaysStill(w, first, k - 1, r, c);
    BlockCellSurvives(Run(w, first, k - 1), first + k - 1, r, c, i, j);
  }
}
