/**
 Many generations in a row, as the host loop drives them: it starts the
 generation counter at some value, calls the update with the current counter
 and then increments it, once per frame.
 */
module Evolution {
  import opened Grid
  import opened Simulation

  /**
   The world after `k` updates of `w`, the first stamped with generation
   `first`, the next with `first + 1`, and so on. The padding ring is never
   written, so after any number of generations it still holds the cells it
   started with.
   */
  function Run(w: GridWorld, first: nat, k: nat): (v: GridWorld)
    requires CanUpdate(w)
    ensures CanUpdate(v) && v.rows == w.rows && v.cols == w.cols
    ensures k > 0 ==> v.ticks == first + k - 1
    ensures forall r: nat, c: nat :: IsBorder(w, r, c) ==> v.grid[r][c] == w.grid[r][c]
  {
    if k == 0 then w else Update(Run(w, first, k - 1), first + k - 1)
  }

  /** The successive values of the cell at `(r, c)`: before any update, then after each of `k` updates. */
  function CellHistory(w: GridWorld, first: nat, k: nat, r: nat, c: nat): (h: seq<Cell>)
    requires CanUpdate(w) && r < w.rows && c < w.cols
    ensures |h| == k + 1
  {
    seq(k + 1, i requires 0 <= i <= k => Run(w, first, i).grid[r][c])
  }

  /** How one update moves the alive-streak counter from `a` to `b`. */
  predicate CounterStep(a: Cell, b: Cell) {
    && (b.state == Dead ==> b.ticksAlive == 0)
    && (b.state == Alive && a.state == Alive ==> b.ticksAlive == a.ticksAlive + 1)
    && (b.state == Alive && a.state == Dead ==> b.ticksAlive == 1)
  }

  /** Every step of the history moves the counter as one update does. */
  predicate FollowsCounterRule(h: seq<Cell>) {
    forall i :: 0 < i < |h| ==> CounterStep(h[i - 1], h[i])
  }

  /**
   Reference definition of the streak: the number of consecutive updates at
   the end of the history `h` after which the cell was ALIVE (`h[0]` is the
   value before the first update).
   */
  function Streak(h: seq<Cell>): nat {
    if |h| <= 1 || h[|h| - 1].state == Dead then 0
    else Streak(h[..|h| - 1]) + 1
  }

  /** A rule-following history whose first counter is zero ends with its streak as counter. */
  lemma {:induction false} CounterIsStreak(h: seq<Cell>)
    requires |h| > 0 && h[0].ticksAlive == 0
    requires FollowsCounterRule(h)
    ensures h[|h| - 1].ticksAlive == Streak(h)
  {
    if |h| > 1 {
      var prefix := h[..|h| - 1];
      assert FollowsCounterRule(prefix) by {
        forall i | 0 < i < |prefix| ensures CounterStep(prefix[i - 1], prefix[i]) {
          assert prefix[i - 1] == h[i - 1] && prefix[i] == h[i];
        }
      }
      CounterIsStreak(prefix);
      assert CounterStep(h[|h| - 2], h[|h| - 1]);
      assert prefix[|prefix| - 1] == h[|h| - 2];
      if h[|h| - 2].state == Dead && |prefix| > 1 {
        assert prefix[|prefix| - 1].state == Dead;
      }
    }
  }

  /** A cell DEAD at step `j` and ALIVE at each of the next `n` steps has a streak of `n` there. */
  lemma {:induction false} StreakAfterBirth(h: seq<Cell>, j: nat, n: nat)
    requires j + n < |h|
    requires h[j].state == Dead
    requires forall i :: j < i <= j + n ==> h[i].state == Alive
    ensures Streak(h[..j + n + 1]) == n
  {
    if n > 0 {
      StreakAfterBirth(h, j, n - 1);
      assert h[..j + n + 1][..j + n] == h[..j + n];
    }
  }

  /** One update, seen from one interior cell: it moves the counter as `CounterStep` says. */
  lemma UpdateMovesCounter(w: GridWorld, first: nat, k: nat, r: nat, c: nat)
    requires CanUpdate(w) && IsInterior(w, r, c) && k > 0
    ensures CounterStep(Run(w, first, k - 1).grid[r][c], Run(w, first, k).grid[r][c])
  {
    UpdateInterior(Run(w, first, k - 1), first + k - 1, r, c);
  }

  /** The history of an interior cell follows the counter rule. */
  lemma InteriorHistoryFollowsRule(w: GridWorld, first: nat, k: nat, r: nat, c: nat)
    requires CanUpdate(w) && IsInterior(w, r, c)
    ensures FollowsCounterRule(CellHistory(w, first, k, r, c))
  {
    var h := CellHistory(w, first, k, r, c);
    forall i | 0 < i < |h| ensures CounterStep(h[i - 1], h[i]) {
      assert h[i - 1] == Run(w, first, i - 1).grid[r][c];
      assert h[i] == Run(w, first, i).grid[r][c];
      UpdateMovesCounter(w, first, i, r, c);
    }
  }

  /**
   The counter an interior cell carries is its alive streak: if it started at
   zero, then after `k` updates it equals the number of consecutive updates,
   up to the `k`-th, after which the cell was ALIVE.
   */
  lemma TicksAliveIsStreak(w: GridWorld, first: nat, k: nat, r: nat, c: nat)
    requires CanUpdate(w) && IsInterior(w, r, c)
    requires w.grid[r][c].ticksAlive == 0
    ensures Run(w, first, k).grid[r][c].ticksAlive == Streak(CellHistory(w, first, k, r, c))
  {
    var h := CellHistory(w, first, k, r, c);
    InteriorHistoryFollowsRule(w, first, k, r, c);
    assert h[0] == w.grid[r][c];
    CounterIsStreak(h);
  }

  /** In a rule-following history starting from zero, a cell born at step `j + 1` and alive `n` steps has counter `n`. */
  lemma CounterAfterBirth(h: seq<Cell>, j: nat, n: nat)
    requires |h| == j + n + 1 && h[0].ticksAlive == 0
    requires FollowsCounterRule(h)
    requires h[j].state == Dead
    requires forall i :: j < i <= j + n ==> h[i].state == Alive
    ensures h[j + n].ticksAlive == n
  {
    StreakAfterBirth(h, j, n);
    assert h[..j + n + 1] == h;
    CounterIsStreak(h);
  }
}
