/**
 * The driver `solve_by_simplex` as a function: augment once, check the right-hand
 * sides, then iterate {entering column; leaving row; pivot} with the loop counter of the
 * source, which allows at most 31 pivots.
 */
module Solver {
  import opened Tableau
  import opened PivotRules

  /**
   * How a solve ends. InfeasibleStart stands for the failed assertion of the right-hand-side
   * check; ZeroPivot for the failed assertion in `pivot` when the chosen entry is 0 (the
   * division turns it into NaN, which is not close to 1).
   */
  datatype Status = Optimal | Unbounded | IterationLimit | InfeasibleStart | ZeroPivot

  /** The outcome, the final grid, and how many pivots were applied. */
  datatype Run = Run(status: Status, grid: Grid, pivots: nat)

  /** The loop stops after the pivot of the iteration whose counter exceeds this. */
  const MaxLoop: int := 30

  function AddPivots(r: Run, n: nat): Run
  {
    r.(pivots := r.pivots + n)
  }

  /** What one iteration does: stop with a status, or go on with the pivoted grid. */
  datatype Move = Stop(status: Status) | Go(next: Grid)

  /** One iteration: the column rule, then the ratio test, then the pivot. */
  function Next(g: Grid, p: int, q: int): (m: Move)
    requires IsGrid(g) && 1 <= p <= q <= Q
    ensures m.Go? ==> IsGrid(m.next)
  {
    var c := EnteringColumn(g, q);
    if c < 0 then Stop(Optimal)
    else
      var r := LeavingRow(Thetas(g, p, c));
      if r < 0 then Stop(Unbounded)
      else if g[r][c] == 0.0 then Stop(ZeroPivot)
      else Go(Pivoted(g, p, q, r, c))
  }

  /**
   * When the column rule and the ratio test both succeed and the chosen entry is not zero, the
   * chosen cell is inside the constraint part of the tableau and the iteration pivots on it.
   */
  lemma NextPivots(g: Grid, p: int, q: int, r: int, c: int)
    requires IsGrid(g) && 1 <= p <= q <= Q
    requires c == EnteringColumn(g, q) && c >= 0
    requires r == LeavingRow(Thetas(g, p, c)) && r >= 0 && g[r][c] != 0.0
    ensures 1 <= r < p && 1 <= c < q
    ensures Next(g, p, q) == Go(Pivoted(g, p, q, r, c))
  {
  }

  /**
   * Why an iteration stops: Optimal exactly when no reduced cost read is negative; Unbounded
   * exactly when the ratio test on the entering column yields -1; ZeroPivot exactly when it
   * yields a row whose entry in that column is 0. No other status arises.
   */
  lemma NextStops(g: Grid, p: int, q: int)
    requires IsGrid(g) && 1 <= p <= q <= Q
    ensures Next(g, p, q) == Stop(Optimal) <==> forall j :: 1 <= j < ScanLimit(q) ==> g[0][j] >= 0.0
    ensures Next(g, p, q) == Stop(Unbounded) <==>
      var c := EnteringColumn(g, q);
      c >= 1 && LeavingRow(Thetas(g, p, c)) == -1
    ensures Next(g, p, q) == Stop(ZeroPivot) <==>
      var c := EnteringColumn(g, q);
      c >= 1 && LeavingRow(Thetas(g, p, c)) >= 1 && g[LeavingRow(Thetas(g, p, c))][c] == 0.0
    ensures Next(g, p, q).Stop? ==> Next(g, p, q).status in {Optimal, Unbounded, ZeroPivot}
  {
    EnteringColumnIsLeast(g, q);
  }

  /**
   * A zero entry in the entering column does not stop an iteration by itself: when every
   * ratio is positive (a zero entry under a positive right-hand side gives plus infinity) and
   * some constraint entry of the column is non-zero, the iteration pivots.
   */
  lemma PositiveColumnPivots(g: Grid, p: int, q: int)
    requires IsGrid(g) && 2 <= p <= q <= Q && EnteringColumn(g, q) >= 1
    requires forall i :: 1 <= i < p ==> Positive(Ratio(g, i, EnteringColumn(g, q)))
    requires exists i :: 1 <= i < p && g[i][EnteringColumn(g, q)] != 0.0
    ensures Next(g, p, q).Go?
  {
    PositiveRatiosInGrid(g, p, EnteringColumn(g, q));
  }

  /** An iteration writes only inside the p x q tableau. */
  lemma NextLeavesOutsideUnchanged(g: Grid, p: int, q: int, i: int, j: int)
    requires IsGrid(g) && 1 <= p <= q <= Q && Next(g, p, q).Go?
    requires 0 <= i < P && 0 <= j < Q && (i >= p || j >= q)
    ensures Next(g, p, q).next[i][j] == g[i][j]
  {
    var c := EnteringColumn(g, q);
    var r := LeavingRow(Thetas(g, p, c));
    PivotLeavesOutsideUnchanged(g, p, q, r, c, i, j);
  }

  /** The loop from iteration `loop` on (the counter is 1 in the first iteration). */
  function Iterate(g: Grid, p: int, q: int, loop: int): (r: Run)
    requires IsGrid(g) && 1 <= p <= q <= Q && 1 <= loop <= MaxLoop + 1
    ensures IsGrid(r.grid)
    decreases MaxLoop + 1 - loop, 1
  {
    match Next(g, p, q)
    case Stop(s) => Run(s, g, 0)
    case Go(h) => Continue(h, p, q, loop)
  }

  /** After the pivot of iteration `loop`: stop at the cap, or go on with the next iteration. */
  function Continue(h: Grid, p: int, q: int, loop: int): (r: Run)
    requires IsGrid(h) && 1 <= p <= q <= Q && 1 <= loop <= MaxLoop + 1
    ensures IsGrid(r.grid)
    decreases MaxLoop + 1 - loop, 0
  {
    if loop > MaxLoop then Run(IterationLimit, h, 1)
    else AddPivots(Iterate(h, p, q, loop + 1), 1)
  }

  /** An iteration that stops ends the loop with its status, the grid as it was, and no pivot. */
  lemma IterateStops(g: Grid, p: int, q: int, loop: int)
    requires IsGrid(g) && 1 <= p <= q <= Q && 1 <= loop <= MaxLoop + 1 && Next(g, p, q).Stop?
    ensures Iterate(g, p, q, loop) == Run(Next(g, p, q).status, g, 0)
  {
  }

  /** An iteration that pivots hands the pivoted grid on to the next iteration or to the cap. */
  lemma IterateGoesOn(g: Grid, p: int, q: int, loop: int)
    requires IsGrid(g) && 1 <= p <= q <= Q && 1 <= loop <= MaxLoop + 1 && Next(g, p, q).Go?
    ensures loop > MaxLoop ==> Iterate(g, p, q, loop) == Run(IterationLimit, Next(g, p, q).next, 1)
    ensures loop <= MaxLoop ==>
      Iterate(g, p, q, loop) == AddPivots(Iterate(Next(g, p, q).next, p, q, loop + 1), 1)
  {
  }

  /**
   * From iteration `loop`, at most MaxLoop + 2 - loop pivots are applied, and the iteration
   * cap is the outcome exactly when all of them were.
   */
  lemma {:induction false} IteratePivotBound(g: Grid, p: int, q: int, loop: int)
    requires IsGrid(g) && 1 <= p <= q <= Q && 1 <= loop <= MaxLoop + 1
    ensures Iterate(g, p, q, loop).pivots <= MaxLoop + 2 - loop
    ensures Iterate(g, p, q, loop).status == IterationLimit <==>
            Iterate(g, p, q, loop).pivots == MaxLoop + 2 - loop
    decreases MaxLoop + 1 - loop
  {
    if Next(g, p, q).Go? && loop <= MaxLoop {
      IteratePivotBound(Next(g, p, q).next, p, q, loop + 1);
    }
  }

  /**
   * The loop never reports InfeasibleStart, and unless it hit the cap, one more iteration on
   * its final grid stops with the status it reports.
   */
  lemma {:induction false} IterateOutcome(g: Grid, p: int, q: int, loop: int)
    requires IsGrid(g) && 1 <= p <= q <= Q && 1 <= loop <= MaxLoop + 1
    ensures var r := Iterate(g, p, q, loop);
      r.status != InfeasibleStart && (r.status != IterationLimit ==> Next(r.grid, p, q) == Stop(r.status))
    decreases MaxLoop + 1 - loop
  {
    match Next(g, p, q)
    case Stop(s) =>
      assert Iterate(g, p, q, loop) == Run(s, g, 0);
    case Go(h) =>
      if loop <= MaxLoop {
        IterateOutcome(h, p, q, loop + 1);
      }
  }

  /** The loop writes only inside the p x q tableau. */
  lemma {:induction false} IterateLeavesOutsideUnchanged(g: Grid, p: int, q: int, loop: int, i: int, j: int)
    requires IsGrid(g) && 1 <= p <= q <= Q && 1 <= loop <= MaxLoop + 1
    requires 0 <= i < P && 0 <= j < Q && (i >= p || j >= q)
    ensures Iterate(g, p, q, loop).grid[i][j] == g[i][j]
    decreases MaxLoop + 1 - loop
  {
    match Next(g, p, q)
    case Stop(_) =>
    case Go(h) =>
      NextLeavesOutsideUnchanged(g, p, q, i, j);
      if loop <= MaxLoop {
        IterateLeavesOutsideUnchanged(h, p, q, loop + 1, i, j);
      }
  }

  /** A whole solve of the p x q problem g. */
  function Solve(g: Grid, p: int, q: int): (r: Run)
    requires IsGrid(g) && 1 <= p && 1 <= q && q + p - 1 <= Q
    ensures IsGrid(r.grid)
  {
    var h := SlackAugmented(g, p, q);
    if !RhsNonNegative(h, q + p - 1) then Run(InfeasibleStart, h, 0)
    else Iterate(h, p, q + p - 1, 1)
  }

  /**
   * A solve fails its start check exactly when one of the rows 1..q+p-2 (the rows the check
   * reads, a superset of the constraint rows) has a negative right-hand side; it then stops
   * with the augmented grid and no pivot. Otherwise every constraint row started non-negative.
   */
  lemma SolveStartCheck(g: Grid, p: int, q: int)
    requires IsGrid(g) && 1 <= p && 1 <= q && q + p - 1 <= Q
    ensures Solve(g, p, q).status == InfeasibleStart <==> exists i :: 1 <= i < q + p - 1 && g[i][0] < 0.0
    ensures Solve(g, p, q).status == InfeasibleStart ==>
              Solve(g, p, q).grid == SlackAugmented(g, p, q) && Solve(g, p, q).pivots == 0
    ensures Solve(g, p, q).status != InfeasibleStart ==> forall i :: 1 <= i < p ==> g[i][0] >= 0.0
  {
    AugmentationKeepsRhs(g, p, q, q + p - 1);
    var h := SlackAugmented(g, p, q);
    if RhsNonNegative(h, q + p - 1) {
      IterateOutcome(h, p, q + p - 1, 1);
    }
  }

  /**
   * Each status a solve ends with after the start check is justified by its final grid:
   * Optimal when no reduced cost read is negative; Unbounded when the ratio test on the
   * entering column yields -1; ZeroPivot when it yields a row with a zero entry there.
   */
  lemma SolveOutcome(g: Grid, p: int, q: int)
    requires IsGrid(g) && 1 <= p && 1 <= q && q + p - 1 <= Q
    ensures var r, n := Solve(g, p, q), q + p - 1;
      && (r.status == Optimal ==> forall j :: 1 <= j < ScanLimit(n) ==> r.grid[0][j] >= 0.0)
      && (r.status == Unbounded ==>
            var c := EnteringColumn(r.grid, n);
            c >= 1 && LeavingRow(Thetas(r.grid, p, c)) == -1)
      && (r.status == ZeroPivot ==>
            var c := EnteringColumn(r.grid, n);
            c >= 1 && LeavingRow(Thetas(r.grid, p, c)) >= 1 && r.grid[LeavingRow(Thetas(r.grid, p, c))][c] == 0.0)
  {
    var h, n := SlackAugmented(g, p, q), q + p - 1;
    if RhsNonNegative(h, n) {
      var r := Iterate(h, p, n, 1);
      assert Solve(g, p, q) == r;
      IterateOutcome(h, p, n, 1);
      if r.status != IterationLimit {
        NextStops(r.grid, p, n);
      }
    }
  }

  /** At most 31 pivots are applied in a solve, and exactly 31 when the cap is the outcome. */
  lemma SolvePivotBound(g: Grid, p: int, q: int)
    requires IsGrid(g) && 1 <= p && 1 <= q && q + p - 1 <= Q
    ensures Solve(g, p, q).pivots <= MaxLoop + 1
    ensures Solve(g, p, q).status == IterationLimit <==> Solve(g, p, q).pivots == MaxLoop + 1
  {
    var h := SlackAugmented(g, p, q);
    if RhsNonNegative(h, q + p - 1) {
      IteratePivotBound(h, p, q + p - 1, 1);
    }
  }
}
