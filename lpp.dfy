/**
 * The `lpp` record and the solver routines that work on it in place. Each method is
 * proved against the functions of Tableau, PivotRules and Solver through the ghost view
 * Snapshot() of the fixed-size matrix.
 */
module SimplexMethod {
  import opened Tolerance
  import opened Tableau
  import opened PivotRules
  import opened Solver

  /** What one pass of the loop body did: pivoted the matrix, or halted with a status. */
  datatype Progress = Moved | Halted(status: Status)

  class Lpp {
    /** Number of rows (objective row + constraint rows) and of columns in use. */
    var p: int
    var q: int
    /** The fixed P x Q storage; only the top-left p x q part is the tableau. */
    var matrix: array2<real>

    ghost predicate Valid()
      reads this
    {
      matrix.Length0 == P && matrix.Length1 == Q && 1 <= p <= P && 1 <= q <= Q
    }

    /** The whole matrix storage as a value. */
    ghost function Snapshot(): (g: Grid)
      reads this`matrix, matrix
      requires matrix.Length0 == P && matrix.Length1 == Q
      ensures IsGrid(g)
      ensures forall i, j :: 0 <= i < P && 0 <= j < Q ==> g[i][j] == matrix[i, j]
    {
      Rows(P)
    }

    /** Rows 0..n-1 of the matrix. */
    ghost function Rows(n: int): (g: Grid)
      reads this`matrix, matrix
      requires 0 <= n <= matrix.Length0 && matrix.Length1 == Q
      ensures |g| == n
      ensures forall i :: 0 <= i < n ==> |g[i]| == Q
      ensures forall i, j :: 0 <= i < n && 0 <= j < Q ==> g[i][j] == matrix[i, j]
    {
      if n == 0 then [] else Rows(n - 1) + [Cells(n - 1, Q)]
    }

    /** Columns 0..n-1 of row i of the matrix. */
    ghost function Cells(i: int, n: int): (r: seq<real>)
      reads this`matrix, matrix
      requires 0 <= i < matrix.Length0 && 0 <= n <= matrix.Length1
      ensures |r| == n
      ensures forall j :: 0 <= j < n ==> r[j] == matrix[i, j]
    {
      if n == 0 then [] else Cells(i, n - 1) + [matrix[i, n - 1]]
    }

    /** A record holding the p x q problem `rows` (the storage beyond it as given too). */
    constructor (rows: Grid, p0: int, q0: int)
      requires IsGrid(rows) && 1 <= p0 <= P && 1 <= q0 <= Q
      ensures Valid() && fresh(matrix) && p == p0 && q == q0 && Snapshot() == rows
    {
      p, q := p0, q0;
      matrix := new real[P, Q]((i, j) requires 0 <= i < P && 0 <= j < Q => rows[i][j]);
      new;
      GridEquality(Snapshot(), rows);
    }

    /** `add_slack_vars`: writes the identity block right of the old columns and widens q. */
    method AddSlackVars()
      requires Valid() && q + p - 1 <= Q
      modifies this`q, matrix
      ensures Valid() && q == old(q) + p - 1
      ensures Snapshot() == SlackAugmented(old(Snapshot()), p, old(q))
    {
      ghost var g := Snapshot();
      ghost var h := SlackAugmented(g, p, q);
      for i := 1 to p
        modifies matrix
        invariant forall a, b :: 0 <= a < P && 0 <= b < Q ==>
          matrix[a, b] == if a < i then h[a][b] else g[a][b]
      {
        for j := 1 to p
          modifies matrix
          invariant forall a, b :: 0 <= a < P && 0 <= b < Q ==>
            matrix[a, b] == if a < i || (a == i && b < j + q - 1) then h[a][b] else g[a][b]
        {
          matrix[i, j + q - 1] := if i == j then 1.0 else 0.0;
        }
      }
      GridEquality(Snapshot(), h);
      q := q + p - 1;
    }

    /** `is_b_positive`: the check passes iff rows 1..q-1 (note: q, not p) have a non-negative rhs. */
    method IsBPositive() returns (ok: bool)
      requires Valid()
      ensures ok <==> RhsNonNegative(Snapshot(), q)
    {
      for i := 1 to q
        invariant forall k :: 1 <= k < i ==> matrix[k, 0] >= 0.0
      {
        if !(matrix[i, 0] >= 0.0) {
          return false;
        }
      }
      return true;
    }

    /** `find_basis_vars`: the row in which column `col` is a unit vector, or -1. */
    method FindBasisVars(col: int) returns (xi: int)
      requires Valid() && 0 <= col < Q
      ensures xi == BasisRow(Snapshot(), p, col)
      ensures xi == -1 || 1 <= xi < p
    {
      ghost var g := Snapshot();
      xi := -1;
      for i := 1 to p
        invariant xi == -1 ==> forall k :: 1 <= k < i ==> IsEqual(g[k][col], 0.0)
        invariant xi != -1 ==> 1 <= xi < i && IsEqual(g[xi][col], 1.0)
        invariant xi != -1 ==> forall k :: 1 <= k < i && k != xi ==> IsEqual(g[k][col], 0.0)
      {
        if IsEqual(matrix[i, col], 1.0) {
          if xi == -1 {
            xi := i;
          } else {
            TwoOnesNoBasis(g, p, col, xi, i);
            return -1;
          }
        } else if !IsEqual(matrix[i, col], 0.0) {
          StrayEntryNoBasis(g, p, col, i);
          return -1;
        }
      }
      if xi == -1 {
        ZeroColumnNoBasis(g, p, col);
      } else {
        BasisRowIs(g, p, col, xi);
      }
    }

    /**
     * `pivot`: the Gauss-Jordan step on the cell (row, col). It fails (`ok` is false) exactly
     * when the pivot entry is 0: the division then makes it NaN and the assertion that it is
     * close to 1 does not hold.
     */
    method Pivot(row: int, col: int) returns (ok: bool)
      requires Valid() && 0 <= row < p && 0 <= col < q
      modifies matrix
      ensures ok <==> old(matrix[row, col]) != 0.0
      ensures ok ==> Snapshot() == Pivoted(old(Snapshot()), p, q, row, col)
      ensures !ok ==> Snapshot() == old(Snapshot())
    {
      ghost var g := Snapshot();
      var pivot := matrix[row, col];
      if pivot == 0.0 {
        return false;
      }
      DivideRow(row, pivot);
      // The source asserts this; over the reals it holds exactly.
      assert g[row][col] / g[row][col] == 1.0;
      assert matrix[row, col] == 1.0 && IsEqual(matrix[row, col], 1.0);
      for i := 0 to p
        invariant forall a, b :: 0 <= a < P && 0 <= b < Q ==>
          matrix[a, b] == if a == row || a < i then PivotCell(g, p, q, row, col, a, b) else g[a][b]
      {
        var k := matrix[i, col];
        if i == row {
          continue;
        }
        SubtractRow(i, row, k);
        forall b | 0 <= b < Q
          ensures matrix[i, b] == PivotCell(g, p, q, row, col, i, b)
        {
          if b < q {
            PivotCellEliminates(g, p, q, row, col, i, b);
          }
        }
      }
      GridEquality(Snapshot(), Pivoted(g, p, q, row, col));
      ok := true;
    }

    /** The first loop of `pivot`: columns 0..q-1 of `row` are divided by `d`. */
    method DivideRow(row: int, d: real)
      requires Valid() && 0 <= row < P && d != 0.0
      modifies matrix
      ensures forall a, b :: 0 <= a < P && 0 <= b < Q ==>
        matrix[a, b] == if a == row && b < q then old(matrix[a, b]) / d else old(matrix[a, b])
    {
      for j := 0 to q
        invariant forall a, b :: 0 <= a < P && 0 <= b < Q ==>
          matrix[a, b] == if a == row && b < j then old(matrix[a, b]) / d else old(matrix[a, b])
      {
        matrix[row, j] := matrix[row, j] / d;
      }
    }

    /** The inner loop of `pivot`: row i loses k times row `row` in columns 0..q-1. */
    method SubtractRow(i: int, row: int, k: real)
      requires Valid() && 0 <= i < P && 0 <= row < P && i != row
      modifies matrix
      ensures forall a, b :: 0 <= a < P && 0 <= b < Q ==>
        matrix[a, b] == if a == i && b < q then old(matrix[a, b]) - k * old(matrix[row, b]) else old(matrix[a, b])
    {
      for j := 0 to q
        invariant forall a, b :: 0 <= a < P && 0 <= b < Q ==>
          matrix[a, b] == if a == i && b < j then old(matrix[a, b]) - k * old(matrix[row, b]) else old(matrix[a, b])
      {
        matrix[i, j] := matrix[i, j] - k * matrix[row, j];
      }
    }

    /**
     * `find_pivot_c_index`: -1 when no reduced cost read is negative, otherwise the lowest
     * column of the most negative one.
     */
    method FindPivotCIndex() returns (pivotC: int)
      requires Valid()
      ensures pivotC == EnteringColumn(Snapshot(), q)
    {
      ghost var g := Snapshot();
      pivotC := 1;
      var leastVal := matrix[0, pivotC];
      for j := 1 to q
        invariant Least(leastVal, pivotC) == LeastScan(g, j)
      {
        if matrix[0, j] < leastVal {
          leastVal := matrix[0, j];
          pivotC := j;
        }
      }
      if leastVal >= 0.0 {
        return -1;
      }
    }

    /**
     * `find_pivot_r_index`: the ratio test as written. Row 1 is taken first; a later row
     * replaces the candidate iff its ratio is positive and smaller, or the candidate's ratio
     * is negative; -1 iff the retained ratio is exactly -1. A zero entry gives the ratio an
     * infinity or NaN, as the double division does.
     */
    method FindPivotRIndex(pivotC: int) returns (pivotR: int)
      requires Valid() && 0 <= pivotC < Q
      ensures pivotR == LeavingRow(Thetas(Snapshot(), p, pivotC))
      ensures pivotR == -1 || 1 <= pivotR < p
      ensures p < 2 ==> pivotR == -1
    {
      ghost var g := Snapshot();
      ghost var ts := Thetas(g, p, pivotC);
      pivotR := 0;
      var minTheta := Finite(-1.0);
      for i := 1 to p
        invariant Candidate(minTheta, pivotR) == ScanCandidate(ts[..i - 1])
      {
        var theta := Divide(matrix[i, 0], matrix[i, pivotC]);
        assert theta == ts[i - 1];
        assert ts[..i][..i - 1] == ts[..i - 1];
        if (Positive(theta) && Below(theta, minTheta)) || Negative(minTheta) {
          minTheta := theta;
          pivotR := i;
        }
      }
      assert ts[..p - 1] == ts;
      if minTheta == Finite(-1.0) {
        return -1;
      }
    }

    /**
     * The body of the loop of `solve_by_simplex`: the column rule, the ratio test and the
     * pivot, which is Next on the matrix. Either it halts with Next's status and leaves the
     * matrix as it was, or it pivots the matrix into Next's grid.
     */
    method Step() returns (r: Progress)
      requires Valid() && p <= q
      modifies matrix
      ensures Next(old(Snapshot()), p, q) == if r.Moved? then Go(Snapshot()) else Stop(r.status)
      ensures r.Halted? ==> Snapshot() == old(Snapshot())
    {
      ghost var cur := Snapshot();
      var pivotC := FindPivotCIndex();
      assert Snapshot() == cur;
      if pivotC < 0 {
        return Halted(Optimal);
      }
      var pivotR := FindPivotRIndex(pivotC);
      assert Snapshot() == cur;
      if pivotR < 0 {
        return Halted(Unbounded);
      }
      var ok := Pivot(pivotR, pivotC);
      if !ok {
        return Halted(ZeroPivot);
      }
      NextPivots(cur, p, q, pivotR, pivotC);
      return Moved;
    }

    /**
     * `solve_by_simplex`: augment, check the right-hand sides, then run the pivoting loop.
     * The result and the final matrix are those of Solve on the initial matrix.
     */
    method SolveBySimplex() returns (status: Status, ghost pivots: nat)
      requires Valid() && q + p - 1 <= Q
      modifies this`q, matrix
      ensures Valid() && q == old(q) + p - 1
      ensures Solve(old(Snapshot()), p, old(q)) == Run(status, Snapshot(), pivots)
    {
      ghost var g0, q0 := Snapshot(), q;
      AddSlackVars();
      ghost var h := Snapshot();
      var ok := IsBPositive();
      assert Snapshot() == h;
      if !ok {
        assert Solve(g0, p, q0) == Run(InfeasibleStart, h, 0);
        return InfeasibleStart, 0;
      }
      assert Solve(g0, p, q0) == Iterate(h, p, q, 1);
      status, pivots := Loop();
    }

    /**
     * The loop of `solve_by_simplex`: iterations with counter 1, 2, ... until one stops or the
     * counter passes 30. Status, final matrix and pivot count are those of Iterate.
     */
    method Loop() returns (status: Status, ghost pivots: nat)
      requires Valid() && p <= q
      modifies matrix
      ensures Iterate(old(Snapshot()), p, q, 1) == Run(status, Snapshot(), pivots)
    {
      ghost var full := Iterate(Snapshot(), p, q, 1);
      assert full == AddPivots(Iterate(Snapshot(), p, q, 1), 0);
      var loop := 0;
      while true
        invariant Valid() && p <= q
        invariant 0 <= loop <= MaxLoop
        invariant full == AddPivots(Iterate(Snapshot(), p, q, loop + 1), loop)
        decreases MaxLoop - loop
      {
        loop := loop + 1;
        ghost var cur := Snapshot();
        var r := Step();
        if r.Halted? {
          IterateStops(cur, p, q, loop);
          assert full == Run(r.status, Snapshot(), loop - 1);
          return r.status, loop - 1;
        }
        IterateGoesOn(cur, p, q, loop);
        if loop > MaxLoop {
          assert full == Run(IterationLimit, Snapshot(), loop);
          return IterationLimit, loop;
        }
      }
    }
  }
}
