/**
 * The tableau of the `lpp` record as a value: a P x Q grid of reals whose row 0 is the
 * objective row and whose rows 1..p-1 are the constraint rows; column 0 holds the
 * right-hand sides. This module gives the two operations that rewrite the grid
 * (slack augmentation and the Gauss-Jordan pivot) as functions, basis detection as a
 * characterisation, and the lemmas that relate them.
 */
module Tableau {
  import opened Tolerance

  /** The fixed storage bounds of `matrix[P][Q]`. */
  const P: int := 30
  const Q: int := 30

  type Grid = seq<seq<real>>

  predicate IsGrid(g: Grid)
  {
    |g| == P && forall i :: 0 <= i < P ==> |g[i]| == Q
  }

  lemma GridEquality(g: Grid, h: Grid)
    requires IsGrid(g) && IsGrid(h)
    requires forall i, j :: 0 <= i < P && 0 <= j < Q ==> g[i][j] == h[i][j]
    ensures g == h
  {
    forall i | 0 <= i < P
      ensures g[i] == h[i]
    {
      assert |g[i]| == |h[i]| == Q;
    }
  }

  // ---------------------------------------------------------------------------
  // Slack augmentation

  /**
   * The grid after `add_slack_vars`: for every constraint row i and every constraint
   * index j (both in 1..p-1) the cell (i, j + q - 1) is 1 when i == j and 0 otherwise;
   * nothing else is written.
   */
  function SlackAugmented(g: Grid, p: int, q: int): (h: Grid)
    requires IsGrid(g) && 1 <= p <= P && 1 <= q && q + p - 1 <= Q
    ensures IsGrid(h)
  {
    seq(P, i requires 0 <= i < P =>
      seq(Q, j requires 0 <= j < Q =>
        if 1 <= i < p && q <= j < q + p - 1 then (if j - q + 1 == i then 1.0 else 0.0)
        else g[i][j]))
  }

  /** The new columns q..q+p-2, restricted to the constraint rows, form the identity matrix. */
  lemma SlackBlockIsIdentity(g: Grid, p: int, q: int, i: int, j: int)
    requires IsGrid(g) && 1 <= p <= P && 1 <= q && q + p - 1 <= Q
    requires 1 <= i < p && 1 <= j < p
    ensures SlackAugmented(g, p, q)[i][q - 1 + j] == if i == j then 1.0 else 0.0
  {
  }

  /** Row 0, the rows from p on, and every column outside the slack block are not written. */
  lemma SlackLeavesRestUnchanged(g: Grid, p: int, q: int, i: int, j: int)
    requires IsGrid(g) && 1 <= p <= P && 1 <= q && q + p - 1 <= Q
    requires 0 <= i < P && 0 <= j < Q
    requires i == 0 || i >= p || j < q || j >= q + p - 1
    ensures SlackAugmented(g, p, q)[i][j] == g[i][j]
  {
  }

  // ---------------------------------------------------------------------------
  // Right-hand-side check

  /** Rows 1..n-1 have a non-negative entry in column 0 (`is_b_positive` is called with n == q). */
  predicate RhsNonNegative(g: Grid, n: int)
    requires IsGrid(g) && n <= P
  {
    forall i :: 1 <= i < n ==> g[i][0] >= 0.0
  }

  /** Augmentation never writes column 0, so the check after it sees the original right-hand sides. */
  lemma AugmentationKeepsRhs(g: Grid, p: int, q: int, n: int)
    requires IsGrid(g) && 1 <= p <= P && 1 <= q && q + p - 1 <= Q && n <= P
    ensures RhsNonNegative(SlackAugmented(g, p, q), n) <==> RhsNonNegative(g, n)
  {
    var h := SlackAugmented(g, p, q);
    assert forall i :: 1 <= i < n ==> h[i][0] == g[i][0];
  }

  // ---------------------------------------------------------------------------
  // Basis detection

  /**
   * Column `col` is, over the constraint rows 1..p-1, a unit vector with its 1 at row k,
   * every comparison taken with the tolerance. Row 0 plays no part.
   */
  predicate IsUnitAt(g: Grid, p: int, col: int, k: int)
    requires IsGrid(g) && p <= P && 0 <= col < Q
  {
    1 <= k < p && IsEqual(g[k][col], 1.0) &&
    forall i :: 1 <= i < p && i != k ==> IsEqual(g[i][col], 0.0)
  }

  /** A column is a unit vector at one row at most. */
  lemma UnitRowUnique(g: Grid, p: int, col: int, k1: int, k2: int)
    requires IsGrid(g) && p <= P && 0 <= col < Q
    requires IsUnitAt(g, p, col, k1) && IsUnitAt(g, p, col, k2)
    ensures k1 == k2
  {
    if k1 != k2 {
      ZeroAndOneExclusive(g[k2][col]);
    }
  }

  /** The row in which column `col` is basic, or -1 when the column is not a unit vector. */
  ghost function BasisRow(g: Grid, p: int, col: int): (r: int)
    requires IsGrid(g) && p <= P && 0 <= col < Q
    ensures r == -1 || IsUnitAt(g, p, col, r)
    ensures (r == -1) <==> forall k :: !IsUnitAt(g, p, col, k)
  {
    if exists k :: IsUnitAt(g, p, col, k) then
      var k :| IsUnitAt(g, p, col, k); k
    else
      -1
  }

  /** Any row at which the column is a unit vector is the one BasisRow names. */
  lemma BasisRowIs(g: Grid, p: int, col: int, k: int)
    requires IsGrid(g) && p <= P && 0 <= col < Q
    requires IsUnitAt(g, p, col, k)
    ensures BasisRow(g, p, col) == k
  {
    UnitRowUnique(g, p, col, BasisRow(g, p, col), k);
  }

  /** Two constraint rows tolerance-equal to 1 leave the column without a basis row. */
  lemma TwoOnesNoBasis(g: Grid, p: int, col: int, a: int, b: int)
    requires IsGrid(g) && p <= P && 0 <= col < Q
    requires 1 <= a < p && 1 <= b < p && a != b
    requires IsEqual(g[a][col], 1.0) && IsEqual(g[b][col], 1.0)
    ensures BasisRow(g, p, col) == -1
  {
    ZeroAndOneExclusive(g[a][col]);
    ZeroAndOneExclusive(g[b][col]);
  }

  /** A constraint row that is tolerance-equal to neither 0 nor 1 leaves the column without a basis row. */
  lemma StrayEntryNoBasis(g: Grid, p: int, col: int, i: int)
    requires IsGrid(g) && p <= P && 0 <= col < Q
    requires 1 <= i < p && !IsEqual(g[i][col], 1.0) && !IsEqual(g[i][col], 0.0)
    ensures BasisRow(g, p, col) == -1
  {
  }

  /** A column tolerance-equal to 0 in every constraint row has no basis row. */
  lemma ZeroColumnNoBasis(g: Grid, p: int, col: int)
    requires IsGrid(g) && p <= P && 0 <= col < Q
    requires forall i :: 1 <= i < p ==> IsEqual(g[i][col], 0.0)
    ensures BasisRow(g, p, col) == -1
  {
  }

  /** After augmentation the slack column of constraint row i is basic in row i. */
  lemma SlackColumnsAreBasic(g: Grid, p: int, q: int, i: int)
    requires IsGrid(g) && 1 <= p <= P && 1 <= q && q + p - 1 <= Q
    requires 1 <= i < p
    ensures BasisRow(SlackAugmented(g, p, q), p, q - 1 + i) == i
  {
    var h := SlackAugmented(g, p, q);
    var col := q - 1 + i;
    forall k | 1 <= k < p && k != i
      ensures IsEqual(h[k][col], 0.0)
    {
      assert h[k][col] == 0.0;
    }
    assert h[i][col] == 1.0;
    BasisRowIs(h, p, col, i);
  }

  /**
   * The values read off a tableau for x_1 .. x_{q-1} (entry j-1 for x_j): the right-hand
   * side of the variable's basis row, or 0 for a non-basic variable.
   */
  ghost function Assignment(g: Grid, p: int, q: int): (x: seq<real>)
    requires IsGrid(g) && p <= P && 1 <= q <= Q
    ensures |x| == q - 1
    ensures forall k :: 0 <= k < q - 1 && BasisRow(g, p, k + 1) == -1 ==> x[k] == 0.0
  {
    seq(q - 1, k requires 0 <= k < q - 1 =>
      var r := BasisRow(g, p, k + 1); if r == -1 then 0.0 else g[r][0])
  }

  /** The starting basic solution gives each slack variable its row's right-hand side. */
  lemma InitialSlackValues(g: Grid, p: int, q: int, i: int)
    requires IsGrid(g) && 1 <= p <= P && 1 <= q && q + p - 1 <= Q
    requires 1 <= i < p
    ensures Assignment(SlackAugmented(g, p, q), p, q + p - 1)[q - 2 + i] == g[i][0]
  {
    var h := SlackAugmented(g, p, q);
    SlackColumnsAreBasic(g, p, q, i);
    assert h[i][0] == g[i][0];
  }

  // ---------------------------------------------------------------------------
  // Pivot

  /**
   * One cell of the grid after `pivot(row, col)`: inside the p x q tableau the pivot row is
   * divided by the pivot entry, and every other row i loses old[i][col] times the new pivot
   * row; cells outside the tableau keep their value.
   */
  function PivotCell(g: Grid, p: int, q: int, row: int, col: int, i: int, j: int): real
    requires IsGrid(g) && 0 <= row < P && 0 <= col < Q && g[row][col] != 0.0
    requires 0 <= i < P && 0 <= j < Q
  {
    if i >= p || j >= q then g[i][j]
    else if i == row then g[row][j] / g[row][col]
    else g[i][j] - g[i][col] * (g[row][j] / g[row][col])
  }

  /** A cell of a non-pivot row is the old cell less old[i][col] times the new pivot-row cell. */
  lemma PivotCellEliminates(g: Grid, p: int, q: int, row: int, col: int, i: int, j: int)
    requires IsGrid(g) && 0 <= row < P && 0 <= col < Q && g[row][col] != 0.0
    requires row < p && 0 <= i < p && i < P && i != row && 0 <= j < q && j < Q
    ensures PivotCell(g, p, q, row, col, i, j) == g[i][j] - g[i][col] * PivotCell(g, p, q, row, col, row, j)
  {
  }

  /** The grid after `pivot(row, col)`, cell by cell. */
  function Pivoted(g: Grid, p: int, q: int, row: int, col: int): (h: Grid)
    requires IsGrid(g) && 1 <= p <= P && 1 <= q <= Q
    requires 0 <= row < p && 0 <= col < q && g[row][col] != 0.0
    ensures IsGrid(h)
  {
    seq(P, i requires 0 <= i < P =>
      seq(Q, j requires 0 <= j < Q => PivotCell(g, p, q, row, col, i, j)))
  }

  /** After the pivot, column `col` is exactly the unit vector with its 1 at `row` (all rows 0..p-1). */
  lemma PivotColumnIsUnit(g: Grid, p: int, q: int, row: int, col: int)
    requires IsGrid(g) && 1 <= p <= P && 1 <= q <= Q
    requires 0 <= row < p && 0 <= col < q && g[row][col] != 0.0
    ensures Pivoted(g, p, q, row, col)[row][col] == 1.0
    ensures forall i :: 0 <= i < p && i != row ==> Pivoted(g, p, q, row, col)[i][col] == 0.0
  {
    var h := Pivoted(g, p, q, row, col);
    var one := g[row][col] / g[row][col];
    assert one == 1.0;
    forall i | 0 <= i < p && i != row
      ensures h[i][col] == 0.0
    {
      calc {
        h[i][col];
        g[i][col] - g[i][col] * one;
        0.0;
      }
    }
  }

  /**
   * The pivot is a pair of row operations that can be undone: the old pivot row is the new
   * one times the old pivot entry, and every other old row is its new row plus old[i][col]
   * times the new pivot row.
   */
  lemma PivotIsInvertible(g: Grid, p: int, q: int, row: int, col: int, i: int, j: int)
    requires IsGrid(g) && 1 <= p <= P && 1 <= q <= Q
    requires 0 <= row < p && 0 <= col < q && g[row][col] != 0.0
    requires 0 <= i < p && 0 <= j < q
    ensures var h := Pivoted(g, p, q, row, col);
      if i == row then g[row][j] == h[row][j] * g[row][col]
      else g[i][j] == h[i][j] + g[i][col] * h[row][j]
  {
    var h := Pivoted(g, p, q, row, col);
    assert h[row][j] == g[row][j] / g[row][col];
    if i == row {
      assert h[row][j] * g[row][col] == g[row][j];
    } else {
      assert h[i][j] == g[i][j] - g[i][col] * h[row][j];
    }
  }

  /** Cells outside the p x q tableau are not touched by the pivot. */
  lemma PivotLeavesOutsideUnchanged(g: Grid, p: int, q: int, row: int, col: int, i: int, j: int)
    requires IsGrid(g) && 1 <= p <= P && 1 <= q <= Q
    requires 0 <= row < p && 0 <= col < q && g[row][col] != 0.0
    requires 0 <= i < P && 0 <= j < Q && (i >= p || j >= q)
    ensures Pivoted(g, p, q, row, col)[i][j] == g[i][j]
  {
  }

  /** Pivoting a second time on the same cell changes nothing. */
  lemma PivotIdempotent(g: Grid, p: int, q: int, row: int, col: int)
    requires IsGrid(g) && 1 <= p <= P && 1 <= q <= Q
    requires 0 <= row < p && 0 <= col < q && g[row][col] != 0.0
    ensures Pivoted(g, p, q, row, col)[row][col] != 0.0
    ensures Pivoted(Pivoted(g, p, q, row, col), p, q, row, col) == Pivoted(g, p, q, row, col)
  {
    var h := Pivoted(g, p, q, row, col);
    PivotColumnIsUnit(g, p, q, row, col);
    var h2 := Pivoted(h, p, q, row, col);
    forall i, j | 0 <= i < P && 0 <= j < Q
      ensures h2[i][j] == h[i][j]
    {
      if i < p && j < q {
        if i == row {
          assert h2[i][j] == h[row][j] / 1.0;
        } else {
          assert h[i][col] == 0.0;
          assert h2[i][j] == h[i][j] - 0.0 * (h[row][j] / 1.0);
        }
      }
    }
    GridEquality(h2, h);
  }

  /**
   * Over the constraint rows, the pivot keeps an exact unit column of another basic variable
   * (one whose 1 is not in the pivot row) unchanged.
   */
  lemma PivotKeepsOtherBasis(g: Grid, p: int, q: int, row: int, col: int, k: int, s: int)
    requires IsGrid(g) && 1 <= p <= P && 1 <= q <= Q
    requires 1 <= row < p && 0 <= col < q && g[row][col] != 0.0
    requires 0 <= k < Q && k != col && 1 <= s < p && s != row
    requires g[s][k] == 1.0 && forall i :: 1 <= i < p && i != s ==> g[i][k] == 0.0
    ensures var h := Pivoted(g, p, q, row, col);
      h[s][k] == 1.0 && forall i :: 1 <= i < p && i != s ==> h[i][k] == 0.0
  {
    var h := Pivoted(g, p, q, row, col);
    assert g[row][k] == 0.0;
    assert h[s][k] == 1.0 by {
      if k < q {
        assert h[s][k] == g[s][k] - g[s][col] * (0.0 / g[row][col]);
      }
    }
    forall i | 1 <= i < p && i != s
      ensures h[i][k] == 0.0
    {
      if k < q && i != row {
        assert h[i][k] == g[i][k] - g[i][col] * (0.0 / g[row][col]);
      }
    }
  }

  /** The entering variable becomes basic in the pivot row. */
  lemma PivotMakesEnteringBasic(g: Grid, p: int, q: int, row: int, col: int)
    requires IsGrid(g) && 1 <= p <= P && 1 <= q <= Q
    requires 1 <= row < p && 0 <= col < q && g[row][col] != 0.0
    ensures BasisRow(Pivoted(g, p, q, row, col), p, col) == row
  {
    var h := Pivoted(g, p, q, row, col);
    PivotColumnIsUnit(g, p, q, row, col);
    IsEqualReflexive(1.0);
    IsEqualReflexive(0.0);
    BasisRowIs(h, p, col, row);
  }

  /** After the pivot the entering variable takes the value of its row's ratio rhs / entry. */
  lemma EnteringVariableValue(g: Grid, p: int, q: int, row: int, col: int)
    requires IsGrid(g) && 1 <= p <= P && 1 <= q <= Q
    requires 1 <= row < p && 1 <= col < q && g[row][col] != 0.0
    ensures Assignment(Pivoted(g, p, q, row, col), p, q)[col - 1] == g[row][0] / g[row][col]
  {
    PivotMakesEnteringBasic(g, p, q, row, col);
  }
}
