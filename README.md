# Simplex method on a fixed-size tableau

This project models `SimplexMethod.c`, a small textbook simplex solver for problems of
the form "maximise c·x subject to A·x <= b". The problem is held in one `lpp` record. It
has `p` rows: row 0 is the objective row and rows 1..p-1 the constraints. It has `q`
columns: column 0 is the right-hand side and columns 1..q-1 the variables. They are
stored in a fixed 30 x 30 `double` matrix. `solve_by_simplex` does four things in order:
- it appends one slack column per constraint (`add_slack_vars`);
- it asserts that the right-hand sides are non-negative (`is_b_positive`);
- it repeats the following until one step stops: choose the entering column with the most
  negative reduced cost (`find_pivot_c_index`), choose the leaving row by a ratio test
  (`find_pivot_r_index`), and apply the Gauss-Jordan step (`pivot`);
- it stops after at most 31 pivots.

`find_basis_vars` reads the current basic solution off the tableau, with the tolerance
comparison `is_equal`.

The model has five modules.
- `Tolerance`: `is_equal`.
- `Tableau`: the grid as a value `seq<seq<real>>` (30 x 30). Includes slack augmentation
  and the pivot as functions, basis detection as a characterisation, and the basic solution.
- `PivotRules`: the column rule and the ratio test, as folds that follow the loops of the
  source step by step.
- `Solver`: one loop iteration (`Next`), the loop (`Iterate`), and the whole solve
  (`Solve`), each as a function.
- `SimplexMethod`: the `lpp` record as class `Lpp`, with fields `p`, `q` and
  `matrix: array2<real>`. Its methods update the matrix in place like the C functions.
  Each method is proved against the function that specifies it, through the ghost view
  `Snapshot()`.

Behaviours of the code that the model keeps as written:
- `is_b_positive` checks rows 1..q-1, and it runs after augmentation, so q is already
  q+p-1. It therefore also reads rows below the constraints.
- The ratio test starts from `min_theta = -1`, so the first constraint row is always taken.
  A negative candidate is replaced unconditionally, so a negative ratio can be chosen. A
  zero ratio only replaces a negative candidate, never a positive one. "Unbounded" is
  reported only when the retained ratio is exactly -1.
- The source checks the iteration counter against 30 after the pivot, so a solve applies up
  to 31 pivots.
- `find_pivot_c_index` reads `matrix[0][1]` even when q < 2.
- The ratio test divides by every entry of the pivot column, zeros included. It does not keep
  to the rows with a positive entry. A zero entry gives plus infinity under a positive
  right-hand side, which a finite positive ratio always beats. It gives minus infinity
  under a negative one, and NaN under 0, which no later row replaces. The solve stops only
  if the row finally chosen has a zero entry, at the assertion in `pivot`.

## Model

| member | source | states |
|---|---|---|
| Tolerance.IsEqual | SimplexMethod.c:16-20 | `is_equal`: the two entries differ by strictly less than the fixed tolerance 1e-6 |
| Tolerance.IsEqualMeansClose | SimplexMethod.c:16-20 | two entries are tolerance-equal exactly when their difference lies strictly between -1e-6 and 1e-6 |
| Tolerance.IsEqualReflexive | SimplexMethod.c:17-20 | every entry is tolerance-equal to itself |
| Tolerance.IsEqualSymmetric | SimplexMethod.c:17-20 | tolerance equality does not depend on argument order |
| Tolerance.ZeroAndOneExclusive | SimplexMethod.c:82-89 | no entry passes both the "is 1" and the "is 0" test of basis detection |
| Tableau.SlackAugmented | SimplexMethod.c:63-72 | the grid after `add_slack_vars`: cell (i, j+q-1) is 1 if i == j and 0 otherwise for i, j in 1..p-1; every other cell is kept |
| Tableau.SlackBlockIsIdentity | SimplexMethod.c:63-72 | after augmentation the new columns q..q+p-2, over the constraint rows, are the identity matrix |
| Tableau.SlackLeavesRestUnchanged | SimplexMethod.c:63-72 | augmentation writes no cell of row 0, of the rows from p on, or outside the slack block |
| Tableau.RhsNonNegative | SimplexMethod.c:114-117 | the condition the assertion of `is_b_positive` checks: rows 1..n-1 of column 0 are non-negative |
| Tableau.AugmentationKeepsRhs | SimplexMethod.c:114-117 | the right-hand-side check gives the same answer before and after augmentation, because column 0 is never written |
| Tableau.IsUnitAt | SimplexMethod.c:80-94 | what `find_basis_vars` looks for: column col is tolerance-1 at constraint row k and tolerance-0 at every other constraint row |
| Tableau.UnitRowUnique | SimplexMethod.c:77-95 | a column is a tolerance unit vector at one constraint row at most |
| Tableau.BasisRow | SimplexMethod.c:77-95 | the basis row is -1 exactly when the column is a unit vector at no row; otherwise the column is a unit vector at that row |
| Tableau.BasisRowIs | SimplexMethod.c:77-95 | any row at which the column is a unit vector is the basis row |
| Tableau.TwoOnesNoBasis | SimplexMethod.c:82-87 | two constraint entries tolerance-equal to 1 give no basis row |
| Tableau.StrayEntryNoBasis | SimplexMethod.c:89-92 | a constraint entry that is neither tolerance-1 nor tolerance-0 gives no basis row |
| Tableau.ZeroColumnNoBasis | SimplexMethod.c:79-94 | a column of tolerance zeros has no basis row |
| Tableau.SlackColumnsAreBasic | SimplexMethod.c:63-95 | after augmentation, the slack column of constraint row i is basic in row i |
| Tableau.Assignment | SimplexMethod.c:98-112 | the reported solution has one value per variable x_1..x_{q-1}, and a non-basic variable reports 0 |
| Tableau.InitialSlackValues | SimplexMethod.c:98-112 | after augmentation each slack variable reports its row's right-hand side |
| Tableau.PivotCell | SimplexMethod.c:126-144 | one cell after `pivot`: inside the p x q tableau the pivot row is divided by the pivot entry, and every other row loses its old col entry times the new pivot row; outside it the cell is kept |
| Tableau.Pivoted | SimplexMethod.c:122-145 | the whole grid after `pivot`, cell by cell as PivotCell |
| Tableau.PivotCellEliminates | SimplexMethod.c:139-143 | each non-pivot cell becomes its old value less old[i][col] times the new pivot-row cell |
| Tableau.PivotColumnIsUnit | SimplexMethod.c:126-144 | after the pivot the pivot entry is exactly 1 (the assertion of the source) and column col is 0 in every other row 0..p-1 |
| Tableau.PivotIsInvertible | SimplexMethod.c:122-145 | the old tableau is recovered from the new one: the pivot row times the old pivot entry, and each other row plus old[i][col] times the new pivot row |
| Tableau.PivotLeavesOutsideUnchanged | SimplexMethod.c:127-142 | the pivot writes no cell outside the p x q tableau |
| Tableau.PivotIdempotent | SimplexMethod.c:122-145 | pivoting twice on the same cell is the same as pivoting once |
| Tableau.PivotKeepsOtherBasis | SimplexMethod.c:133-144 | a unit column basic in a row other than the pivot row stays the same unit column |
| Tableau.PivotMakesEnteringBasic | SimplexMethod.c:122-145 | after the pivot the entering column is basic in the pivot row |
| Tableau.EnteringVariableValue | SimplexMethod.c:98-145 | after the pivot the entering variable reports the pivot row's ratio rhs / entry |
| PivotRules.LeastScan | SimplexMethod.c:151-160 | the scan state always names a column read (1..q-1, or 1 when q < 2) whose entry it holds |
| PivotRules.LeastScanIsLeast | SimplexMethod.c:151-160 | the scan keeps a least entry among the columns read, at the lowest column holding it |
| PivotRules.EnteringColumn | SimplexMethod.c:149-170 | the column rule returns -1 or a column read whose reduced cost is negative |
| PivotRules.EnteringColumnIsLeast | SimplexMethod.c:149-170 | -1 exactly when no reduced cost read is negative; otherwise the lowest column holding the minimum |
| PivotRules.Divide | SimplexMethod.c:182 | the double division rhs / entry: finite exactly when the divisor is non-zero, and then the quotient; plus or minus infinity for a non-zero rhs over 0; NaN for 0 / 0 |
| PivotRules.Below | SimplexMethod.c:184 | the `<` of doubles on these values; NaN compares false both ways |
| PivotRules.BelowIsStrictOrder | SimplexMethod.c:184 | that `<` is irreflexive and transitive, and total on values other than NaN |
| PivotRules.Ratio | SimplexMethod.c:182 | theta of row i: its rhs divided by its entry in the pivot column |
| PivotRules.Thetas | SimplexMethod.c:180-182 | the thetas of rows 1..p-1 in scan order, one per constraint row |
| PivotRules.Replace | SimplexMethod.c:184-188 | one step of the scan: the row replaces the candidate iff its theta is positive and below min_theta, or min_theta is negative |
| PivotRules.ScanCandidate | SimplexMethod.c:177-189 | before any row the candidate is (-1, 0); afterwards it names a row that was read |
| PivotRules.CandidateHoldsItsRatio | SimplexMethod.c:180-189 | the retained `min_theta` is the ratio of the retained row |
| PivotRules.LeavingRow | SimplexMethod.c:175-197 | the ratio test returns -1 or a constraint row, and -1 when there is no constraint row |
| PivotRules.LeavingRowUnbounded | SimplexMethod.c:191-196 | "unbounded" exactly when no row was read or the retained row's ratio is exactly -1; otherwise the retained row |
| PivotRules.FirstRowTaken | SimplexMethod.c:177-188 | the first constraint row is always taken, whatever its ratio |
| PivotRules.NegativeCandidateReplaced | SimplexMethod.c:184-188 | a negative candidate is replaced by the next row unconditionally |
| PivotRules.PositiveScanIsLowestMin | SimplexMethod.c:180-189 | with all ratios positive (plus infinity included), the scan keeps a least ratio at its lowest row |
| PivotRules.PositiveRatiosChooseLowestMin | SimplexMethod.c:175-197 | with all ratios positive, the ratio test returns the lowest row of minimal ratio |
| PivotRules.PositiveRatiosInGrid | SimplexMethod.c:175-197 | the same, stated on the grid's rows; a row with a zero entry (ratio plus infinity) is chosen only when every entry of the column is zero |
| PivotRules.ZeroRatioNeverPreferred | SimplexMethod.c:184 | with no negative ratio, a zero ratio after the first row is never chosen |
| PivotRules.NegativeRatiosTakeLastRow | SimplexMethod.c:180-193 | when every ratio is negative, the scan ends at the last row, and the test reports "unbounded" iff that last ratio is exactly -1 |
| PivotRules.NotANumberSticks | SimplexMethod.c:184-188 | once min_theta is NaN (a 0 / 0 ratio), no later row replaces the candidate |
| Solver.Next | SimplexMethod.c:209-225 | one pass of the loop body: stop Optimal when the column rule gives -1, stop Unbounded when the ratio test gives -1, stop ZeroPivot when the chosen entry is 0 (the assertion in `pivot` fails), otherwise pivot |
| Solver.NextPivots | SimplexMethod.c:209-225 | when both rules succeed and the chosen entry is non-zero, the pivot cell lies inside the constraint part and the iteration pivots on it |
| Solver.NextStops | SimplexMethod.c:209-225 | an iteration stops Optimal iff no reduced cost read is negative, Unbounded iff the ratio test yields -1, and ZeroPivot iff it yields a row whose entry is 0; no other status |
| Solver.PositiveColumnPivots | SimplexMethod.c:180-225 | a zero entry in the entering column does not stop the solve: with every ratio positive and one non-zero entry, the iteration pivots |
| Solver.NextLeavesOutsideUnchanged | SimplexMethod.c:225 | an iteration writes only inside the p x q tableau |
| Solver.Iterate | SimplexMethod.c:206-233 | the loop from iteration `loop`: stop with the first status Next reports, or pass the pivoted grid to Continue |
| Solver.Continue | SimplexMethod.c:225-232 | after the pivot of iteration `loop`: end with IterationLimit when the counter exceeds 30, otherwise go on with the next iteration |
| Solver.IteratePivotBound | SimplexMethod.c:206-233 | the loop applies at most 31 pivots, and exactly 31 when the iteration cap is the outcome |
| Solver.IterateOutcome | SimplexMethod.c:206-233 | the loop never reports InfeasibleStart; unless it hit the cap, one more iteration on its final grid stops with the reported status |
| Solver.IterateLeavesOutsideUnchanged | SimplexMethod.c:206-233 | the loop writes only inside the p x q tableau |
| Solver.Solve | SimplexMethod.c:199-234 | the whole solve: augment, stop with InfeasibleStart when the check of rows 1..q+p-2 fails, otherwise run the loop from iteration 1 |
| Solver.SolveStartCheck | SimplexMethod.c:199-203 | a solve fails its start check iff a row 1..q+p-2 has a negative rhs; it then returns the augmented grid and no pivot; otherwise every constraint rhs was non-negative |
| Solver.SolveOutcome | SimplexMethod.c:199-234 | each final status is justified by the final grid: Optimal has no negative reduced cost read, Unbounded a ratio test yielding -1, ZeroPivot a chosen row with a zero entry |
| Solver.SolvePivotBound | SimplexMethod.c:199-234 | a solve applies at most 31 pivots, and exactly 31 when the cap is the outcome |
| SimplexMethod.Lpp.constructor | SimplexMethod.c:9-14 | the record holds the given p, q and matrix |
| SimplexMethod.Lpp.AddSlackVars | SimplexMethod.c:63-73 | the matrix becomes the augmented grid of the old one, and q grows by p-1 |
| SimplexMethod.Lpp.IsBPositive | SimplexMethod.c:114-118 | the check passes iff rows 1..q-1 have a non-negative rhs |
| SimplexMethod.Lpp.FindBasisVars | SimplexMethod.c:77-95 | the result is the column's basis row, or -1, and lies in 1..p-1 when not -1 |
| SimplexMethod.Lpp.Pivot | SimplexMethod.c:122-145 | it fails iff the pivot entry is 0 (the assertion at line 131), leaving the matrix unchanged; otherwise the matrix becomes the pivoted grid of the old one |
| SimplexMethod.Lpp.DivideRow | SimplexMethod.c:127-130 | the pivot row's cells 0..q-1 are divided by the pivot entry and nothing else changes |
| SimplexMethod.Lpp.SubtractRow | SimplexMethod.c:139-143 | row i's cells 0..q-1 lose k times the pivot row and nothing else changes |
| SimplexMethod.Lpp.FindPivotCIndex | SimplexMethod.c:149-170 | the result is the column rule on the current matrix |
| SimplexMethod.Lpp.FindPivotRIndex | SimplexMethod.c:175-197 | the result is the ratio test on the column's ratios, zero entries included: -1 or a constraint row, and -1 when p < 2 |
| SimplexMethod.Lpp.Step | SimplexMethod.c:207-225 | one loop body is Next on the matrix: it halts with Next's status and an unchanged matrix, or it pivots the matrix into Next's grid |
| SimplexMethod.Lpp.Loop | SimplexMethod.c:201-233 | status, final matrix and pivot count are those of Iterate from counter 1 |
| SimplexMethod.Lpp.SolveBySimplex | SimplexMethod.c:199-234 | status, final matrix and pivot count are those of Solve on the initial matrix, and q grows by p-1 |

## Left out

- Printing (`line_print`, `print_problem_step`, `print_optimal_vec` and its `static` call counter, the messages inside the rules and the loop) is output only and is not modelled. `print_optimal_vec`'s values are modelled as `Tableau.Assignment`.
- The example problem and the `main` that solves it are data and a caller, not part of the model.
- Entries are reals, not IEEE doubles: there is no rounding or overflow. `is_equal` keeps its absolute tolerance of 1e-6. Only the ratio test's division yields an infinity or NaN (`PivotRules.Divide`), because only there does a zero divisor arise without aborting.
- PivotRules.Divide: an entry that is exactly zero counts as +0.0. A -0.0 divisor, which a double tableau can hold, would flip the sign of the infinity; signed zeros are not modelled.
- SimplexMethod.Lpp.IsBPositive: returns whether the check passes instead of aborting through `assert`. SolveBySimplex then stops with status InfeasibleStart and the augmented matrix.
- SimplexMethod.Lpp.Pivot: requires row < p and col < q, the only cells the solver pivots on (`Solver.NextPivots`). A zero pivot entry makes it fail and leaves the matrix as it was. The C code first fills the row with infinities and NaN, then aborts at the assertion of line 131; that partly written matrix is not modelled, and the solve stops with status ZeroPivot. For a non-zero entry the assertion is proved to hold exactly.
- SimplexMethod.Lpp.AddSlackVars: requires that the widened tableau fits the 30 columns (q + p - 1 <= 30). The source writes past the row otherwise, which is undefined behaviour in C.
- Solver.IterateOutcome: does not claim optimality of the final tableau for the linear program itself, because the ratio test as written can choose a negative ratio and leave the feasible region. The grid-level reason for each status is what is proved.
