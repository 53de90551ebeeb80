/**
 * The two pivot-selection rules of the solver as functions on a grid: Dantzig's
 * most-negative reduced cost for the entering column (`find_pivot_c_index`), and the
 * ratio test exactly as written in `find_pivot_r_index`, including its update
 * condition, which does not skip negative ratios and never prefers a zero one.
 */
module PivotRules {
  import opened Tableau

  // ---------------------------------------------------------------------------
  // Entering column

  /** The columns the column rule reads: 1..q-1, but column 1 even when q < 2. */
  function ScanLimit(q: int): int
  {
    if q < 2 then 2 else q
  }

  datatype Least = Least(value: real, column: int)

  /**
   * The scan state (least value, its column) once columns 1..n-1 of row 0 have been
   * compared; it starts at column 1, and only a strictly smaller value moves it.
   */
  function LeastScan(g: Grid, n: int): (l: Least)
    requires IsGrid(g) && 1 <= n <= Q
    ensures 1 <= l.column < ScanLimit(n) && l.value == g[0][l.column]
    decreases n
  {
    if n == 1 then Least(g[0][1], 1)
    else
      var l := LeastScan(g, n - 1);
      if g[0][n - 1] < l.value then Least(g[0][n - 1], n - 1) else l
  }

  /** The scan keeps a least value of the columns read, at the lowest column holding it. */
  lemma {:induction false} LeastScanIsLeast(g: Grid, n: int)
    requires IsGrid(g) && 1 <= n <= Q
    ensures var l := LeastScan(g, n);
      (forall j :: 1 <= j < ScanLimit(n) ==> l.value <= g[0][j]) &&
      (forall j :: 1 <= j < l.column ==> l.value < g[0][j])
    decreases n
  {
    if n > 2 {
      LeastScanIsLeast(g, n - 1);
    }
  }

  /** The entering column: -1 (optimal) when the least reduced cost read is non-negative. */
  function EnteringColumn(g: Grid, q: int): (c: int)
    requires IsGrid(g) && 1 <= q <= Q
    ensures c == -1 || (1 <= c < ScanLimit(q) && g[0][c] < 0.0)
  {
    var l := LeastScan(g, q);
    if l.value >= 0.0 then -1 else l.column
  }

  /**
   * The column rule: -1 exactly when every reduced cost read is non-negative; otherwise the
   * lowest column holding the minimum, which is negative.
   */
  lemma EnteringColumnIsLeast(g: Grid, q: int)
    requires IsGrid(g) && 1 <= q <= Q
    ensures var c := EnteringColumn(g, q);
      && (c == -1 <==> forall j :: 1 <= j < ScanLimit(q) ==> g[0][j] >= 0.0)
      && (c != -1 ==> forall j :: 1 <= j < ScanLimit(q) ==> g[0][c] <= g[0][j])
      && (c != -1 ==> forall j :: 1 <= j < c ==> g[0][c] < g[0][j])
  {
    LeastScanIsLeast(g, q);
  }

  // ---------------------------------------------------------------------------
  // Leaving row

  /**
   * The value of a double division `x / y` of two finite entries: the quotient when the
   * divisor is non-zero; otherwise an infinity with the sign of x, or NaN for 0 / 0.
   */
  datatype Quotient = Finite(value: real) | PlusInfinity | MinusInfinity | NotANumber

  function Divide(x: real, y: real): (t: Quotient)
    ensures t.Finite? <==> y != 0.0
    ensures t.Finite? ==> t.value * y == x
    ensures t == PlusInfinity <==> y == 0.0 && x > 0.0
    ensures t == MinusInfinity <==> y == 0.0 && x < 0.0
    ensures t == NotANumber <==> y == 0.0 && x == 0.0
  {
    if y != 0.0 then Finite(x / y)
    else if x > 0.0 then PlusInfinity
    else if x < 0.0 then MinusInfinity
    else NotANumber
  }

  /** The `<` of doubles on quotients: NaN is below nothing and nothing is below NaN. */
  predicate Below(a: Quotient, b: Quotient)
  {
    !a.NotANumber? && !b.NotANumber? && a != b &&
    (a.MinusInfinity? || b.PlusInfinity? || (a.Finite? && b.Finite? && a.value < b.value))
  }

  /** Below is a strict order, total on the non-NaN quotients. */
  lemma BelowIsStrictOrder(a: Quotient, b: Quotient, c: Quotient)
    ensures !Below(a, a)
    ensures Below(a, b) && Below(b, c) ==> Below(a, c)
    ensures !a.NotANumber? && !b.NotANumber? ==> a == b || Below(a, b) || Below(b, a)
  {
  }

  /** Greater than zero: a positive quotient or plus infinity. */
  predicate Positive(t: Quotient)
  {
    Below(Finite(0.0), t)
  }

  /** Less than zero: a negative quotient or minus infinity. */
  predicate Negative(t: Quotient)
  {
    Below(t, Finite(0.0))
  }

  /** The ratio theta of row i in column c: its right-hand side over its entry. */
  function Ratio(g: Grid, i: int, c: int): Quotient
    requires IsGrid(g) && 0 <= i < P && 0 <= c < Q
  {
    Divide(g[i][0], g[i][c])
  }

  /** The ratios of rows 1..p-1 in column c; entry k belongs to row k + 1. */
  function Thetas(g: Grid, p: int, c: int): (ts: seq<Quotient>)
    requires IsGrid(g) && 1 <= p <= P && 0 <= c < Q
    ensures |ts| == p - 1
  {
    seq(p - 1, k requires 0 <= k < p - 1 => Ratio(g, k + 1, c))
  }

  datatype Candidate = Candidate(minTheta: Quotient, row: int)

  /** One step of the ratio scan: row i with ratio theta replaces the candidate, or not. */
  function Replace(c: Candidate, theta: Quotient, i: int): Candidate
  {
    if (Positive(theta) && Below(theta, c.minTheta)) || Negative(c.minTheta) then Candidate(theta, i) else c
  }

  /** The candidate after scanning the ratios ts, starting from (min_theta, pivot_r) = (-1, 0). */
  function ScanCandidate(ts: seq<Quotient>): (c: Candidate)
    ensures |ts| == 0 ==> c == Candidate(Finite(-1.0), 0)
    ensures |ts| > 0 ==> 1 <= c.row <= |ts|
  {
    if |ts| == 0 then Candidate(Finite(-1.0), 0)
    else Replace(ScanCandidate(ts[..|ts| - 1]), ts[|ts| - 1], |ts|)
  }

  /** Once a row has been read, the candidate's ratio is the ratio of the candidate's row. */
  lemma {:induction false} CandidateHoldsItsRatio(ts: seq<Quotient>)
    requires |ts| > 0
    ensures ScanCandidate(ts).minTheta == ts[ScanCandidate(ts).row - 1]
  {
    var n := |ts|;
    if n > 1 {
      var init := ts[..n - 1];
      CandidateHoldsItsRatio(init);
      assert init[ScanCandidate(init).row - 1] == ts[ScanCandidate(init).row - 1];
    }
  }

  /** The leaving row: -1 when the retained minimum is exactly -1, otherwise the candidate row. */
  function LeavingRow(ts: seq<Quotient>): (r: int)
    ensures r == -1 || 1 <= r <= |ts|
    ensures |ts| == 0 ==> r == -1
  {
    var c := ScanCandidate(ts);
    if c.minTheta == Finite(-1.0) then -1 else c.row
  }

  /**
   * The ratio test reports "unbounded" (-1) exactly when no row was read or the ratio of the
   * retained row is exactly -1; otherwise it reports that row.
   */
  lemma LeavingRowUnbounded(ts: seq<Quotient>)
    ensures LeavingRow(ts) == -1 <==> |ts| == 0 || ts[ScanCandidate(ts).row - 1] == Finite(-1.0)
    ensures LeavingRow(ts) != -1 ==> LeavingRow(ts) == ScanCandidate(ts).row
  {
    if |ts| > 0 {
      CandidateHoldsItsRatio(ts);
    }
  }

  /** The first constraint row is always taken as the first candidate, whatever its ratio. */
  lemma FirstRowTaken(ts: seq<Quotient>)
    requires |ts| >= 1
    ensures ScanCandidate(ts[..1]) == Candidate(ts[0], 1)
  {
    assert ts[..1][..0] == [];
  }

  /** Once the candidate's ratio is negative, the next row replaces it unconditionally. */
  lemma NegativeCandidateReplaced(ts: seq<Quotient>, t: Quotient)
    requires Negative(ScanCandidate(ts).minTheta)
    ensures ScanCandidate(ts + [t]) == Candidate(t, |ts| + 1)
  {
    assert (ts + [t])[..|ts|] == ts;
  }

  /**
   * When every ratio is negative, each row replaces the one before, so the scan ends at the
   * last row; the test then reports "unbounded" only when that last ratio is exactly -1.
   */
  lemma {:induction false} NegativeRatiosTakeLastRow(ts: seq<Quotient>)
    requires |ts| >= 1
    requires forall k :: 0 <= k < |ts| ==> Negative(ts[k])
    ensures ScanCandidate(ts) == Candidate(ts[|ts| - 1], |ts|)
    ensures LeavingRow(ts) == -1 <==> ts[|ts| - 1] == Finite(-1.0)
  {
    var n := |ts|;
    if n > 1 {
      var init := ts[..n - 1];
      NegativeRatiosTakeLastRow(init);
      assert init[n - 2] == ts[n - 2];
    }
  }

  /**
   * When every ratio is positive (plus infinity, from a zero entry under a positive
   * right-hand side, included), the scan keeps the lowest-index row with the least ratio.
   */
  lemma {:induction false} PositiveScanIsLowestMin(ts: seq<Quotient>)
    requires |ts| >= 1
    requires forall k :: 0 <= k < |ts| ==> Positive(ts[k])
    ensures var c := ScanCandidate(ts);
      (forall k :: 0 <= k < |ts| ==> !Below(ts[k], c.minTheta)) &&
      (forall k :: 0 <= k < c.row - 1 ==> Below(c.minTheta, ts[k]))
  {
    var n := |ts|;
    var init := ts[..n - 1];
    if n > 1 {
      PositiveScanIsLowestMin(init);
      CandidateHoldsItsRatio(init);
      var c0 := ScanCandidate(init);
      var t := ts[n - 1];
      assert Positive(c0.minTheta);
      assert forall k :: 0 <= k < n - 1 ==> init[k] == ts[k];
      forall k | 0 <= k < n
        ensures !Below(ts[k], ScanCandidate(ts).minTheta)
      {
        BelowIsStrictOrder(ts[k], t, c0.minTheta);
      }
      forall k | 0 <= k < ScanCandidate(ts).row - 1
        ensures Below(ScanCandidate(ts).minTheta, ts[k])
      {
        BelowIsStrictOrder(t, c0.minTheta, ts[k]);
        BelowIsStrictOrder(ts[k], c0.minTheta, t);
      }
    }
  }

  /** Hence the leaving row, for all-positive ratios, is the lowest row of least ratio. */
  lemma PositiveRatiosChooseLowestMin(ts: seq<Quotient>)
    requires |ts| >= 1
    requires forall k :: 0 <= k < |ts| ==> Positive(ts[k])
    ensures var r := LeavingRow(ts);
      1 <= r <= |ts| &&
      (forall k :: 0 <= k < |ts| ==> !Below(ts[k], ts[r - 1])) &&
      (forall k :: 0 <= k < r - 1 ==> Below(ts[r - 1], ts[k]))
  {
    PositiveScanIsLowestMin(ts);
    CandidateHoldsItsRatio(ts);
    LeavingRowUnbounded(ts);
  }

  /**
   * The same on the grid: with every ratio positive, the ratio test picks the lowest row of
   * least ratio, and a row with a zero entry (plus infinity) is only picked when every row of
   * the column has a zero entry.
   */
  lemma PositiveRatiosInGrid(g: Grid, p: int, c: int)
    requires IsGrid(g) && 2 <= p <= P && 0 <= c < Q
    requires forall i :: 1 <= i < p ==> Positive(Ratio(g, i, c))
    ensures var r := LeavingRow(Thetas(g, p, c));
      1 <= r < p &&
      (forall i :: 1 <= i < p ==> !Below(Ratio(g, i, c), Ratio(g, r, c))) &&
      (forall i :: 1 <= i < r ==> Below(Ratio(g, r, c), Ratio(g, i, c))) &&
      ((exists i :: 1 <= i < p && g[i][c] != 0.0) ==> g[r][c] != 0.0)
  {
    var ts := Thetas(g, p, c);
    assert forall k :: 0 <= k < p - 1 ==> ts[k] == Ratio(g, k + 1, c);
    PositiveRatiosChooseLowestMin(ts);
    var r := LeavingRow(ts);
    forall i | 1 <= i < p
      ensures !Below(Ratio(g, i, c), Ratio(g, r, c))
    {
      assert ts[i - 1] == Ratio(g, i, c);
    }
    forall i | 1 <= i < r
      ensures Below(Ratio(g, r, c), Ratio(g, i, c))
    {
      assert ts[i - 1] == Ratio(g, i, c);
    }
    if i :| 1 <= i < p && g[i][c] != 0.0 {
      assert Ratio(g, i, c).Finite? && !Below(Ratio(g, i, c), Ratio(g, r, c));
    }
  }

  /**
   * With no negative ratio, a zero ratio after the first row (a degenerate row) is never
   * chosen: the candidate is only replaced by a strictly positive ratio.
   */
  lemma {:induction false} ZeroRatioNeverPreferred(ts: seq<Quotient>, k: int)
    requires forall j :: 0 <= j < |ts| ==> !Negative(ts[j])
    requires 1 <= k < |ts| && ts[k] == Finite(0.0)
    ensures ScanCandidate(ts).row != k + 1
  {
    var n := |ts|;
    var init := ts[..n - 1];
    assert forall j :: 0 <= j < n - 1 ==> init[j] == ts[j];
    if n - 1 > k {
      ZeroRatioNeverPreferred(init, k);
    } else if n > 1 {
      CandidateHoldsItsRatio(init);
      assert !Negative(ScanCandidate(init).minTheta);
    }
  }

  /**
   * A NaN candidate (0 / 0, a zero entry under a zero right-hand side) is never replaced:
   * NaN is neither negative nor above any ratio.
   */
  lemma NotANumberSticks(ts: seq<Quotient>, t: Quotient)
    requires ScanCandidate(ts).minTheta == NotANumber
    ensures ScanCandidate(ts + [t]) == ScanCandidate(ts)
  {
    assert (ts + [t])[..|ts|] == ts;
  }
}
