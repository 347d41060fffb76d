/** The simplex tableau as a mathematical value.

    A tableau has `Rows(m)` constraint rows followed by one objective row, and
    `Width(m)` columns: one per variable and a trailing right-hand-side column.
    Constraint row i stands for the equation
      m[i][0]*x[0] + ... + m[i][W-2]*x[W-2] == m[i][W-1]
    and the objective row stands for the function the pivoting maximises,
      ObjectiveAt(m, x) == m[R][W-1] - (m[R][0]*x[0] + ... + m[R][W-2]*x[W-2]).
    Doubles of the source are modelled as exact reals. */
module Tableau {

  type Matrix = seq<seq<real>>

  /** At least the objective row, at least the right-hand-side column, all rows equally wide. */
  predicate WellFormed(m: Matrix) {
    |m| >= 1 && |m[0]| >= 1 && forall i :: 0 <= i < |m| ==> |m[i]| == |m[0]|
  }

  /** Number of constraint rows; the objective row is m[Rows(m)]. */
  function Rows(m: Matrix): nat
    requires WellFormed(m)
  {
    |m| - 1
  }

  /** Number of columns, the right-hand side included. */
  function Width(m: Matrix): nat
    requires WellFormed(m)
  {
    |m[0]|
  }

  /** Right-hand side of the objective row: the current value of the maximised function. */
  function ObjectiveRhs(m: Matrix): real
    requires WellFormed(m)
  {
    m[Rows(m)][Width(m) - 1]
  }

  // ---------------------------------------------------------------------------
  // Linear forms

  /** a[0]*x[0] + ... + a[n-1]*x[n-1] */
  function Dot(a: seq<real>, x: seq<real>, n: nat): real
    requires n <= |a| && n <= |x|
  {
    if n == 0 then 0.0 else Dot(a, x, n - 1) + a[n - 1] * x[n - 1]
  }

  /** x satisfies the equation a row of the tableau stands for. */
  predicate SatisfiesRow(row: seq<real>, x: seq<real>)
    requires |row| == |x| + 1
  {
    Dot(row, x, |x|) == row[|x|]
  }

  /** x satisfies every constraint row. */
  predicate SatisfiesConstraints(m: Matrix, x: seq<real>)
    requires WellFormed(m) && |x| == Width(m) - 1
  {
    forall i :: 0 <= i < Rows(m) ==> SatisfiesRow(m[i], x)
  }

  predicate NonNegative(x: seq<real>) {
    forall j :: 0 <= j < |x| ==> x[j] >= 0.0
  }

  /** Value at x of the function the objective row makes the pivoting maximise. */
  function ObjectiveAt(m: Matrix, x: seq<real>): real
    requires WellFormed(m) && |x| == Width(m) - 1
  {
    ObjectiveRhs(m) - Dot(m[Rows(m)], x, |x|)
  }

  /** Every constraint right-hand side is non-negative: the basic solution is feasible. */
  predicate Feasible(m: Matrix)
    requires WellFormed(m)
  {
    forall i :: 0 <= i < Rows(m) ==> m[i][Width(m) - 1] >= 0.0
  }

  /** No objective-row entry over the variable columns is negative: the stopping test. */
  predicate IsOptimal(m: Matrix)
    requires WellFormed(m)
  {
    forall j :: 0 <= j < Width(m) - 1 ==> m[Rows(m)][j] >= 0.0
  }

  // ---------------------------------------------------------------------------
  // Pivot selection

  /** Among s[0..n): c == -1 when no entry is negative, otherwise c holds the
      most negative entry, the leftmost one on ties. */
  predicate IsMostNegativeIn(s: seq<real>, n: nat, c: int)
    requires n <= |s|
  {
    if c == -1 then
      forall j :: 0 <= j < n ==> s[j] >= 0.0
    else
      0 <= c < n && s[c] < 0.0 &&
      (forall j :: 0 <= j < n ==> s[c] <= s[j]) &&
      (forall j :: 0 <= j < c ==> s[c] < s[j])
  }

  /** The entering-column rule, over the objective row's variable columns. */
  predicate IsEnteringColumn(m: Matrix, c: int)
    requires WellFormed(m)
  {
    IsMostNegativeIn(m[Rows(m)], Width(m) - 1, c)
  }

  /** Right-hand side of row i over its entry in column c. */
  function Ratio(m: Matrix, i: nat, c: nat): real
    requires WellFormed(m) && i < |m| && c < Width(m) && m[i][c] > 0.0
  {
    m[i][Width(m) - 1] / m[i][c]
  }

  /** Among rows 0..n-1: r == -1 when none has a positive entry in column c,
      otherwise r is the row with a positive entry whose ratio is smallest,
      the first one on ties. */
  predicate IsMinRatioAmong(m: Matrix, c: nat, n: nat, r: int)
    requires WellFormed(m) && c < Width(m) && n <= Rows(m)
  {
    if r == -1 then
      forall i :: 0 <= i < n ==> m[i][c] <= 0.0
    else
      0 <= r < n && m[r][c] > 0.0 &&
      (forall i :: 0 <= i < n && m[i][c] > 0.0 ==> Ratio(m, r, c) <= Ratio(m, i, c)) &&
      (forall i :: 0 <= i < r && m[i][c] > 0.0 ==> Ratio(m, r, c) < Ratio(m, i, c))
  }

  /** The minimum-ratio rule, over all constraint rows. */
  predicate IsLeavingRow(m: Matrix, c: nat, r: int)
    requires WellFormed(m) && c < Width(m)
  {
    IsMinRatioAmong(m, c, Rows(m), r)
  }

  // ---------------------------------------------------------------------------
  // The pivot

  predicate PivotAllowed(m: Matrix, r: nat, c: nat) {
    WellFormed(m) && r < |m| && c < Width(m) && m[r][c] != 0.0
  }

  /** Entry (i, j) after a Gauss-Jordan pivot on (r, c): the pivot row is divided
      by the pivot element, then every other row loses its column-c entry times
      the normalised pivot row. */
  function PivotEntry(m: Matrix, r: nat, c: nat, i: nat, j: nat): real
    requires PivotAllowed(m, r, c) && i < |m| && j < Width(m)
  {
    if i == r then m[r][j] / m[r][c] else m[i][j] - m[r][j] / m[r][c] * m[i][c]
  }

  function Pivoted(m: Matrix, r: nat, c: nat): (p: Matrix)
    requires PivotAllowed(m, r, c)
    ensures WellFormed(p) && |p| == |m| && Width(p) == Width(m)
  {
    seq(|m|, i requires 0 <= i < |m| =>
      seq(Width(m), j requires 0 <= j < Width(m) => PivotEntry(m, r, c, i, j)))
  }

  // ---------------------------------------------------------------------------
  // Reading the solution

  /** Column j has, over the constraint rows, a 1 in row i and 0 everywhere else. */
  predicate IsUnitColumnAt(m: Matrix, j: nat, i: int)
    requires WellFormed(m) && j < Width(m)
  {
    0 <= i < Rows(m) && m[i][j] == 1.0 &&
    forall k :: 0 <= k < Rows(m) && k != i ==> m[k][j] == 0.0
  }

  /** v is what the solution reports for variable j: the right-hand side of the
      row where column j is a unit column, or 0 if it is not one. */
  predicate IsExtractedValue(m: Matrix, j: nat, v: real)
    requires WellFormed(m) && j < Width(m)
  {
    (forall i :: 0 <= i < Rows(m) && IsUnitColumnAt(m, j, i) ==> v == m[i][Width(m) - 1]) &&
    ((forall i :: 0 <= i < Rows(m) ==> !IsUnitColumnAt(m, j, i)) ==> v == 0.0)
  }
}
