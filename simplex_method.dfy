/** The solver itself: the tableau lives in a mutable two-dimensional array,
    the selection rules are scans with running minima, the pivot updates the
    array in place, and the solve loop repeats select-and-pivot until the
    stopping test holds. Each array operation is proved against the value
    model in module Tableau through `Models(t, m)`. */
module SimplexMethod {
  import opened Tableau
  import opened Pivoting
  import opened Canonical
  import opened SimplexRun

  /** What a solve call reports. `DidNotConverge` is the outcome of the
      iteration cap that stands in for the source's unbounded loop. */
  datatype Outcome =
    | Optimal(value: real, solution: seq<real>)
    | Unbounded
    | DidNotConverge

  /** How the run behind an outcome ended. */
  function StopOf(outcome: Outcome): Stop {
    match outcome
    case Optimal(_, _) => AtOptimum
    case Unbounded => AtUnbounded
    case DidNotConverge => AtCap
  }

  /** The array t holds the tableau m. */
  ghost predicate Models(t: array2<real>, m: Matrix)
    reads t
  {
    t.Length0 == |m| &&
    (forall i :: 0 <= i < |m| ==> |m[i]| == t.Length1) &&
    forall i, j :: 0 <= i < t.Length0 && 0 <= j < t.Length1 ==> t[i, j] == m[i][j]
  }

  /** The matrix an array currently holds. */
  ghost function Snapshot(a: array2<real>): (m: Matrix)
    reads a
    ensures Models(a, m)
  {
    seq(a.Length0, i requires 0 <= i < a.Length0 reads a =>
      seq(a.Length1, j requires 0 <= j < a.Length1 reads a => a[i, j]))
  }

  /** The starting tableau: the constraint rows as given, then the first
      `table.Length1` objective coefficients as the objective row. */
  ghost function InitialTableau(table: array2<real>, objective: array<real>): (m: Matrix)
    reads table, objective
    requires 1 <= table.Length1 <= objective.Length
    ensures WellFormed(m) && Rows(m) == table.Length0 && Width(m) == table.Length1
  {
    Snapshot(table) + [objective[..table.Length1]]
  }

  /** Allocates the (rows+1) x cols tableau and copies the constraints and the objective into it. */
  method BuildTableau(table: array2<real>, objective: array<real>) returns (t: array2<real>)
    requires 1 <= table.Length1 <= objective.Length
    ensures fresh(t)
    ensures Models(t, InitialTableau(table, objective))
  {
    var rows, cols := table.Length0, table.Length1;
    t := new real[rows + 1, cols];
    for i := 0 to rows
      invariant forall k, l :: 0 <= k < i && 0 <= l < cols ==> t[k, l] == table[k, l]
    {
      for j := 0 to cols
        invariant forall k, l :: 0 <= k < i && 0 <= l < cols ==> t[k, l] == table[k, l]
        invariant forall l :: 0 <= l < j ==> t[i, l] == table[i, l]
      {
        t[i, j] := table[i, j];
      }
    }
    for j := 0 to cols
      invariant forall k, l :: 0 <= k < rows && 0 <= l < cols ==> t[k, l] == table[k, l]
      invariant forall l :: 0 <= l < j ==> t[rows, l] == objective[l]
    {
      t[rows, j] := objective[j];
    }
  }

  /** Scans the objective row over the variable columns for the most negative entry. */
  method ChooseEnteringColumn(t: array2<real>, ghost m: Matrix) returns (mainCol: int)
    requires WellFormed(m) && Models(t, m)
    ensures IsEnteringColumn(m, mainCol)
  {
    var rows, cols := t.Length0 - 1, t.Length1;
    mainCol := -1;
    var minVal := 0.0;
    for i := 0 to cols - 1
      invariant mainCol == -1 ==> minVal == 0.0 && forall j :: 0 <= j < i ==> m[rows][j] >= 0.0
      invariant mainCol != -1 ==>
        0 <= mainCol < i && minVal == m[rows][mainCol] < 0.0 &&
        (forall j :: 0 <= j < i ==> minVal <= m[rows][j]) &&
        (forall j :: 0 <= j < mainCol ==> minVal < m[rows][j])
    {
      if t[rows, i] < minVal {
        minVal := t[rows, i];
        mainCol := i;
      }
    }
  }

  /** The minimum-ratio test over the constraint rows with a positive entry in
      the entering column. The source seeds the running minimum with the
      largest double; here "no row yet" is mainRow == -1. */
  method ChooseLeavingRow(t: array2<real>, ghost m: Matrix, mainCol: nat) returns (mainRow: int)
    requires WellFormed(m) && Models(t, m) && mainCol < Width(m)
    ensures IsLeavingRow(m, mainCol, mainRow)
  {
    var rows, cols := t.Length0 - 1, t.Length1;
    mainRow := -1;
    var minRatio := 0.0;
    for i := 0 to rows
      invariant mainRow == -1 ==> forall k :: 0 <= k < i ==> m[k][mainCol] <= 0.0
      invariant mainRow != -1 ==>
        0 <= mainRow < i && m[mainRow][mainCol] > 0.0 && minRatio == Ratio(m, mainRow, mainCol) &&
        (forall k :: 0 <= k < i && m[k][mainCol] > 0.0 ==> minRatio <= Ratio(m, k, mainCol)) &&
        (forall k :: 0 <= k < mainRow && m[k][mainCol] > 0.0 ==> minRatio < Ratio(m, k, mainCol))
    {
      if t[i, mainCol] > 0.0 {
        var ratio := t[i, cols - 1] / t[i, mainCol];
        if mainRow == -1 || ratio < minRatio {
          minRatio := ratio;
          mainRow := i;
        }
      }
    }
  }

  /** Gauss-Jordan pivot in place: divide the pivot row by the pivot element,
      then clear the pivot column from every other row whose entry there is
      non-zero, the objective row included. */
  method Pivot(t: array2<real>, ghost m: Matrix, mainRow: nat, mainCol: nat)
    requires Models(t, m) && PivotAllowed(m, mainRow, mainCol)
    modifies t
    ensures Models(t, Pivoted(m, mainRow, mainCol))
  {
    var height, cols := t.Length0, t.Length1;
    var pivot := t[mainRow, mainCol];
    for j := 0 to cols
      invariant forall i, k :: 0 <= i < height && 0 <= k < cols ==>
        t[i, k] == if i == mainRow && k < j then PivotEntry(m, mainRow, mainCol, i, k) else m[i][k]
    {
      t[mainRow, j] := t[mainRow, j] / pivot;
    }
    for i := 0 to height
      invariant forall i', k :: 0 <= i' < height && 0 <= k < cols ==>
        t[i', k] == if i' < i || i' == mainRow then PivotEntry(m, mainRow, mainCol, i', k) else m[i'][k]
    {
      if i != mainRow && t[i, mainCol] != 0.0 {
        var coeff := t[i, mainCol];
        for j := 0 to cols
          invariant forall i', k :: 0 <= i' < height && 0 <= k < cols ==>
            t[i', k] ==
              if i' < i || i' == mainRow || (i' == i && k < j) then PivotEntry(m, mainRow, mainCol, i', k)
              else m[i'][k]
        {
          t[i, j] := t[i, j] - t[mainRow, j] * coeff;
        }
      }
    }
  }

  /** For each of the first variablesCount columns: the right-hand side of the
      row holding the column's single 1 when every other constraint entry is 0,
      otherwise 0. */
  method ExtractSolution(t: array2<real>, ghost m: Matrix, variablesCount: nat) returns (solution: seq<real>)
    requires WellFormed(m) && Models(t, m) && variablesCount <= Width(m)
    ensures |solution| == variablesCount
    ensures forall j :: 0 <= j < variablesCount ==> IsExtractedValue(m, j, solution[j])
  {
    var rows, cols := t.Length0 - 1, t.Length1;
    var values := new real[variablesCount];
    for j := 0 to variablesCount
      invariant forall l :: 0 <= l < j ==> IsExtractedValue(m, l, values[l])
    {
      var isBasic := true;
      var basicRow := -1;
      for i := 0 to rows
        invariant isBasic && -1 <= basicRow < i
        invariant basicRow == -1 ==> forall k :: 0 <= k < i ==> m[k][j] == 0.0
        invariant basicRow != -1 ==>
          m[basicRow][j] == 1.0 && forall k :: 0 <= k < i && k != basicRow ==> m[k][j] == 0.0
      {
        if t[i, j] == 1.0 {
          if basicRow == -1 {
            basicRow := i;
          } else {
            assert forall q :: 0 <= q < rows ==> !IsUnitColumnAt(m, j, q);
            isBasic := false;
            break;
          }
        } else if t[i, j] != 0.0 {
          assert forall q :: 0 <= q < rows ==> !IsUnitColumnAt(m, j, q);
          isBasic := false;
          break;
        }
      }
      if isBasic && basicRow != -1 {
        assert IsUnitColumnAt(m, j, basicRow);
        values[j] := t[basicRow, cols - 1];
      } else {
        values[j] := 0.0;
      }
    }
    solution := values[..];
  }

  /** The solve loop: choose the entering column and stop if there is none,
      choose the leaving row and stop if there is none, stop if the pivot
      budget is spent, otherwise pivot and go round again. The array ends
      holding the tableau the run of the same rules from m ends with. */
  method Iterate(t: array2<real>, ghost m: Matrix, maxIterations: nat) returns (stop: Stop, ghost final: Matrix)
    requires WellFormed(m) && Models(t, m)
    modifies t
    ensures RunFrom(m, maxIterations) == Run(stop, final)
    ensures Models(t, final)
  {
    final := m;
    var pivots := 0;
    while true
      invariant 0 <= pivots <= maxIterations
      invariant WellFormed(final) && Models(t, final)
      invariant RunFrom(final, maxIterations - pivots) == RunFrom(m, maxIterations)
      decreases maxIterations - pivots
    {
      var mainCol := ChooseEnteringColumn(t, final);
      EnteringColumnIsUnique(final, mainCol, EnteringColumnOf(final));
      if mainCol == -1 {
        return AtOptimum, final;
      }
      var mainRow := ChooseLeavingRow(t, final, mainCol);
      LeavingRowIsUnique(final, mainCol, mainRow, LeavingRowOf(final, mainCol));
      if mainRow == -1 {
        return AtUnbounded, final;
      }
      if pivots == maxIterations {
        return AtCap, final;
      }
      Pivot(t, final, mainRow, mainCol);
      final := Pivoted(final, mainRow, mainCol);
      pivots := pivots + 1;
    }
  }

  /** The end of a solve that reached the stopping test: the solution read
      off the tableau and the objective right-hand side, negated when
      minimising. */
  method ReportOptimum(t: array2<real>, ghost m: Matrix, findMax: bool, variablesCount: nat)
    returns (outcome: Outcome)
    requires WellFormed(m) && Models(t, m) && variablesCount <= Width(m)
    ensures outcome.Optimal?
    ensures |outcome.solution| == variablesCount
    ensures forall j :: 0 <= j < variablesCount ==> IsExtractedValue(m, j, outcome.solution[j])
    ensures outcome.value == if findMax then ObjectiveRhs(m) else -ObjectiveRhs(m)
  {
    var solution := ExtractSolution(t, m, variablesCount);
    var objectiveValue := t[t.Length0 - 1, t.Length1 - 1];
    if !findMax {
      objectiveValue := -objectiveValue;
    }
    outcome := Optimal(objectiveValue, solution);
  }

  /** The whole solve: build the tableau, run the solve loop, and on reaching
      the stopping test read the solution off the final tableau and report the
      objective right-hand side, negated when minimising. */
  method Solve(canonicalTable: array2<real>, objectiveFunction: array<real>, findMax: bool,
               variablesCount: nat, maxIterations: nat)
    returns (outcome: Outcome, ghost initial: Matrix, ghost final: Matrix)
    requires 1 <= canonicalTable.Length1 <= objectiveFunction.Length
    requires variablesCount <= canonicalTable.Length1
    ensures initial == InitialTableau(canonicalTable, objectiveFunction)
    // the loop is the run of the selection rules and the pivot from the initial tableau
    ensures RunFrom(initial, maxIterations) == Run(StopOf(outcome), final)
    // on Optimal: the stopping test holds, and solution and value are read off the final tableau
    ensures outcome.Optimal? ==> IsOptimal(final)
    ensures outcome.Optimal? ==> |outcome.solution| == variablesCount
    ensures outcome.Optimal? ==>
      forall j :: 0 <= j < variablesCount ==> IsExtractedValue(final, j, outcome.solution[j])
    ensures outcome.Optimal? ==>
      outcome.value == if findMax then ObjectiveRhs(final) else -ObjectiveRhs(final)
    // on Optimal: the reported value bounds the objective over every non-negative
    // solution of the constraints the caller passed
    ensures outcome.Optimal? ==>
      var m := InitialTableau(canonicalTable, objectiveFunction);
      forall x :: |x| == Width(m) - 1 && NonNegative(x) && SatisfiesConstraints(m, x) ==>
        if findMax then ObjectiveAt(m, x) <= outcome.value else -ObjectiveAt(m, x) >= outcome.value
    // on Unbounded: some entering column has no positive constraint entry
    ensures outcome.Unbounded? ==>
      exists c :: 0 <= c < Width(final) - 1 && IsEnteringColumn(final, c) && IsLeavingRow(final, c, -1)
    // from a feasible tableau in canonical form: on Optimal some non-negative solution
    // of the constraints reaches the reported value, which is then the optimum
    ensures outcome.Optimal? && InCanonicalForm(InitialTableau(canonicalTable, objectiveFunction)) ==>
      Attains(InitialTableau(canonicalTable, objectiveFunction), if findMax then outcome.value else -outcome.value)
    // from a feasible tableau in canonical form: on Unbounded the objective has no
    // bound over the non-negative solutions of the constraints
    ensures outcome.Unbounded? && InCanonicalForm(InitialTableau(canonicalTable, objectiveFunction)) ==>
      forall bound :: Exceeds(InitialTableau(canonicalTable, objectiveFunction), bound)
  {
    var t := BuildTableau(canonicalTable, objectiveFunction);
    initial := InitialTableau(canonicalTable, objectiveFunction);
    var stop;
    stop, final := Iterate(t, initial, maxIterations);
    if InCanonicalForm(initial) {
      RunFromCanonicalForm(initial, maxIterations);
    }
    if stop == AtUnbounded {
      return Unbounded, initial, final;
    } else if stop == AtCap {
      return DidNotConverge, initial, final;
    }
    RunSummary(initial, maxIterations);
    outcome := ReportOptimum(t, final, findMax, variablesCount);
  }
}
