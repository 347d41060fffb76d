# Tabular simplex method

A Dafny model of `SimplexMethod.Simplex_Method`, the tabular simplex solver in
`NGK.Pract.SimplexMethod/Program.cs`. The caller passes the constraint matrix as a
table of equations (one row per equation, one column per variable, right-hand
side last), an objective row, a maximise/minimise flag and the number of leading
variables to report. The solver:

1. builds a `(rows + 1) x cols` tableau: the constraint rows, then the first
   `cols` entries of the objective row;
2. repeats until the stopping test holds:
   - **entering column**: the most negative objective-row entry over the
     variable columns, the leftmost one on ties; none means optimal;
   - **leaving row**: among the constraint rows with a positive entry in that
     column, the smallest ratio of right-hand side to entry, the first one on
     ties; none means "no solution" and the solve ends;
   - **pivot**: divide the pivot row by the pivot element, then subtract the
     right multiple of it from every other row whose entry in the column is
     non-zero, the objective row included;
3. reads each reported variable off the final tableau: the right-hand side of
   the row where its column has a single 1 and zeros elsewhere, otherwise 0;
4. reports the objective row's right-hand side, negated when minimising.

The model has six modules:

- `Tableau` (tableau.dfy): the tableau as a value (`seq<seq<real>>`), with the
  rules as predicates: `IsEnteringColumn`, `IsLeavingRow`, `Pivoted`,
  `IsExtractedValue`. It also gives a meaning to each tableau. Constraint
  row i is the equation `Dot(m[i], x) == rhs`. The objective row is the
  function the pivots maximise, `ObjectiveAt(m, x) == rhs - Dot(m[R], x)`.
- `Pivoting` (pivoting.dfy): what one pivot does. Each rule always has a
  result and it is unique. The pivot keeps the solution set of the constraints
  and the maximised function on it. The entering column becomes a unit column.
  A feasible tableau stays feasible and its objective does not decrease. When
  the stopping test holds, the objective right-hand side bounds the maximised
  function over every non-negative solution.
- `Canonical` (canonical.dfy): canonical form (`InCanonicalForm`), meaning
  non-negative right-hand sides and a basic unit column for every constraint
  row, with 0 in the objective row. Throughout this document "in canonical
  form" means exactly that, feasibility included. Pivoting on the rules'
  choice keeps that form. From a tableau in canonical form, the basic
  solution reaches the objective right-hand side. An entering column with no
  positive constraint entry gives a ray of non-negative solutions along which
  the maximised function grows without bound.
- `SimplexRun` (simplex_run.dfy): the whole loop as a ghost function
  `RunFrom(m, fuel)`, and what a complete run keeps and ends with.
- `SimplexMethod` (simplex_method.dfy): the solver itself, imperative over an
  `array2<real>`, as the source is. Each loop is proved against the value
  model through `Models(t, m)`. `Iterate` is the `while (true)` loop and is
  proved equal to `RunFrom`. `Solve` is the whole method.
- `SimplexExamples` (examples.dfy): the two problems the program's `Main`
  solves, followed pivot by pivot, and the exact outcome `Solve` reports for each.

Doubles are modelled as exact reals. The loop that never ends in the source
gets a pivot budget `maxIterations`. A run that spends it reports
`DidNotConverge`. Any run that stops within the budget is exactly the
source's run.

Problem 1 of `Main` (maximise 6x1 + 5x2) ends after two pivots with value
1725/43 ≈ 40.116 at x1 = 70/43 ≈ 1.628, x2 = 261/43 ≈ 6.070 (`SolveProblemOne`).
That point satisfies all three constraints, and no non-negative solution does
better (`ProblemOneMaximum`). Problem 2 (minimise x1 − x2 − 3x3)
ends after three pivots with value −46/3 at x = (1/3, 11/3, 4) (`SolveProblemTwo`),
and that value is the minimum (`ProblemTwoMinimum`).

## Model

| member | source | states |
|---|---|---|
| SimplexMethod.BuildTableau | NGK.Pract.SimplexMethod/Program.cs:8-27 | the fresh array holds the constraint rows followed by the first `cols` objective entries (`InitialTableau`) |
| SimplexMethod.ChooseEnteringColumn | NGK.Pract.SimplexMethod/Program.cs:33-42 | the column returned is -1 exactly when no objective entry over the variable columns is negative; otherwise it holds the minimum entry, which is negative, and no earlier column holds an equal one |
| SimplexMethod.ChooseLeavingRow | NGK.Pract.SimplexMethod/Program.cs:51-64 | the row returned is -1 exactly when no constraint row has a positive entry in the column; otherwise it has a positive entry and the smallest ratio among such rows, strictly smaller than every earlier one |
| SimplexMethod.Pivot | NGK.Pract.SimplexMethod/Program.cs:73-91 | the array afterwards holds the Gauss-Jordan pivot `Pivoted(m, r, c)` of the tableau it held |
| SimplexMethod.ExtractSolution | NGK.Pract.SimplexMethod/Program.cs:96-135 | one value per reported variable: the right-hand side of the row where its column is a unit column, or 0 when it is not a unit column |
| SimplexMethod.Iterate | NGK.Pract.SimplexMethod/Program.cs:30-92 | the loop stops as, and leaves the array holding what, the run of the rules `RunFrom` gives from the starting tableau |
| SimplexMethod.ReportOptimum | NGK.Pract.SimplexMethod/Program.cs:96-142 | the outcome is Optimal, the solution is read off the tableau, the value is the objective right-hand side negated when minimising |
| SimplexMethod.Solve | NGK.Pract.SimplexMethod/Program.cs:5-142 | the outcome and final tableau are those of `RunFrom` from the initial tableau. On Optimal the stopping test holds, the solution and value are read off, and the value bounds the objective over every non-negative solution of the constraints, from above when maximising and from below when minimising. On Unbounded some entering column has no positive entry. When the caller's tableau is feasible and in canonical form: on Optimal some non-negative solution reaches the reported value, so it is the optimum; on Unbounded ("no solution exists", lines 66-69) the objective has no bound over the non-negative solutions |
| SimplexRun.EnteringColumnOf | NGK.Pract.SimplexMethod/Program.cs:33-42 | the entering-column rule always picks something (a column or -1) |
| SimplexRun.LeavingRowOf | NGK.Pract.SimplexMethod/Program.cs:51-64 | the minimum-ratio rule always picks something (a row or -1) |
| SimplexRun.RunFrom | NGK.Pract.SimplexMethod/Program.cs:30-92 | a run keeps the tableau's shape; ending at the optimum, the stopping test holds; ending unbounded, the entering column has no positive constraint entry |
| SimplexRun.RunStopsAtOptimum | NGK.Pract.SimplexMethod/Program.cs:44-48 | a tableau passing the stopping test ends the run at once |
| SimplexRun.RunStep | NGK.Pract.SimplexMethod/Program.cs:30-92 | when both rules pick, the pivot is allowed and the run continues from the pivoted tableau |
| SimplexRun.RunStopsAtCap | NGK.Pract.SimplexMethod/Program.cs:30 | when both rules pick but no pivot is left in the budget, the run stops at the cap |
| SimplexRun.RunPreservesSolutions | NGK.Pract.SimplexMethod/Program.cs:73-91 | a whole run keeps the set of solutions of the constraints and the maximised function on that set |
| SimplexRun.RunKeepsFeasible | NGK.Pract.SimplexMethod/Program.cs:51-91 | from a feasible tableau a whole run stays feasible and the objective right-hand side does not decrease |
| SimplexRun.RunOptimumIsUpperBound | NGK.Pract.SimplexMethod/Program.cs:44-48 | a run ending at the optimum bounds the original maximised function from above over every non-negative solution |
| SimplexRun.RunSummary | NGK.Pract.SimplexMethod/Program.cs:30-92 | the four run properties above, stated for all points at once |
| SimplexRun.RunKeepsCanonicalForm | NGK.Pract.SimplexMethod/Program.cs:30-92 | from a feasible tableau in canonical form, a whole run ends in canonical form |
| SimplexRun.RunOptimumIsAttained | NGK.Pract.SimplexMethod/Program.cs:44-48 | from a feasible tableau in canonical form, a run ending at the optimum ends with an objective right-hand side that some non-negative solution of the starting constraints reaches |
| SimplexRun.RunUnboundedExceeds | NGK.Pract.SimplexMethod/Program.cs:66-70 | from a feasible tableau in canonical form, a run ending with no leaving row means every bound is exceeded by some non-negative solution of the starting constraints |
| SimplexRun.RunFromCanonicalForm | NGK.Pract.SimplexMethod/Program.cs:30-92 | the two facts above for a run from a feasible tableau in canonical form, the second for every bound at once |
| Canonical.PivotKeepsBasis | NGK.Pract.SimplexMethod/Program.cs:73-91 | a pivot on (r, c) makes c the basic column of row r and keeps every other row's basic column a unit column with 0 in the objective row |
| Canonical.BasicSolutionAttains | NGK.Pract.SimplexMethod/Program.cs:126-138 | in a feasible tableau with a basis, the basic solution is non-negative, solves the constraints, and the maximised function there equals the objective right-hand side |
| Canonical.RaySolves | NGK.Pract.SimplexMethod/Program.cs:66-70 | every point of the ray along a non-basic column solves the constraints, and the maximised function there is rhs - t * (objective entry of the column) |
| Canonical.RayIsNonNegative | NGK.Pract.SimplexMethod/Program.cs:51-70 | in a feasible tableau, when the column has no positive constraint entry, the ray stays non-negative for t >= 0 |
| Canonical.UnboundedColumnExceeds | NGK.Pract.SimplexMethod/Program.cs:66-70 | in a feasible tableau with a basis, an entering column with no positive constraint entry lets a non-negative solution exceed any bound |
| Pivoting.MostNegativeExists | NGK.Pract.SimplexMethod/Program.cs:33-42 | the scan for the most negative entry always has a result |
| Pivoting.MinRatioRowExists | NGK.Pract.SimplexMethod/Program.cs:51-64 | the minimum-ratio scan always has a result |
| Pivoting.EnteringColumnIsUnique | NGK.Pract.SimplexMethod/Program.cs:33-42 | the entering-column rule determines its column |
| Pivoting.LeavingRowIsUnique | NGK.Pract.SimplexMethod/Program.cs:51-64 | the minimum-ratio rule, first on ties, determines its row |
| Pivoting.PivotRowIsMultiple | NGK.Pract.SimplexMethod/Program.cs:74-78 | the old pivot row is the pivot element times the normalised row |
| Pivoting.OtherRowIsCombination | NGK.Pract.SimplexMethod/Program.cs:81-91 | every other row loses its entering-column entry times the normalised pivot row |
| Pivoting.PivotKeepsSolutions | NGK.Pract.SimplexMethod/Program.cs:73-91 | every solution of the old constraints solves the new ones |
| Pivoting.PivotAddsNoSolutions | NGK.Pract.SimplexMethod/Program.cs:73-91 | every solution of the new constraints solves the old ones |
| Pivoting.PivotKeepsObjective | NGK.Pract.SimplexMethod/Program.cs:81-91 | on the solutions, the pivot leaves the maximised function unchanged |
| Pivoting.PivotPreservesSolutions | NGK.Pract.SimplexMethod/Program.cs:73-91 | same solution set before and after, and the same maximised function on it |
| Pivoting.PivotMakesUnitColumn | NGK.Pract.SimplexMethod/Program.cs:73-91 | after the pivot the entering column has 1 in the pivot row and 0 in every other row, objective row included; the variable reads as rhs / pivot |
| Pivoting.PivotKeepsRowsWithZeroEntry | NGK.Pract.SimplexMethod/Program.cs:83 | rows with a zero entry in the entering column are unchanged, so skipping them loses nothing |
| Pivoting.PivotKeepsFeasible | NGK.Pract.SimplexMethod/Program.cs:51-91 | a pivot in the row the minimum-ratio rule picks keeps every right-hand side non-negative |
| Pivoting.PivotImprovesObjective | NGK.Pract.SimplexMethod/Program.cs:33-91 | a pivot chosen by both rules on a feasible tableau does not decrease the objective right-hand side, and increases it when the pivot row's right-hand side is positive |
| Pivoting.OptimalBound | NGK.Pract.SimplexMethod/Program.cs:44-48 | when no objective entry is negative, the objective right-hand side bounds the maximised function at every non-negative point |
| Pivoting.UnitColumnRowIsUnique | NGK.Pract.SimplexMethod/Program.cs:105-124 | a column is a unit column in at most one row |
| Pivoting.ExtractedValueIsUnique | NGK.Pract.SimplexMethod/Program.cs:99-135 | the value read off for a variable is determined by the tableau |
| SimplexExamples.ProblemOneRun | NGK.Pract.SimplexMethod/Program.cs:159-171 | problem 1 pivots on (2, 0) then (0, 1) and reaches the optimum whenever two pivots are allowed |
| SimplexExamples.ProblemOneCapped | NGK.Pract.SimplexMethod/Program.cs:159-171 | with a budget of one pivot, problem 1 stops at the cap after the first pivot |
| SimplexExamples.ProblemOneAnswer | NGK.Pract.SimplexMethod/Program.cs:159-171 | problem 1's final tableau passes the stopping test with value 1725/43 at x1 = 70/43, x2 = 261/43 |
| SimplexExamples.ProblemOneIsCanonical | NGK.Pract.SimplexMethod/Program.cs:159-171 | problem 1 is feasible and in canonical form, its slack columns being basic |
| SimplexExamples.ProblemOneMaximum | NGK.Pract.SimplexMethod/Program.cs:159-171 | 1725/43 is reached by a non-negative solution of problem 1 and bounds all of them: it is the maximum |
| SimplexExamples.ProblemOneOutcome | NGK.Pract.SimplexMethod/Program.cs:159-171 | any outcome consistent with the run of problem 1 is Optimal(1725/43, [70/43, 261/43]) |
| SimplexExamples.SolveProblemOne | NGK.Pract.SimplexMethod/Program.cs:159-171 | the driver's first call reports Optimal(1725/43, [70/43, 261/43]) |
| SimplexExamples.ProblemTwoRun | NGK.Pract.SimplexMethod/Program.cs:178-189 | problem 2 pivots on (0, 2), (1, 1), (2, 0) and reaches the optimum whenever three pivots are allowed |
| SimplexExamples.ProblemTwoAnswer | NGK.Pract.SimplexMethod/Program.cs:178-189 | problem 2's final tableau passes the stopping test with right-hand side 46/3 at x = (1/3, 11/3, 4) |
| SimplexExamples.ProblemTwoIsCanonical | NGK.Pract.SimplexMethod/Program.cs:178-189 | problem 2 is feasible and in canonical form, its slack columns being basic |
| SimplexExamples.ProblemTwoMinimum | NGK.Pract.SimplexMethod/Program.cs:178-189 | 46/3 is reached by the maximised function (minus x1 - x2 - 3x3) at a non-negative solution of problem 2 and bounds it at all of them: -46/3 is the minimum |
| SimplexExamples.ProblemTwoOutcome | NGK.Pract.SimplexMethod/Program.cs:178-189 | any minimising outcome consistent with the run of problem 2 is Optimal(-46/3, [1/3, 11/3, 4]) |
| SimplexExamples.SolveProblemTwo | NGK.Pract.SimplexMethod/Program.cs:178-189 | the driver's second call reports Optimal(-46/3, [1/3, 11/3, 4]) |
| SimplexExamples.TwinColumnsRun | NGK.Pract.SimplexMethod/Program.cs:30-92 | the tableau for maximising x1 - 2x2 subject to x1 + x2 + x3 = 1 pivots once, on (0, 0), and reaches the optimum |
| SimplexExamples.ExtractionReportsNonSolution | NGK.Pract.SimplexMethod/Program.cs:105-134 | from that feasible tableau in canonical form the run ends optimal with value 1, but x1 and x2 both read 1, since their columns are unit columns in the same row; no x3 >= 0 makes (1, 1, x3) a solution, and the maximised function there is -1 |

## Left out

- Console output: the "no solution" message (line 69) becomes the `Unbounded` outcome. The printing of the value and the variables (lines 143-150) is not modelled. `Solve` returns what would be printed.
- `Main` (lines 152-190) beyond its two calls: only the inputs and the results of the two calls are modelled.
- Floating point: entries are exact reals. Rounding, and exact `==`/`!=` tests on rounded values (lines 83, 107, 119), are read as exact comparisons. Overflow to infinity is not modelled.
- The `double.MaxValue` start of the ratio scan (line 52) is modelled as "no row yet". A ratio of `double.MaxValue` or more (line 58) is accepted in the model, where the source would skip it.
- Termination: `while (true)` (line 30) has no bound in the source, and cycling is possible. `Solve` takes a pivot budget and reports `DidNotConverge` when it is spent. No anti-cycling rule is modelled, because the source has none.
- Solve: that the reported value is reached, and that Unbounded means no bound exists, is proved only for a feasible input tableau in canonical form. `Solve` does not require that form, because the source does not check it.
- Solve: on Optimal the value is proved to be reached by the basic solution of the final tableau. That the reported variables are that point is not proved. The scan at lines 105-124 reads any column with a single 1 and zeros in the constraint rows as basic, and it does not look at the objective row. So a non-basic column that is a unit column is also reported at its row's right-hand side. `ExtractionReportsNonSolution` gives an input where no value of the unreported variable makes the reported ones a solution.
- Solve: a table with no column is excluded by `requires`. The source fails on it at line 138, where the stopping test holds at once.
- Solve: an objective row shorter than `cols` is excluded by `requires`. The source fails on it at line 26.
- Solve: `variablesCount > cols` is excluded by `requires` on every run. The source fails on it at line 107, but only when extraction is reached (the run is optimal) and there is at least one constraint row. A run that ends at "no solution" (line 70), or one with no constraint rows, finishes normally in the source.
- Solve: a negative `variablesCount` is excluded by the type `nat`. The source fails at line 96 on such a count, and only on the optimal path.
- Solve: the input arrays are read, never written. Their contents are not restated after the call.
