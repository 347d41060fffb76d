/** The two problems the program's driver solves, followed pivot by pivot.
    Every intermediate tableau is written out as exact rationals. */
module SimplexExamples {
  import opened Tableau
  import opened Pivoting
  import opened Canonical
  import opened SimplexRun
  import opened SimplexMethod

  // ---------------------------------------------------------------------------
  // Problem 1: maximise 6x1 + 5x2 subject to
  //   4x1 + 7x2 + x3 == 49,  8x1 + 3x2 + x4 == 51,  9x1 + 5x2 + x5 == 45.

  const ProblemOne: Matrix := [
    [4.0, 7.0, 1.0, 0.0, 0.0, 49.0],
    [8.0, 3.0, 0.0, 1.0, 0.0, 51.0],
    [9.0, 5.0, 0.0, 0.0, 1.0, 45.0],
    [-6.0, -5.0, 0.0, 0.0, 0.0, 0.0]
  ]

  /** After the pivot on row 2, column 0. */
  const ProblemOneMiddle: Matrix := [
    [0.0, 43.0 / 9.0, 1.0, 0.0, -4.0 / 9.0, 29.0],
    [0.0, -13.0 / 9.0, 0.0, 1.0, -8.0 / 9.0, 11.0],
    [1.0, 5.0 / 9.0, 0.0, 0.0, 1.0 / 9.0, 5.0],
    [0.0, -5.0 / 3.0, 0.0, 0.0, 2.0 / 3.0, 30.0]
  ]

  /** After the pivot on row 0, column 1. */
  const ProblemOneFinal: Matrix := [
    [0.0, 1.0, 9.0 / 43.0, 0.0, -4.0 / 43.0, 261.0 / 43.0],
    [0.0, 0.0, 13.0 / 43.0, 1.0, -44.0 / 43.0, 850.0 / 43.0],
    [1.0, 0.0, -5.0 / 43.0, 0.0, 7.0 / 43.0, 70.0 / 43.0],
    [0.0, 0.0, 15.0 / 43.0, 0.0, 22.0 / 43.0, 1725.0 / 43.0]
  ]

  lemma ProblemOneFirstPivot()
    ensures WellFormed(ProblemOne) && IsEnteringColumn(ProblemOne, 0) && IsLeavingRow(ProblemOne, 0, 2)
    ensures PivotAllowed(ProblemOne, 2, 0) && Pivoted(ProblemOne, 2, 0) == ProblemOneMiddle
  {
    var p := Pivoted(ProblemOne, 2, 0);
    assert p[0] == ProblemOneMiddle[0];
    assert p[1] == ProblemOneMiddle[1];
    assert p[2] == ProblemOneMiddle[2];
    assert p[3] == ProblemOneMiddle[3];
  }

  lemma ProblemOneSecondPivot()
    ensures WellFormed(ProblemOneMiddle) && IsEnteringColumn(ProblemOneMiddle, 1)
    ensures IsLeavingRow(ProblemOneMiddle, 1, 0)
    ensures PivotAllowed(ProblemOneMiddle, 0, 1) && Pivoted(ProblemOneMiddle, 0, 1) == ProblemOneFinal
  {
    var p := Pivoted(ProblemOneMiddle, 0, 1);
    assert p[0] == ProblemOneFinal[0];
    assert p[1] == ProblemOneFinal[1];
    assert p[2] == ProblemOneFinal[2];
    assert p[3] == ProblemOneFinal[3];
  }

  lemma ProblemOneFirstStep(fuel: nat)
    ensures WellFormed(ProblemOne) && WellFormed(ProblemOneMiddle)
    ensures RunFrom(ProblemOne, fuel + 1) == RunFrom(ProblemOneMiddle, fuel)
  {
    ProblemOneFirstPivot();
    RunStep(ProblemOne, fuel + 1, 2, 0);
  }

  lemma ProblemOneLastStep(fuel: nat)
    ensures WellFormed(ProblemOneMiddle)
    ensures RunFrom(ProblemOneMiddle, fuel + 1) == Run(AtOptimum, ProblemOneFinal)
  {
    ProblemOneSecondPivot();
    RunStep(ProblemOneMiddle, fuel + 1, 0, 1);
    ProblemOneAnswer();
    RunStopsAtOptimum(ProblemOneFinal, fuel);
  }

  /** With room for two pivots or more the run reaches the optimum. */
  lemma ProblemOneRun(fuel: nat)
    requires fuel >= 2
    ensures WellFormed(ProblemOne)
    ensures RunFrom(ProblemOne, fuel) == Run(AtOptimum, ProblemOneFinal)
  {
    var extra: nat := fuel - 2;
    assert fuel == extra + 2;
    ProblemOneRunWithSpare(extra);
  }

  lemma ProblemOneRunWithSpare(extra: nat)
    ensures WellFormed(ProblemOne)
    ensures RunFrom(ProblemOne, extra + 2) == Run(AtOptimum, ProblemOneFinal)
  {
    ProblemOneFirstStep(extra + 1);
    ProblemOneLastStep(extra);
  }

  /** With room for one pivot only, the run stops at the cap after the first pivot. */
  lemma ProblemOneCapped()
    ensures WellFormed(ProblemOne)
    ensures RunFrom(ProblemOne, 1) == Run(AtCap, ProblemOneMiddle)
  {
    ProblemOneFirstStep(0);
    ProblemOneSecondPivot();
    RunStopsAtCap(ProblemOneMiddle, 0, 1);
  }

  /** The final tableau of problem 1 passes the stopping test and reports the
      value 1725/43 at x1 = 70/43, x2 = 261/43. */
  lemma ProblemOneAnswer()
    ensures WellFormed(ProblemOneFinal) && IsOptimal(ProblemOneFinal)
    ensures ObjectiveRhs(ProblemOneFinal) == 1725.0 / 43.0
    ensures IsExtractedValue(ProblemOneFinal, 0, 70.0 / 43.0)
    ensures IsExtractedValue(ProblemOneFinal, 1, 261.0 / 43.0)
    ensures IsUnitColumnAt(ProblemOneFinal, 0, 2) && IsUnitColumnAt(ProblemOneFinal, 1, 0)
  {
    assert IsUnitColumnAt(ProblemOneFinal, 0, 2);
    assert IsUnitColumnAt(ProblemOneFinal, 1, 0);
  }

  /** Problem 1 is in canonical form, the slack columns 2, 3 and 4 being basic. */
  lemma ProblemOneIsCanonical()
    ensures WellFormed(ProblemOne) && InCanonicalForm(ProblemOne)
  {
    assert HasBasis(ProblemOne, [2, 3, 4]);
  }

  /** 1725/43 is the maximum of 6x1 + 5x2 over the non-negative solutions of problem 1. */
  lemma ProblemOneMaximum()
    ensures WellFormed(ProblemOne) && Attains(ProblemOne, 1725.0 / 43.0)
    ensures forall x :: |x| == 5 && NonNegative(x) && SatisfiesConstraints(ProblemOne, x) ==>
      ObjectiveAt(ProblemOne, x) <= 1725.0 / 43.0
  {
    ProblemOneIsCanonical();
    ProblemOneRun(2);
    ProblemOneAnswer();
    RunFromCanonicalForm(ProblemOne, 2);
    RunSummary(ProblemOne, 2);
  }

  // ---------------------------------------------------------------------------
  // Problem 2: minimise x1 - x2 - 3x3 subject to
  //   2x1 - x2 + x3 + x4 == 1,  -4x1 + 2x2 - x3 + x5 == 2,  3x1 + x3 + x6 == 5.
  // The tableau maximises -(x1 - x2 - 3x3); the solver negates the result.

  const ProblemTwo: Matrix := [
    [2.0, -1.0, 1.0, 1.0, 0.0, 0.0, 1.0],
    [-4.0, 2.0, -1.0, 0.0, 1.0, 0.0, 2.0],
    [3.0, 0.0, 1.0, 0.0, 0.0, 1.0, 5.0],
    [1.0, -1.0, -3.0, 0.0, 0.0, 0.0, 0.0]
  ]

  /** After the pivot on row 0, column 2. */
  const ProblemTwoSecond: Matrix := [
    [2.0, -1.0, 1.0, 1.0, 0.0, 0.0, 1.0],
    [-2.0, 1.0, 0.0, 1.0, 1.0, 0.0, 3.0],
    [1.0, 1.0, 0.0, -1.0, 0.0, 1.0, 4.0],
    [7.0, -4.0, 0.0, 3.0, 0.0, 0.0, 3.0]
  ]

  /** After the pivot on row 1, column 1. */
  const ProblemTwoThird: Matrix := [
    [0.0, 0.0, 1.0, 2.0, 1.0, 0.0, 4.0],
    [-2.0, 1.0, 0.0, 1.0, 1.0, 0.0, 3.0],
    [3.0, 0.0, 0.0, -2.0, -1.0, 1.0, 1.0],
    [-1.0, 0.0, 0.0, 7.0, 4.0, 0.0, 15.0]
  ]

  /** After the pivot on row 2, column 0. */
  const ProblemTwoFinal: Matrix := [
    [0.0, 0.0, 1.0, 2.0, 1.0, 0.0, 4.0],
    [0.0, 1.0, 0.0, -1.0 / 3.0, 1.0 / 3.0, 2.0 / 3.0, 11.0 / 3.0],
    [1.0, 0.0, 0.0, -2.0 / 3.0, -1.0 / 3.0, 1.0 / 3.0, 1.0 / 3.0],
    [0.0, 0.0, 0.0, 19.0 / 3.0, 11.0 / 3.0, 1.0 / 3.0, 46.0 / 3.0]
  ]

  lemma ProblemTwoFirstPivot()
    ensures WellFormed(ProblemTwo) && IsEnteringColumn(ProblemTwo, 2) && IsLeavingRow(ProblemTwo, 2, 0)
    ensures PivotAllowed(ProblemTwo, 0, 2) && Pivoted(ProblemTwo, 0, 2) == ProblemTwoSecond
  {
    var p := Pivoted(ProblemTwo, 0, 2);
    assert p[0] == ProblemTwoSecond[0];
    assert p[1] == ProblemTwoSecond[1];
    assert p[2] == ProblemTwoSecond[2];
    assert p[3] == ProblemTwoSecond[3];
  }

  lemma ProblemTwoSecondPivot()
    ensures WellFormed(ProblemTwoSecond) && IsEnteringColumn(ProblemTwoSecond, 1)
    ensures IsLeavingRow(ProblemTwoSecond, 1, 1)
    ensures PivotAllowed(ProblemTwoSecond, 1, 1) && Pivoted(ProblemTwoSecond, 1, 1) == ProblemTwoThird
  {
    var p := Pivoted(ProblemTwoSecond, 1, 1);
    assert p[0] == ProblemTwoThird[0];
    assert p[1] == ProblemTwoThird[1];
    assert p[2] == ProblemTwoThird[2];
    assert p[3] == ProblemTwoThird[3];
  }

  lemma ProblemTwoThirdPivot()
    ensures WellFormed(ProblemTwoThird) && IsEnteringColumn(ProblemTwoThird, 0)
    ensures IsLeavingRow(ProblemTwoThird, 0, 2)
    ensures PivotAllowed(ProblemTwoThird, 2, 0) && Pivoted(ProblemTwoThird, 2, 0) == ProblemTwoFinal
  {
    var p := Pivoted(ProblemTwoThird, 2, 0);
    assert p[0] == ProblemTwoFinal[0];
    assert p[1] == ProblemTwoFinal[1];
    assert p[2] == ProblemTwoFinal[2];
    assert p[3] == ProblemTwoFinal[3];
  }

  lemma ProblemTwoFirstStep(fuel: nat)
    ensures WellFormed(ProblemTwo) && WellFormed(ProblemTwoSecond)
    ensures RunFrom(ProblemTwo, fuel + 1) == RunFrom(ProblemTwoSecond, fuel)
  {
    ProblemTwoFirstPivot();
    RunStep(ProblemTwo, fuel + 1, 0, 2);
  }

  lemma ProblemTwoSecondStep(fuel: nat)
    ensures WellFormed(ProblemTwoSecond) && WellFormed(ProblemTwoThird)
    ensures RunFrom(ProblemTwoSecond, fuel + 1) == RunFrom(ProblemTwoThird, fuel)
  {
    ProblemTwoSecondPivot();
    RunStep(ProblemTwoSecond, fuel + 1, 1, 1);
  }

  lemma ProblemTwoLastStep(fuel: nat)
    ensures WellFormed(ProblemTwoThird)
    ensures RunFrom(ProblemTwoThird, fuel + 1) == Run(AtOptimum, ProblemTwoFinal)
  {
    ProblemTwoThirdPivot();
    RunStep(ProblemTwoThird, fuel + 1, 2, 0);
    ProblemTwoAnswer();
    RunStopsAtOptimum(ProblemTwoFinal, fuel);
  }

  /** With room for three pivots or more the run reaches the optimum. */
  lemma ProblemTwoRun(fuel: nat)
    requires fuel >= 3
    ensures WellFormed(ProblemTwo)
    ensures RunFrom(ProblemTwo, fuel) == Run(AtOptimum, ProblemTwoFinal)
  {
    var extra: nat := fuel - 3;
    assert fuel == extra + 3;
    ProblemTwoRunWithSpare(extra);
  }

  lemma ProblemTwoRunWithSpare(extra: nat)
    ensures WellFormed(ProblemTwo)
    ensures RunFrom(ProblemTwo, extra + 3) == Run(AtOptimum, ProblemTwoFinal)
  {
    ProblemTwoFirstStep(extra + 2);
    ProblemTwoSecondStep(extra + 1);
    ProblemTwoLastStep(extra);
  }

  /** The final tableau of problem 2 passes the stopping test; the negated
      objective is 46/3 at x1 = 1/3, x2 = 11/3, x3 = 4, so the minimum is -46/3. */
  lemma ProblemTwoAnswer()
    ensures WellFormed(ProblemTwoFinal) && IsOptimal(ProblemTwoFinal)
    ensures ObjectiveRhs(ProblemTwoFinal) == 46.0 / 3.0
    ensures IsExtractedValue(ProblemTwoFinal, 0, 1.0 / 3.0)
    ensures IsExtractedValue(ProblemTwoFinal, 1, 11.0 / 3.0)
    ensures IsExtractedValue(ProblemTwoFinal, 2, 4.0)
    ensures IsUnitColumnAt(ProblemTwoFinal, 0, 2) && IsUnitColumnAt(ProblemTwoFinal, 1, 1)
    ensures IsUnitColumnAt(ProblemTwoFinal, 2, 0)
  {
    assert IsUnitColumnAt(ProblemTwoFinal, 0, 2);
    assert IsUnitColumnAt(ProblemTwoFinal, 1, 1);
    assert IsUnitColumnAt(ProblemTwoFinal, 2, 0);
  }
  /** Problem 2 is in canonical form, the slack columns 3, 4 and 5 being basic. */
  lemma ProblemTwoIsCanonical()
    ensures WellFormed(ProblemTwo) && InCanonicalForm(ProblemTwo)
  {
    assert HasBasis(ProblemTwo, [3, 4, 5]);
  }

  /** -46/3 is the minimum of x1 - x2 - 3x3 over the non-negative solutions of
      problem 2: the maximised function, its negation, has maximum 46/3. */
  lemma ProblemTwoMinimum()
    ensures WellFormed(ProblemTwo) && Attains(ProblemTwo, 46.0 / 3.0)
    ensures forall x :: |x| == 6 && NonNegative(x) && SatisfiesConstraints(ProblemTwo, x) ==>
      ObjectiveAt(ProblemTwo, x) <= 46.0 / 3.0
  {
    ProblemTwoIsCanonical();
    ProblemTwoRun(3);
    ProblemTwoAnswer();
    RunFromCanonicalForm(ProblemTwo, 3);
    RunSummary(ProblemTwo, 3);
  }


  // ---------------------------------------------------------------------------
  // The driver's calls

  /** Arrays holding problem 1 make the initial tableau ProblemOne. */
  lemma ProblemOneArrays(table: array2<real>, objective: array<real>)
    requires table.Length0 == 3 && table.Length1 == 6 && objective.Length == 6
    requires forall i, j :: 0 <= i < 3 && 0 <= j < 6 ==> table[i, j] == ProblemOne[i][j]
    requires forall j :: 0 <= j < 6 ==> objective[j] == ProblemOne[3][j]
    ensures InitialTableau(table, objective) == ProblemOne
  {
    var m := InitialTableau(table, objective);
    assert m[0] == ProblemOne[0];
    assert m[1] == ProblemOne[1];
    assert m[2] == ProblemOne[2];
    assert m[3] == ProblemOne[3];
  }

  /** What a solve of problem 1 reports, given that it follows the run of the rules. */
  lemma ProblemOneOutcome(outcome: Outcome, final: Matrix, fuel: nat)
    requires fuel >= 2
    requires WellFormed(ProblemOne) && RunFrom(ProblemOne, fuel) == Run(StopOf(outcome), final)
    requires outcome.Optimal? ==>
      |outcome.solution| == 2 && outcome.value == ObjectiveRhs(final) &&
      IsExtractedValue(final, 0, outcome.solution[0]) && IsExtractedValue(final, 1, outcome.solution[1])
    ensures outcome == Optimal(1725.0 / 43.0, [70.0 / 43.0, 261.0 / 43.0])
  {
    ProblemOneRun(fuel);
    ProblemOneAnswer();
    var solution := outcome.solution;
    assert solution[0] == 70.0 / 43.0;
    assert solution[1] == 261.0 / 43.0;
    assert solution == [70.0 / 43.0, 261.0 / 43.0];
  }

  /** The driver's first call: problem 1, maximised, two variables reported. */
  method SolveProblemOne(maxIterations: nat) returns (outcome: Outcome)
    requires maxIterations >= 2
    ensures outcome == Optimal(1725.0 / 43.0, [70.0 / 43.0, 261.0 / 43.0])
  {
    var table := new real[3, 6]((i, j) requires 0 <= i < 3 && 0 <= j < 6 => ProblemOne[i][j]);
    var objective := new real[6](j requires 0 <= j < 6 => ProblemOne[3][j]);
    ProblemOneArrays(table, objective);
    ghost var initial, final;
    outcome, initial, final := Solve(table, objective, true, 2, maxIterations);
    ProblemOneOutcome(outcome, final, maxIterations);
  }

  /** Arrays holding problem 2 make the initial tableau ProblemTwo. */
  lemma ProblemTwoArrays(table: array2<real>, objective: array<real>)
    requires table.Length0 == 3 && table.Length1 == 7 && objective.Length == 7
    requires forall i, j :: 0 <= i < 3 && 0 <= j < 7 ==> table[i, j] == ProblemTwo[i][j]
    requires forall j :: 0 <= j < 7 ==> objective[j] == ProblemTwo[3][j]
    ensures InitialTableau(table, objective) == ProblemTwo
  {
    var m := InitialTableau(table, objective);
    assert m[0] == ProblemTwo[0];
    assert m[1] == ProblemTwo[1];
    assert m[2] == ProblemTwo[2];
    assert m[3] == ProblemTwo[3];
  }

  /** What a minimising solve of problem 2 reports, given that it follows the run of the rules. */
  lemma ProblemTwoOutcome(outcome: Outcome, final: Matrix, fuel: nat)
    requires fuel >= 3
    requires WellFormed(ProblemTwo) && RunFrom(ProblemTwo, fuel) == Run(StopOf(outcome), final)
    requires outcome.Optimal? ==>
      |outcome.solution| == 3 && outcome.value == -ObjectiveRhs(final) &&
      IsExtractedValue(final, 0, outcome.solution[0]) && IsExtractedValue(final, 1, outcome.solution[1]) &&
      IsExtractedValue(final, 2, outcome.solution[2])
    ensures outcome == Optimal(-46.0 / 3.0, [1.0 / 3.0, 11.0 / 3.0, 4.0])
  {
    ProblemTwoRun(fuel);
    ProblemTwoAnswer();
    var solution := outcome.solution;
    assert solution[0] == 1.0 / 3.0;
    assert solution[1] == 11.0 / 3.0;
    assert solution[2] == 4.0;
    assert solution == [1.0 / 3.0, 11.0 / 3.0, 4.0];
  }

  /** The driver's second call: problem 2, minimised, three variables reported. */
  method SolveProblemTwo(maxIterations: nat) returns (outcome: Outcome)
    requires maxIterations >= 3
    ensures outcome == Optimal(-46.0 / 3.0, [1.0 / 3.0, 11.0 / 3.0, 4.0])
  {
    var table := new real[3, 7]((i, j) requires 0 <= i < 3 && 0 <= j < 7 => ProblemTwo[i][j]);
    var objective := new real[7](j requires 0 <= j < 7 => ProblemTwo[3][j]);
    ProblemTwoArrays(table, objective);
    ghost var initial, final;
    outcome, initial, final := Solve(table, objective, false, 3, maxIterations);
    ProblemTwoOutcome(outcome, final, maxIterations);
  }

  // ---------------------------------------------------------------------------
  // Reading off the solution when two columns are unit columns in one row:
  // maximise x1 - 2x2 subject to x1 + x2 + x3 == 1, with x3 basic.

  const TwinColumns: Matrix := [
    [1.0, 1.0, 1.0, 1.0],
    [-1.0, 2.0, 0.0, 0.0]
  ]

  /** After the pivot on row 0, column 0: columns 0, 1 and 2 are all unit columns in row 0. */
  const TwinColumnsFinal: Matrix := [
    [1.0, 1.0, 1.0, 1.0],
    [0.0, 3.0, 1.0, 1.0]
  ]

  lemma TwinColumnsPivot()
    ensures WellFormed(TwinColumns) && IsEnteringColumn(TwinColumns, 0) && IsLeavingRow(TwinColumns, 0, 0)
    ensures PivotAllowed(TwinColumns, 0, 0) && Pivoted(TwinColumns, 0, 0) == TwinColumnsFinal
  {
    var p := Pivoted(TwinColumns, 0, 0);
    assert p[0] == TwinColumnsFinal[0];
    assert p[1] == TwinColumnsFinal[1];
  }

  lemma TwinColumnsRun(fuel: nat)
    ensures WellFormed(TwinColumns) && WellFormed(TwinColumnsFinal)
    ensures RunFrom(TwinColumns, fuel + 1) == Run(AtOptimum, TwinColumnsFinal)
  {
    TwinColumnsPivot();
    RunStep(TwinColumns, fuel + 1, 0, 0);
    assert IsOptimal(TwinColumnsFinal);
    RunStopsAtOptimum(TwinColumnsFinal, fuel);
  }

  /** The extraction rule can report a point that is not a solution. From a
      feasible tableau in canonical form the run stops at the optimum with value
      1, but both x1 and x2 read 1 because their columns are unit columns in the
      same row. No x3 >= 0 makes (1, 1, x3) solve the constraint, and the
      maximised function there is -1, not the reported 1. */
  lemma ExtractionReportsNonSolution(fuel: nat)
    ensures WellFormed(TwinColumns) && InCanonicalForm(TwinColumns)
    ensures RunFrom(TwinColumns, fuel + 1) == Run(AtOptimum, TwinColumnsFinal)
    ensures ObjectiveRhs(TwinColumnsFinal) == 1.0
    ensures IsExtractedValue(TwinColumnsFinal, 0, 1.0) && IsExtractedValue(TwinColumnsFinal, 1, 1.0)
    ensures forall x3 :: x3 >= 0.0 ==> !SatisfiesConstraints(TwinColumns, [1.0, 1.0, x3])
    ensures forall x3 :: ObjectiveAt(TwinColumns, [1.0, 1.0, x3]) == -1.0
  {
    assert HasBasis(TwinColumns, [2]);
    TwinColumnsRun(fuel);
    assert IsUnitColumnAt(TwinColumnsFinal, 0, 0) && IsUnitColumnAt(TwinColumnsFinal, 1, 0);
    forall x3: real
      ensures Dot(TwinColumns[0], [1.0, 1.0, x3], 3) == 2.0 + x3
      ensures Dot(TwinColumns[1], [1.0, 1.0, x3], 3) == 1.0
    {
      var x := [1.0, 1.0, x3];
      assert Dot(TwinColumns[0], x, 0) == 0.0;
      assert Dot(TwinColumns[0], x, 1) == 1.0;
      assert Dot(TwinColumns[0], x, 2) == 2.0;
      assert Dot(TwinColumns[1], x, 0) == 0.0;
      assert Dot(TwinColumns[1], x, 1) == -1.0;
      assert Dot(TwinColumns[1], x, 2) == 1.0;
    }
  }
}
