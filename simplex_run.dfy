/** The solve loop as a function of the starting tableau: choose the entering
    column, stop if there is none; choose the leaving row, stop if there is
    none; otherwise pivot and go on. `fuel` bounds the number of pivots. What
    a whole run keeps (the solution set, the maximised function on it,
    feasibility) and what it ends with (a tableau passing the stopping test,
    or an entering column with no leaving row) is proved here. */
module SimplexRun {
  import opened Tableau
  import opened Pivoting
  import opened Canonical

  /** The column the entering-column rule picks (-1: none). */
  ghost function EnteringColumnOf(m: Matrix): (c: int)
    requires WellFormed(m)
    ensures IsEnteringColumn(m, c)
  {
    MostNegativeExists(m[Rows(m)], Width(m) - 1);
    var c :| IsMostNegativeIn(m[Rows(m)], Width(m) - 1, c); c
  }

  /** The row the minimum-ratio rule picks for column c (-1: none). */
  ghost function LeavingRowOf(m: Matrix, c: nat): (r: int)
    requires WellFormed(m) && c < Width(m)
    ensures IsLeavingRow(m, c, r)
  {
    MinRatioRowExists(m, c, Rows(m));
    var r :| IsMinRatioAmong(m, c, Rows(m), r); r
  }

  /** How a run ends: the stopping test holds, the ratio test found no row,
      or the pivot budget is spent. */
  datatype Stop = AtOptimum | AtUnbounded | AtCap

  datatype Run = Run(stop: Stop, tableau: Matrix)

  /** The run of the solve loop from tableau m with at most `fuel` more pivots. */
  ghost function RunFrom(m: Matrix, fuel: nat): (run: Run)
    requires WellFormed(m)
    ensures WellFormed(run.tableau) && Rows(run.tableau) == Rows(m) && Width(run.tableau) == Width(m)
    ensures run.stop == AtOptimum ==> IsOptimal(run.tableau)
    ensures run.stop == AtUnbounded ==>
      exists c :: 0 <= c < Width(m) - 1 && IsEnteringColumn(run.tableau, c) && IsLeavingRow(run.tableau, c, -1)
    decreases fuel
  {
    var c := EnteringColumnOf(m);
    if c == -1 then
      Run(AtOptimum, m)
    else
      var r := LeavingRowOf(m, c);
      if r == -1 then
        Run(AtUnbounded, m)
      else if fuel == 0 then
        Run(AtCap, m)
      else
        RunFrom(Pivoted(m, r, c), fuel - 1)
  }

  /** A tableau passing the stopping test ends the run at once, whatever the fuel. */
  lemma RunStopsAtOptimum(m: Matrix, fuel: nat)
    requires WellFormed(m) && IsOptimal(m)
    ensures RunFrom(m, fuel) == Run(AtOptimum, m)
  {
    EnteringColumnIsUnique(m, -1, EnteringColumnOf(m));
  }

  /** When the rules pick column c and row r and fuel is left, the run goes on
      from the tableau pivoted on (r, c) with one pivot fewer. */
  lemma RunStep(m: Matrix, fuel: nat, r: nat, c: nat)
    requires WellFormed(m) && c < Width(m) && IsEnteringColumn(m, c) && IsLeavingRow(m, c, r)
    requires fuel > 0
    ensures PivotAllowed(m, r, c)
    ensures RunFrom(m, fuel) == RunFrom(Pivoted(m, r, c), fuel - 1)
  {
    EnteringColumnIsUnique(m, c, EnteringColumnOf(m));
    LeavingRowIsUnique(m, c, r, LeavingRowOf(m, c));
  }

  /** When the rules pick column c and row r but no fuel is left, the run stops at the cap. */
  lemma RunStopsAtCap(m: Matrix, r: nat, c: nat)
    requires WellFormed(m) && c < Width(m) && IsEnteringColumn(m, c) && IsLeavingRow(m, c, r)
    ensures RunFrom(m, 0) == Run(AtCap, m)
  {
    EnteringColumnIsUnique(m, c, EnteringColumnOf(m));
    LeavingRowIsUnique(m, c, r, LeavingRowOf(m, c));
  }

  /** A run does not change the solution set of the constraint system, nor the
      maximised function on that set. */
  lemma {:induction false} RunPreservesSolutions(m: Matrix, fuel: nat, x: seq<real>)
    requires WellFormed(m) && |x| == Width(m) - 1
    ensures SatisfiesConstraints(m, x) <==> SatisfiesConstraints(RunFrom(m, fuel).tableau, x)
    ensures SatisfiesConstraints(m, x) ==> ObjectiveAt(RunFrom(m, fuel).tableau, x) == ObjectiveAt(m, x)
    decreases fuel
  {
    var c := EnteringColumnOf(m);
    if c != -1 {
      var r := LeavingRowOf(m, c);
      if r != -1 && fuel > 0 {
        PivotPreservesSolutions(m, r, c, x);
        RunPreservesSolutions(Pivoted(m, r, c), fuel - 1, x);
      }
    }
  }

  /** From a feasible tableau a run stays feasible and does not decrease the
      objective right-hand side. */
  lemma {:induction false} RunKeepsFeasible(m: Matrix, fuel: nat)
    requires WellFormed(m) && Feasible(m)
    ensures Feasible(RunFrom(m, fuel).tableau)
    ensures ObjectiveRhs(RunFrom(m, fuel).tableau) >= ObjectiveRhs(m)
    decreases fuel
  {
    var c := EnteringColumnOf(m);
    if c != -1 {
      var r := LeavingRowOf(m, c);
      if r != -1 && fuel > 0 {
        PivotKeepsFeasible(m, r, c);
        PivotImprovesObjective(m, r, c);
        RunKeepsFeasible(Pivoted(m, r, c), fuel - 1);
      }
    }
  }

  /** When a run ends at the stopping test, its final objective right-hand side
      bounds the maximised function from above over every non-negative solution
      of the starting constraint system. */
  lemma RunOptimumIsUpperBound(m: Matrix, fuel: nat, x: seq<real>)
    requires WellFormed(m) && |x| == Width(m) - 1
    requires RunFrom(m, fuel).stop == AtOptimum
    requires NonNegative(x) && SatisfiesConstraints(m, x)
    ensures ObjectiveAt(m, x) <= ObjectiveRhs(RunFrom(m, fuel).tableau)
  {
    RunPreservesSolutions(m, fuel, x);
    OptimalBound(RunFrom(m, fuel).tableau, x);
  }

  /** Everything a whole run promises about the tableau it ends with, over every point x. */
  lemma RunSummary(m: Matrix, fuel: nat)
    requires WellFormed(m)
    ensures forall x :: |x| == Width(m) - 1 ==>
      (SatisfiesConstraints(m, x) <==> SatisfiesConstraints(RunFrom(m, fuel).tableau, x))
    ensures forall x :: |x| == Width(m) - 1 && SatisfiesConstraints(m, x) ==>
      ObjectiveAt(RunFrom(m, fuel).tableau, x) == ObjectiveAt(m, x)
    ensures RunFrom(m, fuel).stop == AtOptimum ==>
      forall x :: |x| == Width(m) - 1 && NonNegative(x) && SatisfiesConstraints(m, x) ==>
        ObjectiveAt(m, x) <= ObjectiveRhs(RunFrom(m, fuel).tableau)
    ensures Feasible(m) ==>
      Feasible(RunFrom(m, fuel).tableau) && ObjectiveRhs(RunFrom(m, fuel).tableau) >= ObjectiveRhs(m)
  {
    forall x | |x| == Width(m) - 1
      ensures SatisfiesConstraints(m, x) <==> SatisfiesConstraints(RunFrom(m, fuel).tableau, x)
      ensures SatisfiesConstraints(m, x) ==> ObjectiveAt(RunFrom(m, fuel).tableau, x) == ObjectiveAt(m, x)
    {
      RunPreservesSolutions(m, fuel, x);
    }
    if RunFrom(m, fuel).stop == AtOptimum {
      forall x | |x| == Width(m) - 1 && NonNegative(x) && SatisfiesConstraints(m, x)
        ensures ObjectiveAt(m, x) <= ObjectiveRhs(RunFrom(m, fuel).tableau)
      {
        RunOptimumIsUpperBound(m, fuel, x);
      }
    }
    if Feasible(m) {
      RunKeepsFeasible(m, fuel);
    }
  }

  /** From a tableau in canonical form a run ends in canonical form. */
  lemma {:induction false} RunKeepsCanonicalForm(m: Matrix, fuel: nat)
    requires WellFormed(m) && InCanonicalForm(m)
    ensures InCanonicalForm(RunFrom(m, fuel).tableau)
    decreases fuel
  {
    var b :| HasBasis(m, b);
    var c := EnteringColumnOf(m);
    if c != -1 {
      var r := LeavingRowOf(m, c);
      if r != -1 && fuel > 0 {
        PivotKeepsBasis(m, b, r, c);
        PivotKeepsFeasible(m, r, c);
        RunKeepsCanonicalForm(Pivoted(m, r, c), fuel - 1);
      }
    }
  }

  /** From a tableau in canonical form, a run that ends at the stopping test
      ends with an objective right-hand side that some non-negative solution
      of the starting constraints reaches: with the upper bound, it is the
      maximum. */
  lemma RunOptimumIsAttained(m: Matrix, fuel: nat)
    requires WellFormed(m) && InCanonicalForm(m) && RunFrom(m, fuel).stop == AtOptimum
    ensures Attains(m, ObjectiveRhs(RunFrom(m, fuel).tableau))
  {
    var f := RunFrom(m, fuel).tableau;
    RunKeepsCanonicalForm(m, fuel);
    var b :| HasBasis(f, b);
    BasicSolutionAttains(f, b);
    var x := BasicSolution(f, b);
    RunPreservesSolutions(m, fuel, x);
  }

  /** From a tableau in canonical form, a run that ends with an entering column
      and no leaving row means the maximised function has no upper bound over
      the non-negative solutions of the starting constraints. */
  lemma RunUnboundedExceeds(m: Matrix, fuel: nat, bound: real)
    requires WellFormed(m) && InCanonicalForm(m) && RunFrom(m, fuel).stop == AtUnbounded
    ensures Exceeds(m, bound)
  {
    var f := RunFrom(m, fuel).tableau;
    RunKeepsCanonicalForm(m, fuel);
    var b :| HasBasis(f, b);
    var c :| 0 <= c < Width(m) - 1 && IsEnteringColumn(f, c) && IsLeavingRow(f, c, -1);
    UnboundedColumnExceeds(f, b, c, bound);
    var x :| |x| == Width(f) - 1 && NonNegative(x) && SatisfiesConstraints(f, x) && ObjectiveAt(f, x) > bound;
    RunPreservesSolutions(m, fuel, x);
  }

  /** What a whole run from a tableau in canonical form promises about its end. */
  lemma RunFromCanonicalForm(m: Matrix, fuel: nat)
    requires WellFormed(m) && InCanonicalForm(m)
    ensures RunFrom(m, fuel).stop == AtOptimum ==> Attains(m, ObjectiveRhs(RunFrom(m, fuel).tableau))
    ensures RunFrom(m, fuel).stop == AtUnbounded ==> forall bound :: Exceeds(m, bound)
  {
    if RunFrom(m, fuel).stop == AtOptimum {
      RunOptimumIsAttained(m, fuel);
    }
    if RunFrom(m, fuel).stop == AtUnbounded {
      forall bound
        ensures Exceeds(m, bound)
      {
        RunUnboundedExceeds(m, fuel, bound);
      }
    }
  }
}
