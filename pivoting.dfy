/** What a pivot chosen by the entering-column and minimum-ratio rules does
    to a tableau: the entering column becomes a unit column, the solutions of
    the constraint system stay the same, feasibility is kept and the objective
    does not get worse. Also the optimality certificate of a tableau that
    passes the stopping test. */
module Pivoting {
  import opened Tableau

  // ---------------------------------------------------------------------------
  // Linear forms

  /** Subtracting a multiple of one row from another subtracts the same multiple of its value. */
  lemma {:induction false} DotSubtractMultiple(a: seq<real>, b: seq<real>, d: seq<real>, x: seq<real>, n: nat, v: real)
    requires n <= |a| && n <= |b| && n <= |d| && n <= |x|
    requires forall j :: 0 <= j < n ==> d[j] == a[j] - v * b[j]
    ensures Dot(d, x, n) == Dot(a, x, n) - v * Dot(b, x, n)
  {
    if n > 0 {
      DotSubtractMultiple(a, b, d, x, n - 1, v);
      calc {
        Dot(d, x, n);
        Dot(d, x, n - 1) + d[n - 1] * x[n - 1];
        Dot(a, x, n - 1) - v * Dot(b, x, n - 1) + (a[n - 1] - v * b[n - 1]) * x[n - 1];
        (Dot(a, x, n - 1) + a[n - 1] * x[n - 1]) - v * (Dot(b, x, n - 1) + b[n - 1] * x[n - 1]);
      }
    }
  }

  /** Scaling a row scales its value. */
  lemma {:induction false} DotScale(a: seq<real>, d: seq<real>, x: seq<real>, n: nat, q: real)
    requires n <= |a| && n <= |d| && n <= |x|
    requires forall j :: 0 <= j < n ==> a[j] == q * d[j]
    ensures Dot(a, x, n) == q * Dot(d, x, n)
  {
    if n > 0 {
      DotScale(a, d, x, n - 1, q);
      calc {
        Dot(a, x, n);
        Dot(a, x, n - 1) + a[n - 1] * x[n - 1];
        q * Dot(d, x, n - 1) + (q * d[n - 1]) * x[n - 1];
        q * (Dot(d, x, n - 1) + d[n - 1] * x[n - 1]);
      }
    }
  }

  /** A row with non-negative entries has a non-negative value at a non-negative point. */
  lemma {:induction false} DotNonNegative(a: seq<real>, x: seq<real>, n: nat)
    requires n <= |a| && n <= |x|
    requires forall j :: 0 <= j < n ==> a[j] >= 0.0 && x[j] >= 0.0
    ensures Dot(a, x, n) >= 0.0
  {
    if n > 0 {
      DotNonNegative(a, x, n - 1);
      assert a[n - 1] * x[n - 1] >= 0.0;
    }
  }

  // ---------------------------------------------------------------------------
  // The selection rules pick one value

  /** Every prefix of a row has an answer to the entering-column rule: the
      scan from the left extends the answer for one entry fewer. */
  lemma {:induction false} MostNegativeExists(s: seq<real>, n: nat)
    requires n <= |s|
    ensures exists c :: IsMostNegativeIn(s, n, c)
  {
    if n == 0 {
      assert IsMostNegativeIn(s, n, -1);
    } else {
      MostNegativeExists(s, n - 1);
      var d :| IsMostNegativeIn(s, n - 1, d);
      if s[n - 1] < (if d == -1 then 0.0 else s[d]) {
        assert IsMostNegativeIn(s, n, n - 1);
      } else {
        assert IsMostNegativeIn(s, n, d);
      }
    }
  }

  /** Every prefix of the constraint rows has an answer to the minimum-ratio rule. */
  lemma {:induction false} MinRatioRowExists(m: Matrix, c: nat, n: nat)
    requires WellFormed(m) && c < Width(m) && n <= Rows(m)
    ensures exists r :: IsMinRatioAmong(m, c, n, r)
  {
    if n == 0 {
      assert IsMinRatioAmong(m, c, n, -1);
    } else {
      MinRatioRowExists(m, c, n - 1);
      var d :| IsMinRatioAmong(m, c, n - 1, d);
      var i := n - 1;
      if m[i][c] > 0.0 && (d == -1 || Ratio(m, i, c) < Ratio(m, d, c)) {
        assert IsMinRatioAmong(m, c, n, i);
      } else {
        assert IsMinRatioAmong(m, c, n, d);
      }
    }
  }

  /** Both rules are deterministic: they single out one answer. */
  lemma EnteringColumnIsUnique(m: Matrix, c1: int, c2: int)
    requires WellFormed(m) && IsEnteringColumn(m, c1) && IsEnteringColumn(m, c2)
    ensures c1 == c2
  {
  }

  lemma LeavingRowIsUnique(m: Matrix, c: nat, r1: int, r2: int)
    requires WellFormed(m) && c < Width(m) && IsLeavingRow(m, c, r1) && IsLeavingRow(m, c, r2)
    ensures r1 == r2
  {
  }

  // ---------------------------------------------------------------------------
  // The pivot as a row operation

  /** A row and a non-zero multiple of it have the same solutions. */
  lemma RowMultiple(a: seq<real>, d: seq<real>, x: seq<real>, q: real)
    requires |a| == |d| == |x| + 1 && q != 0.0
    requires forall j :: 0 <= j < |d| ==> a[j] == q * d[j]
    ensures SatisfiesRow(a, x) <==> SatisfiesRow(d, x)
  {
    var n := |x|;
    DotScale(a, d, x, n, q);
    assert a[n] == q * d[n];
    if SatisfiesRow(a, x) {
      assert q * Dot(d, x, n) == q * d[n];
    }
  }

  /** Subtracting a multiple of a row that x satisfies neither makes nor breaks
      x's solving a row, and keeps the row's right-hand side minus its value. */
  lemma RowMinusMultiple(a: seq<real>, b: seq<real>, d: seq<real>, x: seq<real>, v: real)
    requires |a| == |b| == |d| == |x| + 1
    requires forall j :: 0 <= j < |d| ==> d[j] == a[j] - v * b[j]
    requires SatisfiesRow(b, x)
    ensures SatisfiesRow(a, x) <==> SatisfiesRow(d, x)
    ensures d[|x|] - Dot(d, x, |x|) == a[|x|] - Dot(a, x, |x|)
  {
    var n := |x|;
    DotSubtractMultiple(a, b, d, x, n, v);
    var w := v * b[n];
    assert Dot(b, x, n) == b[n];
    assert Dot(d, x, n) == Dot(a, x, n) - w;
    assert d[n] == a[n] - w;
  }

  /** The old pivot row is the pivot element times the normalised one. */
  lemma PivotRowIsMultiple(m: Matrix, r: nat, c: nat)
    requires PivotAllowed(m, r, c)
    ensures forall j :: 0 <= j < Width(m) ==> m[r][j] == m[r][c] * Pivoted(m, r, c)[r][j]
  {
    forall j | 0 <= j < Width(m)
      ensures m[r][j] == m[r][c] * Pivoted(m, r, c)[r][j]
    {
      assert Pivoted(m, r, c)[r][j] == m[r][j] / m[r][c];
    }
  }

  /** Every other row loses its column-c entry times the normalised pivot row. */
  lemma OtherRowIsCombination(m: Matrix, r: nat, c: nat, i: nat)
    requires PivotAllowed(m, r, c) && i < |m| && i != r
    ensures forall j :: 0 <= j < Width(m) ==> Pivoted(m, r, c)[i][j] == m[i][j] - m[i][c] * Pivoted(m, r, c)[r][j]
  {
    forall j | 0 <= j < Width(m)
      ensures Pivoted(m, r, c)[i][j] == m[i][j] - m[i][c] * Pivoted(m, r, c)[r][j]
    {
      var t := m[r][j] / m[r][c];
      assert Pivoted(m, r, c)[r][j] == t;
      assert Pivoted(m, r, c)[i][j] == m[i][j] - t * m[i][c];
    }
  }

  /** Every solution of the old constraint system solves the new one. */
  lemma PivotKeepsSolutions(m: Matrix, r: nat, c: nat, x: seq<real>)
    requires PivotAllowed(m, r, c) && r < Rows(m) && |x| == Width(m) - 1
    requires SatisfiesConstraints(m, x)
    ensures SatisfiesConstraints(Pivoted(m, r, c), x)
  {
    var p := Pivoted(m, r, c);
    PivotRowIsMultiple(m, r, c);
    RowMultiple(m[r], p[r], x, m[r][c]);
    forall i | 0 <= i < Rows(m) && i != r
      ensures SatisfiesRow(p[i], x)
    {
      OtherRowIsCombination(m, r, c, i);
      RowMinusMultiple(m[i], p[r], p[i], x, m[i][c]);
    }
  }

  /** Every solution of the new constraint system solves the old one. */
  lemma PivotAddsNoSolutions(m: Matrix, r: nat, c: nat, x: seq<real>)
    requires PivotAllowed(m, r, c) && r < Rows(m) && |x| == Width(m) - 1
    requires SatisfiesConstraints(Pivoted(m, r, c), x)
    ensures SatisfiesConstraints(m, x)
  {
    var p := Pivoted(m, r, c);
    PivotRowIsMultiple(m, r, c);
    RowMultiple(m[r], p[r], x, m[r][c]);
    forall i | 0 <= i < Rows(m) && i != r
      ensures SatisfiesRow(m[i], x)
    {
      OtherRowIsCombination(m, r, c, i);
      RowMinusMultiple(m[i], p[r], p[i], x, m[i][c]);
    }
  }

  /** On the solutions of the constraint system a pivot does not change the maximised function. */
  lemma PivotKeepsObjective(m: Matrix, r: nat, c: nat, x: seq<real>)
    requires PivotAllowed(m, r, c) && r < Rows(m) && |x| == Width(m) - 1
    requires SatisfiesConstraints(m, x)
    ensures ObjectiveAt(Pivoted(m, r, c), x) == ObjectiveAt(m, x)
  {
    var p, R := Pivoted(m, r, c), Rows(m);
    PivotRowIsMultiple(m, r, c);
    RowMultiple(m[r], p[r], x, m[r][c]);
    OtherRowIsCombination(m, r, c, R);
    RowMinusMultiple(m[R], p[r], p[R], x, m[R][c]);
  }

  /** A pivot on a constraint row does not change the solution set of the
      constraint system, and on that set it does not change the maximised function. */
  lemma PivotPreservesSolutions(m: Matrix, r: nat, c: nat, x: seq<real>)
    requires PivotAllowed(m, r, c) && r < Rows(m) && |x| == Width(m) - 1
    ensures SatisfiesConstraints(m, x) <==> SatisfiesConstraints(Pivoted(m, r, c), x)
    ensures SatisfiesConstraints(m, x) ==> ObjectiveAt(Pivoted(m, r, c), x) == ObjectiveAt(m, x)
  {
    if SatisfiesConstraints(m, x) {
      PivotKeepsSolutions(m, r, c, x);
      PivotKeepsObjective(m, r, c, x);
    }
    if SatisfiesConstraints(Pivoted(m, r, c), x) {
      PivotAddsNoSolutions(m, r, c, x);
    }
  }

  /** The entering column becomes a unit column with its 1 in the pivot row, the
      objective row's entry in it becomes 0, the pivot row is the old one over
      the pivot element, and the entering variable now reads as that row's ratio. */
  lemma PivotMakesUnitColumn(m: Matrix, r: nat, c: nat)
    requires PivotAllowed(m, r, c) && r < Rows(m)
    ensures IsUnitColumnAt(Pivoted(m, r, c), c, r)
    ensures Pivoted(m, r, c)[Rows(m)][c] == 0.0
    ensures forall j :: 0 <= j < Width(m) ==> Pivoted(m, r, c)[r][j] == m[r][j] / m[r][c]
    ensures IsExtractedValue(Pivoted(m, r, c), c, m[r][Width(m) - 1] / m[r][c])
  {
    var p, q := Pivoted(m, r, c), m[r][c];
    assert q / q == 1.0;
    forall i | 0 <= i < |m| && i != r
      ensures p[i][c] == 0.0
    {
      assert p[i][c] == m[i][c] - q / q * m[i][c];
    }
    forall i | IsUnitColumnAt(p, c, i)
      ensures i == r
    {
    }
  }

  /** Rows whose entry in the entering column is already 0 are left as they are. */
  lemma PivotKeepsRowsWithZeroEntry(m: Matrix, r: nat, c: nat, i: nat)
    requires PivotAllowed(m, r, c) && i < |m| && i != r && m[i][c] == 0.0
    ensures Pivoted(m, r, c)[i] == m[i]
  {
    var p := Pivoted(m, r, c);
    forall j | 0 <= j < Width(m)
      ensures p[i][j] == m[i][j]
    {
      assert p[i][j] == m[i][j] - m[r][j] / m[r][c] * 0.0;
    }
  }

  // ---------------------------------------------------------------------------
  // Feasibility and progress

  /** A pivot in the row the minimum-ratio rule picks keeps every constraint
      right-hand side non-negative. */
  lemma PivotKeepsFeasible(m: Matrix, r: nat, c: nat)
    requires WellFormed(m) && c < Width(m) && IsLeavingRow(m, c, r) && Feasible(m)
    ensures Feasible(Pivoted(m, r, c))
  {
    var p, n, q := Pivoted(m, r, c), Width(m) - 1, m[r][c];
    var t := m[r][n] / q;
    assert t == Ratio(m, r, c);
    assert t >= 0.0;
    forall i | 0 <= i < Rows(m)
      ensures p[i][n] >= 0.0
    {
      var a := m[i][c];
      if i == r {
        assert p[i][n] == t;
      } else {
        assert p[i][n] == m[i][n] - t * a;
        if a > 0.0 {
          assert t <= Ratio(m, i, c) == m[i][n] / a;
          assert t * a <= (m[i][n] / a) * a;
          assert (m[i][n] / a) * a == m[i][n];
        } else {
          assert t * a <= 0.0;
        }
      }
    }
  }

  /** A pivot chosen by both rules on a feasible tableau does not decrease the
      objective right-hand side, and increases it when the pivot row's
      right-hand side is positive (a non-degenerate pivot). */
  lemma PivotImprovesObjective(m: Matrix, r: nat, c: nat)
    requires WellFormed(m) && IsEnteringColumn(m, c) && IsLeavingRow(m, c, r) && Feasible(m)
    ensures ObjectiveRhs(Pivoted(m, r, c)) >= ObjectiveRhs(m)
    ensures m[r][Width(m) - 1] > 0.0 ==> ObjectiveRhs(Pivoted(m, r, c)) > ObjectiveRhs(m)
  {
    var p, n, R := Pivoted(m, r, c), Width(m) - 1, Rows(m);
    var t := m[r][n] / m[r][c];
    assert t >= 0.0;
    assert m[r][n] > 0.0 ==> t > 0.0;
    assert p[R][n] == m[R][n] - t * m[R][c];
    assert m[R][c] < 0.0;
    assert t * m[R][c] <= 0.0;
    assert t > 0.0 ==> t * m[R][c] < 0.0;
  }

  // ---------------------------------------------------------------------------
  // Optimality

  /** A tableau that passes the stopping test bounds the maximised function from
      above by its objective right-hand side at every non-negative point. */
  lemma OptimalBound(m: Matrix, x: seq<real>)
    requires WellFormed(m) && IsOptimal(m) && |x| == Width(m) - 1 && NonNegative(x)
    ensures ObjectiveAt(m, x) <= ObjectiveRhs(m)
  {
    DotNonNegative(m[Rows(m)], x, |x|);
  }

  // ---------------------------------------------------------------------------
  // Reading the solution

  /** A column is a unit column in at most one row. */
  lemma UnitColumnRowIsUnique(m: Matrix, j: nat, i1: int, i2: int)
    requires WellFormed(m) && j < Width(m) && IsUnitColumnAt(m, j, i1) && IsUnitColumnAt(m, j, i2)
    ensures i1 == i2
  {
  }

  /** The value read off for a variable is determined by the tableau: the
      right-hand side of its unit row, or 0 when it has none. */
  lemma ExtractedValueIsUnique(m: Matrix, j: nat, v1: real, v2: real)
    requires WellFormed(m) && j < Width(m) && IsExtractedValue(m, j, v1) && IsExtractedValue(m, j, v2)
    ensures v1 == v2
  {
    if i :| 0 <= i < Rows(m) && IsUnitColumnAt(m, j, i) {
      assert v1 == m[i][Width(m) - 1] == v2;
    }
  }
}
