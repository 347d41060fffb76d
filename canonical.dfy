/** Canonical form: every constraint row has a basic column, a unit column with
    its 1 in that row and a 0 in the objective row. The solver's input tableau
    is meant to be in this form with non-negative right-hand sides. Pivoting on
    the rules' choice keeps it so, and from such a tableau
      - the basic solution (basic variables at their row's right-hand side,
        all others 0) is a non-negative solution of the constraints at which
        the maximised function equals the objective right-hand side, and
      - an entering column with no positive constraint entry gives a ray of
        non-negative solutions along which the maximised function grows
        without bound. */
module Canonical {
  import opened Tableau
  import opened Pivoting

  /** b[i] is the basic column of constraint row i. */
  predicate HasBasis(m: Matrix, b: seq<nat>)
    requires WellFormed(m)
  {
    |b| == Rows(m) &&
    forall i :: 0 <= i < |b| ==>
      b[i] < Width(m) - 1 && IsUnitColumnAt(m, b[i], i) && m[Rows(m)][b[i]] == 0.0
  }

  /** Feasible, with a basic column for every constraint row. */
  ghost predicate InCanonicalForm(m: Matrix)
    requires WellFormed(m)
  {
    Feasible(m) && exists b :: HasBasis(m, b)
  }

  /** Some non-negative solution of the constraints takes the maximised function above `bound`. */
  ghost predicate Exceeds(m: Matrix, bound: real)
    requires WellFormed(m)
  {
    exists x :: |x| == Width(m) - 1 && NonNegative(x) && SatisfiesConstraints(m, x) && ObjectiveAt(m, x) > bound
  }

  /** Some non-negative solution of the constraints takes the maximised function to `value`. */
  ghost predicate Attains(m: Matrix, value: real)
    requires WellFormed(m)
  {
    exists x :: |x| == Width(m) - 1 && NonNegative(x) && SatisfiesConstraints(m, x) && ObjectiveAt(m, x) == value
  }

  /** Position of v in s. */
  function IndexOf(s: seq<nat>, v: nat): (i: nat)
    requires v in s
    ensures i < |s| && s[i] == v
  {
    if s[0] == v then 0 else 1 + IndexOf(s[1..], v)
  }

  /** A basic column is basic for one row only. */
  lemma BasisIndex(m: Matrix, b: seq<nat>, i: nat)
    requires WellFormed(m) && HasBasis(m, b) && i < |b|
    ensures IndexOf(b, b[i]) == i
  {
    var k := IndexOf(b, b[i]);
    assert m[i][b[k]] == 1.0;
  }

  // ---------------------------------------------------------------------------
  // Linear forms with few non-zero terms

  lemma {:induction false} DotOfZeroTerms(a: seq<real>, x: seq<real>, n: nat)
    requires n <= |a| && n <= |x|
    requires forall j :: 0 <= j < n ==> a[j] * x[j] == 0.0
    ensures Dot(a, x, n) == 0.0
  {
    if n > 0 {
      DotOfZeroTerms(a, x, n - 1);
    }
  }

  lemma {:induction false} DotOfOneTerm(a: seq<real>, x: seq<real>, n: nat, p: nat)
    requires p < n <= |a| && n <= |x|
    requires forall j :: 0 <= j < n && j != p ==> a[j] * x[j] == 0.0
    ensures Dot(a, x, n) == a[p] * x[p]
  {
    if p == n - 1 {
      DotOfZeroTerms(a, x, n - 1);
    } else {
      DotOfOneTerm(a, x, n - 1, p);
    }
  }

  lemma {:induction false} DotOfTwoTerms(a: seq<real>, x: seq<real>, n: nat, p: nat, q: nat)
    requires p < n && q < n && p != q && n <= |a| && n <= |x|
    requires forall j :: 0 <= j < n && j != p && j != q ==> a[j] * x[j] == 0.0
    ensures Dot(a, x, n) == a[p] * x[p] + a[q] * x[q]
  {
    if p == n - 1 {
      DotOfOneTerm(a, x, n - 1, q);
    } else if q == n - 1 {
      DotOfOneTerm(a, x, n - 1, p);
    } else {
      DotOfTwoTerms(a, x, n - 1, p, q);
    }
  }

  // ---------------------------------------------------------------------------
  // Pivoting keeps the form

  /** Pivoting on (r, c) makes c the basic column of row r and leaves every
      other row's basic column basic for it. */
  lemma PivotKeepsBasis(m: Matrix, b: seq<nat>, r: nat, c: nat)
    requires WellFormed(m) && HasBasis(m, b) && PivotAllowed(m, r, c) && r < Rows(m) && c < Width(m) - 1
    ensures HasBasis(Pivoted(m, r, c), b[r := c])
  {
    var p := Pivoted(m, r, c);
    PivotMakesUnitColumn(m, r, c);
    forall i | 0 <= i < |b| && i != r
      ensures IsUnitColumnAt(p, b[i], i) && p[Rows(p)][b[i]] == 0.0
    {
      var j := b[i];
      assert m[r][j] == 0.0;
      forall k | 0 <= k < |m|
        ensures p[k][j] == m[k][j]
      {
        if k == r {
          assert p[k][j] == m[r][j] / m[r][c];
        } else {
          assert p[k][j] == m[k][j] - m[r][j] / m[r][c] * m[k][c];
        }
      }
    }
  }

  // ---------------------------------------------------------------------------
  // The basic solution

  function BasicSolution(m: Matrix, b: seq<nat>): (x: seq<real>)
    requires WellFormed(m) && HasBasis(m, b)
    ensures |x| == Width(m) - 1
  {
    seq(Width(m) - 1, j requires 0 <= j < Width(m) - 1 =>
      if j in b then m[IndexOf(b, j)][Width(m) - 1] else 0.0)
  }

  /** The basic solution solves constraint row i: only its basic column meets a non-zero value. */
  lemma BasicSolutionSolvesRow(m: Matrix, b: seq<nat>, i: nat)
    requires WellFormed(m) && HasBasis(m, b) && i < Rows(m)
    ensures SatisfiesRow(m[i], BasicSolution(m, b))
  {
    var x, n := BasicSolution(m, b), Width(m) - 1;
    BasisIndex(m, b, i);
    forall j | 0 <= j < n && j != b[i]
      ensures m[i][j] * x[j] == 0.0
    {
      if j in b {
        var k := IndexOf(b, j);
        assert m[i][b[k]] == 0.0;
      }
    }
    DotOfOneTerm(m[i], x, n, b[i]);
  }

  /** The objective row meets the basic solution only in basic columns, where the entry is 0. */
  lemma BasicSolutionObjectiveTerms(m: Matrix, b: seq<nat>)
    requires WellFormed(m) && HasBasis(m, b)
    ensures forall j :: 0 <= j < Width(m) - 1 ==> m[Rows(m)][j] * BasicSolution(m, b)[j] == 0.0
  {
    forall j | 0 <= j < Width(m) - 1
      ensures m[Rows(m)][j] * BasicSolution(m, b)[j] == 0.0
    {
      if j in b {
        var k := IndexOf(b, j);
        assert m[Rows(m)][b[k]] == 0.0;
      }
    }
  }

  /** The basic solution of a feasible tableau in canonical form is a
      non-negative solution of its constraints, and the maximised function
      there is the objective right-hand side. */
  lemma BasicSolutionAttains(m: Matrix, b: seq<nat>)
    requires WellFormed(m) && HasBasis(m, b) && Feasible(m)
    ensures NonNegative(BasicSolution(m, b)) && SatisfiesConstraints(m, BasicSolution(m, b))
    ensures ObjectiveAt(m, BasicSolution(m, b)) == ObjectiveRhs(m)
  {
    var x := BasicSolution(m, b);
    forall i | 0 <= i < Rows(m)
      ensures SatisfiesRow(m[i], x)
    {
      BasicSolutionSolvesRow(m, b, i);
    }
    BasicSolutionObjectiveTerms(m, b);
    DotOfZeroTerms(m[Rows(m)], x, |x|);
  }

  // ---------------------------------------------------------------------------
  // The ray along a column with no positive constraint entry

  /** The basic solution moved t along column c, the basic variables adjusting
      so that every constraint still holds. */
  function Ray(m: Matrix, b: seq<nat>, c: nat, t: real): (x: seq<real>)
    requires WellFormed(m) && HasBasis(m, b) && c < Width(m) - 1
    ensures |x| == Width(m) - 1
  {
    seq(Width(m) - 1, j requires 0 <= j < Width(m) - 1 =>
      if j == c then t
      else if j in b then m[IndexOf(b, j)][Width(m) - 1] - t * m[IndexOf(b, j)][c]
      else 0.0)
  }

  /** Every point of the ray solves constraint row i. */
  lemma RaySolvesRow(m: Matrix, b: seq<nat>, c: nat, t: real, i: nat)
    requires WellFormed(m) && HasBasis(m, b) && c < Width(m) - 1 && c !in b && i < Rows(m)
    ensures SatisfiesRow(m[i], Ray(m, b, c, t))
  {
    var x, n := Ray(m, b, c, t), Width(m) - 1;
    BasisIndex(m, b, i);
    forall j | 0 <= j < n && j != c && j != b[i]
      ensures m[i][j] * x[j] == 0.0
    {
      if j in b {
        var k := IndexOf(b, j);
        assert m[i][b[k]] == 0.0;
      }
    }
    DotOfTwoTerms(m[i], x, n, c, b[i]);
    assert x[b[i]] == m[i][n] - t * m[i][c];
  }

  /** Off column c, the ray meets the objective row only in basic columns, where the entry is 0. */
  lemma RayObjectiveTermsVanish(m: Matrix, b: seq<nat>, c: nat, t: real, j: nat)
    requires WellFormed(m) && HasBasis(m, b) && c < Width(m) - 1 && c !in b
    requires j < Width(m) - 1 && j != c
    ensures m[Rows(m)][j] * Ray(m, b, c, t)[j] == 0.0
  {
    if j in b {
      var k := IndexOf(b, j);
      assert m[Rows(m)][b[k]] == 0.0;
    }
  }

  /** Off column c the ray meets the objective row only in zero terms, and in column c it is t. */
  lemma RayObjectiveTerms(m: Matrix, b: seq<nat>, c: nat, t: real)
    requires WellFormed(m) && HasBasis(m, b) && c < Width(m) - 1 && c !in b
    ensures Ray(m, b, c, t)[c] == t
    ensures forall j :: 0 <= j < Width(m) - 1 && j != c ==> m[Rows(m)][j] * Ray(m, b, c, t)[j] == 0.0
  {
    forall j | 0 <= j < Width(m) - 1 && j != c
      ensures m[Rows(m)][j] * Ray(m, b, c, t)[j] == 0.0
    {
      RayObjectiveTermsVanish(m, b, c, t, j);
    }
  }

  /** The maximised function at a point whose only non-zero objective term is in column c. */
  lemma ObjectiveOfOneTerm(m: Matrix, x: seq<real>, c: nat)
    requires WellFormed(m) && |x| == Width(m) - 1 && c < |x|
    requires forall j :: 0 <= j < |x| && j != c ==> m[Rows(m)][j] * x[j] == 0.0
    ensures ObjectiveAt(m, x) == ObjectiveRhs(m) - m[Rows(m)][c] * x[c]
  {
    DotOfOneTerm(m[Rows(m)], x, |x|, c);
  }

  /** The maximised function changes along the ray at the rate the objective
      entry of column c gives. */
  lemma RayObjective(m: Matrix, b: seq<nat>, c: nat, t: real)
    requires WellFormed(m) && HasBasis(m, b) && c < Width(m) - 1 && c !in b
    ensures ObjectiveAt(m, Ray(m, b, c, t)) == ObjectiveRhs(m) - t * m[Rows(m)][c]
  {
    RayObjectiveTerms(m, b, c, t);
    ObjectiveOfOneTerm(m, Ray(m, b, c, t), c);
  }

  /** Every point of the ray solves the constraints, and the maximised function
      changes along it at the rate the objective entry of column c gives. */
  lemma RaySolves(m: Matrix, b: seq<nat>, c: nat, t: real)
    requires WellFormed(m) && HasBasis(m, b) && c < Width(m) - 1 && c !in b
    ensures SatisfiesConstraints(m, Ray(m, b, c, t))
    ensures ObjectiveAt(m, Ray(m, b, c, t)) == ObjectiveRhs(m) - t * m[Rows(m)][c]
  {
    forall i | 0 <= i < Rows(m)
      ensures SatisfiesRow(m[i], Ray(m, b, c, t))
    {
      RaySolvesRow(m, b, c, t, i);
    }
    RayObjective(m, b, c, t);
  }

  /** When column c has no positive constraint entry, the ray stays non-negative for t >= 0. */
  lemma RayIsNonNegative(m: Matrix, b: seq<nat>, c: nat, t: real)
    requires WellFormed(m) && HasBasis(m, b) && Feasible(m) && c < Width(m) - 1
    requires t >= 0.0 && IsLeavingRow(m, c, -1)
    ensures NonNegative(Ray(m, b, c, t))
  {
    var x := Ray(m, b, c, t);
    forall j | 0 <= j < |x| && j != c && j in b
      ensures x[j] >= 0.0
    {
      var k := IndexOf(b, j);
      assert m[k][c] <= 0.0;
      assert t * m[k][c] <= 0.0;
    }
  }

  /** From a feasible tableau in canonical form, an entering column (negative
      objective entry) with no positive constraint entry means the maximised
      function has no upper bound over the non-negative solutions. */
  lemma UnboundedColumnExceeds(m: Matrix, b: seq<nat>, c: nat, bound: real)
    requires WellFormed(m) && HasBasis(m, b) && Feasible(m) && c < Width(m) - 1
    requires m[Rows(m)][c] < 0.0 && IsLeavingRow(m, c, -1)
    ensures Exceeds(m, bound)
  {
    var q, v := -m[Rows(m)][c], ObjectiveRhs(m);
    assert c !in b;
    var gap := if bound > v then bound - v else 0.0;
    var t := gap / q + 1.0;
    assert t * q == gap + q;
    RaySolves(m, b, c, t);
    RayIsNonNegative(m, b, c, t);
    var x := Ray(m, b, c, t);
    assert ObjectiveAt(m, x) > bound;
  }
}
