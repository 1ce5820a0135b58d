/** What Gaussian elimination with skipped pivots does and does not preserve. */
module MatrixLaws {
  import opened Common
  import opened Matrix

  // ---------------------------------------------------------------- one round

  lemma SwapKeepsSolutions(m: Matrix, i: int, j: int, x: Vector)
    requires 0 <= i < M && 0 <= j < M
    ensures Solves(Swapped(m, i, j), x) <==> Solves(m, x)
  {}

  /** Subtracting a multiple of an equation that holds, in every column. */
  lemma RowSubtraction(r: Row, pr: Row, k: real, x: Vector)
    requires Satisfies(pr, x)
    ensures Satisfies(PartlyReduced(r, pr, 0, k, N), x) <==> Satisfies(r, x)
  {
    var s := PartlyReduced(r, pr, 0, k, N);
    calc {
      Dot(s, x);
      (r.c0 - k * pr.c0) * x.x0 + (r.c1 - k * pr.c1) * x.x1 + (r.c2 - k * pr.c2) * x.x2;
      Dot(r, x) - k * pr.c0 * x.x0 - k * pr.c1 * x.x1 - k * pr.c2 * x.x2;
      { assert k * (pr.c0 * x.x0 + pr.c1 * x.x1 + pr.c2 * x.x2)
          == k * pr.c0 * x.x0 + k * pr.c1 * x.x1 + k * pr.c2 * x.x2; }
      Dot(r, x) - k * Dot(pr, x);
    }
    assert k * Dot(pr, x) == k * pr.rhs;
  }

  /** Round `p` finds zeros in the columns before `p` of the rows it subtracts. */
  predicate Cleared(m: Matrix, p: int) {
    && (p >= 1 ==> m.r1.c0 == 0.0 && m.r2.c0 == 0.0)
    && (p >= 2 ==> m.r2.c1 == 0.0)
  }

  lemma FullReduction(r: Row, pr: Row, p: int)
    requires 0 <= p < M && pr.At(p) != 0.0
    requires p >= 1 ==> pr.c0 == 0.0
    requires p >= 2 ==> pr.c1 == 0.0
    ensures Reduced(r, pr, p) == PartlyReduced(r, pr, 0, r.At(p) / pr.At(p), N)
  {}

  lemma ReductionClears(r: Row, pr: Row, p: int)
    requires 0 <= p < M && pr.At(p) != 0.0
    ensures Reduced(r, pr, p).At(p) == 0.0
  {}

  lemma StepKeepsSolutions(m: Matrix, p: int, x: Vector)
    requires 0 <= p < M
    requires p == 1 ==> Skips(m, 1) || Chosen(m, 1).r1.c0 == 0.0 || Chosen(m, 1).r2.c1 == 0.0
    ensures Solves(Step(m, p), x) <==> Solves(m, x)
  {
    var c := Chosen(m, p);
    SwapKeepsSolutions(m, p, PivotRow(m, p), x);
    if !Skips(m, p) && p == 0 && Satisfies(c.r0, x) {
      RowSubtraction(c.r1, c.r0, c.r1.c0 / c.r0.c0, x);
      RowSubtraction(c.r2, c.r0, c.r2.c0 / c.r0.c0, x);
    } else if !Skips(m, p) && p == 1 {
      if c.r1.c0 == 0.0 {
        FullReduction(c.r2, c.r1, 1);
        if Satisfies(c.r1, x) {
          RowSubtraction(c.r2, c.r1, c.r2.c1 / c.r1.c1, x);
        }
      } else {
        assert c.r2.c1 / c.r1.c1 == 0.0;
        assert Step(m, 1).r2 == c.r2;
      }
    }
  }

  lemma StepClears(m: Matrix, p: int)
    requires 0 <= p < M && Cleared(m, p) && !Skips(m, p)
    ensures Cleared(Step(m, p), p + 1)
  {
    var c := Chosen(m, p);
    if p == 0 {
      ReductionClears(c.r1, c.r0, 0);
      ReductionClears(c.r2, c.r0, 0);
    } else if p == 1 {
      ReductionClears(c.r2, c.r1, 1);
    }
  }

  // ---------------------------------------------------------------- the whole elimination

  /** Round 1 subtracts from column 1 onwards a row whose column 0 a skipped round 0 left nonzero. */
  predicate Distorts(m: Matrix) {
    var s := Steps(m, 1);
    !Skips(s, 1) && Chosen(s, 1).r1.c0 != 0.0 && Chosen(s, 1).r2.c1 != 0.0
  }

  lemma EliminationKeepsSolutions(m: Matrix)
    requires !Distorts(m)
    ensures SameSolutions(m, Eliminated(m))
  {
    forall x: Vector ensures Solves(m, x) <==> Solves(Eliminated(m), x) {
      StepKeepsSolutions(Steps(m, 0), 0, x);
      StepKeepsSolutions(Steps(m, 1), 1, x);
      StepKeepsSolutions(Steps(m, 2), 2, x);
    }
  }

  lemma FirstPivotPreventsDistortion(m: Matrix)
    requires !Skips(m, 0)
    ensures !Distorts(m)
  {
    StepClears(m, 0);
    assert Steps(m, 1) == Step(Steps(m, 0), 0);
  }

  lemma EliminationIsUpper(m: Matrix)
    requires NoPivotSkipped(m)
    ensures Cleared(Eliminated(m), 3) && PivotsCount(Eliminated(m))
  {
    StepClears(Steps(m, 0), 0);
    StepClears(Steps(m, 1), 1);
    StepClears(Steps(m, 2), 2);
    PivotRowStays(m, 0);
    PivotRowStays(m, 1);
    PivotRowStays(m, 2);
  }

  predicate PivotsCount(m: Matrix) {
    Abs(m.r0.c0) > EPSILON && Abs(m.r1.c1) > EPSILON && Abs(m.r2.c2) > EPSILON
  }

  /** Rounds after `p` leave row `p` as round `p` chose it. */
  lemma PivotRowStays(m: Matrix, p: int)
    requires 0 <= p < M
    ensures Eliminated(m).At(p) == Chosen(Steps(m, p), p).At(p)
  {
    assert Eliminated(m) == Step(Steps(m, 2), 2);
    assert Steps(m, 2) == Step(Steps(m, 1), 1);
    assert Steps(m, 1) == Step(m, 0);
  }

  // ---------------------------------------------------------------- back substitution

  lemma LinearUnique(d: real, e: real, y: real)
    requires d != 0.0
    ensures d * y == e <==> y == e / d
  {}

  /** On an upper triangle with pivots that count, back substitution returns the one solution. */
  lemma BackSubstitutionIsUnique(m: Matrix, y: Vector)
    requires Cleared(m, 3) && PivotsCount(m)
    ensures var s := BackFrom(m, 2, Vector(0.0, 0.0, 0.0)); s.Some? && (Solves(m, y) <==> y == s.value)
  {
    var x2 := m.r2.rhs / m.r2.c2;
    var x1 := (m.r1.rhs - m.r1.c2 * x2) / m.r1.c1;
    var x0 := (m.r0.rhs - (m.r0.c1 * x1 + m.r0.c2 * x2)) / m.r0.c0;
    BackFromIs(m, x0, x1, x2);
    TriangleIsUnique(m, y, x0, x1, x2);
    hide BackFrom, Solves;
  }

  lemma TriangleIsUnique(m: Matrix, y: Vector, x0: real, x1: real, x2: real)
    requires Cleared(m, 3) && PivotsCount(m)
    requires x2 == m.r2.rhs / m.r2.c2
    requires x1 == (m.r1.rhs - m.r1.c2 * x2) / m.r1.c1
    requires x0 == (m.r0.rhs - (m.r0.c1 * x1 + m.r0.c2 * x2)) / m.r0.c0
    ensures Solves(m, y) <==> y == Vector(x0, x1, x2)
  {
    LinearUnique(m.r2.c2, m.r2.rhs, y.x2);
    LinearUnique(m.r1.c1, m.r1.rhs - m.r1.c2 * x2, y.x1);
    LinearUnique(m.r0.c0, m.r0.rhs - (m.r0.c1 * x1 + m.r0.c2 * x2), y.x0);
  }

  lemma BackFromIs(m: Matrix, x0: real, x1: real, x2: real)
    requires PivotsCount(m)
    requires x2 == m.r2.rhs / m.r2.c2
    requires x1 == (m.r1.rhs - m.r1.c2 * x2) / m.r1.c1
    requires x0 == (m.r0.rhs - (m.r0.c1 * x1 + m.r0.c2 * x2)) / m.r0.c0
    ensures BackFrom(m, 2, Vector(0.0, 0.0, 0.0)) == Some(Vector(x0, x1, x2))
  {
    assert BackFrom(m, 2, Vector(0.0, 0.0, 0.0)) == BackFrom(m, 1, Vector(0.0, 0.0, x2));
    assert TailSum(m.r1, Vector(0.0, 0.0, x2), 1, 3) == m.r1.c2 * x2;
    assert BackFrom(m, 1, Vector(0.0, 0.0, x2)) == BackFrom(m, 0, Vector(0.0, x1, x2));
    var v := Vector(0.0, x1, x2);
    assert TailSum(m.r0, v, 0, 2) == m.r0.c1 * x1;
    assert TailSum(m.r0, v, 0, 3) == m.r0.c1 * x1 + m.r0.c2 * x2;
    assert BackFrom(m, 0, v) == BackFrom(m, -1, Vector(x0, x1, x2));
  }

  /** A diagonal entry that counts as zero leaves that unknown at the 0 it started with. */
  lemma SkippedUnknownIsZero(m: Matrix, i: int, x: Vector, p: int)
    requires -1 <= i < M && 0 <= p < M
    requires x.At(p) == 0.0 && (p <= i ==> Abs(m.At(p).At(p)) <= EPSILON)
    ensures BackFrom(m, i, x).Some? ==> BackFrom(m, i, x).value.At(p) == 0.0
    decreases i + 1
  {
    if i >= 0 {
      var rest := m.At(i).rhs - TailSum(m.At(i), x, i, N - 1);
      if Abs(m.At(i).At(i)) > EPSILON {
        SkippedUnknownIsZero(m, i - 1, x.Set(i, rest / m.At(i).At(i)), p);
      } else {
        SkippedUnknownIsZero(m, i - 1, x, p);
      }
    }
  }

  /** With every pivot taken, the solver returns the one solution of the system it was given. */
  lemma SolverIsExact(m: Matrix, y: Vector)
    requires NoPivotSkipped(m)
    ensures Solution(m).Some? && (Solves(m, y) <==> y == Solution(m).value)
  {
    assert !Skips(Steps(m, 0), 0);
    FirstPivotPreventsDistortion(m);
    EliminationKeepsSolutions(m);
    EliminationIsUpper(m);
    BackSubstitutionIsUnique(Eliminated(m), y);
  }

  // ---------------------------------------------------------------- pivots ignore the right-hand sides

  function WithRhs(m: Matrix, b: Vector): Matrix {
    Matrix(m.r0.(rhs := b.x0), m.r1.(rhs := b.x1), m.r2.(rhs := b.x2))
  }

  predicate SameCoefficients(m: Matrix, n: Matrix) {
    n == WithRhs(m, Vector(n.r0.rhs, n.r1.rhs, n.r2.rhs))
  }

  lemma StepIgnoresRhs(m: Matrix, n: Matrix, p: int)
    requires 0 <= p < M && SameCoefficients(m, n)
    ensures PivotRow(m, p) == PivotRow(n, p)
    ensures Skips(m, p) == Skips(n, p)
    ensures SameCoefficients(Chosen(m, p), Chosen(n, p))
    ensures SameCoefficients(Step(m, p), Step(n, p))
  {
    assert forall i :: 0 <= i < M ==> n.At(i).At(p) == m.At(i).At(p);
    var i, j := PivotRow(m, p), PivotRow(n, p);
    assert i == j by {
      assert Abs(m.At(i).At(p)) <= Abs(m.At(j).At(p)) && Abs(n.At(j).At(p)) <= Abs(n.At(i).At(p));
    }
  }

  lemma StepsIgnoreRhs(m: Matrix, n: Matrix, p: int)
    requires 0 <= p <= M && SameCoefficients(m, n)
    ensures SameCoefficients(Steps(m, p), Steps(n, p))
  {
    if p > 0 {
      StepsIgnoreRhs(m, n, p - 1);
      StepIgnoresRhs(Steps(m, p - 1), Steps(n, p - 1), p - 1);
    }
  }

  /** The right-hand sides that make `x` a solution. */
  function RhsFor(m: Matrix, x: Vector): Vector {
    Vector(Dot(m.r0, x), Dot(m.r1, x), Dot(m.r2, x))
  }

  function Unit(p: int): Vector
    requires 0 <= p < M
  {
    Vector(0.0, 0.0, 0.0).Set(p, 1.0)
  }

  ghost predicate SolvedUniquely(m: Matrix) {
    Solution(m).Some? && forall y: Vector :: Solves(m, y) <==> y == Solution(m).value
  }

  lemma SkippedPivotFails(m: Matrix, p: int)
    requires 0 <= p < M && Skips(Steps(m, p), p)
    ensures !SolvedUniquely(WithRhs(m, RhsFor(m, Unit(p))))
  {
    var e := Unit(p);
    var n := WithRhs(m, RhsFor(m, e));
    assert Solves(n, e) by {
      assert Dot(n.r0, e) == Dot(m.r0, e) && Dot(n.r1, e) == Dot(m.r1, e) && Dot(n.r2, e) == Dot(m.r2, e);
    }
    StepsIgnoreRhs(m, n, p);
    StepIgnoresRhs(Steps(m, p), Steps(n, p), p);
    PivotRowStays(n, p);
    SkippedUnknownIsZero(Eliminated(n), 2, Vector(0.0, 0.0, 0.0), p);
    assert e.At(p) == 1.0;
  }

  /** For a coefficient matrix, the solver returns the unique solution whatever the right-hand
      sides exactly when no pivot is skipped. */
  lemma ExactIffNoPivotSkipped(m: Matrix)
    ensures (forall b: Vector :: SolvedUniquely(WithRhs(m, b))) <==> NoPivotSkipped(m)
  {
    if NoPivotSkipped(m) {
      forall b: Vector ensures SolvedUniquely(WithRhs(m, b)) {
        var n := WithRhs(m, b);
        forall p | 0 <= p < M ensures !Skips(Steps(n, p), p) {
          assert !Skips(Steps(m, p), p);
          StepsIgnoreRhs(m, n, p);
          StepIgnoresRhs(Steps(m, p), Steps(n, p), p);
        }
        forall y: Vector ensures Solution(n).Some? && (Solves(n, y) <==> y == Solution(n).value) {
          SolverIsExact(n, y);
        }
        assert Solves(n, Vector(0.0, 0.0, 0.0)) || !Solves(n, Vector(0.0, 0.0, 0.0));
        SolverIsExact(n, Vector(0.0, 0.0, 0.0));
      }
    } else {
      var p :| 0 <= p < M && Skips(Steps(m, p), p);
      SkippedPivotFails(m, p);
    }
  }

  lemma DistortionIgnoresRhs(m: Matrix, n: Matrix)
    requires SameCoefficients(m, n)
    ensures Distorts(m) == Distorts(n)
  {
    StepsIgnoreRhs(m, n, 1);
    StepIgnoresRhs(Steps(m, 1), Steps(n, 1), 1);
  }

  /** Subtracting a row from column 1 on, but not its nonzero column 0, changes the equation. */
  lemma PartialReductionMisses(r: Row, pr: Row)
    requires Satisfies(r, Unit(0)) && Satisfies(pr, Unit(0))
    requires pr.c1 != 0.0 && r.c1 != 0.0 && pr.c0 != 0.0
    ensures !Satisfies(Reduced(r, pr, 1), Unit(0))
  {
    var k := r.c1 / pr.c1;
    assert k != 0.0;
    assert k * pr.c0 != 0.0;
  }

  lemma DistortionLosesASolution(m: Matrix)
    requires Distorts(m)
    ensures var n := WithRhs(m, RhsFor(m, Unit(0))); !SameSolutions(n, Eliminated(n))
  {
    var e := Unit(0);
    var n := WithRhs(m, RhsFor(m, e));
    assert Solves(n, e);
    DistortionIgnoresRhs(m, n);
    StepKeepsSolutions(n, 0, e);
    assert Steps(n, 0) == n && Steps(n, 1) == Step(n, 0);
    var c := Chosen(Steps(n, 1), 1);
    SwapKeepsSolutions(Steps(n, 1), 1, PivotRow(Steps(n, 1), 1), e);
    var d := Step(Steps(n, 1), 1);
    PartialReductionMisses(c.r2, c.r1);
    StepKeepsSolutions(d, 2, e);
    assert Eliminated(n) == Step(Steps(n, 2), 2) && Steps(n, 2) == d;
  }

  /** For a coefficient matrix, elimination keeps the solution set whatever the right-hand sides
      exactly when it does not distort. */
  lemma KeepsSolutionsIffUndistorted(m: Matrix)
    ensures (forall b: Vector :: SameSolutions(WithRhs(m, b), Eliminated(WithRhs(m, b)))) <==> !Distorts(m)
  {
    if Distorts(m) {
      DistortionLosesASolution(m);
    } else {
      forall b: Vector ensures SameSolutions(WithRhs(m, b), Eliminated(WithRhs(m, b))) {
        DistortionIgnoresRhs(m, WithRhs(m, b));
        EliminationKeepsSolutions(WithRhs(m, b));
      }
    }
  }

  /** Distortion does happen: column 0 is small enough to be skipped and column 1 is not. */
  lemma DistortionHappens()
    ensures Distorts(Matrix(Row(EPSILON, 0.0, 1.0, 0.0), Row(EPSILON, 2.0, 0.0, 0.0), Row(EPSILON, 1.0, 0.0, 0.0)))
  {
    var m := Matrix(Row(EPSILON, 0.0, 1.0, 0.0), Row(EPSILON, 2.0, 0.0, 0.0), Row(EPSILON, 1.0, 0.0, 0.0));
    assert Abs(m.At(0).At(0)) == EPSILON && Abs(m.At(1).At(0)) == EPSILON && Abs(m.At(2).At(0)) == EPSILON;
    assert PivotRow(m, 0) == 0;
    assert Steps(m, 1) == m;
    assert Abs(m.At(1).At(1)) == 2.0 && Abs(m.At(2).At(1)) == 1.0;
    assert PivotRow(m, 1) == 1;
  }

  // ---------------------------------------------------------------- what counts as zero

  predicate CountsAsZero(x: real) {
    -0.00000001 <= x <= 0.00000001
  }

  /** A pivot is skipped exactly when every entry of its column from its row down counts as zero. */
  lemma SkippedIff(m: Matrix, p: int)
    requires 0 <= p < M
    ensures Skips(m, p) <==> forall k :: p <= k < 3 ==> CountsAsZero(m.At(k).At(p))
  {
    var i := PivotRow(m, p);
    assert Abs(m.At(i).At(p)) <= 0.00000001 <==> CountsAsZero(m.At(i).At(p));
    forall k | p <= k < 3 ensures Abs(m.At(k).At(p)) <= 0.00000001 <==> CountsAsZero(m.At(k).At(p)) {
    }
    hide PivotRow, CountsAsZero;
  }

  /** Where row `i` misses its right-hand side. */
  function RowMiss(m: Matrix, i: int, x: Vector): real
    requires 0 <= i < M
  {
    m.At(i).rhs - Dot(m.At(i), x)
  }

  /** Row `i` is met: exactly if it has a pivot, else to within what counts as zero. */
  predicate Met(m: Matrix, i: int, x: Vector)
    requires 0 <= i < M
  {
    CountsAsZero(RowMiss(m, i, x)) && (!CountsAsZero(m.At(i).At(i)) ==> RowMiss(m, i, x) == 0.0)
  }

  /** On an upper triangle what back substitution returns meets every row, the rows with a pivot exactly. */
  lemma BackSubstitutionMeets(m: Matrix)
    requires Cleared(m, 3)
    ensures var s := BackFrom(m, 2, Vector(0.0, 0.0, 0.0));
            s.Some? ==> Met(m, 0, s.value) && Met(m, 1, s.value) && Met(m, 2, s.value)
  {
    hide BackFrom, Met;
    BackFromMeets(m, 2, Vector(0.0, 0.0, 0.0));
  }

  lemma BackFromMeets(m: Matrix, i: int, x: Vector)
    requires Cleared(m, 3) && -1 <= i < M && forall k :: 0 <= k <= i ==> x.At(k) == 0.0
    ensures var s := BackFrom(m, i, x);
            s.Some? ==>
              && (forall k :: i < k < M ==> s.value.At(k) == x.At(k))
              && (forall k :: 0 <= k <= i ==> Met(m, k, s.value))
    decreases i + 1
  {
    hide Met, TailSum, CountsAsZero;
    if i >= 0 {
      var d, rest := m.At(i).At(i), m.At(i).rhs - TailSum(m.At(i), x, i, N - 1);
      CountsIs(d);
      CountsIs(rest);
      var y := if Abs(d) > EPSILON then x.Set(i, Over(rest, d)) else x;
      assert forall k :: 0 <= k < M && k != i ==> y.At(k) == x.At(k);
      BackFromMeets(m, i - 1, y);
      var s := BackFrom(m, i - 1, y);
      if s.Some? && (Abs(d) > EPSILON || Abs(rest) <= EPSILON) {
        RowIsMet(m, i, x, s.value);
      }
    }
  }

  lemma CountsIs(x: real)
    ensures Abs(x) > EPSILON <==> !CountsAsZero(x)
  {}

  lemma RowIsMet(m: Matrix, i: int, x: Vector, y: Vector)
    requires Cleared(m, 3) && 0 <= i < M && forall k :: i < k < M ==> y.At(k) == x.At(k)
    requires var rest := m.At(i).rhs - TailSum(m.At(i), x, i, N - 1);
             if CountsAsZero(m.At(i).At(i)) then y.At(i) == 0.0 && CountsAsZero(rest)
             else y.At(i) == Over(rest, m.At(i).At(i))
    ensures Met(m, i, y)
  {
    RowMissIs(m, i, x, y);
    var d, rest := m.At(i).At(i), m.At(i).rhs - TailSum(m.At(i), x, i, N - 1);
    if !CountsAsZero(d) {
      assert d * Over(rest, d) == rest;
    }
    hide TailSum, RowMiss, CountsAsZero;
    assert CountsAsZero(0.0) by { CountsIs(0.0); }
  }

  lemma RowMissIs(m: Matrix, i: int, x: Vector, y: Vector)
    requires Cleared(m, 3) && 0 <= i < M && forall k :: i < k < M ==> y.At(k) == x.At(k)
    ensures RowMiss(m, i, y) == m.At(i).rhs - TailSum(m.At(i), x, i, N - 1) - m.At(i).At(i) * y.At(i)
  {
    var r := m.At(i);
    if i == 2 {
      assert TailSum(r, x, 2, 3) == 0.0;
    } else if i == 1 {
      assert TailSum(r, x, 1, 3) == Plus(TailSum(r, x, 1, 2), r.c2, x.x2) && TailSum(r, x, 1, 2) == 0.0;
    } else {
      assert TailSum(r, x, 0, 3) == Plus(TailSum(r, x, 0, 2), r.c2, x.x2);
      assert TailSum(r, x, 0, 2) == Plus(TailSum(r, x, 0, 1), r.c1, x.x1) && TailSum(r, x, 0, 1) == 0.0;
    }
  }

  /** With no coefficient at all, the solver returns zeros when every right-hand side counts as zero, and nothing
      otherwise. */
  lemma NoCoefficients(m: Matrix)
    requires NoneAtAll(m)
    ensures Solution(m) == if CountsAsZero(m.r0.rhs) && CountsAsZero(m.r1.rhs) && CountsAsZero(m.r2.rhs)
                           then Some(Vector(0.0, 0.0, 0.0)) else None
  {
    hide Step, BackFrom, CountsAsZero;
    ZerosStay(m, 0);
    ZerosStay(m, 1);
    ZerosStay(m, 2);
    assert Steps(m, 0) == m;
    assert Steps(m, 1) == m;
    assert Steps(m, 2) == m;
    assert Steps(m, 3) == m;
    BackFromZeros(m);
  }

  ghost predicate NoneAtAll(m: Matrix) {
    forall i, j :: 0 <= i < 3 && 0 <= j < 3 ==> m.At(i).At(j) == 0.0
  }

  lemma ZerosStay(m: Matrix, p: int)
    requires 0 <= p < M && NoneAtAll(m)
    ensures Step(m, p) == m
  {
    var i := PivotRow(m, p);
    assert m.At(i).At(p) == 0.0 && m.At(p).At(p) == 0.0;
    assert i == p;
  }

  lemma BackFromZeros(m: Matrix)
    requires NoneAtAll(m)
    ensures BackFrom(m, 2, Vector(0.0, 0.0, 0.0))
            == if CountsAsZero(m.r0.rhs) && CountsAsZero(m.r1.rhs) && CountsAsZero(m.r2.rhs)
               then Some(Vector(0.0, 0.0, 0.0)) else None
  {
    var x := Vector(0.0, 0.0, 0.0);
    forall i | 0 <= i < 3 ensures TailSum(m.At(i), x, i, 3) == 0.0 {
      NoTail(m.At(i), x, i, 3);
    }
    hide TailSum;
    assert m.At(0).At(0) == 0.0 && m.At(1).At(1) == 0.0 && m.At(2).At(2) == 0.0;
    assert BackFrom(m, -1, x) == Some(x);
    CountsIs(m.r0.rhs);
    CountsIs(m.r1.rhs);
    CountsIs(m.r2.rhs);
    hide CountsAsZero;
    assert BackFrom(m, 0, x) == if CountsAsZero(m.r0.rhs) then Some(x) else None;
    assert BackFrom(m, 1, x) == if CountsAsZero(m.r1.rhs) then BackFrom(m, 0, x) else None;
  }

  lemma {:induction false} NoTail(r: Row, x: Vector, i: int, j: int)
    requires 0 <= i < j < N && x == Vector(0.0, 0.0, 0.0)
    ensures TailSum(r, x, i, j) == 0.0
    decreases j
  {
    if j > i + 1 {
      NoTail(r, x, i, j - 1);
    }
  }
}
