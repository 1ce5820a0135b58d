/** The fit is the least-squares parabola, and the focus reported is the best one on it. */
module LensAdapterLaws {
  import opened Common
  import opened Matrix
  import MatrixLaws
  import opened LensAdapter

  // ---------------------------------------------------------------- which samples are fitted

  /** Every sample reaching the threshold is kept with its multiplicity, and no other is. */
  lemma AtLeastKeepsExactly(s: seq<Sample>, threshold: real, p: Sample)
    ensures multiset(AtLeast(s, threshold))[p] == if p.flux as real >= threshold then multiset(s)[p] else 0
  {
    if s != [] {
      AtLeastKeepsExactly(s[..|s| - 1], threshold, p);
      assert s == s[..|s| - 1] + [s[|s| - 1]];
    }
  }

  /** The lowest and the highest flux of the samples. */
  ghost predicate Spans(s: seq<Sample>, lo: int, hi: int) {
    && (forall p <- s :: lo <= p.flux <= hi)
    && (exists p <- s :: p.flux == lo) && (exists p <- s :: p.flux == hi)
  }

  /** The fit uses each sample that is no farther from the highest flux than from the lowest, as often as it
      occurs, and no other. */
  lemma TheUpperHalfIsSelected(s: seq<Sample>, lo: int, hi: int, p: Sample)
    requires Spans(s, lo, hi)
    ensures multiset(Selected(s))[p] == if hi - p.flux <= p.flux - lo then multiset(s)[p] else 0
  {
    hide Brightest, Faintest, AtLeast;
    assert s != [];
    assert Brightest(s) == hi && Faintest(s) == lo;
    AtLeastKeepsExactly(s, Threshold(s), p);
  }

  // ---------------------------------------------------------------- residuals

  function Parabola(v: Vector, x: real): real {
    v.x0 * (x * x) + v.x1 * x + v.x2
  }

  function Residual(p: Sample, v: Vector): real {
    p.flux as real - Parabola(v, p.focus as real)
  }

  function Square(x: real): real {
    x * x
  }

  function Times(x: real, y: real): real {
    x * y
  }

  /** Sum of squared residuals of the parabola `v` over `s`. */
  function Ssr(s: seq<Sample>, v: Vector): real {
    if s == [] then 0.0 else Ssr(s[..|s| - 1], v) + Square(Residual(s[|s| - 1], v))
  }

  /** Sum over `s` of the squared values of the parabola `d`. */
  function Energy(s: seq<Sample>, d: Vector): real {
    if s == [] then 0.0 else Energy(s[..|s| - 1], d) + Square(Parabola(d, s[|s| - 1].focus as real))
  }

  /** How far row `i` of the normal equations is from holding at `v`. */
  function Defect(r: Row, v: Vector): real {
    r.rhs - Dot(r, v)
  }

  function Defects(m: Matrix, v: Vector): Vector {
    Vector(Defect(m.r0, v), Defect(m.r1, v), Defect(m.r2, v))
  }

  function Inner(d: Vector, g: Vector): real {
    d.x0 * g.x0 + d.x1 * g.x1 + d.x2 * g.x2
  }

  function Slope(m: Matrix, v: Vector, d: Vector): real {
    Inner(d, Defects(m, v))
  }

  function Shift(v: Vector, d: Vector): Vector {
    Vector(v.x0 + d.x0, v.x1 + d.x1, v.x2 + d.x2)
  }

  function Scaled(d: Vector, k: real): Vector {
    Vector(k * d.x0, k * d.x1, k * d.x2)
  }

  function RowSum(r: Row, q: Row): Row {
    Row(r.c0 + q.c0, r.c1 + q.c1, r.c2 + q.c2, r.rhs + q.rhs)
  }

  /** What one sample adds to a row of the normal equations. */
  function PointRow(p: Sample, g: real): Row {
    var f, y := p.focus as real, p.flux as real;
    Row(g * f * f, g * f, g, g * y)
  }

  lemma DefectOfSum(r: Row, q: Row, v: Vector)
    ensures Defect(RowSum(r, q), v) == Defect(r, v) + Defect(q, v)
  {}

  lemma DefectOfOne(p: Sample, g: real, v: Vector)
    ensures Defect(PointRow(p, g), v) == Times(g, Residual(p, v))
  {
    var f, y := p.focus as real, p.flux as real;
    assert g * Parabola(v, f) == g * (v.x0 * (f * f)) + g * (v.x1 * f) + g * v.x2;
    assert g * (v.x0 * (f * f)) == (g * f * f) * v.x0;
    assert g * (v.x1 * f) == (g * f) * v.x1;
  }

  lemma RowsOfOneMore(t: Sums, p: Sample)
    ensures var f, m := p.focus as real, NormalEquations(t);
            NormalEquations(t.Add(p)) == Matrix(RowSum(m.r0, PointRow(p, f * f)), RowSum(m.r1, PointRow(p, f)),
                                                RowSum(m.r2, PointRow(p, 1.0)))
  {
    var f, y := p.focus as real, p.flux as real;
    assert 1.0 * f * f == f * f && 1.0 * f == f && 1.0 * y == y;
  }

  lemma DefectOfOneMoreRow(r: Row, p: Sample, g: real, v: Vector)
    ensures Defect(RowSum(r, PointRow(p, g)), v) == Defect(r, v) + Times(g, Residual(p, v))
  {
    hide Residual, Defect, RowSum, PointRow, Times;
    DefectOfSum(r, PointRow(p, g), v);
    DefectOfOne(p, g, v);
  }

  /** One more sample adds its residual, times the step's value at it, to the slope. */
  lemma SlopeOfOneMore(t: Sums, p: Sample, v: Vector, d: Vector)
    ensures Slope(NormalEquations(t.Add(p)), v, d)
            == Slope(NormalEquations(t), v, d) + Parabola(d, p.focus as real) * Residual(p, v)
  {
    var f, e, m := p.focus as real, Residual(p, v), NormalEquations(t);
    RowsOfOneMore(t, p);
    DefectOfOneMoreRow(m.r0, p, f * f, v);
    DefectOfOneMoreRow(m.r1, p, f, v);
    DefectOfOneMoreRow(m.r2, p, 1.0, v);
    SlopeStep(Defects(m, v), d, f, e);
    assert Defects(NormalEquations(t.Add(p)), v)
        == Shift(Defects(m, v), Vector(Times(f * f, e), Times(f, e), Times(1.0, e))) by {
      hide Residual, Defect, RowSum, PointRow, Times;
    }
  }

  lemma SlopeStep(g: Vector, d: Vector, f: real, e: real)
    ensures Inner(d, Shift(g, Vector(Times(f * f, e), Times(f, e), Times(1.0, e)))) == Inner(d, g) + Parabola(d, f) * e
  {
    assert d.x0 * (f * f * e) + d.x1 * (f * e) + d.x2 * e == (d.x0 * (f * f) + d.x1 * f + d.x2) * e;
  }

  lemma ResidualOfShift(p: Sample, v: Vector, d: Vector)
    ensures Residual(p, Shift(v, d)) == Residual(p, v) - Parabola(d, p.focus as real)
  {}

  lemma SquareOfDifference(e: real, g: real)
    ensures Square(e - g) == Square(e) - 2.0 * (g * e) + Square(g)
  {}

  lemma SlopeOfNothing(v: Vector, d: Vector)
    ensures Slope(NormalEquations(NO_SUMS), v, d) == 0.0
  {}

  /** Moving a parabola by `d` changes its sum of squares by a linear term, given by the normal
      equations, and the energy of `d`. */
  lemma {:induction false} SsrOfShift(s: seq<Sample>, v: Vector, d: Vector)
    ensures Ssr(s, Shift(v, d)) == Ssr(s, v) - 2.0 * Slope(NormalEquations(SumsOf(s)), v, d) + Energy(s, d)
  {
    hide Square, Parabola, Residual, Slope, Shift, NormalEquations;
    if s == [] {
      SlopeOfNothing(v, d);
    } else {
      var p, rest := s[|s| - 1], s[..|s| - 1];
      SsrOfShift(rest, v, d);
      SlopeOfOneMore(SumsOf(rest), p, v, d);
      ResidualOfShift(p, v, d);
      SquareOfDifference(Residual(p, v), Parabola(d, p.focus as real));
    }
  }

  lemma {:induction false} EnergyIsNonnegative(s: seq<Sample>, d: Vector)
    ensures Energy(s, d) >= 0.0
  {
    if s != [] {
      EnergyIsNonnegative(s[..|s| - 1], d);
    }
  }

  lemma ParabolaOfScaled(d: Vector, k: real, x: real)
    ensures Parabola(Scaled(d, k), x) == k * Parabola(d, x)
  {
    assert (k * d.x0) * (x * x) == k * (d.x0 * (x * x));
    assert (k * d.x1) * x == k * (d.x1 * x);
  }

  lemma PositiveProduct(x: real, y: real, z: real)
    requires x > 0.0 && y > 0.0 && z == x * y
    ensures z > 0.0
  {}

  lemma SquareIsPositive(x: real)
    ensures x == 0.0 || Square(x) > 0.0
  {
    if x > 0.0 {
      PositiveProduct(x, x, Square(x));
    } else if x < 0.0 {
      PositiveProduct(-x, -x, Square(x));
    }
  }

  lemma SquareOfProduct(k: real, g: real)
    ensures Square(k * g) == k * k * Square(g)
  {
    assert (k * g) * (k * g) == k * (g * (k * g));
    assert g * (k * g) == k * (g * g);
  }

  lemma SquareOfScaled(d: Vector, k: real, x: real)
    ensures Square(Parabola(Scaled(d, k), x)) == Times(Square(k), Square(Parabola(d, x)))
  {
    ParabolaOfScaled(d, k, x);
    SquareOfProduct(k, Parabola(d, x));
  }

  lemma Distribute(k: real, x: real, y: real)
    ensures Times(k, x + y) == Times(k, x) + Times(k, y)
    ensures Times(k, 0.0) == 0.0
  {}

  lemma {:induction false} EnergyOfScaled(s: seq<Sample>, d: Vector, k: real)
    ensures Energy(s, Scaled(d, k)) == Times(Square(k), Energy(s, d))
  {
    hide Square, Parabola, Scaled, Times;
    if s == [] {
      Distribute(Square(k), 0.0, 0.0);
    } else {
      var rest, f := s[..|s| - 1], s[|s| - 1].focus as real;
      EnergyOfScaled(rest, d, k);
      SquareOfScaled(d, k, f);
      Distribute(Square(k), Energy(rest, d), Square(Parabola(d, f)));
    }
  }

  ghost predicate Minimises(s: seq<Sample>, v: Vector) {
    forall w: Vector :: Ssr(s, v) <= Ssr(s, w)
  }

  lemma SolutionsMinimise(s: seq<Sample>, v: Vector)
    requires Solves(NormalEquations(SumsOf(s)), v)
    ensures Minimises(s, v)
  {
    forall w: Vector ensures Ssr(s, v) <= Ssr(s, w) {
      var d := Vector(w.x0 - v.x0, w.x1 - v.x1, w.x2 - v.x2);
      assert Shift(v, d) == w;
      SsrOfShift(s, v, d);
      EnergyIsNonnegative(s, d);
    }
  }

  /** A step down the defects lowers the sum of squares when it is short enough. */
  lemma StepDown(g: real, q: real, k: real)
    requires g > 0.0 && q >= 0.0 && k == g / (q + 1.0)
    ensures -2.0 * Times(k, g) + Times(Square(k), q) < 0.0
  {
    assert k > 0.0;
    assert k * (q + 1.0) == g;
    assert k * q < g;
    assert k * (k * q) < k * g;
    assert k * k * q == k * (k * q);
  }

  function Length2(d: Vector): real {
    Square(d.x0) + Square(d.x1) + Square(d.x2)
  }

  lemma SlopeAlongDefects(m: Matrix, v: Vector, k: real)
    ensures Slope(m, v, Scaled(Defects(m, v), k)) == Times(k, Length2(Defects(m, v)))
  {
    var d := Defects(m, v);
    assert (k * d.x0) * d.x0 == k * (d.x0 * d.x0);
    assert (k * d.x1) * d.x1 == k * (d.x1 * d.x1);
    assert (k * d.x2) * d.x2 == k * (d.x2 * d.x2);
  }

  lemma SquaresVanish(x: real, y: real, z: real)
    requires Square(x) + Square(y) + Square(z) <= 0.0
    ensures x == 0.0 && y == 0.0 && z == 0.0
  {
    SquareIsPositive(x);
    SquareIsPositive(y);
    SquareIsPositive(z);
  }

  lemma LowerParabola(s: seq<Sample>, v: Vector)
    requires Length2(Defects(NormalEquations(SumsOf(s)), v)) > 0.0
    ensures exists w: Vector :: Ssr(s, w) < Ssr(s, v)
  {
    hide Square, Times, Length2, Scaled, Slope, Energy, Ssr, Shift;
    var m := NormalEquations(SumsOf(s));
    var d := Defects(m, v);
    var g, q := Length2(d), Energy(s, d);
    EnergyIsNonnegative(s, d);
    var k := g / (q + 1.0);
    StepDown(g, q, k);
    EnergyOfScaled(s, d, k);
    SlopeAlongDefects(m, v, k);
    SsrOfShift(s, v, Scaled(d, k));
    assert Ssr(s, Shift(v, Scaled(d, k))) < Ssr(s, v);
  }

  lemma MinimisersSolve(s: seq<Sample>, v: Vector)
    requires Minimises(s, v)
    ensures Solves(NormalEquations(SumsOf(s)), v)
  {
    var d := Defects(NormalEquations(SumsOf(s)), v);
    if Length2(d) > 0.0 {
      LowerParabola(s, v);
    }
    SquaresVanish(d.x0, d.x1, d.x2);
  }

  /** The normal equations `quadRegression` sets up hold at exactly the least-squares parabolas. */
  lemma NormalEquationsCharacteriseLeastSquares(s: seq<Sample>, v: Vector)
    ensures Solves(NormalEquations(SumsOf(s)), v) <==> Minimises(s, v)
  {
    if Solves(NormalEquations(SumsOf(s)), v) {
      SolutionsMinimise(s, v);
    }
    if Minimises(s, v) {
      MinimisersSolve(s, v);
    }
  }

  /** With no pivot skipped, the coefficients returned are the one least-squares parabola through
      the selected samples. */
  lemma FitIsTheLeastSquaresParabola(s: seq<Sample>, v: Vector)
    requires NoPivotSkipped(NormalEquations(SumsOf(Selected(s))))
    ensures Fit(s).Some? && (Minimises(Selected(s), v) <==> v == Fit(s).value)
  {
    MatrixLaws.SolverIsExact(NormalEquations(SumsOf(Selected(s))), v);
    NormalEquationsCharacteriseLeastSquares(Selected(s), v);
  }

  // ---------------------------------------------------------------- the vertex

  lemma Vertex(v: Vector, x: real)
    requires v.x0 < 0.0
    ensures var top := VertexOf(v.x0, v.x1); Parabola(v, x) == Parabola(v, top) + v.x0 * Square(x - top)
  {
    var a, b, top := v.x0, v.x1, VertexOf(v.x0, v.x1);
    assert 2.0 * a * top == -b;
    assert b * x == -2.0 * a * top * x && b * top == -2.0 * a * top * top;
    assert a * Square(x - top) == a * (x * x) - 2.0 * a * top * x + a * (top * top) by {
      assert Square(x - top) == x * x - 2.0 * (top * x) + top * top;
    }
  }

  lemma SquareIsMonotone(d: real, e: real)
    requires Abs(d) <= Abs(e)
    ensures Square(d) <= Square(e)
  {
    var x, y := Abs(d), Abs(e);
    assert x * x <= y * x;
    assert y * x <= y * y;
    assert d * d == x * x && e * e == y * y;
  }

  lemma CloserIsHigher(a: real, d: real, e: real)
    requires a < 0.0 && Abs(d) <= Abs(e)
    ensures a * Square(d) >= a * Square(e)
  {
    SquareIsMonotone(d, e);
    NegativeTimes(a, Square(d), Square(e));
  }

  lemma NegativeTimes(a: real, x: real, y: real)
    requires a < 0.0 && x <= y
    ensures a * x >= a * y
  {}

  lemma RoundIsNearest(x: real, k: int)
    ensures Abs(Round(x) as real - x) <= Abs(k as real - x)
  {
    var r := Round(x);
    assert -0.5 <= r as real - x <= 0.5;
    if k > r {
      assert k as real >= r as real + 1.0;
    } else if k < r {
      assert k as real <= r as real - 1.0;
    }
  }

  lemma NearestIsHighest(v: Vector, k: int)
    requires v.x0 < 0.0
    ensures Parabola(v, k as real) <= Parabola(v, OptimalFocus(v.x0, v.x1) as real)
  {
    hide Parabola, Square, Round, VertexOf, Abs;
    var top := VertexOf(v.x0, v.x1);
    Vertex(v, k as real);
    Vertex(v, Round(top) as real);
    RoundIsNearest(top, k);
    CloserIsHigher(v.x0, Round(top) as real - top, k as real - top);
  }

  /** Where the fit opens downward, the focus returned is the best integer focus on it, and the
      unrounded vertex the best of all; where it does not, the out-of-range mark is returned. */
  lemma OptimalFocusIsBest(v: Vector, x: real, k: int)
    ensures v.x0 < 0.0 ==> Parabola(v, x) <= Parabola(v, VertexOf(v.x0, v.x1))
    ensures v.x0 < 0.0 ==> Parabola(v, k as real) <= Parabola(v, OptimalFocus(v.x0, v.x1) as real)
    ensures v.x0 >= 0.0 ==> OptimalFocus(v.x0, v.x1) == -1000
  {
    hide Parabola, VertexOf;
    if v.x0 < 0.0 {
      NearestIsHighest(v, k);
      Vertex(v, x);
      CloserIsHigher(v.x0, 0.0, x - VertexOf(v.x0, v.x1));
    }
  }

  // ---------------------------------------------------------------- halves

  lemma RoundIsOdd(x: real)
    ensures Round(-x) == -Round(x)
  {}

  /** Halves are rounded away from zero. */
  lemma HalvesGoAwayFromZero(x: real)
    ensures Abs(Round(x) as real - x) == 0.5 ==> Abs(Round(x) as real) > Abs(x)
  {}

  function Height(v: Vector, k: int): real {
    Parabola(v, k as real)
  }

  /** No integer focus is higher on the fit. */
  ghost predicate Highest(v: Vector, k: int) {
    forall m: int :: Height(v, m) <= Height(v, k)
  }

  lemma HigherIsCloser(a: real, d: real, e: real)
    requires a < 0.0 && a * Square(d) >= a * Square(e)
    ensures Abs(d) <= Abs(e)
  {
    if Abs(d) > Abs(e) {
      var x, y := Abs(d), Abs(e);
      var z := x * x - y * y;
      assert Square(d) == x * x && Square(e) == y * y;
      assert z == (x - y) * (x + y);
      PositiveProduct(x - y, x + y, z);
      PositiveProduct(-a, z, -a * z);
      assert false;
    }
  }

  /** A highest integer focus is within a half of the vertex. */
  lemma HighestIsNear(v: Vector, k: int)
    requires v.x0 < 0.0 && Highest(v, k)
    ensures Abs(k as real - VertexOf(v.x0, v.x1)) <= 0.5
    ensures Abs(k as real - VertexOf(v.x0, v.x1)) <= Abs(Round(VertexOf(v.x0, v.x1)) as real - VertexOf(v.x0, v.x1))
  {
    var top := VertexOf(v.x0, v.x1);
    RoundIsWithinAHalf(top);
    hide Parabola, Square, Round, VertexOf, Abs;
    assert Height(v, Round(top)) <= Height(v, k);
    Vertex(v, k as real);
    Vertex(v, Round(top) as real);
    HigherIsCloser(v.x0, k as real - top, Round(top) as real - top);
  }

  lemma RoundIsWithinAHalf(x: real)
    ensures Abs(Round(x) as real - x) <= 0.5
  {}

  /** Of two integer foci that are both highest on the fit, the one returned is the one farther from zero. */
  lemma TiesGoAwayFromZero(v: Vector, j: int, k: int)
    requires v.x0 < 0.0 && j != k && Highest(v, j) && Highest(v, k)
    ensures OptimalFocus(v.x0, v.x1) == (if Abs(j as real) > Abs(k as real) then j else k)
    ensures Abs(j as real) != Abs(k as real)
  {
    var top := VertexOf(v.x0, v.x1);
    HighestIsNear(v, j);
    HighestIsNear(v, k);
    RoundIsWithinAHalf(top);
    HalvesGoAwayFromZero(top);
    hide Highest, VertexOf, Round;
    BothHalfAway(j, k, top);
    var r := Round(top);
    assert r == j || r == k;
  }

  lemma BothHalfAway(j: int, k: int, top: real)
    requires j != k && Abs(j as real - top) <= 0.5 && Abs(k as real - top) <= 0.5
    ensures (j == k + 1 && top == k as real + 0.5) || (k == j + 1 && top == j as real + 0.5)
  {
    if j > k {
      assert j as real >= k as real + 1.0;
    } else {
      assert k as real >= j as real + 1.0;
    }
  }
}
