/** When the pivots of the autofocus fit are skipped, and what is lost then. */
module LensAdapterPivots {
  import opened Common
  import opened Matrix
  import opened MatrixLaws
  import opened LensAdapter
  import opened LensAdapterLaws

  // ---------------------------------------------------------------- the first pivot

  /** The first column of the normal equations. */
  predicate FirstColumnCounts(t: Sums) {
    t.focus4 >= 1.0 || (t.focus4 == 0.0 && t.focus3 == 0.0 && t.focus2 == 0.0)
  }

  lemma FourthPower(f: int)
    ensures var x := f as real; x * x * x * x >= 0.0 && (f == 0 || x * x * x * x >= 1.0)
  {
    var x := f as real;
    var q := x * x;
    assert f == 0 || q >= 1.0 by {
      if f > 0 {
        assert x * x >= x * 1.0;
      } else if f < 0 {
        assert (-x) * (-x) >= (-x) * 1.0;
      }
    }
    assert x * x * x * x == q * q;
    assert f == 0 || q * q >= q * 1.0;
  }

  lemma {:induction false} FociCount(s: seq<Sample>)
    ensures FirstColumnCounts(SumsOf(s))
  {
    if s != [] {
      FociCount(s[..|s| - 1]);
      FourthPower(s[|s| - 1].focus);
      AddedFocus(SumsOf(s[..|s| - 1]), s[|s| - 1]);
    }
  }

  lemma AddedFocus(t: Sums, p: Sample)
    requires FirstColumnCounts(t)
    requires var x := p.focus as real; x * x * x * x >= 0.0 && (p.focus == 0 || x * x * x * x >= 1.0)
    ensures FirstColumnCounts(t.Add(p))
  {
    var x := p.focus as real;
    var q := x * x * x * x;
    assert t.Add(p).focus4 == t.focus4 + q;
    if p.focus == 0 {
      assert x * x == 0.0 && x * x * x == 0.0;
    }
  }

  /** The foci are integers, so the first column of the normal equations is zero or counts: the fit
      never meets the elimination that changes the solutions. */
  lemma NeverDistorts(s: seq<Sample>)
    ensures !Distorts(NormalEquations(SumsOf(s)))
  {
    var m := NormalEquations(SumsOf(s));
    FociCount(s);
    if SumsOf(s).focus4 >= 1.0 {
      assert Abs(m.At(0).At(0)) <= Abs(m.At(PivotRow(m, 0)).At(0));
      assert Chosen(m, 0).At(0) == m.At(PivotRow(m, 0));
      FirstPivotPreventsDistortion(m);
    } else {
      ZeroColumnStays(m);
    }
  }

  lemma ZeroColumnStays(m: Matrix)
    requires m.r0.c0 == 0.0 && m.r1.c0 == 0.0 && m.r2.c0 == 0.0
    ensures !Distorts(m)
  {
    assert Skips(m, 0) && Steps(m, 1) == Chosen(m, 0);
  }

  // ---------------------------------------------------------------- the foci decide

  function FociOf(s: seq<Sample>): (f: seq<int>)
    ensures |f| == |s| && forall k :: 0 <= k < |s| ==> f[k] == s[k].focus
  {
    seq(|s|, k requires 0 <= k < |s| => s[k].focus)
  }

  /** The solver returns the one least-squares parabola of these samples. */
  ghost predicate FittedUniquely(s: seq<Sample>) {
    var v := Solution(NormalEquations(SumsOf(s)));
    v.Some? && forall w: Vector :: Minimises(s, w) <==> w == v.value
  }

  lemma FittedIsSolved(s: seq<Sample>)
    ensures FittedUniquely(s) <==> SolvedUniquely(NormalEquations(SumsOf(s)))
  {
    forall w: Vector ensures Minimises(s, w) <==> Solves(NormalEquations(SumsOf(s)), w) {
      NormalEquationsCharacteriseLeastSquares(s, w);
    }
    hide Minimises, Solves, NormalEquations, SumsOf, Solution;
  }

  /** Samples at the given foci, of flux focus^(2 - p). */
  function PowerSamples(foci: seq<int>, p: int): (s: seq<Sample>)
    ensures FociOf(s) == foci
  {
    if foci == [] then []
    else
      var n := |foci| - 1;
      var f := foci[n];
      var s := PowerSamples(foci[..n], p) + [Sample(Power(f, p), f)];
      assert FociOf(PowerSamples(foci[..n], p)) == foci[..n];
      assert foci == foci[..n] + [f];
      s
  }

  predicate SameFocusSums(t: Sums, u: Sums) {
    t.focus == u.focus && t.focus2 == u.focus2 && t.focus3 == u.focus3 && t.focus4 == u.focus4 && t.count == u.count
  }

  lemma SameFocusAdded(t: Sums, u: Sums, p: Sample, q: Sample)
    requires SameFocusSums(t, u) && p.focus == q.focus
    ensures SameFocusSums(t.Add(p), u.Add(q))
  {
    hide ProductsOf, Sums.Add;
    AddedProducts(t, p);
    AddedProducts(u, q);
    SameFocusProducts(p, q);
  }

  lemma SameFocusProducts(p: Sample, q: Sample)
    requires p.focus == q.focus
    ensures var a, b := ProductsOf(p), ProductsOf(q); a.f1 == b.f1 && a.f2 == b.f2 && a.f3 == b.f3 && a.f4 == b.f4
  {}

  lemma {:induction false} FociFixTheSums(s: seq<Sample>, t: seq<Sample>)
    requires FociOf(s) == FociOf(t)
    ensures SameFocusSums(SumsOf(s), SumsOf(t))
  {
    hide SameFocusSums, FociOf;
    assert |s| == |FociOf(s)| == |t|;
    if s == [] {
      NothingSummed();
    } else {
      var n := |s| - 1;
      assert forall k :: 0 <= k < |s| ==> s[k].focus == FociOf(s)[k] == t[k].focus;
      assert FociOf(s[..n]) == FociOf(t[..n]);
      FociFixTheSums(s[..n], t[..n]);
      SameFocusAdded(SumsOf(s[..n]), SumsOf(t[..n]), s[n], t[n]);
    }
  }

  lemma NothingSummed()
    ensures SameFocusSums(NO_SUMS, NO_SUMS)
  {}

  /** The flux sums of the power samples are one column of the coefficients. */
  predicate PowerSums(t: Sums, p: int) {
    if p == 0 then t.focus2Flux == t.focus4 && t.fluxFocus == t.focus3 && t.flux == t.focus2
    else if p == 1 then t.focus2Flux == t.focus3 && t.fluxFocus == t.focus2 && t.flux == t.focus
    else t.focus2Flux == t.focus2 && t.fluxFocus == t.focus && t.flux == t.count
  }

  function Power(f: int, p: int): int {
    if p == 0 then f * f else if p == 1 then f else 1
  }

  /** The products a sample adds to the sums. */
  datatype Products = Products(f1: real, f2: real, f3: real, f4: real, y0: real, y1: real, y2: real)

  function ProductsOf(p: Sample): Products {
    var x, y := p.focus as real, p.flux as real;
    Products(x, x * x, x * x * x, x * x * x * x, y, x * y, (x * x) * y)
  }

  predicate Raised(t: Sums, u: Sums, q: Products) {
    && u.count == t.count + 1.0 && u.focus == t.focus + q.f1 && u.focus2 == t.focus2 + q.f2
    && u.focus3 == t.focus3 + q.f3 && u.focus4 == t.focus4 + q.f4
    && u.flux == t.flux + q.y0 && u.fluxFocus == t.fluxFocus + q.y1 && u.focus2Flux == t.focus2Flux + q.y2
  }

  lemma AddedProducts(t: Sums, p: Sample)
    ensures Raised(t, t.Add(p), ProductsOf(p))
  {}

  predicate PowerLike(q: Products, p: int) {
    if p == 0 then q.y0 == q.f2 && q.y1 == q.f3 && q.y2 == q.f4
    else if p == 1 then q.y0 == q.f1 && q.y1 == q.f2 && q.y2 == q.f3
    else q.y0 == 1.0 && q.y1 == q.f1 && q.y2 == q.f2
  }

  lemma PowerProducts(f: int, p: int)
    requires 0 <= p < M
    ensures PowerLike(ProductsOf(Sample(Power(f, p), f)), p)
  {
    if p == 0 {
      SquareAsReal(f);
    }
    Reassociated(f as real);
  }

  lemma RaisedPowers(t: Sums, u: Sums, q: Products, p: int)
    requires 0 <= p < M && PowerSums(t, p) && Raised(t, u, q) && PowerLike(q, p)
    ensures PowerSums(u, p)
  {}

  lemma PowerAdded(t: Sums, f: int, p: int)
    requires 0 <= p < M && PowerSums(t, p)
    ensures PowerSums(t.Add(Sample(Power(f, p), f)), p)
  {
    hide Power, PowerSums, Raised, PowerLike, ProductsOf, Sums.Add;
    var sample := Sample(Power(f, p), f);
    AddedProducts(t, sample);
    PowerProducts(f, p);
    RaisedPowers(t, t.Add(sample), ProductsOf(sample), p);
  }

  lemma SquareAsReal(f: int)
    ensures (f * f) as real == f as real * f as real
  {}

  lemma Reassociated(x: real)
    ensures (x * x) * (x * x) == x * x * x * x && x * (x * x) == x * x * x && (x * x) * x == x * x * x
  {}

  lemma {:induction false} PowerSamplesSums(foci: seq<int>, p: int)
    requires 0 <= p < M
    ensures PowerSums(SumsOf(PowerSamples(foci, p)), p)
  {
    hide Power;
    if foci != [] {
      var n := |foci| - 1;
      var init, s := PowerSamples(foci[..n], p), PowerSamples(foci, p);
      PowerSamplesSums(foci[..n], p);
      assert s[..|s| - 1] == init;
      PowerAdded(SumsOf(init), foci[n], p);
      hide PowerSums;
    }
  }

  lemma PowerSystem(m: Matrix, foci: seq<int>, p: int)
    requires 0 <= p < M && m == NormalEquations(SumsOf(PowerSamples(foci, p)))
    ensures WithRhs(m, RhsFor(m, Unit(p))) == m
  {
    PowerSamplesSums(foci, p);
    var t := SumsOf(PowerSamples(foci, p));
    hide SumsOf;
    assert Dot(m.r0, Unit(p)) == m.r0.At(p) && Dot(m.r1, Unit(p)) == m.r1.At(p) && Dot(m.r2, Unit(p)) == m.r2.At(p);
  }

  lemma SkipsIgnoreRhs(m: Matrix, n: Matrix)
    requires SameCoefficients(m, n)
    ensures NoPivotSkipped(m) <==> NoPivotSkipped(n)
  {
    hide SameCoefficients, Steps, Skips;
    forall p | 0 <= p < M ensures Skips(Steps(m, p), p) == Skips(Steps(n, p), p) {
      StepsIgnoreRhs(m, n, p);
      StepIgnoresRhs(Steps(m, p), Steps(n, p), p);
    }
  }

  /** What is returned for `s` is the one least-squares parabola of the samples its threshold selects. */
  ghost predicate FitsUniquely(s: seq<Sample>) {
    Fit(s).Some? && forall w: Vector :: Minimises(Selected(s), w) <==> w == Fit(s).value
  }

  lemma FitsTheSelection(s: seq<Sample>)
    ensures FitsUniquely(s) <==> FittedUniquely(Selected(s))
  {}

  lemma {:induction false} AllAtLeast(s: seq<Sample>, threshold: real)
    requires forall k :: 0 <= k < |s| ==> s[k].flux as real >= threshold
    ensures AtLeast(s, threshold) == s
  {
    if s != [] {
      AllAtLeast(s[..|s| - 1], threshold);
    }
  }

  /** Every sequence of samples is what the threshold selects when one faint sample is added. */
  lemma EverySequenceIsSelected(t: seq<Sample>) returns (s: seq<Sample>)
    ensures Selected(s) == t
  {
    if t == [] {
      s := [];
    } else {
      var faint := Sample(2 * Faintest(t) - Brightest(t) - 1, 0);
      s := t + [faint];
      FaintSample(t, faint);
      AllAtLeast(t, Threshold(s));
      OneMoreSample(t, faint, Threshold(s));
    }
  }

  lemma FaintSample(t: seq<Sample>, faint: Sample)
    requires t != [] && faint.flux == 2 * Faintest(t) - Brightest(t) - 1
    ensures Threshold(t + [faint]) == Faintest(t) as real - 0.5
  {
    var s := t + [faint];
    assert forall k :: 0 <= k < |t| ==> s[k] == t[k];
    assert s[|t|] == faint;
    var x :| 0 <= x < |t| && t[x].flux == Brightest(t);
    var y :| 0 <= y < |s| && s[y].flux == Brightest(s);
    var z :| 0 <= z < |s| && s[z].flux == Faintest(s);
    var u :| 0 <= u < |t| && t[u].flux == Faintest(t);
    assert s[x].flux <= Brightest(s) && Faintest(s) <= s[|t|].flux;
    hide Brightest, Faintest;
  }

  /** For the foci that the threshold selects: what is returned is the one least-squares parabola whatever
      the samples exactly when no pivot is skipped, which the foci alone decide. */
  lemma FittedForAllFluxesIff(foci: seq<int>)
    ensures (forall s: seq<Sample> :: FociOf(Selected(s)) == foci ==> FitsUniquely(s))
            <==> NoPivotSkipped(NormalEquations(SumsOf(PowerSamples(foci, 2))))
  {
    hide NormalEquations, SumsOf, FittedUniquely, FitsUniquely, SolvedUniquely, Selected;
    var m := NormalEquations(SumsOf(PowerSamples(foci, 2)));
    if NoPivotSkipped(m) {
      forall s: seq<Sample> | FociOf(Selected(s)) == foci ensures FitsUniquely(s) {
        var t := Selected(s);
        SameFociSameCoefficients(t, PowerSamples(foci, 2));
        SkipsIgnoreRhs(NormalEquations(SumsOf(t)), m);
        SolvedWithoutSkips(NormalEquations(SumsOf(t)));
        FittedIsSolved(t);
        FitsTheSelection(s);
      }
    } else {
      var p :| 0 <= p < M && Skips(Steps(m, p), p);
      var t := PowerSamples(foci, p);
      var n := NormalEquations(SumsOf(t));
      SameFociSameCoefficients(PowerSamples(foci, 2), t);
      StepsIgnoreRhs(m, n, p);
      StepIgnoresRhs(Steps(m, p), Steps(n, p), p);
      PowerSystem(n, foci, p);
      SkippedPivotFails(n, p);
      FittedIsSolved(t);
      var s := EverySequenceIsSelected(t);
      FitsTheSelection(s);
    }
  }

  lemma SameFociSameCoefficients(s: seq<Sample>, t: seq<Sample>)
    requires FociOf(s) == FociOf(t)
    ensures SameCoefficients(NormalEquations(SumsOf(s)), NormalEquations(SumsOf(t)))
  {
    FociFixTheSums(s, t);
    hide SumsOf;
  }

  lemma SolvedWithoutSkips(m: Matrix)
    requires NoPivotSkipped(m)
    ensures SolvedUniquely(m)
  {
    hide NoPivotSkipped, Solution, Solves;
    forall y: Vector ensures Solution(m).Some? && (Solves(m, y) <==> y == Solution(m).value) {
      SolverIsExact(m, y);
    }
    SolverIsExact(m, Vector(0.0, 0.0, 0.0));
  }

  // ---------------------------------------------------------------- a peak the fit refuses

  /** Three foci around a peak of flux 10 at 3000, and one sample away from it. */
  const PEAK := [Sample(0, 2990), Sample(9, 2999), Sample(10, 3000), Sample(9, 3001)]
  const PEAK_TOP := PEAK[1..]
  const PEAK_PARABOLA := Vector(-1.0, 6000.0, -8999990.0)

  lemma PeakThreshold()
    ensures Threshold(PEAK) == 5.0
  {
    var s := PEAK;
    assert Brightest(s) == 10 by {
      var i :| 0 <= i < |s| && s[i].flux == Brightest(s);
      assert s[2].flux <= Brightest(s);
    }
    assert Faintest(s) == 0 by {
      var i :| 0 <= i < |s| && s[i].flux == Faintest(s);
      assert Faintest(s) <= s[0].flux;
    }
  }

  lemma OneMoreSample(s: seq<Sample>, p: Sample, threshold: real)
    ensures AtLeast(s + [p], threshold)
            == if p.flux as real >= threshold then AtLeast(s, threshold) + [p] else AtLeast(s, threshold)
  {
    assert (s + [p])[..|s|] == s;
  }

  lemma PeakSelection()
    ensures Selected(PEAK) == PEAK_TOP
  {
    PeakThreshold();
    hide AtLeast, Threshold;
    var a, b, c, d := Sample(0, 2990), Sample(9, 2999), Sample(10, 3000), Sample(9, 3001);
    NoSamples(5.0);
    OneMoreSample([], a, 5.0);
    OneMoreSample([a], b, 5.0);
    OneMoreSample([a, b], c, 5.0);
    OneMoreSample([a, b, c], d, 5.0);
    assert [] + [a] == [a] && [a] + [b] == [a, b] && [a, b] + [c] == [a, b, c] && [a, b, c] + [d] == PEAK;
    assert AtLeast(PEAK, 5.0) == [] + [b] + [c] + [d] == PEAK_TOP;
  }

  lemma NoSamples(threshold: real)
    ensures AtLeast([], threshold) == []
  {}

  /** The augmented matrix, and what the elimination makes of it: no exchange, and a third pivot of
      less than EPSILON in an equation whose right-hand side is not. */
  const PEAK_ZERO := Matrix(Row(243000108000002.0, 81000018000.0, 27000002.0, 252000018.0),
                            Row(81000018000.0, 27000002.0, 9000.0, 84000.0),
                            Row(27000002.0, 9000.0, 3.0, 28.0))
  const D := 121500054000001.0
  const E := 121499986500001.0
  const PEAK_ONE := Matrix(PEAK_ZERO.r0,
                           Row(0.0, 242999973000002.0 / D, 161999991000.0 / D, 1538999922000.0 / D),
                           Row(0.0, 161999991000.0 / D, 108000001.0 / D, 1017000010.0 / D))
  const PEAK_TWO := Matrix(PEAK_ONE.r0, PEAK_ONE.r1, Row(0.0, 0.0, 1.0 / E, -8999990.0 / E))

  lemma PeakSums()
    ensures NormalEquations(SumsOf(PEAK_TOP)) == PEAK_ZERO
  {
    var s := PEAK_TOP;
    assert s[..2][..1] == s[..1] && s[..1][..0] == [];
    assert SumsOf(s[..1]) == NO_SUMS.Add(s[0]);
    assert SumsOf(s[..2]) == NO_SUMS.Add(s[0]).Add(s[1]);
    assert SumsOf(s) == NO_SUMS.Add(s[0]).Add(s[1]).Add(s[2]);
  }

  lemma PeakFirstPivot()
    ensures Chosen(PEAK_ZERO, 0) == PEAK_ZERO && !Skips(PEAK_ZERO, 0)
  {
    var m := PEAK_ZERO;
    assert Abs(m.At(0).At(0)) == 243000108000002.0;
    assert Abs(m.At(1).At(0)) == 81000018000.0 && Abs(m.At(2).At(0)) == 27000002.0;
    assert PivotRow(m, 0) == 0;
  }

  lemma PeakSecondRow()
    ensures Reduced(PEAK_ZERO.r1, PEAK_ZERO.r0, 0) == PEAK_ONE.r1
  {
    assert PEAK_ZERO.r1.c0 / PEAK_ZERO.r0.c0 == 40500009000.0 / D;
  }

  lemma PeakThirdRow()
    ensures Reduced(PEAK_ZERO.r2, PEAK_ZERO.r0, 0) == PEAK_ONE.r2
  {
    assert PEAK_ZERO.r2.c0 / PEAK_ZERO.r0.c0 == 13500001.0 / D;
  }

  lemma PeakFirstStep()
    ensures Step(PEAK_ZERO, 0) == PEAK_ONE
  {
    PeakFirstPivot();
    PeakSecondRow();
    PeakThirdRow();
    hide Reduced, Chosen, Skips;
  }

  lemma PeakSecondStep()
    ensures Step(PEAK_ONE, 1) == PEAK_TWO
  {
    var m := PEAK_ONE;
    assert PivotRow(m, 1) == 1 by {
      assert Abs(m.At(1).At(1)) == 242999973000002.0 / D > 161999991000.0 / D == Abs(m.At(2).At(1));
    }
    assert Chosen(m, 1) == m;
    assert m.r2.c1 / m.r1.c1 == 80999995500.0 / E;
  }

  lemma PeakThirdStep()
    ensures Step(PEAK_TWO, 2) == PEAK_TWO && Skips(PEAK_TWO, 2)
    ensures BackFrom(PEAK_TWO, 2, Vector(0.0, 0.0, 0.0)) == None
  {
    var m := PEAK_TWO;
    assert Chosen(m, 2) == m;
    assert Abs(m.At(2).At(2)) == 1.0 / E <= EPSILON;
    assert Abs(m.At(2).rhs) == 8999990.0 / E > EPSILON;
  }

  /** The samples at the peak determine one parabola, but it is refused: a pivot is skipped. */
  lemma PeakIsRefused(v: Vector)
    ensures Minimises(Selected(PEAK), v) <==> v == PEAK_PARABOLA
    ensures Solves(NormalEquations(SumsOf(Selected(PEAK))), v) <==> v == PEAK_PARABOLA
    ensures !NoPivotSkipped(NormalEquations(SumsOf(Selected(PEAK)))) && Fit(PEAK) == None
  {
    PeakSelection();
    PeakIsDetermined(v);
    NormalEquationsCharacteriseLeastSquares(PEAK_TOP, v);
    PeakSums();
    PeakFirstStep();
    PeakSecondStep();
    PeakThirdStep();
    hide Step, Skips, SumsOf, NormalEquations, Minimises, Solves, Selected, BackFrom;
    assert Steps(PEAK_ZERO, 1) == PEAK_ONE by { assert Steps(PEAK_ZERO, 0) == PEAK_ZERO; }
    assert Steps(PEAK_ZERO, 2) == PEAK_TWO;
    assert Eliminated(PEAK_ZERO) == PEAK_TWO;
    assert Skips(Steps(PEAK_ZERO, 2), 2);
  }

  lemma PeakIsDetermined(v: Vector)
    ensures Minimises(PEAK_TOP, v) <==> v == PEAK_PARABOLA
  {
    PeakSsr(v);
    PeakSsr(PEAK_PARABOLA);
    if Minimises(PEAK_TOP, v) {
      assert Ssr(PEAK_TOP, v) <= Ssr(PEAK_TOP, PEAK_PARABOLA);
    }
    forall w: Vector ensures Ssr(PEAK_TOP, w) >= 0.0 {
      PeakSsr(w);
    }
    hide Ssr;
    assert Ssr(PEAK_TOP, PEAK_PARABOLA) == 0.0;
  }

  /** The sum of squares vanishes at the parabola through the three samples and nowhere else. */
  lemma PeakSsr(v: Vector)
    ensures Ssr(PEAK_TOP, v) >= 0.0 && (Ssr(PEAK_TOP, v) <= 0.0 <==> v == PEAK_PARABOLA)
  {
    var a, b, c := PEAK_TOP[0], PEAK_TOP[1], PEAK_TOP[2];
    SsrOfThree(a, b, c, v);
    SquareIsPositive(Residual(a, v));
    SquareIsPositive(Residual(b, v));
    SquareIsPositive(Residual(c, v));
    PeakResiduals(v);
    ZeroSquared();
    hide Square, Residual, Ssr;
    assert PEAK_TOP == [a, b, c];
  }

  lemma ZeroSquared()
    ensures Square(0.0) == 0.0
  {}

  lemma SsrOfThree(a: Sample, b: Sample, c: Sample, v: Vector)
    ensures Ssr([a, b, c], v) == Square(Residual(a, v)) + Square(Residual(b, v)) + Square(Residual(c, v))
  {
    hide Square, Residual;
    var s := [a, b, c];
    assert s[..2] == [a, b] && s[..2][..1] == [a] && s[..1][..0] == [];
    assert [a][..0] == [] && [a, b][..1] == [a];
    assert Ssr([a], v) == Square(Residual(a, v));
    assert Ssr([a, b], v) == Ssr([a], v) + Square(Residual(b, v));
  }

  lemma PeakResiduals(v: Vector)
    ensures (Residual(PEAK_TOP[0], v) == 0.0 && Residual(PEAK_TOP[1], v) == 0.0 && Residual(PEAK_TOP[2], v) == 0.0)
            <==> v == PEAK_PARABOLA
  {}
}
