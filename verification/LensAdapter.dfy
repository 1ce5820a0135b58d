/** The autofocus fit of Oph/src/lens_adapter.c: normal equations over the bright samples, solved by
    Gaussian elimination, and the vertex of the fitted parabola. Doubles are modelled as reals. */
module LensAdapter {
  import opened Common
  import opened Matrix

  datatype Sample = Sample(flux: int, focus: int)

  function Brightest(s: seq<Sample>): (r: int)
    requires s != []
    ensures forall i :: 0 <= i < |s| ==> s[i].flux <= r
    ensures exists i :: 0 <= i < |s| && s[i].flux == r
  {
    var k := |s| - 1;
    if k == 0 then s[0].flux
    else
      var r := Brightest(s[..k]);
      assert exists i :: 0 <= i < k && s[..k][i].flux == r;
      if s[k].flux > r then s[k].flux else r
  }

  function Faintest(s: seq<Sample>): (r: int)
    requires s != []
    ensures forall i :: 0 <= i < |s| ==> r <= s[i].flux
    ensures exists i :: 0 <= i < |s| && s[i].flux == r
  {
    var k := |s| - 1;
    if k == 0 then s[0].flux
    else
      var r := Faintest(s[..k]);
      assert exists i :: 0 <= i < k && s[..k][i].flux == r;
      if s[k].flux < r then s[k].flux else r
  }

  function Threshold(s: seq<Sample>): real
    requires s != []
  {
    (Brightest(s) as real + Faintest(s) as real) / 2.0
  }

  function AtLeast(s: seq<Sample>, threshold: real): seq<Sample> {
    if s == [] then []
    else
      var k := |s| - 1;
      if s[k].flux as real >= threshold then AtLeast(s[..k], threshold) + [s[k]] else AtLeast(s[..k], threshold)
  }

  /** The samples the fit uses: those at least half way up from the faintest to the brightest. */
  function Selected(s: seq<Sample>): seq<Sample> {
    if s == [] then [] else AtLeast(s, Threshold(s))
  }

  lemma BrightestOneMore(s: seq<Sample>, i: nat)
    requires i < |s|
    ensures Brightest(s[..i + 1]) == if i == 0 || s[i].flux > Brightest(s[..i]) then s[i].flux else Brightest(s[..i])
  {
    assert s[..i + 1][..i] == s[..i];
  }

  lemma FaintestOneMore(s: seq<Sample>, i: nat)
    requires i < |s|
    ensures Faintest(s[..i + 1]) == if i == 0 || s[i].flux < Faintest(s[..i]) then s[i].flux else Faintest(s[..i])
  {
    assert s[..i + 1][..i] == s[..i];
  }

  // ---------------------------------------------------------------- normal equations

  datatype Sums = Sums(focus: real, flux: real, focus2: real, focus3: real, focus4: real,
                       fluxFocus: real, focus2Flux: real, count: real) {
    function Add(p: Sample): Sums {
      var f, y := p.focus as real, p.flux as real;
      Sums(focus + f, flux + y, focus2 + f * f, focus3 + f * f * f, focus4 + f * f * f * f,
           fluxFocus + f * y, focus2Flux + (f * f) * y, count + 1.0)
    }
  }

  const NO_SUMS := Sums(0.0, 0.0, 0.0, 0.0, 0.0, 0.0, 0.0, 0.0)

  function SumsOf(s: seq<Sample>): Sums {
    if s == [] then NO_SUMS else SumsOf(s[..|s| - 1]).Add(s[|s| - 1])
  }

  lemma NoneSelected()
    ensures SumsOf(Selected([])) == NO_SUMS
  {}

  function NormalEquations(t: Sums): Matrix {
    Matrix(Row(t.focus4, t.focus3, t.focus2, t.focus2Flux),
           Row(t.focus3, t.focus2, t.focus, t.fluxFocus),
           Row(t.focus2, t.focus, t.count, t.flux))
  }

  /** The coefficients the fit reports for `s`, `None` where it reports failure. */
  function Fit(s: seq<Sample>): Option<Vector> {
    Solution(NormalEquations(SumsOf(Selected(s))))
  }

  // ---------------------------------------------------------------- vertex

  /** C's `round`: to the nearest integer, halves away from zero. */
  function Round(x: real): int {
    if x >= 0.0 then (x + 0.5).Floor else -((-x + 0.5).Floor)
  }

  const NO_MAXIMUM := -1000

  /** Where the derivative of the fit vanishes. */
  function VertexOf(a: real, b: real): real
    requires a != 0.0
  {
    -b / (2.0 * a)
  }

  function OptimalFocus(a: real, b: real): int {
    if 2.0 * a < 0.0 then Round(VertexOf(a, b)) else NO_MAXIMUM
  }

  // ---------------------------------------------------------------- the C functions

  /** The globals the fit is left in. The parallel arrays `flux_arr` and `focus_arr`, which are only
      read, are one sequence of samples. */
  class Regression {
    var a: real
    var b: real
    var c: real

    /** Infinity, the C start value, is `None`. */
    method MaxFlux(s: seq<Sample>) returns (max: Option<int>)
      ensures max == if s == [] then None else Some(Brightest(s))
    {
      hide Brightest;
      max := None;
      var i := 0;
      while i < |s|
        invariant 0 <= i <= |s|
        invariant max == if i == 0 then None else Some(Brightest(s[..i]))
      {
        BrightestOneMore(s, i);
        if max.None? || s[i].flux > max.value {
          max := Some(s[i].flux);
        }
        i := i + 1;
      }
      assert s[..|s|] == s;
    }

    method MinFlux(s: seq<Sample>) returns (min: Option<int>)
      ensures min == if s == [] then None else Some(Faintest(s))
    {
      hide Faintest;
      min := None;
      var i := 0;
      while i < |s|
        invariant 0 <= i <= |s|
        invariant min == if i == 0 then None else Some(Faintest(s[..i]))
      {
        FaintestOneMore(s, i);
        if min.None? || s[i].flux < min.value {
          min := Some(s[i].flux);
        }
        i := i + 1;
      }
      assert s[..|s|] == s;
    }

    method Accumulate(s: seq<Sample>, threshold: real) returns (sums: Sums)
      ensures sums == SumsOf(AtLeast(s, threshold))
    {
      sums := NO_SUMS;
      var i := 0;
      while i < |s|
        invariant 0 <= i <= |s|
        invariant sums == SumsOf(AtLeast(s[..i], threshold))
      {
        assert s[..i + 1][..i] == s[..i];
        if s[i].flux as real >= threshold {
          ghost var kept := AtLeast(s[..i], threshold);
          assert (kept + [s[i]])[..|kept|] == kept;
          sums := sums.Add(s[i]);
        }
        i := i + 1;
      }
      assert s[..|s|] == s;
    }

    /** With no samples the C threshold is not a number and the sums stay zero. */
    method SumSelected(s: seq<Sample>) returns (t: Sums)
      ensures t == SumsOf(Selected(s))
    {
      hide AtLeast, SumsOf, Brightest, Faintest;
      var max := MaxFlux(s);
      var min := MinFlux(s);
      NoneSelected();
      t := NO_SUMS;
      if max.Some? && min.Some? {
        t := Accumulate(s, (max.value as real + min.value as real) / 2.0);
      }
    }

    /** `quadRegression`: 1 with the fit in `a`, `b`, `c`, or -1 with them untouched. */
    method QuadRegression(s: seq<Sample>) returns (ret: int)
      modifies this
      ensures Fit(s).Some? ==> ret == 1 && Vector(a, b, c) == Fit(s).value
      ensures Fit(s).None? ==> ret == -1 && a == old(a) && b == old(b) && c == old(c)
    {
      hide Selected, SumsOf, NormalEquations, Solution;
      var t := SumSelected(s);
      var solution := new real[M](_ => 0.0);
      var solved := SolveNormalEquations(t, solution);
      if solved < 1 {
        return -1;
      }
      a, b, c := solution[0], solution[1], solution[2];
      return 1;
    }

    method SolveNormalEquations(t: Sums, solution: array<real>) returns (ret: int)
      requires solution.Length == M
      modifies solution
      ensures var fit := Solution(NormalEquations(t));
              fit.Some? ==> ret == 1 && Vector(solution[0], solution[1], solution[2]) == fit.value
      ensures Solution(NormalEquations(t)).None? ==> ret == -1
    {
      var augmatrix := new real[13](_ => 0.0);
      augmatrix[0], augmatrix[1], augmatrix[2], augmatrix[3] := t.focus4, t.focus3, t.focus2, t.focus2Flux;
      augmatrix[4], augmatrix[5], augmatrix[6], augmatrix[7] := t.focus3, t.focus2, t.focus, t.fluxFocus;
      augmatrix[8], augmatrix[9], augmatrix[10], augmatrix[11] := t.focus2, t.focus, t.count, t.flux;
      assert Cells(augmatrix) == NormalEquations(t);
      ret := GaussianElimination(augmatrix, solution);
    }

    /** The part of `calculateOptimalFocus` after the file is read. */
    method CalculateOptimalFocus(s: seq<Sample>) returns (focus: int)
      modifies this
      ensures focus == if Fit(s).Some? then OptimalFocus(Fit(s).value.x0, Fit(s).value.x1) else -1
    {
      var ok := QuadRegression(s);
      if ok < 1 {
        return -1;
      }
      var yDoublePrime := 2.0 * a;
      if yDoublePrime < 0.0 {
        return Round(VertexOf(a, b));
      } else {
        return NO_MAXIMUM;
      }
    }
  }
}
