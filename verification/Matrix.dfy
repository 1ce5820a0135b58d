/** Gaussian elimination on the 3-by-4 augmented matrix of Oph/src/matrix.c.

    The matrix is laid out flat, row by row, as C lays it out; `array` cell 12 is the one cell past
    its end that `pivot` reaches, because its column loop runs to N inclusive. */
module Matrix {
  import opened Common

  const M := 3
  const N := 4
  const EPSILON := 0.00000001

  // ---------------------------------------------------------------- the matrix as a value

  datatype Row = Row(c0: real, c1: real, c2: real, rhs: real) {
    function At(j: int): real
      requires 0 <= j < N
    {
      if j == 0 then c0 else if j == 1 then c1 else if j == 2 then c2 else rhs
    }
  }

  datatype Matrix = Matrix(r0: Row, r1: Row, r2: Row) {
    function At(i: int): Row
      requires 0 <= i < M
    {
      if i == 0 then r0 else if i == 1 then r1 else r2
    }

    function Set(i: int, r: Row): Matrix
      requires 0 <= i < M
    {
      if i == 0 then Matrix(r, r1, r2) else if i == 1 then Matrix(r0, r, r2) else Matrix(r0, r1, r)
    }
  }

  datatype Vector = Vector(x0: real, x1: real, x2: real) {
    function At(j: int): real
      requires 0 <= j < M
    {
      if j == 0 then x0 else if j == 1 then x1 else x2
    }

    function Set(i: int, v: real): Vector
      requires 0 <= i < M
    {
      if i == 0 then Vector(v, x1, x2) else if i == 1 then Vector(x0, v, x2) else Vector(x0, x1, v)
    }
  }

  function Dot(r: Row, x: Vector): real {
    r.c0 * x.x0 + r.c1 * x.x1 + r.c2 * x.x2
  }

  /** `x` solves the equation that row `r` stands for. */
  ghost predicate Satisfies(r: Row, x: Vector) {
    Dot(r, x) == r.rhs
  }

  ghost predicate Solves(m: Matrix, x: Vector) {
    Satisfies(m.r0, x) && Satisfies(m.r1, x) && Satisfies(m.r2, x)
  }

  ghost predicate SameSolutions(m: Matrix, n: Matrix) {
    forall x: Vector :: Solves(m, x) <==> Solves(n, x)
  }

  function Swapped(m: Matrix, i: int, j: int): Matrix
    requires 0 <= i < M && 0 <= j < M
  {
    m.Set(i, m.At(j)).Set(j, m.At(i))
  }

  /** Row `r` with the multiple of pivot row `pr` subtracted that clears column `p`; the columns
      before `p` are left alone. */
  function Reduced(r: Row, pr: Row, p: int): Row
    requires 0 <= p < M && pr.At(p) != 0.0
  {
    PartlyReduced(r, pr, p, r.At(p) / pr.At(p), N)
  }

  function Minus(x: real, k: real, y: real): real {
    x - k * y
  }

  /** Row `r` with `k` times `pr` subtracted in the columns from `p` up to `j`. */
  function PartlyReduced(r: Row, pr: Row, p: int, k: real, j: int): Row {
    Row(if p <= 0 < j then Minus(r.c0, k, pr.c0) else r.c0,
        if p <= 1 < j then Minus(r.c1, k, pr.c1) else r.c1,
        if p <= 2 < j then Minus(r.c2, k, pr.c2) else r.c2,
        if p <= 3 < j then Minus(r.rhs, k, pr.rhs) else r.rhs)
  }

  function Pivoted(m: Matrix, p: int): Matrix
    requires 0 <= p < M && m.At(p).At(p) != 0.0
  {
    Matrix(m.r0,
           if p < 1 then Reduced(m.r1, m.At(p), p) else m.r1,
           if p < 2 then Reduced(m.r2, m.At(p), p) else m.r2)
  }

  /** The first row at or below `p` whose entry in column `p` is largest in absolute value. */
  function PivotRow(m: Matrix, p: int): (i: int)
    requires 0 <= p < M
    ensures p <= i < M
    ensures forall k :: p <= k < M ==> Abs(m.At(k).At(p)) <= Abs(m.At(i).At(p))
    ensures forall k :: p <= k < i ==> Abs(m.At(k).At(p)) < Abs(m.At(i).At(p))
  {
    LargestFrom(m, p, p, p + 1)
  }

  function LargestFrom(m: Matrix, p: int, best: int, i: int): (r: int)
    requires 0 <= p <= best < i <= M
    requires forall k :: p <= k < i ==> Abs(m.At(k).At(p)) <= Abs(m.At(best).At(p))
    requires forall k :: p <= k < best ==> Abs(m.At(k).At(p)) < Abs(m.At(best).At(p))
    ensures p <= r < M
    ensures forall k :: p <= k < M ==> Abs(m.At(k).At(p)) <= Abs(m.At(r).At(p))
    ensures forall k :: p <= k < r ==> Abs(m.At(k).At(p)) < Abs(m.At(r).At(p))
    decreases M - i
  {
    if i == M then best
    else LargestFrom(m, p, if Abs(m.At(i).At(p)) > Abs(m.At(best).At(p)) then i else best, i + 1)
  }

  function Chosen(m: Matrix, p: int): Matrix
    requires 0 <= p < M
  {
    Swapped(m, p, PivotRow(m, p))
  }

  /** Column `p` has no entry at or below row `p` that counts as nonzero. */
  predicate Skips(m: Matrix, p: int)
    requires 0 <= p < M
  {
    Abs(Chosen(m, p).At(p).At(p)) <= EPSILON
  }

  function Step(m: Matrix, p: int): Matrix
    requires 0 <= p < M
  {
    if Skips(m, p) then Chosen(m, p) else Pivoted(Chosen(m, p), p)
  }

  /** The matrix after the first `p` pivots. */
  function Steps(m: Matrix, p: int): Matrix
    requires 0 <= p <= M
  {
    if p == 0 then m else Step(Steps(m, p - 1), p - 1)
  }

  function Eliminated(m: Matrix): Matrix {
    Steps(m, M)
  }

  predicate NoPivotSkipped(m: Matrix) {
    forall p :: 0 <= p < M ==> !Skips(Steps(m, p), p)
  }

  function Plus(x: real, k: real, y: real): real {
    x + k * y
  }

  /** Row `r` times the solution found so far, over the columns after `i` and before `j`. */
  function TailSum(r: Row, x: Vector, i: int, j: int): real
    requires 0 <= i < j < N
    decreases j
  {
    if j == i + 1 then 0.0 else Plus(TailSum(r, x, i, j - 1), r.At(j - 1), x.At(j - 1))
  }

  function Over(x: real, y: real): real
    requires y != 0.0
  {
    x / y
  }

  function BackFrom(m: Matrix, i: int, x: Vector): Option<Vector>
    requires -1 <= i < M
    decreases i + 1
  {
    if i < 0 then Some(x)
    else
      var rest := m.At(i).rhs - TailSum(m.At(i), x, i, N - 1);
      if Abs(m.At(i).At(i)) > EPSILON then BackFrom(m, i - 1, x.Set(i, Over(rest, m.At(i).At(i))))
      else if Abs(rest) > EPSILON then None
      else BackFrom(m, i - 1, x)
  }

  /** What `gaussianElimination` leaves in its solution vector, `None` where it reports failure. */
  function Solution(m: Matrix): Option<Vector> {
    BackFrom(Eliminated(m), Min(N - 1, M - 1), Vector(0.0, 0.0, 0.0))
  }

  // ---------------------------------------------------------------- the C functions, on the flat array

  ghost function Cells(a: array<real>): Matrix
    requires a.Length == 13
    reads a
  {
    Matrix(Row(a[0], a[1], a[2], a[3]), Row(a[4], a[5], a[6], a[7]), Row(a[8], a[9], a[10], a[11]))
  }

  /** Row `r` with its first `col` cells taken from `q`. */
  function Mixed(r: Row, q: Row, col: int): Row {
    Row(if 0 < col then q.c0 else r.c0, if 1 < col then q.c1 else r.c1,
        if 2 < col then q.c2 else r.c2, if 3 < col then q.rhs else r.rhs)
  }

  method Swap(row1: int, row2: int, a: array<real>)
    requires a.Length == 13 && 0 <= row1 < M && 0 <= row2 < M
    modifies a
    ensures Cells(a) == Swapped(old(Cells(a)), row1, row2)
    ensures a[12] == old(a[12])
  {
    ghost var m := Cells(a);
    var col := 0;
    while col < N
      invariant 0 <= col <= N
      invariant Cells(a).At(row1) == Mixed(m.At(row1), m.At(row2), col)
      invariant Cells(a).At(row2) == Mixed(m.At(row2), m.At(row1), col)
      invariant row1 != 0 && row2 != 0 ==> Cells(a).r0 == m.r0
      invariant row1 != 1 && row2 != 1 ==> Cells(a).r1 == m.r1
      invariant row1 != 2 && row2 != 2 ==> Cells(a).r2 == m.r2
      invariant a[12] == old(a[12])
    {
      var temp := a[4 * row1 + col];
      a[4 * row1 + col] := a[4 * row2 + col];
      a[4 * row2 + col] := temp;
      col := col + 1;
    }
  }

  /** `pivot`'s column loop. Columns up to N inclusive are touched, so the last step lands on the
      first cell of the row after `i`. */
  method SubtractRow(i: int, p: int, multiplier: real, a: array<real>)
    requires a.Length == 13 && 0 <= p < i < M
    modifies a
    ensures Cells(a).r0 == old(Cells(a)).r0
    ensures Cells(a).At(i) == PartlyReduced(old(Cells(a)).At(i), old(Cells(a)).At(p), p, multiplier, N)
    ensures i == 1 ==> Cells(a).r2 == old(Cells(a).r2).(c0 := Minus(old(a[8]), multiplier, a[4])) && a[12] == old(a[12])
    ensures i == 2 ==> Cells(a).r1 == old(Cells(a)).r1
    ensures i == 2 ==> a[12] == Minus(old(a[12]), multiplier, old(a[4 * p + N]))
  {
    ghost var m := Cells(a);
    var j := p;
    while j <= N
      invariant p <= j <= N + 1
      invariant Cells(a).r0 == m.r0
      invariant Cells(a).At(i) == PartlyReduced(m.At(i), m.At(p), p, multiplier, j)
      invariant i == 1 ==> Cells(a).r2 == if j <= N then m.r2 else m.r2.(c0 := Minus(m.r2.c0, multiplier, a[4]))
      invariant i == 2 ==> Cells(a).r1 == m.r1
      invariant a[12] == if i == 2 && j > N then Minus(old(a[12]), multiplier, old(a[4 * p + N])) else old(a[12])
    {
      a[4 * i + j] := Minus(a[4 * i + j], multiplier, a[4 * p + j]);
      j := j + 1;
    }
  }

  method Pivot(p: int, a: array<real>)
    requires a.Length == 13 && 0 <= p < M && a[4 * p + p] != 0.0
    modifies a
    ensures Cells(a) == Pivoted(old(Cells(a)), p)
    ensures a[12] == if p == 1 then Minus(old(a[12]), old(a[9] / a[5]), old(a[8])) else old(a[12])
    ensures p == 0 ==> a[4] == 0.0 && a[8] == 0.0
  {
    ghost var m := Cells(a);
    var i := p + 1;
    while i < M
      invariant p < i <= M
      invariant Cells(a).At(p) == m.At(p) && Cells(a).r0 == m.r0
      invariant Cells(a).r1 == if p < 1 < i then Reduced(m.r1, m.At(p), p) else m.r1
      invariant Cells(a).r2 == if p < 2 < i then Reduced(m.r2, m.At(p), p) else m.r2
      invariant p == 0 && 1 < i ==> a[4] == 0.0
      invariant p == 0 && 2 < i ==> a[8] == 0.0
      invariant a[12] == if p == 1 && i == M then Minus(old(a[12]), old(a[9] / a[5]), old(a[8])) else old(a[12])
    {
      var multiplier := a[4 * i + p] / a[4 * p + p];
      assert Minus(a[4 * i + p], multiplier, a[4 * p + p]) == 0.0;
      SubtractRow(i, p, multiplier, a);
      i := i + 1;
    }
  }

  /** The search loop of `forwardElimination`. */
  method FindPivotRow(p: int, a: array<real>) returns (max: int)
    requires a.Length == 13 && 0 <= p < M
    ensures max == PivotRow(Cells(a), p)
  {
    max := p;
    var i := p + 1;
    while i < M
      invariant p <= max < i <= M
      invariant forall k :: p <= k < i ==> Abs(Cells(a).At(k).At(p)) <= Abs(Cells(a).At(max).At(p))
      invariant forall k :: p <= k < max ==> Abs(Cells(a).At(k).At(p)) < Abs(Cells(a).At(max).At(p))
    {
      if Abs(a[4 * i + p]) > Abs(a[4 * max + p]) {
        max := i;
      }
      i := i + 1;
    }
  }

  /** One round of `forwardElimination`. */
  method EliminateColumn(p: int, a: array<real>)
    requires a.Length == 13 && 0 <= p < M
    modifies a
    ensures Cells(a) == Step(old(Cells(a)), p)
    ensures p == 0 && !Skips(old(Cells(a)), 0) ==> a[4] == 0.0 && a[8] == 0.0
    ensures p != 1 || (old(a[4]) == 0.0 && old(a[8]) == 0.0) ==> a[12] == old(a[12])
  {
    var max := FindPivotRow(p, a);
    Swap(p, max, a);
    if Abs(a[4 * p + p]) <= EPSILON {
      return;
    }
    Pivot(p, a);
  }

  method ForwardElimination(a: array<real>)
    requires a.Length == 13
    modifies a
    ensures Cells(a) == Eliminated(old(Cells(a)))
    ensures !Skips(old(Cells(a)), 0) ==> a[12] == old(a[12])
  {
    ghost var m := Cells(a);
    var p := 0;
    while p < M
      invariant 0 <= p <= M
      invariant Cells(a) == Steps(m, p)
      invariant p == 1 && !Skips(m, 0) ==> a[4] == 0.0 && a[8] == 0.0
      invariant p < 2 || !Skips(m, 0) ==> a[12] == old(a[12])
    {
      EliminateColumn(p, a);
      p := p + 1;
    }
  }

  /** The inner loop of `backSubstitution`. */
  method SumOfKnown(a: array<real>, v: array<real>, i: int) returns (sum: real)
    requires a.Length == 13 && v.Length == M && 0 <= i < M
    ensures sum == TailSum(Cells(a).At(i), Vector(v[0], v[1], v[2]), i, N - 1)
  {
    sum := 0.0;
    var j := i + 1;
    while j < N - 1
      invariant i < j <= N - 1
      invariant sum == TailSum(Cells(a).At(i), Vector(v[0], v[1], v[2]), i, j)
    {
      sum := Plus(sum, a[4 * i + j], v[j]);
      j := j + 1;
    }
  }

  /** The equation and the diagonal of row `i`, as the flat array holds them. */
  lemma RowCells(a: array<real>, i: int)
    requires a.Length == 13 && 0 <= i < M
    ensures Cells(a).At(i).At(i) == a[4 * i + i] && Cells(a).At(i).rhs == a[4 * i + N - 1]
  {}

  lemma BackFromUnfolds(m: Matrix, i: int, x: Vector)
    requires 0 <= i < M
    ensures var rest, d := m.At(i).rhs - TailSum(m.At(i), x, i, N - 1), m.At(i).At(i);
            BackFrom(m, i, x) == if Abs(d) > EPSILON then BackFrom(m, i - 1, x.Set(i, Over(rest, d)))
                                 else if Abs(rest) > EPSILON then None else BackFrom(m, i - 1, x)
  {}

  lemma BackFromEnds(m: Matrix, x: Vector)
    ensures BackFrom(m, -1, x) == Some(x)
  {}

  method BackSubstitution(a: array<real>) returns (x: Option<Vector>)
    requires a.Length == 13
    ensures x == BackFrom(Cells(a), Min(N - 1, M - 1), Vector(0.0, 0.0, 0.0))
  {
    hide TailSum, Cells, Over, BackFrom;
    var v := new real[M](_ => 0.0);
    var i := Min(N - 1, M - 1);
    while i >= 0
      invariant -1 <= i < M
      invariant BackFrom(Cells(a), Min(N - 1, M - 1), Vector(0.0, 0.0, 0.0))
                == BackFrom(Cells(a), i, Vector(v[0], v[1], v[2]))
    {
      var sum := SumOfKnown(a, v, i);
      RowCells(a, i);
      BackFromUnfolds(Cells(a), i, Vector(v[0], v[1], v[2]));
      if Abs(a[4 * i + i]) > EPSILON {
        v[i] := Over(a[4 * i + N - 1] - sum, a[4 * i + i]);
      } else if Abs(a[4 * i + N - 1] - sum) > EPSILON {
        return None;
      }
      i := i - 1;
    }
    BackFromEnds(Cells(a), Vector(v[0], v[1], v[2]));
    return Some(Vector(v[0], v[1], v[2]));
  }

  /** `gaussianElimination`: 1 and the solution in `x`, or -1 with `x` untouched. */
  method GaussianElimination(a: array<real>, x: array<real>) returns (ret: int)
    requires a.Length == 13 && x.Length == M && a != x
    modifies a, x
    ensures Cells(a) == Eliminated(old(Cells(a)))
    ensures Solution(old(Cells(a))).Some? ==> ret == 1 && Vector(x[0], x[1], x[2]) == Solution(old(Cells(a))).value
    ensures Solution(old(Cells(a))).None? ==> ret == -1 && x[..] == old(x[..])
  {
    ForwardElimination(a);
    var sol := BackSubstitution(a);
    match sol
    case None =>
      return -1;
    case Some(v) =>
      x[0], x[1], x[2] := v.x0, v.x1, v.x2;
      return 1;
  }
}
