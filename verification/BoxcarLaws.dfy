/** Exactly when `boxcarFilterImage` is the masked mean for every image: when the row counts fit a `char`. */
module BoxcarLaws {
  import opened Common
  import opened BoxcarFilter

  function WithPixels(w: Job, p: seq<int>): Job {
    w.(pixels := p)
  }

  /** Every interior pixel is filtered to the mean of its window. */
  ghost predicate Right(w: Job)
    requires Valid(w)
  {
    forall i, j :: Interior(w, i, j) ==> Filtered(w, i, j) == Mean(w, i, j)
  }

  // ---------------------------------------------------------------- counts depend on the mask alone

  lemma {:induction false} RowCountOfMask(w: Job, v: Job, a: int, b: int)
    requires w.mask == v.mask && 0 <= a && b <= |w.mask|
    ensures RowCount(w, a, b) == RowCount(v, a, b)
    decreases b - a
  {
    if a < b {
      RowCountOfMask(w, v, a, b - 1);
    }
  }

  lemma {:induction false} CountsOfMask(w: Job, v: Job, i: int, top: int, bottom: int)
    requires w.mask == v.mask && w.r == v.r && Inside(w, i, top, bottom) && Inside(v, i, top, bottom)
    ensures WindowCount(w, i, top, bottom) == WindowCount(v, i, top, bottom)
    ensures StoredCount(w, i, top, bottom) == StoredCount(v, i, top, bottom)
    decreases bottom - top
  {
    hide RowCount, ToChar;
    if top < bottom {
      var centre := CAMERA_WIDTH * (bottom - 1) + i;
      CountsOfMask(w, v, i, top, bottom - 1);
      RowCountOfMask(w, v, centre - w.r, centre + w.r + 1);
    }
  }

  // ---------------------------------------------------------------- rows whose count wraps

  /** The unmasked cells of row `y` in the window around column `i`. */
  function CountAt(w: Job, i: int, y: int): int
    requires Inside(w, i, y, y + 1)
  {
    RowCount(w, Cell(i, y) - w.r, Cell(i, y) + w.r + 1)
  }

  lemma CharAtMost(n: int)
    requires n >= 0
    ensures ToChar(n) <= n && (ToChar(n) < n <==> n > 127)
  {}

  lemma LastRow(w: Job, i: int, top: int, bottom: int)
    requires Valid(w) && Inside(w, i, top, bottom) && top < bottom
    ensures WindowCount(w, i, top, bottom) == WindowCount(w, i, top, bottom - 1) + CountAt(w, i, bottom - 1)
    ensures StoredCount(w, i, top, bottom) == StoredCount(w, i, top, bottom - 1) + ToChar(CountAt(w, i, bottom - 1))
    ensures CountAt(w, i, bottom - 1) >= 0
  {
    hide RowCount, RowSum, ToChar;
    RowIsSmall(w, Cell(i, bottom - 1) - w.r, Cell(i, bottom - 1) + w.r + 1);
  }

  /** The stored count falls short of the true one exactly when some row's count wraps. */
  lemma {:induction false} StoredFallsShortIff(w: Job, i: int, top: int, bottom: int)
    requires Valid(w) && Inside(w, i, top, bottom)
    ensures StoredCount(w, i, top, bottom) <= WindowCount(w, i, top, bottom)
    ensures StoredCount(w, i, top, bottom) < WindowCount(w, i, top, bottom)
            <==> exists y :: top <= y < bottom && CountAt(w, i, y) > 127
    decreases bottom - top
  {
    if top < bottom {
      LastRow(w, i, top, bottom);
      CharAtMost(CountAt(w, i, bottom - 1));
      hide CountAt, ToChar, WindowCount, StoredCount;
      StoredFallsShortIff(w, i, top, bottom - 1);
    }
  }

  // ---------------------------------------------------------------- the first window that falls short

  ghost predicate Short(w: Job, i: int, j: int)
    requires Valid(w)
  {
    Interior(w, i, j) && StoredCount(w, i, j - w.r, j + w.r + 1) != WindowCount(w, i, j - w.r, j + w.r + 1)
  }

  /** (x, y) is scanned before (i, j). */
  predicate Earlier(x: int, y: int, i: int, j: int) {
    y < j || (y == j && x < i)
  }

  ghost predicate FirstShort(w: Job, i: int, j: int)
    requires Valid(w)
  {
    Short(w, i, j) && forall x, y :: Earlier(x, y, i, j) ==> !Short(w, x, y)
  }

  lemma {:induction false} FindFirstShort(w: Job, i: int, j: int) returns (x: int, y: int)
    requires Valid(w) && Short(w, i, j)
    ensures FirstShort(w, x, y)
    decreases j, i
  {
    hide StoredCount, WindowCount;
    if u, v :| Earlier(u, v, i, j) && Short(w, u, v) {
      x, y := FindFirstShort(w, u, v);
    } else {
      x, y := i, j;
    }
  }

  // ---------------------------------------------------------------- a cell no earlier window contains

  predicate Contains(w: Job, i: int, j: int, x: int, y: int) {
    i - w.r <= x <= i + w.r && j - w.r <= y <= j + w.r
  }

  lemma WrappingRow(w: Job, i: int, j: int) returns (y: int)
    requires Valid(w) && Short(w, i, j)
    ensures j - w.r <= y <= j + w.r && CountAt(w, i, y) > 127
  {
    StoredFallsShortIff(w, i, j - w.r, j + w.r + 1);
    hide CountAt, StoredCount, WindowCount;
    y :| j - w.r <= y < j + w.r + 1 && CountAt(w, i, y) > 127;
  }

  lemma RowsKept(w: Job, i: int, j: int, y: int)
    requires Valid(w) && Interior(w, i, j) && !Short(w, i, j) && j - w.r <= y <= j + w.r
    ensures CountAt(w, i, y) <= 127
  {
    StoredFallsShortIff(w, i, j - w.r, j + w.r + 1);
    hide CountAt, StoredCount, WindowCount;
  }

  lemma {:induction false} UnmaskedCell(w: Job, a: int, b: int) returns (t: int)
    requires Valid(w) && 0 <= a <= b <= |w.mask| && RowCount(w, a, b) > 0
    ensures a <= t < b && w.mask[t] == 1
    decreases b - a
  {
    if w.mask[b - 1] == 1 {
      t := b - 1;
    } else {
      t := UnmaskedCell(w, a, b - 1);
    }
  }

  /** Where the count goes up from one window to the next, the column that comes in is unmasked. */
  lemma CountGrows(w: Job, i: int, y: int)
    requires Valid(w) && Inside(w, i - 1, y, y + 1) && Inside(w, i, y, y + 1) && CountAt(w, i - 1, y) < CountAt(w, i, y)
    ensures w.mask[Cell(i + w.r, y)] == 1
  {
    var a := Cell(i - 1, y) - w.r;
    Slide(w, a, a + 2 * w.r + 1);
    hide RowCount, RowSum;
  }

  /** An unmasked cell of a wrapping row of the first short window, which it has to itself. */
  lemma OwnCell(w: Job, i: int, j: int) returns (x: int, y: int)
    requires Valid(w) && FirstShort(w, i, j)
    ensures InImage(x, y) && w.mask[Cell(x, y)] == 1 && Contains(w, i, j, x, y)
    ensures forall u, v :: Interior(w, u, v) && Earlier(u, v, i, j) ==> !Contains(w, u, v, x, y)
  {
    hide RowCount, RowSum, CountAt, Short;
    ShortIsInterior(w, i, j);
    y := WrappingRow(w, i, j);
    if i > w.i0 + w.r {
      x := i + w.r;
      RowsKept(w, i - 1, j, y);
      CountGrows(w, i, y);
    } else {
      x := FirstCell(w, i, y);
    }
    forall u, v | Interior(w, u, v) && Earlier(u, v, i, j) ensures !Contains(w, u, v, x, y) {
      if v < j && Contains(w, u, v, x, y) {
        assert Earlier(i, v, i, j);
        RowsKept(w, i, v, y);
        assert false;
      }
    }
  }

  lemma ShortIsInterior(w: Job, i: int, j: int)
    requires Valid(w) && Short(w, i, j)
    ensures Interior(w, i, j)
  {}

  lemma FirstCell(w: Job, i: int, y: int) returns (x: int)
    requires Valid(w) && Inside(w, i, y, y + 1) && CountAt(w, i, y) > 0
    ensures InImage(x, y) && i - w.r <= x <= i + w.r && w.mask[Cell(x, y)] == 1
  {
    hide RowCount, RowSum;
    var t := UnmaskedCell(w, Cell(i, y) - w.r, Cell(i, y) + w.r + 1);
    x := t - CAMERA_WIDTH * y;
  }

  // ---------------------------------------------------------------- an image of one bright pixel

  /** Pixel (x, y) is 1 and all the others are 0. */
  predicate IsDot(w: Job, x: int, y: int) {
    forall t :: 0 <= t < |w.pixels| ==> w.pixels[t] == if t == Cell(x, y) then 1 else 0
  }

  lemma {:induction false} RowOfDot(w: Job, a: int, b: int, x: int, y: int)
    requires Valid(w) && InImage(x, y) && IsDot(w, x, y) && 0 <= a && b <= |w.pixels|
    ensures RowSum(w, a, b) == if a <= Cell(x, y) < b then w.mask[Cell(x, y)] else 0
    decreases b - a
  {
    if a < b {
      RowOfDot(w, a, b - 1, x, y);
      assert Masked(w, b - 1) == if b - 1 == Cell(x, y) then w.mask[b - 1] else 0;
    }
  }

  lemma {:induction false} WindowOfDot(w: Job, i: int, top: int, bottom: int, x: int, y: int)
    requires Valid(w) && InImage(x, y) && IsDot(w, x, y) && Inside(w, i, top, bottom)
    ensures WindowSum(w, i, top, bottom)
            == if top <= y < bottom && i - w.r <= x <= i + w.r then w.mask[Cell(x, y)] else 0
    decreases bottom - top
  {
    hide RowSum, IsDot;
    if top < bottom {
      WindowOfDot(w, i, top, bottom - 1, x, y);
      var centre := CAMERA_WIDTH * (bottom - 1) + i;
      RowOfDot(w, centre - w.r, centre + w.r + 1, x, y);
      InOneRow(i, bottom - 1, w.r, x, y);
    }
  }

  /** A pixel is filtered exactly when its whole window lies in the region. */
  lemma InteriorIff(w: Job, i: int, j: int)
    requires w.r >= 0
    ensures Interior(w, i, j) <==>
            forall x, y :: Contains(w, i, j, x, y) ==> w.i0 <= x < w.i1 && w.j0 <= y < w.j1
  {
    assert Contains(w, i, j, i - w.r, j - w.r) && Contains(w, i, j, i + w.r, j + w.r);
  }

  /** The image `w` is the sum of `u` and `v`, under one mask. */
  ghost predicate IsSum(w: Job, u: Job, v: Job) {
    && Valid(w) && Valid(u) && Valid(v) && u.(pixels := w.pixels) == v.(pixels := w.pixels) == w
    && forall t :: 0 <= t < |w.pixels| ==> w.pixels[t] == u.pixels[t] + v.pixels[t]
  }

  lemma {:induction false} RowAdds(w: Job, u: Job, v: Job, a: int, b: int)
    requires IsSum(w, u, v) && 0 <= a && b <= |w.pixels|
    ensures RowSum(w, a, b) == RowSum(u, a, b) + RowSum(v, a, b)
    decreases b - a
  {
    if a < b {
      RowAdds(w, u, v, a, b - 1);
      assert w.mask[b - 1] == 0 || w.mask[b - 1] == 1;
    }
  }

  /** Window sums add up, so that they are fixed by those of the images of one bright pixel. */
  lemma {:induction false} WindowAdds(w: Job, u: Job, v: Job, i: int, top: int, bottom: int)
    requires IsSum(w, u, v) && Inside(w, i, top, bottom)
    ensures WindowSum(w, i, top, bottom) == WindowSum(u, i, top, bottom) + WindowSum(v, i, top, bottom)
    decreases bottom - top
  {
    hide RowSum;
    if top < bottom {
      WindowAdds(w, u, v, i, top, bottom - 1);
      var centre := CAMERA_WIDTH * (bottom - 1) + i;
      RowAdds(w, u, v, centre - w.r, centre + w.r + 1);
    }
  }

  /** A stretch around column `i` of row `k` has cell (x, y) only if `y` is that row. */
  lemma InOneRow(i: int, k: int, r: int, x: int, y: int)
    requires 0 <= r <= i < CAMERA_WIDTH - r && InImage(x, y) && k >= 0
    ensures Cell(i, k) - r <= Cell(x, y) < Cell(i, k) + r + 1 <==> y == k && i - r <= x <= i + r
  {}

  /** Before the first window that has the dot everything is filtered to 0. */
  lemma {:induction false} ZeroSoFar(w: Job, i: int, j: int, x: int, y: int)
    requires Valid(w) && InImage(x, y) && IsDot(w, x, y) && Interior(w, i, j)
    requires forall u, v :: Interior(w, u, v) && Earlier(u, v, i, j) ==> !Contains(w, u, v, x, y)
    ensures FilteredBefore(w, i, j) == 0.0
    decreases j, i, 0
  {
    hide WindowSum, StoredCount, IsDot;
    if i > w.i0 + w.r {
      ZeroAt(w, i - 1, j, x, y);
    } else if j > w.j0 + w.r {
      ZeroAt(w, w.i1 - w.r - 1, j - 1, x, y);
    }
  }

  lemma ZeroAt(w: Job, i: int, j: int, x: int, y: int)
    requires Valid(w) && InImage(x, y) && IsDot(w, x, y) && Interior(w, i, j) && !Contains(w, i, j, x, y)
    requires forall u, v :: Interior(w, u, v) && Earlier(u, v, i, j) ==> !Contains(w, u, v, x, y)
    ensures Filtered(w, i, j) == 0.0
    decreases j, i, 1
  {
    hide WindowSum, StoredCount, IsDot;
    WindowOfDot(w, i, j - w.r, j + w.r + 1, x, y);
    ZeroSoFar(w, i, j, x, y);
  }

  // ---------------------------------------------------------------- the exact condition

  lemma DotIsWrong(w: Job, i: int, j: int, x: int, y: int)
    requires Valid(w) && InImage(x, y) && IsDot(w, x, y) && w.mask[Cell(x, y)] == 1
    requires Short(w, i, j) && Contains(w, i, j, x, y)
    requires forall u, v :: Interior(w, u, v) && Earlier(u, v, i, j) ==> !Contains(w, u, v, x, y)
    ensures Filtered(w, i, j) != Mean(w, i, j)
  {
    hide WindowSum, StoredCount, WindowCount, IsDot;
    WindowOfDot(w, i, j - w.r, j + w.r + 1, x, y);
    ZeroSoFar(w, i, j, x, y);
    CountIsPositive(w, i, j);
    var n, s := WindowCount(w, i, j - w.r, j + w.r + 1), StoredCount(w, i, j - w.r, j + w.r + 1);
    DifferentInverses(n, s);
  }

  lemma DifferentInverses(n: int, s: int)
    requires n > 0 && s != n
    ensures 1.0 / n as real > 0.0 && (s > 0 ==> 1.0 / s as real != 1.0 / n as real)
  {
    var x, y := n as real, s as real;
    assert 1.0 / x * x == 1.0;
    assert s > 0 ==> 1.0 / y * y == 1.0;
  }

  lemma {:induction false} CountAtLeast(w: Job, i: int, top: int, bottom: int, y: int)
    requires Valid(w) && Inside(w, i, top, bottom)
    ensures WindowCount(w, i, top, bottom) >= 0
    ensures top <= y < bottom ==> WindowCount(w, i, top, bottom) >= CountAt(w, i, y)
    decreases bottom - top
  {
    if top < bottom {
      LastRow(w, i, top, bottom);
      hide CountAt, ToChar, WindowCount, StoredCount;
      CountAtLeast(w, i, top, bottom - 1, y);
    }
  }

  lemma CountIsPositive(w: Job, i: int, j: int)
    requires Valid(w) && Short(w, i, j)
    ensures WindowCount(w, i, j - w.r, j + w.r + 1) > 0
  {
    hide CountAt, WindowCount;
    var y := WrappingRow(w, i, j);
    CountAtLeast(w, i, j - w.r, j + w.r + 1, y);
  }

  /** Some window of the region has each of its rows. */
  lemma ShortWhereTheCountWraps(w: Job, i: int, y: int) returns (j: int)
    requires Valid(w) && 2 * w.r + 1 <= w.j1 - w.j0
    requires w.i0 + w.r <= i < w.i1 - w.r && w.j0 <= y < w.j1 && CountAt(w, i, y) > 127
    ensures Short(w, i, j)
  {
    j := if y - w.r < w.j0 + w.r then w.j0 + w.r else y - w.r;
    StoredFallsShortIff(w, i, j - w.r, j + w.r + 1);
    hide CountAt, StoredCount, WindowCount;
  }

  /** Short windows make the filter wrong for some image: that of one bright pixel. */
  lemma WrongForADot(w: Job, i: int, j: int) returns (p: seq<int>)
    requires Valid(w) && Short(w, i, j)
    ensures Valid(WithPixels(w, p)) && !Right(WithPixels(w, p))
  {
    hide Short, FirstShort, CountAt, StoredCount, WindowCount, WindowSum;
    var u, v := FindFirstShort(w, i, j);
    var x, y := OwnCell(w, u, v);
    p := seq(CAMERA_WIDTH * CAMERA_HEIGHT, t => if t == Cell(x, y) then 1 else 0);
    var d := WithPixels(w, p);
    SameShort(w, d, u, v);
    DotIsWrong(d, u, v, x, y);
    ShortIsInterior(d, u, v);
  }

  lemma SameShort(w: Job, d: Job, i: int, j: int)
    requires Valid(w) && Valid(d) && d == WithPixels(w, d.pixels) && FirstShort(w, i, j)
    ensures Short(d, i, j)
  {
    CountsOfMask(w, d, i, j - w.r, j + w.r + 1);
    hide StoredCount, WindowCount;
  }

  /** For a mask, a region and a radius: the filter writes the mean of the window at every interior
      pixel of every image exactly when every row count fits a `char`, or no window fits the region. */
  lemma RightForEveryImageIff(w: Job)
    requires Valid(w)
    ensures (forall p: seq<int> :: Valid(WithPixels(w, p)) ==> Right(WithPixels(w, p)))
            <==> CountsFit(w) || w.j1 - w.j0 < 2 * w.r + 1
  {
    hide Filtered, Mean, Short, StoredCount, WindowCount, CountsFit;
    if CountsFit(w) || w.j1 - w.j0 < 2 * w.r + 1 {
      forall p: seq<int> | Valid(WithPixels(w, p)) ensures Right(WithPixels(w, p)) {
        RightWhenCountsFit(w, WithPixels(w, p));
      }
    } else {
      var i, y := WrappingCount(w);
      var j := ShortWhereTheCountWraps(w, i, y);
      var p := WrongForADot(w, i, j);
    }
  }

  lemma WrappingCount(w: Job) returns (i: int, y: int)
    requires Valid(w) && !CountsFit(w)
    ensures w.i0 + w.r <= i < w.i1 - w.r && w.j0 <= y < w.j1 && CountAt(w, i, y) > 127
  {
    hide RowCount;
    i, y :| w.i0 + w.r <= i < w.i1 - w.r && w.j0 <= y < w.j1
            && RowCount(w, Cell(i, y) - w.r, Cell(i, y) + w.r + 1) > 127;
  }

  lemma RightWhenCountsFit(w: Job, v: Job)
    requires Valid(w) && Valid(v) && v == WithPixels(w, v.pixels)
    requires CountsFit(w) || w.j1 - w.j0 < 2 * w.r + 1
    ensures Right(v)
  {
    hide Filtered, Mean, CountsFit;
    if CountsFit(w) {
      CountsFitOfMask(w, v);
      forall i, j | Interior(v, i, j) ensures Filtered(v, i, j) == Mean(v, i, j) {
        FilteredIsMean(v, i, j);
      }
    }
  }

  lemma CountsFitOfMask(w: Job, v: Job)
    requires Valid(w) && Valid(v) && v == WithPixels(w, v.pixels) && CountsFit(w)
    ensures CountsFit(v)
  {
    hide RowCount;
    forall i, y | v.i0 + v.r <= i < v.i1 - v.r && v.j0 <= y < v.j1
      ensures RowCount(v, Cell(i, y) - v.r, Cell(i, y) + v.r + 1) <= 127
    {
      RowCountOfMask(w, v, Cell(i, y) - v.r, Cell(i, y) + v.r + 1);
    }
  }
}
