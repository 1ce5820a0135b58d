/** `boxcarFilterImage` of Oph/src/camera.c: the masked mean over a square window, computed by sliding
    row sums and then adding rows, in the integer widths of the C code. */
module BoxcarFilter {
  import opened Common

  // ---------------------------------------------------------------- integer widths

  /** Assignment to a signed `char`. */
  function ToChar(x: int): int {
    (x + 0x80) % 0x100 - 0x80
  }

  /** Assignment of an `int64_t` to a `uint64_t`. */
  function ToUint64(x: int): int {
    x % 0x1_0000_0000_0000_0000
  }

  /** Assignment of a `uint64_t` to an `int`. */
  function ToInt32(x: int): int {
    (x + 0x8000_0000) % 0x1_0000_0000 - 0x8000_0000
  }

  lemma SumThroughUint64(s: int, x: int)
    requires -0x8000_0000 <= s + x < 0x8000_0000 && -0x8000_0000 <= x < 0x8000_0000
    ensures ToInt32(s + ToUint64(x)) == s + x
  {
    if x < 0 {
      assert ToUint64(x) == x + 0x1_0000_0000_0000_0000;
      assert (s + x + 0x8000_0000 + 0x1_0000_0000 * 0x1_0000_0000) % 0x1_0000_0000
          == (s + x + 0x8000_0000) % 0x1_0000_0000;
    }
  }

  // ---------------------------------------------------------------- the direct form

  /** The image and mask, row by row, the region filtered and the window radius. */
  datatype Job = Job(pixels: seq<int>, mask: seq<int>, i0: int, j0: int, i1: int, j1: int, r: int)

  ghost predicate Valid(w: Job) {
    && |w.pixels| == |w.mask| == CAMERA_WIDTH * CAMERA_HEIGHT
    && (forall t :: 0 <= t < |w.pixels| ==> -0x80 <= w.pixels[t] < 0x80)
    && (forall t :: 0 <= t < |w.mask| ==> 0 <= w.mask[t] <= 1)
    && 0 <= w.i0 && w.i1 <= CAMERA_WIDTH && 0 <= w.j0 <= w.j1 <= CAMERA_HEIGHT
    && 0 <= w.r && 2 * w.r + 1 <= w.i1 - w.i0
  }

  function Masked(w: Job, t: int): int
    requires 0 <= t < |w.pixels| == |w.mask|
  {
    w.mask[t] * w.pixels[t]
  }

  /** Sum of mask times pixel over the cells a, ..., b - 1. */
  function RowSum(w: Job, a: int, b: int): int
    requires 0 <= a && b <= |w.pixels| == |w.mask|
    decreases b - a
  {
    if a >= b then 0 else RowSum(w, a, b - 1) + Masked(w, b - 1)
  }

  /** How many of the cells a, ..., b - 1 the mask lets through. */
  function RowCount(w: Job, a: int, b: int): int
    requires 0 <= a && b <= |w.mask|
    decreases b - a
  {
    if a >= b then 0 else RowCount(w, a, b - 1) + w.mask[b - 1]
  }

  /** The window around column `i` lies inside the rows from `top` up to `bottom`. */
  predicate Inside(w: Job, i: int, top: int, bottom: int) {
    && |w.pixels| == |w.mask| == CAMERA_WIDTH * CAMERA_HEIGHT
    && 0 <= w.r <= i < CAMERA_WIDTH - w.r && 0 <= top && bottom <= CAMERA_HEIGHT
  }

  /** Sum of mask times pixel over columns i - r to i + r of the rows top, ..., bottom - 1. */
  function WindowSum(w: Job, i: int, top: int, bottom: int): int
    requires Inside(w, i, top, bottom)
    decreases bottom - top
  {
    if top >= bottom then 0
    else
      var centre := CAMERA_WIDTH * (bottom - 1) + i;
      WindowSum(w, i, top, bottom - 1) + RowSum(w, centre - w.r, centre + w.r + 1)
  }

  function WindowCount(w: Job, i: int, top: int, bottom: int): int
    requires Inside(w, i, top, bottom)
    decreases bottom - top
  {
    if top >= bottom then 0
    else
      var centre := CAMERA_WIDTH * (bottom - 1) + i;
      WindowCount(w, i, top, bottom - 1) + RowCount(w, centre - w.r, centre + w.r + 1)
  }

  predicate Interior(w: Job, i: int, j: int) {
    w.i0 + w.r <= i < w.i1 - w.r && w.j0 + w.r <= j < w.j1 - w.r
  }

  /** The filtered value at an interior pixel: the mean of the unmasked pixels of its window, or,
      where there are none, the value before it in scan order, 0 before the first. */
  ghost function Mean(w: Job, i: int, j: int): real
    requires Valid(w) && Interior(w, i, j)
    decreases j, i
  {
    var n := WindowCount(w, i, j - w.r, j + w.r + 1);
    if n > 0 then WindowSum(w, i, j - w.r, j + w.r + 1) as real / n as real else Before(w, i, j)
  }

  /** The value at the pixel scanned just before (i, j). */
  ghost function Before(w: Job, i: int, j: int): real
    requires Valid(w) && w.i0 + w.r <= i <= w.i1 - w.r && w.j0 + w.r <= j <= w.j1 - w.r
    requires i > w.i0 + w.r ==> j < w.j1 - w.r
    decreases j, i, 0
  {
    if i > w.i0 + w.r then Mean(w, i - 1, j)
    else if j > w.j0 + w.r then Mean(w, w.i1 - w.r - 1, j - 1)
    else 0.0
  }

  // ---------------------------------------------------------------- as the C code has it

  /** The window's count added up from the row counts as a `char` keeps them. */
  function StoredCount(w: Job, i: int, top: int, bottom: int): int
    requires Inside(w, i, top, bottom)
    decreases bottom - top
  {
    if top >= bottom then 0
    else
      var centre := CAMERA_WIDTH * (bottom - 1) + i;
      StoredCount(w, i, top, bottom - 1) + ToChar(RowCount(w, centre - w.r, centre + w.r + 1))
  }

  /** What `boxcarFilterImage` writes at an interior pixel, and before it in scan order. */
  ghost function Filtered(w: Job, i: int, j: int): real
    requires Valid(w) && Interior(w, i, j)
    decreases j, i
  {
    var n := StoredCount(w, i, j - w.r, j + w.r + 1);
    if n > 0 then WindowSum(w, i, j - w.r, j + w.r + 1) as real / n as real else FilteredBefore(w, i, j)
  }

  ghost function FilteredBefore(w: Job, i: int, j: int): real
    requires Valid(w) && w.i0 + w.r <= i <= w.i1 - w.r && w.j0 + w.r <= j <= w.j1 - w.r
    requires i > w.i0 + w.r ==> j < w.j1 - w.r
    decreases j, i, 0
  {
    if i > w.i0 + w.r then Filtered(w, i - 1, j)
    else if j > w.j0 + w.r then Filtered(w, w.i1 - w.r - 1, j - 1)
    else 0.0
  }

  // ---------------------------------------------------------------- sliding

  lemma {:induction false} SumFromTheLeft(w: Job, a: int, b: int)
    requires 0 <= a < b <= |w.pixels| == |w.mask|
    ensures RowSum(w, a, b) == Masked(w, a) + RowSum(w, a + 1, b)
    ensures RowCount(w, a, b) == w.mask[a] + RowCount(w, a + 1, b)
    decreases b - a
  {
    if a + 1 < b {
      SumFromTheLeft(w, a, b - 1);
    }
  }

  /** Moving a stretch of a row one cell on drops its first cell and adds the next. */
  lemma Slide(w: Job, a: int, b: int)
    requires 0 <= a < b < |w.pixels| == |w.mask|
    ensures RowSum(w, a + 1, b + 1) == RowSum(w, a, b) + Masked(w, b) - Masked(w, a)
    ensures RowCount(w, a + 1, b + 1) == RowCount(w, a, b) + w.mask[b] - w.mask[a]
  {
    SumFromTheLeft(w, a, b);
  }

  lemma MaskedIsSmall(w: Job, t: int)
    requires Valid(w) && 0 <= t < |w.pixels|
    ensures -0x80 <= Masked(w, t) < 0x80
  {
    assert w.mask[t] == 0 || w.mask[t] == 1;
  }

  lemma {:induction false} RowIsSmall(w: Job, a: int, b: int)
    requires Valid(w) && 0 <= a <= b <= |w.pixels|
    ensures 0 <= RowCount(w, a, b) <= b - a
    ensures -0x80 * (b - a) <= RowSum(w, a, b) <= 0x80 * (b - a)
    decreases b - a
  {
    if a < b {
      RowIsSmall(w, a, b - 1);
      MaskedIsSmall(w, b - 1);
    }
  }

  lemma NothingAdded(w: Job, i: int, top: int)
    requires Inside(w, i, top, top)
    ensures WindowSum(w, i, top, top) == 0 && StoredCount(w, i, top, top) == 0
  {}

  lemma OneRowMore(w: Job, i: int, top: int, y: int)
    requires Inside(w, i, top, y + 1) && top <= y
    ensures var centre := i + y * CAMERA_WIDTH;
            && WindowSum(w, i, top, y + 1) == WindowSum(w, i, top, y) + RowSum(w, centre - w.r, centre + w.r + 1)
            && StoredCount(w, i, top, y + 1)
                == StoredCount(w, i, top, y) + ToChar(RowCount(w, centre - w.r, centre + w.r + 1))
  {}

  // ---------------------------------------------------------------- the C function

  /** The static scratch arrays: a row sum and a row count per pixel. */
  class Boxcar {
    var ibc1: array<int>
    var nc: array<int>

    ghost predicate Allocated()
      reads this
    {
      ibc1.Length == nc.Length == CAMERA_WIDTH * CAMERA_HEIGHT && ibc1 != nc
    }

    constructor ()
      ensures Allocated() && fresh(ibc1) && fresh(nc)
    {
      ibc1, nc := new int[CAMERA_WIDTH * CAMERA_HEIGHT], new int[CAMERA_WIDTH * CAMERA_HEIGHT];
    }

    /** The scratch arrays hold the window-wide sums and counts of row `y`. */
    ghost predicate RowHeld(w: Job, y: int)
      requires Valid(w) && Allocated() && w.j0 <= y < w.j1
      reads this, ibc1, nc
    {
      forall t :: CAMERA_WIDTH * y + w.i0 + w.r <= t < CAMERA_WIDTH * y + w.i1 - w.r ==> CellHeld(w, t)
    }

    /** The sum and count of the first window of a row. */
    method FirstWindow(w: Job, row: int) returns (n: int, isx: int)
      requires Valid(w) && 0 <= row && row + CAMERA_WIDTH <= |w.pixels|
      ensures n == RowCount(w, row + w.i0, row + w.i0 + 2 * w.r + 1)
      ensures isx == RowSum(w, row + w.i0, row + w.i0 + 2 * w.r + 1)
    {
      n, isx := 0, 0;
      var i := w.i0;
      while i < w.i0 + 2 * w.r + 1
        invariant w.i0 <= i <= w.i0 + 2 * w.r + 1
        invariant n == RowCount(w, row + w.i0, row + i) && isx == RowSum(w, row + w.i0, row + i)
      {
        n := n + w.mask[i + row];
        isx := isx + Masked(w, i + row);
        i := i + 1;
      }
    }

    /** A row sum and count as the scratch arrays keep them. */
    ghost predicate CellHeld(w: Job, t: int)
      requires Valid(w) && Allocated() && w.r <= t && t + w.r < |w.pixels|
      reads this, ibc1, nc
    {
      ibc1[t] == ToUint64(RowSum(w, t - w.r, t + w.r + 1)) && nc[t] == ToChar(RowCount(w, t - w.r, t + w.r + 1))
    }

    method Store(w: Job, idx: int, isx: int, n: int)
      requires Valid(w) && Allocated() && w.r <= idx && idx + w.r < |w.pixels|
      requires n == RowCount(w, idx - w.r, idx + w.r + 1) && isx == RowSum(w, idx - w.r, idx + w.r + 1)
      modifies ibc1, nc
      ensures CellHeld(w, idx)
      ensures forall t :: w.r <= t < |w.pixels| - w.r && t != idx && old(CellHeld(w, t)) ==> CellHeld(w, t)
      ensures forall y :: w.j0 <= y < w.j1 && !InRow(idx, y) && old(RowHeld(w, y)) ==> RowHeld(w, y)
    {
      ibc1[idx] := ToUint64(isx);
      nc[idx] := ToChar(n);
    }

    /** The first pass on one row, which leaves the other rows alone. */
    method SlideRow(w: Job, j: int)
      requires Valid(w) && Allocated() && w.j0 <= j < w.j1
      modifies ibc1, nc
      ensures RowHeld(w, j)
      ensures forall y :: w.j0 <= y < w.j1 && y != j && old(RowHeld(w, y)) ==> RowHeld(w, y)
    {
      hide RowSum, RowCount, ToUint64, ToChar;
      var row := CAMERA_WIDTH * j;
      var n, isx := FirstWindow(w, row);
      var idx := row + w.i0 + w.r;
      var i := w.r + w.i0;
      while i < w.i1 - w.r - 1
        invariant w.i0 + w.r <= i <= w.i1 - w.r - 1 && idx == row + i
        invariant n == RowCount(w, idx - w.r, idx + w.r + 1) && isx == RowSum(w, idx - w.r, idx + w.r + 1)
        invariant forall t :: row + w.i0 + w.r <= t < idx ==> CellHeld(w, t)
        invariant forall y :: w.j0 <= y < w.j1 && y != j && old(RowHeld(w, y)) ==> RowHeld(w, y)
      {
        Store(w, idx, isx, n);
        Slide(w, idx - w.r, idx + w.r + 1);
        isx := isx + Masked(w, idx + w.r + 1) - Masked(w, idx - w.r);
        n := n + w.mask[idx + w.r + 1] - w.mask[idx - w.r];
        idx := idx + 1;
        i := i + 1;
      }
      Store(w, idx, isx, n);
    }

    /** The first pass. */
    method SlideRows(w: Job)
      requires Valid(w) && Allocated()
      modifies ibc1, nc
      ensures forall y :: w.j0 <= y < w.j1 ==> RowHeld(w, y)
    {
      var j := w.j0;
      while j < w.j1
        invariant w.j0 <= j <= w.j1
        invariant forall y :: w.j0 <= y < j ==> RowHeld(w, y)
      {
        SlideRow(w, j);
        j := j + 1;
      }
    }

    /** The sum and count of one row of a window added to those of the rows above. */
    method AddCell(w: Job, i: int, y: int, s0: int, n0: int) returns (s: int, n: int)
      requires Valid(w) && Allocated() && w.j0 <= y < w.j1 && w.i0 + w.r <= i < w.i1 - w.r && RowHeld(w, y)
      requires -0x7000_0000 <= s0 <= 0x7000_0000
      ensures var idx := i + y * CAMERA_WIDTH;
              && s == s0 + RowSum(w, idx - w.r, idx + w.r + 1) && -0x80 * CAMERA_WIDTH <= s - s0 <= 0x80 * CAMERA_WIDTH
              && n == n0 + ToChar(RowCount(w, idx - w.r, idx + w.r + 1))
    {
      hide RowSum, RowCount, ToUint64, ToInt32, ToChar, RowHeld;
      var idx := i + y * CAMERA_WIDTH;
      HeldIn(w, i, y);
      RowIsSmall(w, idx - w.r, idx + w.r + 1);
      SumThroughUint64(s0, RowSum(w, idx - w.r, idx + w.r + 1));
      s := ToInt32(s0 + ibc1[idx]);
      n := n0 + nc[idx];
    }

    /** The second pass at one pixel: the column of row sums around it. */
    method ColumnSums(w: Job, i: int, j: int) returns (s: int, n: int)
      requires Valid(w) && Allocated() && Interior(w, i, j)
      requires forall y :: w.j0 <= y < w.j1 ==> RowHeld(w, y)
      ensures s == WindowSum(w, i, j - w.r, j + w.r + 1)
      ensures n == StoredCount(w, i, j - w.r, j + w.r + 1)
    {
      hide RowSum, RowCount, ToUint64, ToInt32, ToChar, WindowSum, StoredCount, RowHeld;
      s, n := 0, 0;
      NothingAdded(w, i, j - w.r);
      var jp := -w.r;
      while jp <= w.r
        invariant -w.r <= jp <= w.r + 1
        invariant s == WindowSum(w, i, j - w.r, j + jp) && n == StoredCount(w, i, j - w.r, j + jp)
        invariant -0x80 * CAMERA_WIDTH * (jp + w.r) <= s <= 0x80 * CAMERA_WIDTH * (jp + w.r)
      {
        OneRowMore(w, i, j - w.r, j + jp);
        s, n := AddCell(w, i, j + jp, s, n);
        jp := jp + 1;
      }
    }

    lemma HeldIn(w: Job, i: int, y: int)
      requires Valid(w) && Allocated() && w.j0 <= y < w.j1 && RowHeld(w, y) && w.i0 + w.r <= i < w.i1 - w.r
      ensures CellHeld(w, i + y * CAMERA_WIDTH)
    {}

    /** The second pass on one row. */
    method FilterRow(w: Job, j: int, filtered: array<real>, before: real) returns (lastDs: real)
      requires Valid(w) && Allocated() && filtered.Length == CAMERA_WIDTH * CAMERA_HEIGHT
      requires w.j0 + w.r <= j < w.j1 - w.r && before == FilteredBefore(w, w.i0 + w.r, j)
      requires forall y :: w.j0 <= y < w.j1 ==> RowHeld(w, y)
      modifies filtered
      ensures lastDs == FilteredBefore(w, w.i0 + w.r, j + 1)
      ensures forall i, y :: InImage(i, y) ==>
                filtered[Cell(i, y)] ==
                if y == j && Interior(w, i, y) then Filtered(w, i, y) else old(filtered[Cell(i, y)])
    {
      hide RowHeld, WindowSum, StoredCount;
      lastDs := before;
      var i := w.i0 + w.r;
      while i < w.i1 - w.r
        invariant w.i0 + w.r <= i <= w.i1 - w.r
        invariant lastDs == FilteredBefore(w, i, j)
        invariant forall k, y :: InImage(k, y) ==>
                    filtered[Cell(k, y)] ==
                    if y == j && Interior(w, k, y) && k < i then Filtered(w, k, y) else old(filtered[Cell(k, y)])
      {
        var s, n := ColumnSums(w, i, j);
        var ds, dn := s as real, n as real;
        if dn > 0.0 {
          ds := ds / dn;
          lastDs := ds;
        } else {
          ds := lastDs;
        }
        filtered[i + j * CAMERA_WIDTH] := ds;
        i := i + 1;
      }
    }

    /** `boxcarFilterImage`: every interior pixel gets its filtered value, and no other cell changes. */
    method BoxcarFilterImage(w: Job, filtered: array<real>)
      requires Valid(w) && Allocated() && filtered.Length == CAMERA_WIDTH * CAMERA_HEIGHT
      modifies ibc1, nc, filtered
      ensures forall i, j :: InImage(i, j) ==>
                filtered[Cell(i, j)] == if Interior(w, i, j) then Filtered(w, i, j) else old(filtered[Cell(i, j)])
    {
      hide Filtered, FilteredBefore, RowHeld;
      SlideRows(w);
      var lastDs := 0.0;
      FirstBefore(w);
      var j := w.j0 + w.r;
      while j < w.j1 - w.r
        invariant w.j0 + w.r <= j && (j <= w.j1 - w.r || j == w.j0 + w.r)
        invariant j < w.j1 - w.r ==> lastDs == FilteredBefore(w, w.i0 + w.r, j)
        invariant forall y :: w.j0 <= y < w.j1 ==> RowHeld(w, y)
        invariant forall i, y :: InImage(i, y) ==>
                    filtered[Cell(i, y)] ==
                    if Interior(w, i, y) && y < j then Filtered(w, i, y) else old(filtered[Cell(i, y)])
      {
        lastDs := FilterRow(w, j, filtered, lastDs);
        j := j + 1;
      }
    }
  }

  lemma FirstBefore(w: Job)
    requires Valid(w)
    ensures w.j0 + w.r <= w.j1 - w.r ==> FilteredBefore(w, w.i0 + w.r, w.j0 + w.r) == 0.0
  {}

  predicate InRow(t: int, y: int) {
    CAMERA_WIDTH * y <= t < CAMERA_WIDTH * (y + 1)
  }

  // ---------------------------------------------------------------- when the counts fit

  /** Every row count of the region fits its `char`. */
  ghost predicate CountsFit(w: Job)
    requires Valid(w)
  {
    forall i, y :: w.i0 + w.r <= i < w.i1 - w.r && w.j0 <= y < w.j1 ==>
      RowCount(w, Cell(i, y) - w.r, Cell(i, y) + w.r + 1) <= 127
  }

  lemma CharKeepsCountIff(n: int)
    requires n >= 0
    ensures ToChar(n) == n <==> n <= 127
  {}

  /** Windows of at most 127 columns have counts that fit, whatever the mask. */
  lemma NarrowWindowsFit(w: Job)
    requires Valid(w) && 2 * w.r + 1 <= 127
    ensures CountsFit(w)
  {
    hide RowCount, RowSum;
    forall i, y | w.i0 + w.r <= i < w.i1 - w.r && w.j0 <= y < w.j1
      ensures RowCount(w, Cell(i, y) - w.r, Cell(i, y) + w.r + 1) <= 127
    {
      RowIsSmall(w, Cell(i, y) - w.r, Cell(i, y) + w.r + 1);
    }
  }

  lemma {:induction false} CountIsKept(w: Job, i: int, top: int, bottom: int)
    requires Valid(w) && CountsFit(w) && Inside(w, i, top, bottom)
    requires w.i0 + w.r <= i < w.i1 - w.r && w.j0 <= top && bottom <= w.j1
    ensures StoredCount(w, i, top, bottom) == WindowCount(w, i, top, bottom)
    decreases bottom - top
  {
    hide RowCount, RowSum, ToChar;
    if top < bottom {
      CountIsKept(w, i, top, bottom - 1);
      var centre := Cell(i, bottom - 1);
      RowIsSmall(w, centre - w.r, centre + w.r + 1);
      CharKeepsCountIff(RowCount(w, centre - w.r, centre + w.r + 1));
    }
  }

  /** When the counts fit, what is written at every interior pixel is the mean of its window. */
  lemma {:induction false} FilteredIsMean(w: Job, i: int, j: int)
    requires Valid(w) && CountsFit(w) && Interior(w, i, j)
    ensures Filtered(w, i, j) == Mean(w, i, j)
    decreases j, i
  {
    hide CountsFit, WindowSum, WindowCount, StoredCount;
    CountIsKept(w, i, j - w.r, j + w.r + 1);
    if i > w.i0 + w.r {
      FilteredIsMean(w, i - 1, j);
    } else if j > w.j0 + w.r {
      FilteredIsMean(w, w.i1 - w.r - 1, j - 1);
    }
  }

  // ---------------------------------------------------------------- when they do not

  lemma {:induction false} UnmaskedRow(w: Job, a: int, b: int)
    requires Valid(w) && 0 <= a <= b <= |w.mask| && forall t :: a <= t < b ==> w.mask[t] == 1
    ensures RowCount(w, a, b) == b - a
    decreases b - a
  {
    if a < b {
      UnmaskedRow(w, a, b - 1);
    }
  }

  lemma {:induction false} WideCountIsNegative(w: Job, i: int, top: int, bottom: int)
    requires Valid(w) && Inside(w, i, top, bottom) && 64 <= w.r <= 127
    requires forall t :: 0 <= t < |w.mask| ==> w.mask[t] == 1
    ensures StoredCount(w, i, top, bottom) <= 0
    decreases bottom - top
  {
    hide RowCount;
    if top < bottom {
      WideCountIsNegative(w, i, top, bottom - 1);
      var centre := CAMERA_WIDTH * (bottom - 1) + i;
      UnmaskedRow(w, centre - w.r, centre + w.r + 1);
    }
  }

  /** With nothing masked and a radius of 64 to 127 every count wraps to a negative one, and the whole
      image is filtered to 0, whatever its pixels. */
  lemma {:induction false} WideWindowsGiveZero(w: Job, i: int, j: int)
    requires Valid(w) && Interior(w, i, j) && 64 <= w.r <= 127 && forall t :: 0 <= t < |w.mask| ==> w.mask[t] == 1
    ensures Filtered(w, i, j) == 0.0
    decreases j, i
  {
    hide WindowSum, StoredCount;
    WideCountIsNegative(w, i, j - w.r, j + w.r + 1);
    if i > w.i0 + w.r {
      WideWindowsGiveZero(w, i - 1, j);
    } else if j > w.j0 + w.r {
      WideWindowsGiveZero(w, w.i1 - w.r - 1, j - 1);
    }
  }

  // ---------------------------------------------------------------- what the mean means

  lemma {:induction false} RowBetween(w: Job, a: int, b: int, lo: int, hi: int)
    requires Valid(w) && 0 <= a <= b <= |w.pixels|
    requires forall t :: a <= t < b && w.mask[t] == 1 ==> lo <= w.pixels[t] <= hi
    ensures lo * RowCount(w, a, b) <= RowSum(w, a, b) <= hi * RowCount(w, a, b)
    decreases b - a
  {
    if a < b {
      RowBetween(w, a, b - 1, lo, hi);
      MaskedBetween(w.mask[b - 1], w.pixels[b - 1], lo, hi);
      TimesSum(lo, RowCount(w, a, b - 1), w.mask[b - 1]);
      TimesSum(hi, RowCount(w, a, b - 1), w.mask[b - 1]);
    }
  }

  lemma MaskedBetween(m: int, x: int, lo: int, hi: int)
    requires m == 0 || (m == 1 && lo <= x <= hi)
    ensures lo * m <= m * x <= hi * m
  {}

  /** Every unmasked pixel of the window's rows top, ..., bottom - 1 lies between `lo` and `hi`. */
  predicate PixelsBetween(w: Job, i: int, top: int, bottom: int, lo: int, hi: int)
    requires Inside(w, i, top, bottom)
  {
    forall y, x :: top <= y < bottom && i - w.r <= x <= i + w.r && w.mask[Cell(x, y)] == 1 ==>
        lo <= w.pixels[Cell(x, y)] <= hi
  }

  lemma LastRowBetween(w: Job, i: int, top: int, bottom: int, lo: int, hi: int)
    requires Valid(w) && Inside(w, i, top, bottom) && top < bottom && PixelsBetween(w, i, top, bottom, lo, hi)
    ensures var centre := CAMERA_WIDTH * (bottom - 1) + i;
            var c := RowCount(w, centre - w.r, centre + w.r + 1);
            lo * c <= RowSum(w, centre - w.r, centre + w.r + 1) <= hi * c
  {
    hide RowSum, RowCount;
    var y := bottom - 1;
    var centre := CAMERA_WIDTH * y + i;
    forall t | centre - w.r <= t < centre + w.r + 1 && w.mask[t] == 1 ensures lo <= w.pixels[t] <= hi {
      assert t == Cell(t - CAMERA_WIDTH * y, y);
    }
    RowBetween(w, centre - w.r, centre + w.r + 1, lo, hi);
  }

  lemma {:induction false} WindowBetween(w: Job, i: int, top: int, bottom: int, lo: int, hi: int)
    requires Valid(w) && Inside(w, i, top, bottom) && top <= bottom && PixelsBetween(w, i, top, bottom, lo, hi)
    ensures lo * WindowCount(w, i, top, bottom) <= WindowSum(w, i, top, bottom) <= hi * WindowCount(w, i, top, bottom)
    decreases bottom - top
  {
    if top < bottom {
      assert PixelsBetween(w, i, top, bottom - 1, lo, hi);
      hide RowSum, RowCount, PixelsBetween;
      WindowBetween(w, i, top, bottom - 1, lo, hi);
      LastRowBetween(w, i, top, bottom, lo, hi);
      var centre := CAMERA_WIDTH * (bottom - 1) + i;
      var c, d := WindowCount(w, i, top, bottom - 1), RowCount(w, centre - w.r, centre + w.r + 1);
      TimesSum(lo, c, d);
      TimesSum(hi, c, d);
    }
  }

  lemma TimesSum(k: int, c: int, d: int)
    ensures k * (c + d) == k * c + k * d
  {}

  lemma Quotient(s: int, n: int, lo: int, hi: int)
    requires n > 0 && lo * n <= s <= hi * n
    ensures lo as real <= s as real / n as real <= hi as real
  {
    assert lo as real * n as real == (lo * n) as real && hi as real * n as real == (hi * n) as real;
    QuotientAbove(s as real, n as real, lo as real);
    QuotientAbove(-(s as real), n as real, -(hi as real));
    assert -(s as real) / n as real == -(s as real / n as real);
  }

  lemma QuotientAbove(s: real, n: real, x: real)
    requires n > 0.0 && x * n <= s
    ensures x <= s / n
  {
    assert x == x * n / n;
  }

  /** A window with an unmasked pixel is filtered to a value between its darkest and brightest
      unmasked pixels. */
  lemma MeanIsBetween(w: Job, i: int, j: int, lo: int, hi: int)
    requires Valid(w) && Interior(w, i, j)
    requires PixelsBetween(w, i, j - w.r, j + w.r + 1, lo, hi)
    requires WindowCount(w, i, j - w.r, j + w.r + 1) > 0
    ensures lo as real <= Mean(w, i, j) <= hi as real
  {
    hide WindowSum, WindowCount, PixelsBetween;
    WindowBetween(w, i, j - w.r, j + w.r + 1, lo, hi);
    Quotient(WindowSum(w, i, j - w.r, j + w.r + 1), WindowCount(w, i, j - w.r, j + w.r + 1), lo, hi);
  }
}
