/** The scan of `findBlobs` in Oph/src/camera.c: the pixels that are candidates, in scan order, and the
    whole of what the function does from there. */
module BlobScan {
  import opened Common
  import opened BlobSort
  import opened BlobList
  import BlobSortLaws

  const BRIGHT := 254.0

  /** The filtered image, the part of it that is scanned, and mean + n_sigma * sigma. */
  datatype Scan = Scan(ic: seq<real>, left: int, right: int, top: int, bottom: int, threshold: real)

  /** The part scanned leaves a border of at least one pixel. */
  predicate Bordered(p: Scan) {
    && |p.ic| == CAMERA_WIDTH * CAMERA_HEIGHT
    && 1 <= p.left && p.right < CAMERA_WIDTH && 1 <= p.top && p.bottom < CAMERA_HEIGHT
  }

  predicate Scanned(p: Scan, i: int, j: int) {
    p.left <= i < p.right && p.top <= j < p.bottom
  }

  function Pixel(p: Scan, i: int, j: int): real
    requires Bordered(p) && InImage(i, j)
  {
    p.ic[Cell(i, j)]
  }

  /** As bright as the neighbours scanned before, and brighter than those scanned after. */
  predicate IsPeak(p: Scan, i: int, j: int)
    requires Bordered(p) && Scanned(p, i, j)
  {
    forall x, y :: i - 1 <= x <= i + 1 && j - 1 <= y <= j + 1 ==>
      if y < j || (y == j && x <= i) then Pixel(p, i, j) >= Pixel(p, x, y) else Pixel(p, i, j) > Pixel(p, x, y)
  }

  predicate IsCandidate(p: Scan, i: int, j: int)
    requires Bordered(p) && Scanned(p, i, j)
  {
    Pixel(p, i, j) > p.threshold && (IsPeak(p, i, j) || Pixel(p, i, j) > BRIGHT)
  }

  function CandidateAt(p: Scan, i: int, j: int): Blob
    requires Bordered(p) && Scanned(p, i, j)
  {
    Blob(PixelMag(Pixel(p, i, j)), i as real, j as real)
  }

  /** The candidates of row `j` in the columns before `i`. */
  function InRowBefore(p: Scan, i: int, j: int): (c: seq<Blob>)
    requires Bordered(p) && i <= p.right && p.top <= j < p.bottom
    decreases i
  {
    if i <= p.left || i <= 0 then []
    else InRowBefore(p, i - 1, j) + if IsCandidate(p, i - 1, j) then [CandidateAt(p, i - 1, j)] else []
  }

  /** The candidates of the rows before `j`. */
  function Before(p: Scan, j: int): seq<Blob>
    requires Bordered(p) && j <= p.bottom
    decreases j
  {
    if j <= p.top || j <= 0 then [] else Before(p, j - 1) + InRowBefore(p, p.right, j - 1)
  }

  function Candidates(p: Scan): seq<Blob>
    requires Bordered(p)
  {
    Before(p, p.bottom)
  }

  /** The candidates are exactly the scanned pixels above the threshold that are peaks or saturated. */
  lemma CandidatesAre(p: Scan, b: Blob)
    requires Bordered(p)
    ensures b in Candidates(p) <==> exists i, j :: Scanned(p, i, j) && IsCandidate(p, i, j) && b == CandidateAt(p, i, j)
  {
    hide IsCandidate, CandidateAt;
    RowsAre(p, p.bottom, b);
  }

  lemma {:induction false} RowIs(p: Scan, i: int, j: int, b: Blob)
    requires Bordered(p) && i <= p.right && p.top <= j < p.bottom
    ensures b in InRowBefore(p, i, j)
            <==> exists x :: p.left <= x < i && IsCandidate(p, x, j) && b == CandidateAt(p, x, j)
    decreases i
  {
    hide IsCandidate, CandidateAt;
    if i > p.left && i > 0 {
      RowIs(p, i - 1, j, b);
    }
  }

  lemma {:induction false} RowsAre(p: Scan, k: int, b: Blob)
    requires Bordered(p) && k <= p.bottom
    ensures b in Before(p, k) <==>
            exists i, j :: Scanned(p, i, j) && j < k && IsCandidate(p, i, j) && b == CandidateAt(p, i, j)
    decreases k
  {
    hide IsCandidate, CandidateAt, InRowBefore;
    if k > p.top && k > 0 {
      RowsAre(p, k - 1, b);
      RowIs(p, p.right, k - 1, b);
      if b in InRowBefore(p, p.right, k - 1) {
        var i :| p.left <= i < p.right && IsCandidate(p, i, k - 1) && b == CandidateAt(p, i, k - 1);
        assert Scanned(p, i, k - 1);
      }
    }
  }

  // ---------------------------------------------------------------- the C function

  lemma PeakByNeighbours(p: Scan, i: int, j: int)
    requires Bordered(p) && Scanned(p, i, j)
    ensures var c := Pixel(p, i, j);
            IsPeak(p, i, j) <==>
              && c >= Pixel(p, i - 1, j - 1) && c >= Pixel(p, i, j - 1) && c >= Pixel(p, i + 1, j - 1)
              && c >= Pixel(p, i - 1, j) && c > Pixel(p, i + 1, j)
              && c > Pixel(p, i - 1, j + 1) && c > Pixel(p, i, j + 1) && c > Pixel(p, i + 1, j + 1)
  {
    hide Pixel;
  }

  /** The comparison of the scan loop. */
  method Accepts(p: Scan, i: int, j: int) returns (ok: bool)
    requires Bordered(p) && Scanned(p, i, j)
    ensures ok == IsCandidate(p, i, j)
  {
    PeakByNeighbours(p, i, j);
    hide IsPeak;
    var ic0 := p.ic[Cell(i, j)];
    if ic0 <= p.threshold {
      return false;
    }
    return (ic0 >= p.ic[Cell(i - 1, j - 1)] && ic0 >= p.ic[Cell(i, j - 1)] && ic0 >= p.ic[Cell(i + 1, j - 1)]
            && ic0 >= p.ic[Cell(i - 1, j)] && ic0 > p.ic[Cell(i + 1, j)]
            && ic0 > p.ic[Cell(i - 1, j + 1)] && ic0 > p.ic[Cell(i, j + 1)] && ic0 > p.ic[Cell(i + 1, j + 1)])
           || ic0 > BRIGHT;
  }

  /** The scan of one row. */
  method ScanRow(f: Finder, p: Scan, j: int, spacing: int, ghost before: seq<Blob>)
    requires Bordered(p) && p.top <= j < p.bottom && f.Holds(Listed(before, spacing))
    modifies f, f.starX, f.starY, f.starMags
    ensures f.Holds(Listed(before + InRowBefore(p, p.right, j), spacing))
    ensures f.starX == old(f.starX) || fresh(f.starX)
    ensures f.starY == old(f.starY) || fresh(f.starY)
    ensures f.starMags == old(f.starMags) || fresh(f.starMags)
  {
    hide Listed, IsCandidate, Considered;
    var i := p.left;
    assert before + [] == before;
    while i < p.right
      invariant p.left <= i && (i <= p.right || i == p.left)
      invariant f.Holds(Listed(before + InRowBefore(p, Min(i, p.right), j), spacing))
      invariant f.starX == old(f.starX) || fresh(f.starX)
      invariant f.starY == old(f.starY) || fresh(f.starY)
      invariant f.starMags == old(f.starMags) || fresh(f.starMags)
    {
      ghost var done := before + InRowBefore(p, i, j);
      var ok := Accepts(p, i, j);
      if ok {
        ListedOneMore(done, CandidateAt(p, i, j), spacing);
        f.Consider(i, j, p.ic[Cell(i, j)], spacing, Listed(done, spacing));
        assert done + [CandidateAt(p, i, j)] == before + InRowBefore(p, i + 1, j);
      } else {
        assert done == before + InRowBefore(p, i + 1, j);
      }
      i := i + 1;
    }
  }

  /** `findBlobs` from the scan on: the arrays hold the list of the candidates, flipped and sorted. */
  method FindBlobs(f: Finder, p: Scan, spacing: int) returns (count: int)
    requires f.Valid() && Bordered(p) && Parted(Flipped(Listed(Candidates(p), spacing))).Some?
    modifies f, f.starX, f.starY, f.starMags
    ensures f.Holds(Parted(Flipped(Listed(Candidates(p), spacing))).value)
    ensures count == |Listed(Candidates(p), spacing)|
  {
    hide Listed, InRowBefore, Parted, Flipped;
    f.Begin();
    NothingListed(spacing);
    var j := p.top;
    while j < p.bottom
      invariant p.top <= j
      invariant f.Holds(Listed(Before(p, Min(j, p.bottom)), spacing))
      invariant f.starX == old(f.starX) || fresh(f.starX)
      invariant f.starY == old(f.starY) || fresh(f.starY)
      invariant f.starMags == old(f.starMags) || fresh(f.starMags)
    {
      ScanRow(f, p, j, spacing, Before(p, j));
      j := j + 1;
    }
    BeyondTheLast(p, j);
    count := f.Finish(Listed(Candidates(p), spacing));
  }

  lemma BeyondTheLast(p: Scan, j: int)
    requires Bordered(p) && p.bottom <= j
    ensures Before(p, Min(j, p.bottom)) == Candidates(p)
  {}

  /** With a nonnegative threshold the sort meets no sentinel, and what is returned is the brightest
      first, made of candidates only, and headed by the brightest of all. */
  lemma FoundInTheScan(p: Scan, spacing: int)
    requires Bordered(p) && p.threshold >= 0.0
    ensures var found := Parted(Flipped(Listed(Candidates(p), spacing)));
            found.Some? && Returned(found.value, Candidates(p))
  {
    hide Parted, Flipped, Listed, Returned;
    forall k | 0 <= k < |Candidates(p)| ensures Candidates(p)[k].mag > 0.0 {
      CandidatesAre(p, Candidates(p)[k]);
      var i, j :| Scanned(p, i, j) && IsCandidate(p, i, j) && Candidates(p)[k] == CandidateAt(p, i, j);
      PixelMagIsPositiveIff(Pixel(p, i, j));
    }
    FoundBlobs(Candidates(p), spacing);
  }
}
