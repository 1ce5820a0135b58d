/** What `findBlobs` returns in terms of the image's own pixels: which are candidates, how bright each blob is
    recorded, which of two near blobs stays, and in what order they come back. */
module BlobLaws {
  import opened Common
  import opened BlobSort
  import opened BlobSortLaws
  import opened BlobList
  import opened BlobScan

  // ---------------------------------------------------------------- pixels

  /** The pixel in column `i` of row `j`. */
  function At(p: Scan, i: int, j: int): real
    requires |p.ic| == 1936 * 1216 && 0 <= i < 1936 && 0 <= j < 1216
  {
    p.ic[i + 1936 * j]
  }

  lemma PixelIs(p: Scan, i: int, j: int)
    requires Bordered(p) && InImage(i, j)
    ensures Pixel(p, i, j) == At(p, i, j)
  {}

  /** A candidate is brighter than the threshold and, unless it is brighter than 254, at least as bright as the
      four neighbours before it in the scan and brighter than the four after it. */
  lemma CandidateIs(p: Scan, i: int, j: int)
    requires Bordered(p) && Scanned(p, i, j)
    ensures var v := At(p, i, j);
            IsCandidate(p, i, j) <==>
              v > p.threshold
              && (v > 254.0
                  || (&& v >= At(p, i - 1, j - 1) && v >= At(p, i, j - 1) && v >= At(p, i + 1, j - 1)
                      && v >= At(p, i - 1, j) && v > At(p, i + 1, j)
                      && v > At(p, i - 1, j + 1) && v > At(p, i, j + 1) && v > At(p, i + 1, j + 1)))
  {
    hide Pixel, IsPeak, At;
    PeakByNeighbours(p, i, j);
    PixelIs(p, i, j);
    PixelIs(p, i - 1, j - 1);
    PixelIs(p, i, j - 1);
    PixelIs(p, i + 1, j - 1);
    PixelIs(p, i - 1, j);
    PixelIs(p, i + 1, j);
    PixelIs(p, i - 1, j + 1);
    PixelIs(p, i, j + 1);
    PixelIs(p, i + 1, j + 1);
  }

  /** Of two neighbouring pixels at most one is a peak. */
  lemma NeighboursAreNotBothPeaks(p: Scan, i: int, j: int, x: int, y: int)
    requires Bordered(p) && Scanned(p, i, j) && Scanned(p, x, y) && IsPeak(p, i, j) && IsPeak(p, x, y)
    requires i - 1 <= x <= i + 1 && j - 1 <= y <= j + 1
    ensures x == i && y == j
  {
    hide Pixel;
    assert Pixel(p, x, y) >= Pixel(p, i, j) || Pixel(p, x, y) < Pixel(p, i, j);
  }

  /** Row by row, and in each row from left to right. */
  predicate InScanOrder(c: seq<Blob>) {
    forall k, l :: 0 <= k < l < |c| ==> c[k].y < c[l].y || (c[k].y == c[l].y && c[k].x < c[l].x)
  }

  predicate InRow(c: seq<Blob>, j: int, i: int) {
    forall k :: 0 <= k < |c| ==> c[k].y == j as real && c[k].x < i as real
  }

  lemma {:induction false} RowInOrder(p: Scan, i: int, j: int)
    requires Bordered(p) && i <= p.right && p.top <= j < p.bottom
    ensures InScanOrder(InRowBefore(p, i, j)) && InRow(InRowBefore(p, i, j), j, i)
    decreases i
  {
    hide IsCandidate;
    if i > p.left && i > 0 {
      RowInOrder(p, i - 1, j);
    }
  }

  lemma {:induction false} RowsInOrder(p: Scan, n: int)
    requires Bordered(p) && n <= p.bottom
    ensures InScanOrder(Before(p, n)) && forall k :: 0 <= k < |Before(p, n)| ==> Before(p, n)[k].y < n as real
    decreases n
  {
    hide InRowBefore;
    if n > p.top && n > 0 {
      RowsInOrder(p, n - 1);
      RowInOrder(p, p.right, n - 1);
    }
  }

  /** The candidates are taken in scan order, each once. */
  lemma CandidatesInScanOrder(p: Scan)
    requires Bordered(p)
    ensures InScanOrder(Candidates(p))
  {
    RowsInOrder(p, p.bottom);
  }

  /** The magnitude recorded is 100 times a nonnegative pixel, and 2^32 - 1 for a negative one. */
  lemma MagnitudeIs(value: real)
    ensures PixelMag(value) == if value >= 0.0 then 100.0 * value else 4294967295.0
  {}

  /** A candidate is held to four times the spacing exactly when its pixel exceeds 254. */
  lemma ReachIs(p: Scan, i: int, j: int, spacing: int)
    requires Bordered(p) && Scanned(p, i, j) && At(p, i, j) >= 0.0
    ensures Reach(CandidateAt(p, i, j), spacing) == if At(p, i, j) > 254.0 then 4 * spacing else spacing
  {
    PixelIs(p, i, j);
    MagnitudeIs(At(p, i, j));
  }

  // ---------------------------------------------------------------- near blobs

  /** Blobs on pixels are near when both their columns and their rows are less than the spacing apart. */
  lemma NearIs(b: Blob, c: Blob, i: int, j: int, x: int, y: int, spacing: int)
    requires b.x == i as real && b.y == j as real && c.x == x as real && c.y == y as real
    ensures Near(b, c, spacing) <==> -spacing < i - x < spacing && -spacing < j - y < spacing
  {
    WholeTruncates(x - i);
    WholeTruncates(y - j);
    hide Truncate;
    assert c.x - b.x == (x - i) as real && c.y - b.y == (y - j) as real;
  }

  lemma WholeTruncates(n: int)
    ensures Truncate(n as real) == n
  {}

  /** A candidate near no blob is added at the end. */
  lemma FarIsAdded(list: seq<Blob>, c: Blob, spacing: int)
    requires forall k :: 0 <= k < |list| ==> !Near(list[k], c, Reach(c, spacing))
    ensures Considered(list, c, spacing) == list + [c]
  {
    hide Near;
  }

  /** A candidate near some blob takes the place of those near it that are dimmer, and of no other. */
  lemma NearIsKeptOrReplaced(list: seq<Blob>, c: Blob, spacing: int, k: int)
    requires 0 <= k < |list| && Near(list[k], c, Reach(c, spacing))
    ensures |Considered(list, c, spacing)| == |list|
    ensures forall t :: 0 <= t < |list| ==>
              Considered(list, c, spacing)[t] ==
              if Near(list[t], c, Reach(c, spacing)) && list[t].mag < c.mag then c else list[t]
  {
    hide Near;
  }

  // ---------------------------------------------------------------- the blobs returned

  /** The blob sits on pixel (i, j): its column, and its row counted from the bottom. */
  predicate Sits(b: Blob, i: int, j: int) {
    b.x == i as real && b.y == (1216 - j) as real
  }

  /** The blob stands for candidate pixel (i, j), at 100 times its value. */
  ghost predicate StandsFor(p: Scan, b: Blob, i: int, j: int)
    requires Bordered(p)
  {
    Scanned(p, i, j) && IsCandidate(p, i, j) && Sits(b, i, j) && b.mag == 100.0 * At(p, i, j)
  }

  ghost predicate Stands(p: Scan, b: Blob)
    requires Bordered(p)
  {
    exists i, j :: StandsFor(p, b, i, j)
  }

  lemma UnflippedSits(b: Blob, i: int, j: int)
    requires Unflipped(b).x == i as real && Unflipped(b).y == j as real
    ensures Sits(b, i, j)
  {}

  lemma ReturnedStandsFor(p: Scan, b: Blob)
    requires Bordered(p) && p.threshold >= 0.0 && Unflipped(b) in Candidates(p)
    ensures Stands(p, b)
  {
    hide IsCandidate, Candidates;
    CandidatesAre(p, Unflipped(b));
    var i, j :| Scanned(p, i, j) && IsCandidate(p, i, j) && Unflipped(b) == CandidateAt(p, i, j);
    PixelIs(p, i, j);
    CandidateIs(p, i, j);
    MagnitudeIs(At(p, i, j));
    UnflippedSits(b, i, j);
    assert StandsFor(p, b, i, j);
  }

  /** Every blob stands for a candidate pixel. */
  ghost predicate AllStand(p: Scan, found: seq<Blob>)
    requires Bordered(p)
  {
    forall k :: 0 <= k < |found| ==> Stands(p, found[k])
  }

  /** The pixels the blobs stand for come in descending order. */
  ghost predicate Descending(p: Scan, found: seq<Blob>)
    requires Bordered(p)
  {
    forall k, l, i, j, x, y ::
      0 <= k < l < |found| && StandsFor(p, found[k], i, j) && StandsFor(p, found[l], x, y) ==>
        At(p, i, j) >= At(p, x, y)
  }

  /** There is a first blob when there is a candidate, and no candidate pixel is brighter than its pixel. */
  ghost predicate HeadedByTheBrightest(p: Scan, found: seq<Blob>)
    requires Bordered(p)
  {
    forall x, y :: Scanned(p, x, y) && IsCandidate(p, x, y) ==>
      found != [] && forall i, j :: StandsFor(p, found[0], i, j) ==> At(p, i, j) >= At(p, x, y)
  }

  /** With a nonnegative threshold: every blob returned sits on a candidate pixel with 100 times its value;
      they come in descending order of their pixels; and the first, which there is when there is a candidate,
      sits on a candidate pixel of the greatest value. */
  lemma FoundAreTheBrightPixels(p: Scan, spacing: int)
    requires Bordered(p) && p.threshold >= 0.0
    ensures Parted(Flipped(Listed(Candidates(p), spacing))).Some?
    ensures var found := Parted(Flipped(Listed(Candidates(p), spacing))).value;
            AllStand(p, found) && Descending(p, found) && HeadedByTheBrightest(p, found)
  {
    hide Parted, Flipped, Listed, AllStand, Descending, HeadedByTheBrightest, Candidates;
    FoundInTheScan(p, spacing);
    var found := Parted(Flipped(Listed(Candidates(p), spacing))).value;
    EachStands(p, found);
    TheyDescend(p, found);
    TheFirstIsBrightest(p, found);
  }

  lemma EachStands(p: Scan, found: seq<Blob>)
    requires Bordered(p) && p.threshold >= 0.0 && Returned(found, Candidates(p))
    ensures AllStand(p, found)
  {
    hide Candidates, Stands;
    forall k | 0 <= k < |found| ensures Stands(p, found[k]) {
      ReturnedStandsFor(p, found[k]);
    }
  }

  lemma TheyDescend(p: Scan, found: seq<Blob>)
    requires Bordered(p) && Returned(found, Candidates(p))
    ensures Descending(p, found)
  {
    hide Candidates, At, IsCandidate;
  }

  lemma TheFirstIsBrightest(p: Scan, found: seq<Blob>)
    requires Bordered(p) && p.threshold >= 0.0 && Returned(found, Candidates(p))
    ensures HeadedByTheBrightest(p, found)
  {
    hide Candidates, At, IsCandidate;
    forall x, y | Scanned(p, x, y) && IsCandidate(p, x, y)
      ensures found != [] && forall i, j :: StandsFor(p, found[0], i, j) ==> At(p, i, j) >= At(p, x, y)
    {
      FirstIsBrightest(p, found, x, y);
    }
  }

  lemma FirstIsBrightest(p: Scan, found: seq<Blob>, x: int, y: int)
    requires Bordered(p) && p.threshold >= 0.0 && Returned(found, Candidates(p))
    requires Scanned(p, x, y) && IsCandidate(p, x, y)
    ensures found != [] && found[0].mag >= 100.0 * At(p, x, y)
  {
    hide IsCandidate, Candidates;
    var c := CandidateAt(p, x, y);
    CandidatesAre(p, c);
    var k :| 0 <= k < |Candidates(p)| && Candidates(p)[k] == c;
    PixelIs(p, x, y);
    CandidateIs(p, x, y);
    MagnitudeIs(At(p, x, y));
  }
}
