/** When the blob list of `findBlobs` ends with its blobs apart: what the order of the candidates' places
    has to be for that, whatever their magnitudes. */
module BlobSpacing {
  import opened Common
  import opened BlobSort
  import opened BlobList

  const WIDE := 4

  // ---------------------------------------------------------------- places

  datatype Place = Place(x: real, y: real)

  /** The candidates at these places, in scan order, with these magnitudes. */
  function Candidates(places: seq<Place>, mags: seq<real>): (c: seq<Blob>)
    requires |mags| == |places|
    ensures |c| == |places|
    ensures forall k :: 0 <= k < |c| ==> c[k] == Blob(mags[k], places[k].x, places[k].y)
  {
    seq(|places|, k requires 0 <= k < |places| => Blob(mags[k], places[k].x, places[k].y))
  }

  predicate Close(p: Place, q: Place, spacing: int) {
    Near(Blob(0.0, p.x, p.y), Blob(0.0, q.x, q.y), spacing)
  }

  predicate Splits(places: seq<Place>, i: int, j: int, k: int, spacing: int)
    requires 0 <= i < j < k < |places|
  {
    && Close(places[i], places[k], spacing * WIDE) && Close(places[j], places[k], spacing * WIDE)
    && !Close(places[i], places[j], spacing)
  }

  /** No place has two earlier ones within four times the spacing that are not within the spacing of each other. */
  predicate Clustered(places: seq<Place>, spacing: int) {
    forall i, j, k :: 0 <= i < j < k < |places| ==> !Splits(places, i, j, k, spacing)
  }

  // ---------------------------------------------------------------- clustered places stay apart

  lemma NearIsWide(b: Blob, c: Blob, spacing: int)
    requires Near(b, c, Reach(c, spacing)) || Near(b, c, spacing)
    ensures Near(b, c, spacing * WIDE) && Near(c, c, spacing)
  {}

  lemma SamePlaces(places: seq<Place>, mags: seq<real>, i: int, j: int, spacing: int)
    requires |mags| == |places| && 0 <= i < |places| && 0 <= j < |places|
    ensures var c := Candidates(places, mags); Near(c[i], c[j], spacing) <==> Close(places[i], places[j], spacing)
  {}

  /** Two blobs of the list near a later candidate are near each other. */
  lemma BothNear(places: seq<Place>, mags: seq<real>, list: seq<Blob>, k: int, x: int, y: int, spacing: int)
    requires |mags| == |places| && 0 <= k < |places| && Clustered(places, spacing)
    requires 0 <= x < |list| && 0 <= y < |list| && x != y && Apart(list, spacing)
    requires var c := Candidates(places, mags);
             list[x] in c[..k] && list[y] in c[..k]
             && Near(list[x], c[k], spacing * WIDE) && Near(list[y], c[k], spacing * WIDE)
    ensures spacing <= 0
  {
    var c := Candidates(places, mags);
    var i :| 0 <= i < k && c[i] == list[x];
    var j :| 0 <= j < k && c[j] == list[y];
    SamePlaces(places, mags, i, k, spacing * WIDE);
    SamePlaces(places, mags, j, k, spacing * WIDE);
    SamePlaces(places, mags, i, j, spacing);
    NearIsSymmetric(list[x], list[y], spacing);
    NearItself(list[x], spacing);
    hide Near, Candidates, Close;
    SamePlaces(places, mags, j, i, spacing);
    if i < j {
      assert !Splits(places, i, j, k, spacing);
    } else if j < i {
      assert !Splits(places, j, i, k, spacing);
    }
  }

  lemma NearItself(b: Blob, spacing: int)
    ensures Near(b, b, spacing) <==> spacing > 0
  {}

  lemma NeverNear(b: Blob, c: Blob, spacing: int)
    requires spacing <= 0
    ensures !Near(b, c, spacing)
  {}

  lemma {:induction false} ClusteredStaysApart(places: seq<Place>, mags: seq<real>, n: nat, spacing: int)
    requires |mags| == |places| && n <= |places| && Clustered(places, spacing)
    ensures Apart(Listed(Candidates(places, mags)[..n], spacing), spacing)
  {
    hide Near, Clustered, Candidates, Considered, Listed, ReplacesCleanly, Apart, Matched;
    var c := Candidates(places, mags);
    if n == 0 {
      NothingIsApart(c, spacing);
    } else {
      ClusteredStaysApart(places, mags, n - 1, spacing);
      var list := Listed(c[..n - 1], spacing);
      ListedOneMore(c[..n - 1], c[n - 1], spacing);
      assert c[..n] == c[..n - 1] + [c[n - 1]];
      ListRepresentsCandidates(c[..n - 1], spacing);
      CleanlyReplaced(places, mags, list, n - 1, spacing);
      SpacingKeptIff(list, c[n - 1], spacing);
    }
  }

  lemma NothingIsApart(c: seq<Blob>, spacing: int)
    ensures Apart(Listed(c[..0], spacing), spacing)
  {}

  lemma CleanlyReplaced(places: seq<Place>, mags: seq<real>, list: seq<Blob>, k: int, spacing: int)
    requires |mags| == |places| && 0 <= k < |places| && Clustered(places, spacing) && Apart(list, spacing)
    requires forall x :: 0 <= x < |list| ==> list[x] in Candidates(places, mags)[..k]
    ensures ReplacesCleanly(list, Candidates(places, mags)[k], spacing)
  {
    hide Near, Clustered, Apart, Candidates;
    var c := Candidates(places, mags)[k];
    forall x, y | 0 <= x < |list| && 0 <= y < |list| && x != y && Replaces(c, list[x], Reach(c, spacing))
      ensures !Replaces(c, list[y], Reach(c, spacing)) && !Near(list[y], c, spacing)
    {
      if Replaces(c, list[y], Reach(c, spacing)) || Near(list[y], c, spacing) {
        NearIsWide(list[x], c, spacing);
        NearIsWide(list[y], c, spacing);
        BothNear(places, mags, list, k, x, y, spacing);
        NeverNear(c, c, spacing);
        assert false;
      }
    }
  }

  // ---------------------------------------------------------------- places that are not

  const DIM := 1.0
  const BRIGHT := 2.0
  const BLINDING := 30000.0

  /** Two bright candidates, a saturated one after them, and all others dim. */
  function Magnitudes(n: nat, i: int, j: int, k: int): (m: seq<real>)
    ensures |m| == n
  {
    seq(n, t => if t == k then BLINDING else if t == i || t == j then BRIGHT else DIM)
  }

  /** Every blob of at least the given magnitude is `b` or `c`. */
  ghost predicate BrightAre(list: seq<Blob>, b: Blob, c: Blob) {
    forall t :: 0 <= t < |list| && list[t].mag >= BRIGHT ==> list[t] == b || list[t] == c
  }

  lemma DimAdded(list: seq<Blob>, c: Blob, spacing: int)
    requires c.mag == DIM
    ensures var after := Considered(list, c, spacing);
            && |list| <= |after|
            && (forall t :: 0 <= t < |list| && list[t].mag >= BRIGHT ==> after[t] == list[t])
            && (forall t :: 0 <= t < |after| && after[t].mag >= BRIGHT ==> t < |list| && after[t] == list[t])
  {
    hide Near;
    var kept := Overwritten(list, c, Reach(c, spacing));
    assert forall t :: 0 <= t < |list| ==> Considered(list, c, spacing)[t] == kept[t];
  }

  /** A candidate enters the list when no blob near it is as bright. */
  lemma BrightAdded(list: seq<Blob>, c: Blob, spacing: int) returns (t: nat)
    requires forall x :: 0 <= x < |list| && Near(list[x], c, Reach(c, spacing)) ==> list[x].mag < c.mag
    ensures var after := Considered(list, c, spacing);
            && t < |after| && after[t] == c && |list| <= |after|
            && (forall x :: 0 <= x < |list| && !Near(list[x], c, Reach(c, spacing)) ==> after[x] == list[x])
            && (forall x :: 0 <= x < |after| ==> after[x] == c || (x < |list| && after[x] == list[x]))
  {
    hide Near;
    if Unique(list, c, Reach(c, spacing)) {
      t := |list|;
    } else {
      t :| 0 <= t < |list| && Near(list[t], c, Reach(c, spacing));
    }
  }

  /** What the list holds after `n` candidates. */
  ghost predicate Stage(list: seq<Blob>, c: seq<Blob>, n: nat, i: int, j: int, k: int)
    requires 0 <= i < j < k < |c|
  {
    if n <= i then forall t :: 0 <= t < |list| ==> list[t].mag < BRIGHT
    else if n <= j then
      (exists x :: 0 <= x < |list| && list[x] == c[i]) && BrightAre(list, c[i], c[i])
    else if n <= k then
      exists x, y :: 0 <= x < |list| && 0 <= y < |list| && list[x] == c[i] && list[y] == c[j]
    else exists x, y :: 0 <= x < y < |list| && list[x] == list[y] == c[k]
  }

  lemma DimStep(list: seq<Blob>, c: seq<Blob>, n: nat, i: int, j: int, k: int, spacing: int)
    requires 0 <= i < j < k < |c| && n < |c| && n != i && n != j && n != k && c[n].mag == DIM
    requires Stage(list, c, n, i, j, k)
    requires c[i].mag >= BRIGHT && c[j].mag >= BRIGHT && c[k].mag >= BRIGHT
    ensures Stage(Considered(list, c[n], spacing), c, n + 1, i, j, k)
  {
    DimAdded(list, c[n], spacing);
    hide Considered;
    var after := Considered(list, c[n], spacing);
    if i < n < j {
      var x :| 0 <= x < |list| && list[x] == c[i];
      assert after[x] == c[i];
    } else if j < n < k {
      var x, y :| 0 <= x < |list| && 0 <= y < |list| && list[x] == c[i] && list[y] == c[j];
      assert after[x] == c[i] && after[y] == c[j];
    } else if n > k {
      var x, y :| 0 <= x < y < |list| && list[x] == list[y] == c[k];
      assert after[x] == after[y] == c[k];
    }
  }

  /** The three candidates that matter. */
  predicate Triple(c: seq<Blob>, i: int, j: int, k: int, spacing: int) {
    && 0 <= i < j < k < |c| && c[i].mag == BRIGHT && c[j].mag == BRIGHT && c[k].mag == BLINDING
    && Near(c[i], c[k], spacing * WIDE) && Near(c[j], c[k], spacing * WIDE) && !Near(c[i], c[j], spacing)
    && c[i] != c[j]
  }

  lemma FirstStep(list: seq<Blob>, c: seq<Blob>, i: int, j: int, k: int, spacing: int)
    requires Triple(c, i, j, k, spacing) && Stage(list, c, i, i, j, k)
    ensures Stage(Considered(list, c[i], spacing), c, i + 1, i, j, k)
  {
    hide Near, Considered;
    var t := BrightAdded(list, c[i], spacing);
  }

  lemma SecondStep(list: seq<Blob>, c: seq<Blob>, i: int, j: int, k: int, spacing: int)
    requires Triple(c, i, j, k, spacing) && Stage(list, c, j, i, j, k)
    ensures Stage(Considered(list, c[j], spacing), c, j + 1, i, j, k)
  {
    hide Near, Considered;
    var t := BrightAdded(list, c[j], spacing);
    var x :| 0 <= x < |list| && list[x] == c[i];
    assert Considered(list, c[j], spacing)[x] == c[i];
  }

  lemma ThirdStep(list: seq<Blob>, c: seq<Blob>, i: int, j: int, k: int, spacing: int)
    requires Triple(c, i, j, k, spacing) && Stage(list, c, k, i, j, k)
    ensures Stage(Considered(list, c[k], spacing), c, k + 1, i, j, k)
  {
    hide Near;
    var x, y :| 0 <= x < |list| && 0 <= y < |list| && list[x] == c[i] && list[y] == c[j];
    var after := Considered(list, c[k], spacing);
    assert after[x] == c[k] && after[y] == c[k];
    assert x < y || y < x;
  }

  lemma {:induction false} StagesRun(c: seq<Blob>, n: nat, i: int, j: int, k: int, spacing: int)
    requires Triple(c, i, j, k, spacing) && n <= |c|
    requires forall t :: 0 <= t < |c| && t != i && t != j && t != k ==> c[t].mag == DIM
    ensures Stage(Listed(c[..n], spacing), c, n, i, j, k)
  {
    hide Stage, Considered, Near, Listed;
    if n == 0 {
      NoStageYet(c, i, j, k, spacing);
    } else {
      StagesRun(c, n - 1, i, j, k, spacing);
      var list := Listed(c[..n - 1], spacing);
      ListedOneMore(c[..n - 1], c[n - 1], spacing);
      assert c[..n] == c[..n - 1] + [c[n - 1]];
      if n - 1 == i {
        FirstStep(list, c, i, j, k, spacing);
      } else if n - 1 == j {
        SecondStep(list, c, i, j, k, spacing);
      } else if n - 1 == k {
        ThirdStep(list, c, i, j, k, spacing);
      } else {
        DimStep(list, c, n - 1, i, j, k, spacing);
      }
    }
  }

  lemma NoStageYet(c: seq<Blob>, i: int, j: int, k: int, spacing: int)
    requires 0 <= i < j < k < |c|
    ensures Stage(Listed(c[..0], spacing), c, 0, i, j, k)
  {}

  lemma PlacesOfATriple(places: seq<Place>, i: int, j: int, k: int, spacing: int)
    requires 0 <= i < j < k < |places| && Splits(places, i, j, k, spacing)
    ensures Triple(Candidates(places, Magnitudes(|places|, i, j, k)), i, j, k, spacing) && spacing > 0
  {
    var m := Magnitudes(|places|, i, j, k);
    SamePlaces(places, m, i, k, spacing * WIDE);
    SamePlaces(places, m, j, k, spacing * WIDE);
    SamePlaces(places, m, i, j, spacing);
    var c := Candidates(places, m);
    NearItself(c[i], spacing);
    if spacing <= 0 {
      NeverNear(c[i], c[k], spacing * WIDE);
    }
    hide Near, Close, Splits;
  }

  lemma SplitPlacesCollide(places: seq<Place>, i: int, j: int, k: int, spacing: int)
    requires 0 <= i < j < k < |places| && Splits(places, i, j, k, spacing)
    ensures !Apart(Listed(Candidates(places, Magnitudes(|places|, i, j, k)), spacing), spacing)
  {
    hide Near, Splits, Candidates;
    var c := Candidates(places, Magnitudes(|places|, i, j, k));
    PlacesOfATriple(places, i, j, k, spacing);
    StagesRun(c, |c|, i, j, k, spacing);
    assert c[..|c|] == c;
    var list := Listed(c, spacing);
    var x, y :| 0 <= x < y < |list| && list[x] == list[y] == c[k];
    NearItself(c[k], spacing);
  }

  /** For the places of an image's candidates in scan order: the list ends with its blobs apart whatever their
      magnitudes exactly when no place has two earlier ones within four times the spacing that are not within
      the spacing of each other. */
  lemma EndsApartIff(places: seq<Place>, spacing: int)
    ensures (forall mags: seq<real> | |mags| == |places| :: Apart(Listed(Candidates(places, mags), spacing), spacing))
            <==> Clustered(places, spacing)
  {
    hide Near, Apart, Splits, Candidates, Listed;
    if Clustered(places, spacing) {
      forall mags: seq<real> | |mags| == |places| ensures Apart(Listed(Candidates(places, mags), spacing), spacing) {
        ClusteredStaysApart(places, mags, |places|, spacing);
        var c := Candidates(places, mags);
        assert c[..|places|] == c;
      }
    } else {
      var i, j, k :| 0 <= i < j < k < |places| && Splits(places, i, j, k, spacing);
      SplitPlacesCollide(places, i, j, k, spacing);
    }
  }
}
