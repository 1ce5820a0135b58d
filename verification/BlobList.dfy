/** The blob list of `findBlobs` in Oph/src/camera.c: candidates are added one at a time, dropped when
    close to a blob already listed, and copied over the dimmer ones among those. */
module BlobList {
  import opened Common
  import opened BlobSort
  import BlobSortLaws

  const UINT32_MAX := 4294967295.0
  const SATURATED := 25400.0
  const GROWTH := 500

  /** The magnitude recorded for a pixel of the filtered image. */
  function PixelMag(value: real): real {
    if 100.0 * value < 0.0 then UINT32_MAX else 100.0 * value
  }

  function IntAbs(x: int): int {
    if x < 0 then -x else x
  }

  predicate Near(b: Blob, c: Blob, spacing: int) {
    IntAbs(Truncate(c.x - b.x)) < spacing && IntAbs(Truncate(c.y - b.y)) < spacing
  }

  /** The spacing a candidate is held to: four times the configured one when it is saturated. */
  function Reach(c: Blob, spacing: int): int {
    if c.mag > SATURATED then spacing * 4 else spacing
  }

  predicate Replaces(c: Blob, b: Blob, reach: int) {
    Near(b, c, reach) && c.mag > b.mag
  }

  /** The list with `c` copied over every listed blob it is near and brighter than. */
  function Overwritten(list: seq<Blob>, c: Blob, reach: int): (r: seq<Blob>)
    ensures |r| == |list|
    ensures forall k :: 0 <= k < |list| ==> r[k] == if Replaces(c, list[k], reach) then c else list[k]
  {
    if list == [] then []
    else Overwritten(list[..|list| - 1], c, reach)
         + [if Replaces(c, list[|list| - 1], reach) then c else list[|list| - 1]]
  }

  predicate Unique(list: seq<Blob>, c: Blob, reach: int) {
    forall k :: 0 <= k < |list| ==> !Near(list[k], c, reach)
  }

  function Considered(list: seq<Blob>, c: Blob, spacing: int): seq<Blob> {
    Overwritten(list, c, Reach(c, spacing)) + (if Unique(list, c, Reach(c, spacing)) then [c] else [])
  }

  /** The list after a whole image's candidates. */
  function Listed(candidates: seq<Blob>, spacing: int): seq<Blob> {
    if candidates == [] then []
    else Considered(Listed(candidates[..|candidates| - 1], spacing), candidates[|candidates| - 1], spacing)
  }

  lemma ListedOneMore(candidates: seq<Blob>, c: Blob, spacing: int)
    ensures Listed(candidates + [c], spacing) == Considered(Listed(candidates, spacing), c, spacing)
  {
    hide Considered;
    assert (candidates + [c])[..|candidates|] == candidates;
  }

  function Flipped(list: seq<Blob>): (r: seq<Blob>)
    ensures |r| == |list|
    ensures forall k :: 0 <= k < |list| ==> r[k] == list[k].(y := CAMERA_HEIGHT as real - list[k].y)
  {
    seq(|list|, k requires 0 <= k < |list| => list[k].(y := CAMERA_HEIGHT as real - list[k].y))
  }

  /** The arrays passed by the caller, with the allocation `findBlobs` keeps in a static. */
  class Finder {
    var starX: array<real>
    var starY: array<real>
    var starMags: array<real>
    var numAlloc: int
    var blobCount: int

    ghost predicate Valid()
      reads this, starX, starY, starMags
    {
      && starX.Length == starY.Length == starMags.Length == numAlloc
      && 0 <= blobCount <= numAlloc
      && starMags != starX && starMags != starY && starX != starY
    }

    /** The arrays hold `list` in their first `blobCount` slots. */
    ghost predicate Holds(list: seq<Blob>)
      reads this, starX, starY, starMags
    {
      Valid() && blobCount == |list| && Hold(starMags, starX, starY, 0, list)
    }

    constructor ()
      ensures Holds([]) && fresh(starX) && fresh(starY) && fresh(starMags)
    {
      starX, starY, starMags := new real[0], new real[0], new real[0];
      numAlloc, blobCount := 0, 0;
    }

    method Begin()
      requires Valid()
      modifies this`blobCount
      ensures Holds([])
    {
      blobCount := 0;
    }

    /** `realloc` to 500 more slots, when the next one is not there. */
    method MakeRoom(ghost list: seq<Blob>)
      requires Holds(list)
      modifies this`starX, this`starY, this`starMags, this`numAlloc
      ensures Holds(list) && blobCount < numAlloc
      ensures starX == old(starX) || fresh(starX)
      ensures starY == old(starY) || fresh(starY)
      ensures starMags == old(starMags) || fresh(starMags)
    {
      if blobCount >= numAlloc {
        var n := numAlloc + GROWTH;
        var x := Realloc(starX, n);
        var y := Realloc(starY, n);
        var m := Realloc(starMags, n);
        starX, starY, starMags, numAlloc := x, y, m, n;
      }
    }

    static method Realloc(a: array<real>, n: int) returns (b: array<real>)
      requires a.Length <= n
      ensures fresh(b) && b.Length == n
      ensures forall i :: 0 <= i < a.Length ==> b[i] == a[i]
    {
      b := new real[n];
      var k := 0;
      while k < a.Length
        invariant 0 <= k <= a.Length
        invariant forall i :: 0 <= i < k ==> b[i] == a[i]
      {
        b[k] := a[k];
        k := k + 1;
      }
    }

    /** The treatment of one candidate pixel. Every slot written is below `numAlloc`. */
    method Consider(i: int, j: int, value: real, spacing: int, ghost list: seq<Blob>)
      requires Holds(list)
      modifies this, starX, starY, starMags
      ensures Holds(Considered(list, Blob(PixelMag(value), i as real, j as real), spacing))
      ensures starX == old(starX) || fresh(starX)
      ensures starY == old(starY) || fresh(starY)
      ensures starMags == old(starMags) || fresh(starMags)
    {
      ghost var c := Blob(PixelMag(value), i as real, j as real);
      MakeRoom(list);
      WriteCandidate(i, j, value, list);
      var reach := if starMags[blobCount] > SATURATED then spacing * 4 else spacing;
      var unique := OverwriteNear(reach, list, c);
      TakeIn(unique, Overwritten(list, c, reach), c);
      assert Considered(list, c, spacing) == Overwritten(list, c, reach) + if unique then [c] else [];
    }

    method WriteCandidate(i: int, j: int, value: real, ghost list: seq<Blob>)
      requires Holds(list) && blobCount < numAlloc
      modifies starX, starY, starMags
      ensures Holds(list) && starMags[blobCount] == PixelMag(value)
      ensures Hold(starMags, starX, starY, 0, list + [Blob(PixelMag(value), i as real, j as real)])
    {
      starX[blobCount], starY[blobCount] := i as real, j as real;
      starMags[blobCount] := 100.0 * value;
      if starMags[blobCount] < 0.0 {
        starMags[blobCount] := UINT32_MAX;
      }
    }

    method TakeIn(unique: bool, ghost after: seq<Blob>, ghost c: Blob)
      requires Valid() && blobCount == |after| < numAlloc && Hold(starMags, starX, starY, 0, after + [c])
      modifies this`blobCount
      ensures Holds(after + if unique then [c] else [])
    {
      assert forall k :: 0 <= k < |after| ==> after[k] == (after + [c])[k];
      if unique {
        blobCount := blobCount + 1;
      } else {
        assert after + [] == after;
      }
    }

    /** The loop over the blobs already listed; the candidate is in slot `blobCount`. */
    method OverwriteNear(reach: int, ghost list: seq<Blob>, ghost c: Blob) returns (unique: bool)
      requires Holds(list) && blobCount < numAlloc
      requires Hold(starMags, starX, starY, 0, list + [c])
      modifies starX, starY, starMags
      ensures Valid() && Hold(starMags, starX, starY, 0, Overwritten(list, c, reach) + [c])
      ensures unique <==> Unique(list, c, reach)
    {
      unique := true;
      ghost var cur, after := list + [c], Overwritten(list, c, reach);
      var ib := 0;
      while ib < blobCount
        invariant 0 <= ib <= blobCount
        invariant Valid() && |cur| == |list| + 1 && cur[|list|] == c
        invariant Hold(starMags, starX, starY, 0, cur)
        invariant unique <==> Unique(list[..ib], c, reach)
        invariant forall k :: 0 <= k < |list| ==> cur[k] == if k < ib then after[k] else list[k]
      {
        hide Overwritten, Unique;
        UniqueStep(list, ib, c, reach);
        if IsNear(ib, reach, cur) {
          unique := false;
          if starMags[blobCount] > starMags[ib] {
            CopySlot(ib, cur);
            cur := cur[ib := c];
          }
        }
        ib := ib + 1;
      }
      assert list[..blobCount] == list;
      assert cur == after + [c];
    }

    /** The distance test between slot `ib` and the candidate's. */
    predicate IsNear(ib: int, reach: int, ghost cur: seq<Blob>)
      requires Valid() && 0 <= ib < blobCount < numAlloc && |cur| == blobCount + 1
      requires Hold(starMags, starX, starY, 0, cur)
      reads this, starX, starY, starMags
      ensures IsNear(ib, reach, cur) == Near(cur[ib], cur[blobCount], reach)
    {
      IntAbs(Truncate(starX[blobCount] - starX[ib])) < reach && IntAbs(Truncate(starY[blobCount] - starY[ib])) < reach
    }

    method CopySlot(ib: int, ghost cur: seq<Blob>)
      requires Valid() && 0 <= ib < blobCount < numAlloc && |cur| == blobCount + 1
      requires Hold(starMags, starX, starY, 0, cur)
      modifies starX, starY, starMags
      ensures Valid() && Hold(starMags, starX, starY, 0, cur[ib := cur[blobCount]])
    {
      starX[ib], starY[ib], starMags[ib] := starX[blobCount], starY[blobCount], starMags[blobCount];
    }

    lemma UniqueStep(list: seq<Blob>, ib: int, c: Blob, reach: int)
      requires 0 <= ib < |list|
      ensures Unique(list[..ib + 1], c, reach) <==> Unique(list[..ib], c, reach) && !Near(list[ib], c, reach)
    {
      assert list[..ib + 1] == list[..ib] + [list[ib]];
    }

    /** The end of `findBlobs`: vertical flip, then the sort. */
    method Finish(ghost list: seq<Blob>) returns (count: int)
      requires Holds(list) && Parted(Flipped(list)).Some?
      modifies starX, starY, starMags
      ensures count == |list| && Holds(Parted(Flipped(list)).value)
    {
      Flip(list);
      Part(starMags, 0, blobCount - 1, starX, starY, Flipped(list));
      count := blobCount;
    }

    method Flip(ghost list: seq<Blob>)
      requires Holds(list)
      modifies starY
      ensures Holds(Flipped(list))
    {
      var ibb := 0;
      while ibb < blobCount
        invariant 0 <= ibb <= blobCount
        invariant Valid()
        invariant forall k :: 0 <= k < blobCount ==>
                    && starMags[k] == list[k].mag && starX[k] == list[k].x
                    && starY[k] == if k < ibb then CAMERA_HEIGHT as real - list[k].y else list[k].y
      {
        starY[ibb] := CAMERA_HEIGHT as real - starY[ibb];
        ibb := ibb + 1;
      }
    }
  }

  // ---------------------------------------------------------------- what the list says about the candidates

  /** One candidate: magnitudes in the slots never drop, nothing enters the list but the candidate,
      and some slot ends up at least as bright as it. */
  lemma ConsiderOne(list: seq<Blob>, c: Blob, spacing: int)
    ensures var after := Considered(list, c, spacing);
            && |list| <= |after| <= |list| + 1
            && (forall k :: 0 <= k < |list| ==> after[k].mag >= list[k].mag)
            && (forall k :: 0 <= k < |after| ==> after[k] == c || (k < |list| && after[k] == list[k]))
            && Matched(after, c.mag)
  {
    var reach := Reach(c, spacing);
    var after := Considered(list, c, spacing);
    if Unique(list, c, reach) {
      assert after[|list|] == c;
    } else {
      var k :| 0 <= k < |list| && Near(list[k], c, reach);
      assert after[k].mag >= c.mag;
    }
  }

  /** The slots of the list after `i` candidates only get brighter with the rest. */
  lemma {:induction false} SlotsOnlyBrighten(candidates: seq<Blob>, spacing: int, i: int)
    requires 0 <= i <= |candidates|
    ensures var early, late := Listed(candidates[..i], spacing), Listed(candidates, spacing);
            |early| <= |late| && forall k :: 0 <= k < |early| ==> early[k].mag <= late[k].mag
    decreases |candidates|
  {
    if i == |candidates| {
      assert candidates[..i] == candidates;
    } else {
      var init := candidates[..|candidates| - 1];
      SlotsOnlyBrighten(init, spacing, i);
      assert init[..i] == candidates[..i];
      ConsiderOne(Listed(init, spacing), candidates[|candidates| - 1], spacing);
    }
  }

  ghost predicate Matched(list: seq<Blob>, mag: real) {
    exists k :: 0 <= k < |list| && list[k].mag >= mag
  }

  /** Each blob listed is a candidate, and every candidate is matched by a blob at least as bright. */
  ghost predicate Represents(list: seq<Blob>, candidates: seq<Blob>) {
    && (forall k :: 0 <= k < |list| ==> list[k] in candidates)
    && (forall i :: 0 <= i < |candidates| ==> Matched(list, candidates[i].mag))
  }

  /** Over every candidate sequence, the list represents the candidates: its blobs are candidates with
      their own coordinates, and its brightest is the brightest of them all. */
  lemma {:induction false} ListRepresentsCandidates(candidates: seq<Blob>, spacing: int)
    ensures Represents(Listed(candidates, spacing), candidates)
    ensures |Listed(candidates, spacing)| <= |candidates|
  {
    hide Considered, Represents;
    if candidates == [] {
      assert Represents([], []) by { EmptyIsRepresented(); }
    } else {
      var n := |candidates| - 1;
      ListRepresentsCandidates(candidates[..n], spacing);
      ConsiderOne(Listed(candidates[..n], spacing), candidates[n], spacing);
      OneMoreIsRepresented(candidates[..n], candidates[n], Listed(candidates[..n], spacing),
          Listed(candidates, spacing));
      assert candidates == candidates[..n] + [candidates[n]];
    }
  }

  lemma EmptyIsRepresented()
    ensures Represents([], [])
  {}

  lemma OneMoreIsRepresented(init: seq<Blob>, c: Blob, list: seq<Blob>, after: seq<Blob>)
    requires Represents(list, init)
    requires |list| <= |after|
    requires forall k :: 0 <= k < |list| ==> after[k].mag >= list[k].mag
    requires forall k :: 0 <= k < |after| ==> after[k] == c || (k < |list| && after[k] == list[k])
    requires Matched(after, c.mag)
    ensures Represents(after, init + [c])
  {
    forall i | 0 <= i < |init| ensures Matched(after, init[i].mag) {
      assert Matched(list, init[i].mag);
      var k :| 0 <= k < |list| && list[k].mag >= init[i].mag;
      assert after[k].mag >= init[i].mag;
    }
  }

  // ---------------------------------------------------------------- spacing

  ghost predicate Apart(list: seq<Blob>, spacing: int) {
    forall i, j :: 0 <= i < j < |list| ==> !Near(list[i], list[j], spacing)
  }

  /** The candidate is copied over no two blobs, and over none that has another within the spacing
      of the candidate. */
  ghost predicate ReplacesCleanly(list: seq<Blob>, c: Blob, spacing: int) {
    forall i, j :: 0 <= i < |list| && 0 <= j < |list| && i != j && Replaces(c, list[i], Reach(c, spacing)) ==>
      !Replaces(c, list[j], Reach(c, spacing)) && !Near(list[j], c, spacing)
  }

  lemma NearIsSymmetric(b: Blob, c: Blob, spacing: int)
    ensures Near(b, c, spacing) <==> Near(c, b, spacing)
  {
    assert Truncate(b.x - c.x) == -Truncate(c.x - b.x);
    assert Truncate(b.y - c.y) == -Truncate(c.y - b.y);
  }

  /** Replacement does not keep blobs apart in general; one candidate leaves a spaced list spaced
      exactly when it replaces cleanly. */
  lemma SpacingKeptIff(list: seq<Blob>, c: Blob, spacing: int)
    requires Apart(list, spacing)
    ensures Apart(Considered(list, c, spacing), spacing) <==> ReplacesCleanly(list, c, spacing)
  {
    var reach := Reach(c, spacing);
    var after := Considered(list, c, spacing);
    assert !Near(c, c, reach) ==> spacing <= 0;
    if !ReplacesCleanly(list, c, spacing) {
      var i, j :| 0 <= i < |list| && 0 <= j < |list| && i != j && Replaces(c, list[i], reach)
                  && (Replaces(c, list[j], reach) || Near(list[j], c, spacing));
      assert after[i] == c;
      assert Near(c, c, spacing);
      NearIsSymmetric(after[i], after[j], spacing);
      assert !Apart(after, spacing);
    } else {
      forall i, j | 0 <= i < j < |after| ensures !Near(after[i], after[j], spacing) {
        if i < |list| {
          NearIsSymmetric(list[i], c, spacing);
        }
        if j < |list| {
          NearIsSymmetric(list[j], c, spacing);
          assert !Near(list[i], list[j], spacing);
        }
      }
    }
  }

  /** A brighter blob near two that are not near each other replaces both. */
  lemma ReplacesBoth(a: Blob, b: Blob, c: Blob, spacing: int)
    requires b.mag <= SATURATED && c.mag <= SATURATED && c.mag > a.mag && c.mag > b.mag
    requires !Near(a, b, spacing) && Near(a, c, spacing) && Near(b, c, spacing)
    ensures Listed([a, b], spacing) == [a, b] && Listed([a, b, c], spacing) == [c, c]
  {
    hide Near, Listed;
    assert Listed([], spacing) == [] by { NothingListed(spacing); }
    ListedOneMore([], a, spacing);
    ListedOneMore([a], b, spacing);
    ListedOneMore([a, b], c, spacing);
    assert [] + [a] == [a] && [a] + [b] == [a, b] && [a, b] + [c] == [a, b, c];
    assert Considered([], a, spacing) == [a];
    assert Considered([a], b, spacing) == [a, b];
    assert Considered([a, b], c, spacing) == [c, c];
  }

  lemma NothingListed(spacing: int)
    ensures Listed([], spacing) == []
  {}

  /** Spacing is lost in practice: a bright blob between two dim ones 16 pixels apart replaces both. */
  lemma SpacingIsLost()
    ensures var a, b, c := Blob(1.0, 0.0, 0.0), Blob(1.0, 16.0, 0.0), Blob(2.0, 8.0, 1.0);
            Listed([a, b], 15) == [a, b] && Apart([a, b], 15)
            && Listed([a, b, c], 15) == [c, c]
  {
    hide Listed;
    var a, b, c := Blob(1.0, 0.0, 0.0), Blob(1.0, 16.0, 0.0), Blob(2.0, 8.0, 1.0);
    assert Truncate(16.0) == 16 && Truncate(8.0) == 8 && Truncate(-8.0) == -8 && Truncate(1.0) == 1;
    assert !Near(a, b, 15) && Near(a, c, 15) && Near(b, c, 15);
    ReplacesBoth(a, b, c, 15);
  }

  // ---------------------------------------------------------------- what findBlobs returns

  lemma PositiveMagnitudes(list: seq<Blob>, candidates: seq<Blob>)
    requires Represents(list, candidates) && BlobSortLaws.AllPositive(candidates)
    ensures BlobSortLaws.AvoidsSentinels(Flipped(list))
  {
    forall k | 0 <= k < |list| ensures Flipped(list)[k].mag > 0.0 {
      assert list[k] in candidates;
      var i :| 0 <= i < |candidates| && candidates[i] == list[k];
    }
  }

  /** The blobs `findBlobs` returns. */
  ghost predicate Returned(found: seq<Blob>, candidates: seq<Blob>) {
    && BlobSortLaws.BrightestFirst(found)
    && (forall k :: 0 <= k < |found| ==> Unflipped(found[k]) in candidates)
    && (forall i :: 0 <= i < |candidates| ==> found != [] && found[0].mag >= candidates[i].mag)
  }

  function Unflipped(b: Blob): Blob {
    b.(y := CAMERA_HEIGHT as real - b.y)
  }

  lemma SamePlace(s: seq<Blob>, t: seq<Blob>, k: int) returns (j: int)
    requires multiset(s) == multiset(t) && 0 <= k < |s|
    ensures 0 <= j < |t| && t[j] == s[k]
  {
    assert s[k] in multiset(s);
    assert s[k] in multiset(t);
    j :| 0 <= j < |t| && t[j] == s[k];
  }

  lemma SortedIsReturned(list: seq<Blob>, found: seq<Blob>, candidates: seq<Blob>)
    requires Represents(list, candidates)
    requires multiset(found) == multiset(Flipped(list)) && BlobSortLaws.BrightestFirst(found)
    ensures Returned(found, candidates)
  {
    var flipped := Flipped(list);
    forall k | 0 <= k < |found| ensures Unflipped(found[k]) in candidates {
      var j := SamePlace(found, flipped, k);
      assert Unflipped(flipped[j]) == list[j] && list[j] in candidates;
    }
    forall i | 0 <= i < |candidates| ensures found != [] && found[0].mag >= candidates[i].mag {
      assert Matched(list, candidates[i].mag);
      var j :| 0 <= j < |list| && list[j].mag >= candidates[i].mag;
      var k := SamePlace(flipped, found, j);
      assert flipped[j].mag == list[j].mag;
      assert k == 0 || found[0].mag >= found[k].mag;
    }
  }

  /** For every image's candidates of nonzero pixel value: the sort runs clear of its sentinels, and
      the blobs returned are candidates, flipped once, brightest first, the first being the
      brightest of all candidates. */
  lemma FoundBlobs(candidates: seq<Blob>, spacing: int)
    requires BlobSortLaws.AllPositive(candidates)
    ensures Parted(Flipped(Listed(candidates, spacing))).Some?
    ensures Returned(Parted(Flipped(Listed(candidates, spacing))).value, candidates)
  {
    hide Represents, Returned, Flipped, Parted, Listed;
    var list := Listed(candidates, spacing);
    ListRepresentsCandidates(candidates, spacing);
    PositiveMagnitudes(list, candidates);
    BlobSortLaws.SortAvoidsSentinelsIff(Flipped(list));
    BlobSortLaws.PartedIsOrdered(Flipped(list));
    BlobSortLaws.PartedPermutes(Flipped(list));
    SortedIsReturned(list, Parted(Flipped(list)).value, candidates);
  }

  /** The recorded magnitude is positive exactly for a nonzero pixel. */
  lemma PixelMagIsPositiveIff(value: real)
    ensures PixelMag(value) > 0.0 <==> value != 0.0
  {}
}
