/** The blob sort orders brightest first, stably, and copies no sentinel exactly when every
    magnitude after the first is positive. */
module BlobSortLaws {
  import opened Common
  import opened BlobSort

  // ---------------------------------------------------------------- when a sentinel is copied

  ghost predicate AllNonnegative(s: seq<Blob>) {
    forall k :: 0 <= k < |s| ==> s[k].mag >= 0.0
  }

  ghost predicate AllPositive(s: seq<Blob>) {
    forall k :: 0 <= k < |s| ==> s[k].mag > 0.0
  }

  /** A merge copies no sentinel exactly when the left half is nonnegative and the right positive. */
  lemma {:induction false} MergeAvoidsSentinelsIff(l: seq<Blob>, r: seq<Blob>)
    ensures Merged(l, r).Some? <==> AllNonnegative(l) && AllPositive(r)
    decreases |l| + |r|
  {
    if l == [] && r == [] {
    } else if HeadMag(l) >= HeadMag(r) {
      if l != [] {
        MergeAvoidsSentinelsIff(l[1..], r);
        assert AllNonnegative(l) <==> l[0].mag >= 0.0 && AllNonnegative(l[1..]);
      }
    } else if r != [] {
      MergeAvoidsSentinelsIff(l, r[1..]);
      assert AllPositive(r) <==> r[0].mag > 0.0 && AllPositive(r[1..]);
    }
  }

  /** The sort copies no sentinel exactly when it has at most one blob, or its first is nonnegative
      and every other positive. */
  ghost predicate AvoidsSentinels(s: seq<Blob>) {
    |s| <= 1 || (s[0].mag >= 0.0 && AllPositive(s[1..]))
  }

  lemma MembersSign(s: seq<Blob>, t: seq<Blob>)
    requires multiset(s) == multiset(t)
    ensures AllNonnegative(s) <==> AllNonnegative(t)
    ensures AllPositive(s) <==> AllPositive(t)
  {
    assert forall b :: b in s <==> b in multiset(s);
    assert forall b :: b in t <==> b in multiset(t);
    assert AllNonnegative(s) <==> forall b :: b in s ==> b.mag >= 0.0;
    assert AllNonnegative(t) <==> forall b :: b in t ==> b.mag >= 0.0;
    assert AllPositive(s) <==> forall b :: b in s ==> b.mag > 0.0;
    assert AllPositive(t) <==> forall b :: b in t ==> b.mag > 0.0;
  }

  lemma {:induction false} SortAvoidsSentinelsIff(s: seq<Blob>)
    ensures Parted(s).Some? <==> AvoidsSentinels(s)
    decreases |s|
  {
    hide Merged, AllNonnegative, AllPositive;
    if |s| > 1 {
      var h := Half(s);
      var l, r := s[..h], s[h..];
      SortAvoidsSentinelsIff(l);
      SortAvoidsSentinelsIff(r);
      HalvesAvoid(s, l, r);
      if Parted(l).Some? && Parted(r).Some? {
        PartedPermutes(l);
        PartedPermutes(r);
        MembersSign(l, Parted(l).value);
        MembersSign(r, Parted(r).value);
        MergeAvoidsSentinelsIff(Parted(l).value, Parted(r).value);
      }
    }
  }

  lemma HalvesAvoid(s: seq<Blob>, l: seq<Blob>, r: seq<Blob>)
    requires s == l + r && l != [] && r != []
    ensures AvoidsSentinels(s) <==> AvoidsSentinels(l) && AvoidsSentinels(r) && AllNonnegative(l) && AllPositive(r)
  {
    assert s[1..] == l[1..] + r && s[0] == l[0];
    SignsOfSum(l[1..], r);
    SignsOfHead(l);
    SignsOfHead(r);
    if |l| == 1 {
      assert l[1..] == [];
      NoSigns();
    }
    hide AllPositive, AllNonnegative;
  }

  lemma NoSigns()
    ensures AllPositive([])
  {}

  lemma SignsOfSum(a: seq<Blob>, b: seq<Blob>)
    ensures AllPositive(a + b) <==> AllPositive(a) && AllPositive(b)
  {
    if AllPositive(a + b) {
      assert forall k :: 0 <= k < |a| ==> a[k] == (a + b)[k];
      assert forall k :: 0 <= k < |b| ==> b[k] == (a + b)[|a| + k];
    }
  }

  lemma SignsOfHead(s: seq<Blob>)
    requires s != []
    ensures AllNonnegative(s) <==> s[0].mag >= 0.0 && AllNonnegative(s[1..])
    ensures AllPositive(s) <==> s[0].mag > 0.0 && AllPositive(s[1..])
    ensures AllPositive(s[1..]) ==> AllNonnegative(s[1..])
  {
    assert forall k :: 0 < k < |s| ==> s[k] == s[1..][k - 1];
  }

  // ---------------------------------------------------------------- permutation

  lemma {:induction false} MergedPermutes(l: seq<Blob>, r: seq<Blob>)
    requires Merged(l, r).Some?
    ensures multiset(Merged(l, r).value) == multiset(l) + multiset(r)
    decreases |l| + |r|
  {
    if l == [] && r == [] {
    } else if HeadMag(l) >= HeadMag(r) {
      MergedPermutes(l[1..], r);
      assert l == [l[0]] + l[1..];
    } else {
      MergedPermutes(l, r[1..]);
      assert r == [r[0]] + r[1..];
    }
  }

  lemma {:induction false} PartedPermutes(s: seq<Blob>)
    requires Parted(s).Some?
    ensures multiset(Parted(s).value) == multiset(s)
    decreases |s|
  {
    hide Merged;
    if |s| > 1 {
      var l, r := s[..Half(s)], s[Half(s)..];
      PartedPermutes(l);
      PartedPermutes(r);
      MergedPermutes(Parted(l).value, Parted(r).value);
      assert s == l + r;
    }
  }

  // ---------------------------------------------------------------- order

  ghost predicate BrightestFirst(s: seq<Blob>) {
    forall i, j :: 0 <= i < j < |s| ==> s[i].mag >= s[j].mag
  }

  ghost predicate AtMost(s: seq<Blob>, mag: real) {
    forall k :: 0 <= k < |s| ==> s[k].mag <= mag
  }

  lemma AtMostByMembers(m: seq<Blob>, l: seq<Blob>, r: seq<Blob>, mag: real)
    requires multiset(m) == multiset(l) + multiset(r) && AtMost(l, mag) && AtMost(r, mag)
    ensures AtMost(m, mag)
  {
    forall k | 0 <= k < |m| ensures m[k].mag <= mag {
      assert m[k] in multiset(m);
      assert m[k] in l || m[k] in r;
    }
  }

  lemma {:induction false} MergedIsOrdered(l: seq<Blob>, r: seq<Blob>)
    requires Merged(l, r).Some? && BrightestFirst(l) && BrightestFirst(r)
    ensures BrightestFirst(Merged(l, r).value)
    decreases |l| + |r|
  {
    if l == [] && r == [] {
    } else if HeadMag(l) >= HeadMag(r) {
      MergedIsOrdered(l[1..], r);
      MergedPermutes(l[1..], r);
      AtMostByMembers(Merged(l[1..], r).value, l[1..], r, l[0].mag);
    } else {
      MergedIsOrdered(l, r[1..]);
      MergedPermutes(l, r[1..]);
      AtMostByMembers(Merged(l, r[1..]).value, l, r[1..], r[0].mag);
    }
  }

  lemma {:induction false} PartedIsOrdered(s: seq<Blob>)
    requires Parted(s).Some?
    ensures BrightestFirst(Parted(s).value)
    decreases |s|
  {
    if |s| > 1 {
      PartedIsOrdered(s[..Half(s)]);
      PartedIsOrdered(s[Half(s)..]);
      MergedIsOrdered(Parted(s[..Half(s)]).value, Parted(s[Half(s)..]).value);
    }
  }

  // ---------------------------------------------------------------- stability

  /** The blobs of magnitude `mag`, in order. */
  function OfMagnitude(s: seq<Blob>, mag: real): seq<Blob> {
    if s == [] then []
    else if s[0].mag == mag then [s[0]] + OfMagnitude(s[1..], mag)
    else OfMagnitude(s[1..], mag)
  }

  lemma {:induction false} OfMagnitudeOfSum(s: seq<Blob>, t: seq<Blob>, mag: real)
    ensures OfMagnitude(s + t, mag) == OfMagnitude(s, mag) + OfMagnitude(t, mag)
  {
    if s == [] {
      assert s + t == t;
    } else {
      OfMagnitudeOfSum(s[1..], t, mag);
      assert (s + t)[1..] == s[1..] + t;
    }
  }

  lemma {:induction false} DimmerHasNone(s: seq<Blob>, mag: real)
    requires BrightestFirst(s) && HeadMag(s) < mag
    ensures OfMagnitude(s, mag) == []
  {
    if s != [] {
      assert forall k :: 0 <= k < |s| ==> s[k].mag <= s[0].mag;
      NoneOf(s, mag);
    }
  }

  lemma {:induction false} NoneOf(s: seq<Blob>, mag: real)
    requires forall k :: 0 <= k < |s| ==> s[k].mag < mag
    ensures OfMagnitude(s, mag) == []
  {
    if s != [] {
      NoneOf(s[1..], mag);
    }
  }

  lemma {:induction false} MergedIsStable(l: seq<Blob>, r: seq<Blob>, mag: real)
    requires Merged(l, r).Some? && BrightestFirst(l) && BrightestFirst(r)
    ensures OfMagnitude(Merged(l, r).value, mag) == OfMagnitude(l, mag) + OfMagnitude(r, mag)
    decreases |l| + |r|
  {
    if l == [] && r == [] {
    } else if HeadMag(l) >= HeadMag(r) {
      MergedIsStable(l[1..], r, mag);
    } else {
      MergedIsStable(l, r[1..], mag);
      if r[0].mag == mag && l != [] {
        DimmerHasNone(l, mag);
      }
    }
  }

  lemma {:induction false} PartedIsStable(s: seq<Blob>, mag: real)
    requires Parted(s).Some?
    ensures OfMagnitude(Parted(s).value, mag) == OfMagnitude(s, mag)
    decreases |s|
  {
    hide Merged, OfMagnitude, BrightestFirst;
    if |s| <= 1 {
      assert Parted(s) == Some(s);
    } else {
      var l, r := s[..Half(s)], s[Half(s)..];
      PartedIsStable(l, mag);
      PartedIsStable(r, mag);
      PartedIsOrdered(l);
      PartedIsOrdered(r);
      MergedIsStable(Parted(l).value, Parted(r).value, mag);
      OfMagnitudeOfSum(l, r, mag);
      assert s == l + r;
    }
  }

  /** For every stretch whose first magnitude is nonnegative and whose others are positive, the sort
      is a permutation of the (magnitude, x, y) triples, brightest first, that keeps the order of
      equal magnitudes. */
  lemma SortIsCorrect(s: seq<Blob>, mag: real)
    requires AvoidsSentinels(s)
    ensures Parted(s).Some?
    ensures multiset(Parted(s).value) == multiset(s)
    ensures BrightestFirst(Parted(s).value)
    ensures OfMagnitude(Parted(s).value, mag) == OfMagnitude(s, mag)
  {
    SortAvoidsSentinelsIff(s);
    PartedPermutes(s);
    PartedIsOrdered(s);
    PartedIsStable(s, mag);
  }
}
