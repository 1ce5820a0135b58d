/** What the image download promises over a sequence of calls, and what its loop makes of each datagram. */
module ClientLaws {
  import opened Common
  import opened Wire
  import opened Client

  // ---------------------------------------------------------------- sequences of calls

  predicate IsValid(image: Option<StarCameraImage>) {
    image.Some? && image.value.valid
  }

  /** The request left and the first datagram that came back is an error message, of kind 8. */
  predicate ErrorReply(x: Exchange) {
    x.sent && x.rs != [] && |x.rs[0]| >= 9 && x.rs[0][0] == 8
  }

  /** The calls since the last valid image that no error message answered. */
  function BadSinceValid(calls: seq<Exchange>, images: seq<Option<StarCameraImage>>): nat
    requires |images| == |calls|
  {
    if calls == [] then 0
    else
      var n := |calls| - 1;
      if IsValid(images[n]) then 0
      else BadSinceValid(calls[..n], images[..n]) + if ErrorReply(calls[n]) then 0 else 1
  }

  lemma LastImage(calls: seq<Exchange>)
    requires calls != []
    ensures var n := |calls| - 1;
            Images(calls)[..n] == Images(calls[..n]) && Images(calls)[n] == ImageFor(FailuresOver(calls[..n]), calls[n])
  {
    hide ImageFor;
  }

  lemma OneCall(failures: nat, x: Exchange)
    ensures FailuresFor(failures, x) ==
            if failures > 3 then failures
            else if IsValid(ImageFor(failures, x)) then 0
            else if ErrorReply(x) then failures else failures + 1
    ensures failures > 3 ==> ImageFor(failures, x) == Some(INVALID)
  {
    hide UnpackImageHeader, Assembled;
  }

  /** Told from the images returned and the first datagrams alone: the count is that of the bad calls since
      the last valid image, up to four. */
  lemma {:induction false} FailuresAreBadCalls(calls: seq<Exchange>)
    ensures FailuresOver(calls) == Min(BadSinceValid(calls, Images(calls)), 4)
  {
    hide ImageFor, FailuresFor, Images, ErrorReply;
    if calls != [] {
      var n := |calls| - 1;
      FailuresAreBadCalls(calls[..n]);
      LastImage(calls);
      OneCall(FailuresOver(calls[..n]), calls[n]);
    }
  }

  /** The call would get a valid image if it asked. */
  predicate WouldSucceed(x: Exchange) {
    x.sent && Downloaded(x.rs).valid
  }

  /** A call that would succeed returns its image unless it is refused, and it is refused exactly when four
      calls or more have been bad since the last valid image. */
  lemma RefusedIff(calls: seq<Exchange>, x: Exchange)
    requires WouldSucceed(x)
    ensures var images := Images(calls + [x]);
            && |images| == |calls| + 1
            && (images[|calls|] == Some(INVALID) <==> BadSinceValid(calls, Images(calls)) >= 4)
            && (images[|calls|] == Some(Downloaded(x.rs)) <==> BadSinceValid(calls, Images(calls)) < 4)
            && (BadSinceValid(calls, Images(calls)) < 4 ==> FailuresOver(calls + [x]) == 0)
  {
    hide Downloaded, Images;
    FailuresAreBadCalls(calls);
    LastImage(calls + [x]);
    assert (calls + [x])[..|calls|] == calls;
    OneCall(FailuresOver(calls), x);
  }

  /** A valid image leaves no failure. */
  lemma ValidClears(calls: seq<Exchange>)
    requires calls != [] && IsValid(Images(calls)[|calls| - 1])
    ensures FailuresOver(calls) == 0
  {
    hide Images;
    FailuresAreBadCalls(calls);
  }

  /** Any number of calls that would succeed are all answered with their images. */
  lemma {:induction false} SuccessesAreNeverRefused(calls: seq<Exchange>)
    requires forall x <- calls :: WouldSucceed(x)
    ensures FailuresOver(calls) == 0
    ensures forall k :: 0 <= k < |calls| ==> Images(calls)[k] == Some(Downloaded(calls[k].rs))
  {
    hide Downloaded, ErrorReply;
    if calls != [] {
      var n := |calls| - 1;
      SuccessesAreNeverRefused(calls[..n]);
      LastImage(calls);
      assert WouldSucceed(calls[n]);
      OneCall(0, calls[n]);
    }
  }

  // ---------------------------------------------------------------- what the loop makes of a datagram

  /** The end of the image, of kind 7, or an error, of kind 8. */
  predicate Ends(m: Bytes) {
    |m| >= 9 && (m[0] == 7 || m[0] == 8)
  }

  /** A chunk, of kind 6, with its 17 bytes of header and at least the data it announces within 4096 bytes. */
  predicate IsChunk(m: Bytes) {
    |m| >= 17 && m[0] == 6 && 17 + FromLE(m[13..17]) <= |m| && 17 + FromLE(m[13..17]) <= 4096
  }

  lemma ChunkOfIs(m: Bytes)
    ensures ChunkOf(Read(m)) == if IsChunk(m) then Some(m[17..17 + FromLE(m[13..17])]) else None
    ensures Ends(m) <==> IsMessage(Read(m), MSG_IMAGE_COMPLETE) || IsMessage(Read(m), MSG_ERROR)
  {
    hide FromLE;
    var r := Read(m);
    if |m| >= 17 {
      assert r[13..17] == m[13..17];
      if IsChunk(m) {
        var n := FromLE(m[13..17]);
        assert r[17..17 + n] == m[17..17 + n];
      }
    }
  }

  /** What the datagrams after the header give: the chunks counted, their data, and the bytes read. */
  datatype Gathering = Gathering(count: nat, data: Bytes, volume: nat)

  /** The chunks in order up to an end or the number expected; at most 4096 bytes are read of a datagram. */
  function Gathered(rs: seq<Bytes>, expected: int): (g: Gathering) {
    if expected <= 0 || rs == [] then Gathering(0, [], 0)
    else
      var m, n := rs[0], Min(|rs[0]|, 4096);
      if Ends(m) then Gathering(0, [], n)
      else if IsChunk(m) then
        var g := Gathered(rs[1..], expected - 1);
        Gathering(g.count + 1, DataOf(m) + g.data, n + g.volume)
      else
        var g := Gathered(rs[1..], expected);
        g.(volume := n + g.volume)
  }

  function DataOf(m: Bytes): Bytes
    requires IsChunk(m)
  {
    m[17..17 + FromLE(m[13..17])]
  }

  lemma AssembledStep(rs: seq<Bytes>, expected: int, a: Assembly)
    requires a.taken < |rs| && a.count < expected
    ensures var m, next := rs[a.taken], a.(taken := a.taken + 1);
            Assembled(rs, expected, a)
            == if Ends(m) then next
               else if IsChunk(m) then Assembled(rs, expected, next.(count := a.count + 1, data := a.data + DataOf(m)))
               else Assembled(rs, expected, next)
  {
    hide Read, IsMessage, ChunkOf, FromLE, Ends;
    ChunkOfIs(rs[a.taken]);
  }

  lemma GatheredStep(rs: seq<Bytes>, k: nat, expected: int)
    requires k < |rs| && expected > 0
    ensures var m, n := rs[k], Min(|rs[k]|, 4096);
            Gathered(rs[k..], expected)
            == if Ends(m) then Gathering(0, [], n)
               else if IsChunk(m) then
                 var g := Gathered(rs[k + 1..], expected - 1);
                 Gathering(g.count + 1, DataOf(m) + g.data, n + g.volume)
               else
                 var g := Gathered(rs[k + 1..], expected);
                 g.(volume := n + g.volume)
  {
    hide FromLE, Ends;
    assert rs[k..][0] == rs[k] && rs[k..][1..] == rs[k + 1..];
  }

  lemma VolumeStep(rs: seq<Bytes>, k: nat)
    requires k < |rs|
    ensures Volume(rs, k + 1) == Volume(rs, k) + Min(|rs[k]|, 4096)
  {
    ReadLength(rs[k]);
  }

  lemma NothingGathered(rs: seq<Bytes>, expected: int, a: Assembly)
    requires a.taken <= |rs| && (a.count >= expected || a.taken == |rs|)
    ensures Assembled(rs, expected, a) == a && Gathered(rs[a.taken..], expected - a.count) == Gathering(0, [], 0)
  {}

  lemma {:induction false} AssembledIsGathered(rs: seq<Bytes>, expected: int, a: Assembly)
    requires a.taken <= |rs|
    ensures var g, r := Gathered(rs[a.taken..], expected - a.count), Assembled(rs, expected, a);
            && r.count == a.count + g.count && r.data == a.data + g.data
            && Volume(rs, r.taken) == Volume(rs, a.taken) + g.volume
    decreases |rs| - a.taken
  {
    hide Assembled, Gathered, FromLE, Ends, Volume, DataOf;
    if a.count < expected && a.taken < |rs| {
      var m, next := rs[a.taken], a.(taken := a.taken + 1);
      AssembledStep(rs, expected, a);
      GatheredStep(rs, a.taken, expected - a.count);
      VolumeStep(rs, a.taken);
      if Ends(m) {
        assert a.data + [] == a.data;
      } else if IsChunk(m) {
        AssembledIsGathered(rs, expected, next.(count := a.count + 1, data := a.data + DataOf(m)));
        Regrouped(a.data, DataOf(m), Gathered(rs[a.taken + 1..], expected - a.count - 1).data);
      } else {
        AssembledIsGathered(rs, expected, next);
      }
    } else {
      NothingGathered(rs, expected, a);
      assert a.data + [] == a.data;
    }
  }

  lemma Regrouped(a: Bytes, b: Bytes, c: Bytes)
    ensures a + b + c == a + (b + c)
  {}

  lemma ReadLength(m: Bytes)
    ensures |Read(m)| == Min(|m|, 4096)
  {}

  /** A header, of kind 5 and 38 bytes at least. */
  predicate Begins(rs: seq<Bytes>) {
    rs != [] && |rs[0]| >= 38 && rs[0][0] == 5
  }

  /** The image returned, told from the datagrams alone: valid when the first is a header and as many chunks
      follow as it announces, before an end; then its fields are the header's and its data the chunks'. The
      bytes counted are those read of the datagrams up to there. */
  lemma DownloadedIs(rs: seq<Bytes>)
    ensures var total := if Begins(rs) then FromLE(rs[0][21..25]) else 0;
            var g := Gathered(if rs == [] then [] else rs[1..], total);
            var r := Downloaded(rs);
            && (r.valid <==> Begins(rs) && g.count == total)
            && (!r.valid ==> r == StarCameraImage(0, 0, 0, 0, 0, 0, [], false))
            && Volume(rs, Taken(rs)) == (if rs == [] then 0 else Min(|rs[0]|, 4096) + g.volume)
            && (r.valid ==>
                  && r.imageData == g.data && r.totalSize == |g.data|
                  && r.timestamp == FromLE(rs[0][9..17]) && r.width == FromLE(rs[0][30..34])
                  && r.height == FromLE(rs[0][34..38]) && r.compressionQuality == FromLE(rs[0][25..29])
                  && r.blobCount == FromLE(rs[0][29..30]))
  {
    hide FromLE, Assembled, Read;
    if rs != [] {
      ReadLength(rs[0]);
      FirstVolume(rs);
    }
    if Begins(rs) {
      SameHeader(rs[0]);
      AssembledIsGathered(rs, FromLE(rs[0][21..25]), Assembly(0, [], 1));
      assert [] + Gathered(rs[1..], FromLE(rs[0][21..25])).data == Gathered(rs[1..], FromLE(rs[0][21..25])).data;
    } else if rs != [] && |rs[0]| >= 1 {
      assert |Read(rs[0])| >= 1 && Read(rs[0])[0] == rs[0][0];
    }
  }

  lemma FirstVolume(rs: seq<Bytes>)
    requires rs != []
    ensures Volume(rs, 1) == |Read(rs[0])|
  {
    assert Volume(rs, 0) == 0;
  }

  lemma SameHeader(m: Bytes)
    requires |m| >= 38
    ensures var r := Read(m);
            && |r| >= 38 && r[0] == m[0] && r[9..17] == m[9..17] && r[21..25] == m[21..25] && r[25..29] == m[25..29]
            && r[29..30] == m[29..30] && r[30..34] == m[30..34] && r[34..38] == m[34..38]
  {}

  // ---------------------------------------------------------------- the status

  /** A status reply of 25 bytes or more is the only one that counts, and the next image is asked for again. */
  lemma StatusIs(m: Bytes)
    ensures var r := StatusFrom(Some(m));
            && (r.valid <==> |m| >= 25 && m[0] == 9)
            && (!r.valid ==> r == StarCameraStatus(0, 0, false, false, false))
            && |StatusRead(m)| == Min(|m|, 1024)
            && (r.valid ==> r == StarCameraStatus(FromLE(m[9..13]), FromLE(m[21..25]), true,
                                                  FromLE(m[13..21]) > 0, true))
  {
    hide FromLE;
    var r := StatusRead(m);
    if |m| >= 25 {
      assert r[9..13] == m[9..13] && r[21..25] == m[21..25] && r[13..21] == m[13..21];
    }
  }
}
