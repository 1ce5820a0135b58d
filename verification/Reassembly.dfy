/** The chunks of an image and what the client makes of those that reach it. */
module Reassembly {
  import opened Common
  import opened Wire
  import opened Downlink
  import opened Client

  // ---------------------------------------------------------------- the chunks partition the image

  /** The data of chunks `j`, ..., `k - 1`. */
  function Span(c: Config, i: Image, j: nat, k: nat): Bytes
    requires Usable(c)
    decreases k - j
  {
    if j >= k then [] else ChunkData(c, i, j) + Span(c, i, j + 1, k)
  }

  /** Where chunk `k` begins. */
  function Offset(c: Config, i: Image, k: nat): (r: int)
    requires Usable(c)
    ensures 0 <= r <= Size(i)
  {
    MulAtLeast(c.chunkSize, 0, k);
    Min(k * c.chunkSize, Size(i))
  }

  lemma ChunkIsBetweenOffsets(c: Config, i: Image, k: nat)
    requires Usable(c)
    ensures Offset(c, i, k) <= Offset(c, i, k + 1)
    ensures ChunkData(c, i, k) == i.data[Offset(c, i, k)..Offset(c, i, k + 1)]
  {
    hide Size;
    assert (k + 1) * c.chunkSize == k * c.chunkSize + c.chunkSize;
    MulAtLeast(c.chunkSize, 0, k);
  }

  lemma {:induction false} SpanIsASlice(c: Config, i: Image, j: nat, k: nat)
    requires Usable(c) && j <= k
    ensures Offset(c, i, j) <= Offset(c, i, k)
    ensures Span(c, i, j, k) == i.data[Offset(c, i, j)..Offset(c, i, k)]
    decreases k - j
  {
    hide Offset, ChunkData, Size;
    if j < k {
      ChunkIsBetweenOffsets(c, i, j);
      SpanIsASlice(c, i, j + 1, k);
    }
  }

  lemma CountCovers(c: Config, size: int)
    requires Usable(c) && 0 <= size < 0x1_0000_0000
    ensures size + c.chunkSize - 1 < 0x1_0000_0000 ==> ChunkCount(c, size) * c.chunkSize >= size
    ensures size + c.chunkSize - 1 >= 0x1_0000_0000 ==> ChunkCount(c, size) == 0 && size > 0
  {
    var t := size + c.chunkSize - 1;
    if t < 0x1_0000_0000 {
      SmallIsKept(t);
      var q := t / c.chunkSize;
      assert t == c.chunkSize * q + t % c.chunkSize;
      assert q * c.chunkSize == c.chunkSize * q;
    } else {
      assert U32(t) == t - 0x1_0000_0000;
      assert 0 <= U32(t) < c.chunkSize;
    }
  }

  /** All the chunks announced, put together, are the compressed image exactly when the sum that rounds
      the chunk count up fits 32 bits. */
  lemma ChunksAreTheImageIff(c: Config, i: Image)
    requires Usable(c)
    ensures 0 <= ChunkCount(c, Size(i))
    ensures Span(c, i, 0, ChunkCount(c, Size(i))) == i.data <==> |i.data| + c.chunkSize - 1 < 0x1_0000_0000
  {
    var n := ChunkCount(c, Size(i));
    CountCovers(c, Size(i));
    SpanIsASlice(c, i, 0, n);
    assert |i.data| < 0x1_0000_0000 ==> Size(i) == |i.data|;
    hide ChunkCount, Size;
    assert Offset(c, i, 0) == 0;
  }

  // ---------------------------------------------------------------- the channel

  /** What a channel that may drop datagrams but keeps their order makes of `sent`. */
  predicate Subsequence(received: seq<Bytes>, sent: seq<Bytes>) {
    if received == [] then true
    else if sent == [] then false
    else (received[0] == sent[0] && Subsequence(received[1..], sent[1..])) || Subsequence(received, sent[1..])
  }

  /** The chunk datagrams `j`, ..., `k - 1`. */
  function ChunkMessages(c: Config, i: Image, j: nat, k: nat): seq<Bytes>
    requires Usable(c)
    decreases k - j
  {
    if j >= k then [] else [ChunkMessage(c, i, j)] + ChunkMessages(c, i, j + 1, k)
  }

  lemma {:induction false} OneMoreChunkMessage(c: Config, i: Image, j: nat, k: nat)
    requires Usable(c) && j <= k
    ensures ChunkMessages(c, i, j, k + 1) == ChunkMessages(c, i, j, k) + [ChunkMessage(c, i, k)]
    decreases k - j
  {
    hide ChunkMessage;
    if j < k {
      OneMoreChunkMessage(c, i, j + 1, k);
    }
  }

  // ---------------------------------------------------------------- one chunk

  lemma ChunkDataIsShort(c: Config, i: Image, k: nat)
    requires Usable(c)
    ensures |ChunkData(c, i, k)| <= c.chunkSize
  {
    hide Size;
    MulAtLeast(c.chunkSize, 0, k);
  }

  /** The client takes a chunk datagram exactly when it fits the receive buffer, and then takes its data. */
  lemma ChunkIsTakenIff(c: Config, i: Image, k: nat)
    requires Usable(c)
    ensures var m := Read(ChunkMessage(c, i, k));
            && !IsMessage(m, MSG_IMAGE_COMPLETE) && !IsMessage(m, MSG_ERROR)
            && ChunkOf(m) ==
               if CHUNK_OVERHEAD + |ChunkData(c, i, k)| <= RECV_SIZE then Some(ChunkData(c, i, k)) else None
  {
    ChunkDataIsShort(c, i, k);
    hide ChunkData, ImageChunk, LE, FromLE, Read;
    ChunkBytesTaken(k, ChunkData(c, i, k));
  }

  lemma ChunkBytesTaken(k: nat, d: Bytes)
    requires |d| < 0x8000_0000
    ensures var m := Read(ImageChunk(k, d));
            && !IsMessage(m, MSG_IMAGE_COMPLETE) && !IsMessage(m, MSG_ERROR)
            && ChunkOf(m) == if CHUNK_OVERHEAD + |d| <= RECV_SIZE then Some(d) else None
  {
    hide LE, FromLE, ImageChunk;
    var m, r := ImageChunk(k, d), Read(ImageChunk(k, d));
    Powers();
    LEFits(|d|, 4);
    ChunkSlices(k, d);
    assert r[0] == m[0];
    assert r[13..17] == m[13..17];
    if CHUNK_OVERHEAD + |d| <= RECV_SIZE {
      assert r == m;
      assert m[CHUNK_OVERHEAD..CHUNK_OVERHEAD + |d|] == m[CHUNK_OVERHEAD..];
    }
  }

  lemma ChunkSlices(k: int, d: Bytes)
    ensures ImageChunk(k, d)[13..17] == LE(|d|, 4) && ImageChunk(k, d)[CHUNK_OVERHEAD..] == d
  {
    hide LE;
  }

  /** No chunk is longer than the first. */
  lemma FirstChunkIsLongest(c: Config, i: Image, k: nat)
    requires Usable(c)
    ensures |ChunkData(c, i, k)| <= |ChunkData(c, i, 0)| == Min(c.chunkSize, Size(i))
  {
    hide Size;
    MulAtLeast(c.chunkSize, 0, k);
    assert 0 * c.chunkSize == 0;
  }

  predicate FitsOneRead(c: Config, i: Image) {
    CHUNK_OVERHEAD + Min(c.chunkSize, Size(i)) <= RECV_SIZE
  }

  // ---------------------------------------------------------------- counting chunks

  /** The client has counted no more chunks than the server has passed; if in the end it counts all of
      them, it has missed none and its data is the whole. */
  lemma {:induction false} CountingAllMeansMissingNone(
    c: Config, i: Image, expected: nat, rs: seq<Bytes>, a: Assembly, j: nat, k: nat, tail: seq<Bytes>)
    requires Usable(c) && a.count <= j <= k <= expected && a.taken <= |rs|
    requires Subsequence(rs[a.taken..], ChunkMessages(c, i, j, k) + tail)
    requires |tail| <= 1 && forall m <- tail :: IsMessage(Read(m), MSG_IMAGE_COMPLETE)
    requires Assembled(rs, expected, a).count == expected
    ensures a.count == j && k == expected
    ensures Assembled(rs, expected, a).data == a.data + Span(c, i, j, expected)
    ensures forall n :: j <= n < expected ==> CHUNK_OVERHEAD + |ChunkData(c, i, n)| <= RECV_SIZE
    decreases k - j
  {
    hide ChunkMessage, ChunkData, IsMessage, ChunkOf, Read;
    var sent := ChunkMessages(c, i, j, k) + tail;
    if a.count < expected {
      assert a.taken < |rs|;
      if j == k {
        assert false;
      } else {
        assert sent[0] == ChunkMessage(c, i, j);
        assert sent[1..] == ChunkMessages(c, i, j + 1, k) + tail;
        if Subsequence(rs[a.taken..], sent[1..]) {
          CountingAllMeansMissingNone(c, i, expected, rs, a, j + 1, k, tail);
          assert false;
        } else {
          assert rs[a.taken] == ChunkMessage(c, i, j);
          assert rs[a.taken..][1..] == rs[a.taken + 1..];
          ChunkIsTakenIff(c, i, j);
          var next := a.(taken := a.taken + 1);
          if ChunkOf(Read(rs[a.taken])).None? {
            CountingAllMeansMissingNone(c, i, expected, rs, next, j + 1, k, tail);
            assert false;
          } else {
            var more := next.(count := a.count + 1, data := a.data + ChunkData(c, i, j));
            CountingAllMeansMissingNone(c, i, expected, rs, more, j + 1, k, tail);
          }
        }
      }
    }
  }

  // ---------------------------------------------------------------- chunks that arrive in a row

  lemma ChunkTaken(c: Config, i: Image, expected: nat, rs: seq<Bytes>, a: Assembly, j: nat)
    requires Usable(c) && FitsOneRead(c, i) && a.count < expected
    requires a.taken < |rs| && rs[a.taken] == ChunkMessage(c, i, j)
    ensures Assembled(rs, expected, a)
            == Assembled(rs, expected, Assembly(a.count + 1, a.data + ChunkData(c, i, j), a.taken + 1))
  {
    hide ChunkMessage, ChunkData, IsMessage, ChunkOf, Read, Size;
    ChunkIsTakenIff(c, i, j);
    FirstChunkIsLongest(c, i, j);
  }

  lemma PrefixStep(m: Bytes, ms: seq<Bytes>, rs: seq<Bytes>, k: nat)
    requires k <= |rs| && [m] + ms <= rs[k..]
    ensures k < |rs| && rs[k] == m && ms <= rs[k + 1..]
  {
    assert rs[k..][0] == m;
    assert ms == ([m] + ms)[1..];
    assert rs[k..][1..] == rs[k + 1..];
  }

  /** Chunk datagrams that follow one another and fit the read are all taken. */
  lemma {:induction false} ChunksTaken(
    c: Config, i: Image, expected: nat, rs: seq<Bytes>, a: Assembly, j: nat, k: nat)
    requires Usable(c) && FitsOneRead(c, i) && j <= k && a.count + (k - j) <= expected && a.taken <= |rs|
    requires ChunkMessages(c, i, j, k) <= rs[a.taken..]
    ensures a.taken + (k - j) <= |rs|
    ensures Assembled(rs, expected, a)
            == Assembled(rs, expected, Assembly(a.count + (k - j), a.data + Span(c, i, j, k), a.taken + (k - j)))
    decreases k - j
  {
    hide ChunkMessage, ChunkData, Assembled, FitsOneRead;
    if j == k {
      assert a.data + [] == a.data;
    } else {
      PrefixStep(ChunkMessage(c, i, j), ChunkMessages(c, i, j + 1, k), rs, a.taken);
      ChunkTaken(c, i, expected, rs, a, j);
      var d := ChunkData(c, i, j);
      ChunksTaken(c, i, expected, rs, Assembly(a.count + 1, a.data + d, a.taken + 1), j + 1, k);
      assert a.data + d + Span(c, i, j + 1, k) == a.data + (d + Span(c, i, j + 1, k));
    }
  }

  lemma {:induction false} ChunkMessagesLength(c: Config, i: Image, j: nat, k: nat)
    requires Usable(c) && j <= k
    ensures |ChunkMessages(c, i, j, k)| == k - j
    decreases k - j
  {
    hide ChunkMessage;
    if j < k {
      ChunkMessagesLength(c, i, j + 1, k);
    }
  }
}
