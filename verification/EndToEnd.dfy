/** The downlink from end to end: any run of the server, a channel that may drop datagrams, the client. */
module EndToEnd {
  import opened Common
  import opened Wire
  import opened Downlink
  import opened DownlinkLaws
  import opened Client
  import opened Reassembly

  // ---------------------------------------------------------------- what one address is sent

  /** The datagrams sent to one address, in order. */
  function To(wire: seq<Packet>, a: Addr): seq<Bytes> {
    if wire == [] then []
    else
      var p := wire[|wire| - 1];
      To(wire[..|wire| - 1], a) + if p.to == a then [p.bytes] else []
  }

  lemma ToOneMore(wire: seq<Packet>, p: Packet, a: Addr)
    ensures To(wire + [p], a) == To(wire, a) + if p.to == a then [p.bytes] else []
  {
    assert (wire + [p])[..|wire|] == wire;
  }

  lemma SentTo(c: Config, s: State, to: Addr, m: Bytes, net: Net, a: Addr)
    requires |m| > 0
    ensures var t := Sent(c, s, to, m, net);
            && t == s.(bw := t.bw, wire := t.wire)
            && To(t.wire, a) == To(s.wire, a) + if to == a && SendResult(c, s, m, net) > 0 then [m] else []
  {
    hide To, CanSend, Accounted;
    ToOneMore(s.wire, Packet(to, m, net.now), a);
  }

  predicate From(e: Event, a: Addr) {
    e.Request? && e.from == a
  }

  // ---------------------------------------------------------------- between requests of the address

  /** No transmission is for `a`. */
  predicate NotFor(s: State, a: Addr) {
    s.tx.active ==> s.tx.client != a
  }

  /** A request of another address adds nothing for `a`; if it changes the transmission, that one is not for `a`. */
  lemma OthersRequest(c: Config, s: State, e: Event, a: Addr)
    requires Usable(c) && e.Request? && e.from != a
    ensures var t := Step(c, s, e);
            && To(t.wire, a) == To(s.wire, a) && t.current == s.current
            && (t.tx == s.tx || t.tx.client != a)
  {
    hide Sent, SendResult, ErrorMessage, StatusOf, ImageHeader, SequenceOf, InfoOf, To, Size, ChunkCount;
    if |e.bytes| >= HEADER_SIZE {
      var q := SequenceOf(e.bytes);
      SentTo(c, s, e.from, ErrorMessage(q), e.net, a);
      StatusIsNotEmpty(s, q);
      SentTo(c, s, e.from, StatusOf(s, q), e.net, a);
      if s.current.Some? {
        var i := s.current.value;
        SentTo(c, Started(c, s, i, e.from), e.from, ImageHeader(InfoOf(c, i), q), e.net, a);
      }
    }
  }

  lemma StatusIsNotEmpty(s: State, sequence: int)
    ensures |StatusOf(s, sequence)| > 0
  {
    hide LE;
  }

  lemma ChunkIsNotEmpty(c: Config, i: Image, k: nat)
    requires Usable(c)
    ensures |ChunkMessage(c, i, k)| > 0
  {
    hide ImageChunk, ChunkData;
  }

  lemma QuietStep(c: Config, s: State, e: Event, a: Addr)
    requires Usable(c) && NotFor(s, a) && !From(e, a)
    ensures NotFor(Step(c, s, e), a) && To(Step(c, s, e).wire, a) == To(s.wire, a)
  {
    hide Sent, SendResult, ChunkMessage, ImageComplete, To, Requested;
    match e
    case NewImage(_, _, _, _, _) =>
    case Request(_, _, _) => OthersRequest(c, s, e, a);
    case Chunk(net) =>
      if s.tx.active && Available(s) && 0 <= s.tx.chunksSent && net.Some? {
        ChunkIsNotEmpty(c, s.current.value, s.tx.chunksSent);
        SentTo(c, s, s.tx.client, ChunkMessage(c, s.current.value, s.tx.chunksSent), net.value, a);
      }
    case Finish(net) => SentTo(c, s, s.tx.client, ImageComplete(s.tx.imageTimestamp, s.tx.chunksSent), net, a);
  }

  /** An address that does not ask, and that no transmission is for, is sent nothing. */
  lemma {:induction false} QuietRun(c: Config, s: State, events: seq<Event>, a: Addr)
    requires Usable(c) && NotFor(s, a) && forall e <- events :: !From(e, a)
    ensures NotFor(Run(c, s, events), a) && To(Run(c, s, events).wire, a) == To(s.wire, a)
  {
    hide Step, NotFor, To;
    if events != [] {
      QuietRun(c, s, events[..|events| - 1], a);
      QuietStep(c, Run(c, s, events[..|events| - 1]), events[|events| - 1], a);
    }
  }

  // ---------------------------------------------------------------- after the request

  /** What `a` has been sent for image `i`: `head`, then the first `k` chunks, then the completion if `done`. */
  datatype Progress = Progress(head: seq<Bytes>, k: nat, done: bool)

  function Tail(c: Config, i: Image, p: Progress): (r: seq<Bytes>)
    requires Usable(c)
    ensures |r| <= 1 && forall m <- r :: IsMessage(Read(m), MSG_IMAGE_COMPLETE)
  {
    if p.done then [ImageComplete(i.timestamp, p.k)] else []
  }

  function Outbox(c: Config, i: Image, p: Progress): seq<Bytes>
    requires Usable(c)
  {
    p.head + ChunkMessages(c, i, 0, p.k) + Tail(c, i, p)
  }

  /** While the transmission to `a` is active it is of image `i`, at chunk `k`. */
  predicate OnTheWay(c: Config, s: State, a: Addr, i: Image, p: Progress)
    requires Usable(c)
  {
    s.tx.active && s.tx.client == a ==>
      !p.done && s.current == Some(i) && s.tx.imageTimestamp == i.timestamp
      && s.tx.chunksSent == p.k && s.tx.totalChunks == ChunkCount(c, Size(i))
  }

  predicate Serving(c: Config, s: State, a: Addr, i: Image, p: Progress)
    requires Usable(c)
  {
    && To(s.wire, a) == Outbox(c, i, p)
    && p.k <= ChunkCount(c, Size(i)) && (p.done ==> p.k == ChunkCount(c, Size(i)))
    && OnTheWay(c, s, a, i, p)
  }

  lemma ServingStep(c: Config, s: State, e: Event, a: Addr, i: Image, p: Progress) returns (q: Progress)
    requires Usable(c) && Serving(c, s, a, i, p) && !From(e, a)
    ensures Serving(c, Step(c, s, e), a, i, q) && q.head == p.head
  {
    hide Sent, SendResult, ChunkMessage, ImageComplete, To, Outbox, ChunkCount, Size, Requested;
    q := p;
    match e
    case NewImage(_, _, _, _, _) =>
    case Request(_, _, _) => OthersRequest(c, s, e, a);
    case Chunk(net) => q := ServingChunk(c, s, net, a, i, p);
    case Finish(net) => q := ServingFinish(c, s, net, a, i, p);
  }

  lemma ServingChunk(c: Config, s: State, net: Option<Net>, a: Addr, i: Image, p: Progress) returns (q: Progress)
    requires Usable(c) && Serving(c, s, a, i, p)
    ensures Serving(c, ChunkSent(c, s, net), a, i, q) && q.head == p.head
  {
    hide Sent, SendResult, ChunkMessage, ImageComplete, To, ChunkCount, Size, ChunkMessages;
    q := p;
    if s.tx.active && Available(s) && 0 <= s.tx.chunksSent < s.tx.totalChunks && net.Some? {
      var m := ChunkMessage(c, s.current.value, s.tx.chunksSent);
      ChunkIsNotEmpty(c, s.current.value, s.tx.chunksSent);
      SentTo(c, s, s.tx.client, m, net.value, a);
      if s.tx.client == a && SendResult(c, s, m, net.value) > 0 {
        q := p.(k := p.k + 1);
        OneMoreChunkMessage(c, i, 0, p.k);
      }
    }
  }

  lemma ServingFinish(c: Config, s: State, net: Net, a: Addr, i: Image, p: Progress) returns (q: Progress)
    requires Usable(c) && Serving(c, s, a, i, p)
    ensures Serving(c, Finished(c, s, net), a, i, q) && q.head == p.head
  {
    hide Sent, SendResult, ImageComplete, To, ChunkCount, Size, ChunkMessages;
    q := p;
    var m := ImageComplete(s.tx.imageTimestamp, s.tx.chunksSent);
    SentTo(c, s, s.tx.client, m, net, a);
    if s.tx.active && Available(s) && s.tx.chunksSent >= s.tx.totalChunks && s.tx.client == a
        && SendResult(c, s, m, net) > 0 {
      q := p.(done := true);
    }
  }

  lemma {:induction false} ServingRun(c: Config, s: State, events: seq<Event>, a: Addr, i: Image, p: Progress)
    returns (q: Progress)
    requires Usable(c) && Serving(c, s, a, i, p) && forall e <- events :: !From(e, a)
    ensures Serving(c, Run(c, s, events), a, i, q) && q.head == p.head
  {
    hide Step, Serving;
    if events == [] {
      q := p;
    } else {
      var r := ServingRun(c, s, events[..|events| - 1], a, i, p);
      q := ServingStep(c, Run(c, s, events[..|events| - 1]), events[|events| - 1], a, i, r);
    }
  }

  // ---------------------------------------------------------------- the request

  predicate AsksForTheImage(e: Event, a: Addr) {
    e.Request? && e.from == a && |e.bytes| >= HEADER_SIZE && e.bytes[0] == MSG_GET_LATEST_IMAGE
  }

  function Header(c: Config, i: Image, e: Event): Bytes
    requires Usable(c) && e.Request? && |e.bytes| >= HEADER_SIZE
  {
    ImageHeader(InfoOf(c, i), SequenceOf(e.bytes))
  }

  /** The request of `a` starts the transmission of the image that is then current. */
  lemma RequestServes(c: Config, s: State, e: Event, a: Addr, i: Image) returns (p: Progress)
    requires Usable(c) && AsksForTheImage(e, a) && s.current == Some(i)
    ensures Serving(c, Step(c, s, e), a, i, p)
    ensures p.head == To(s.wire, a) || p.head == To(s.wire, a) + [Header(c, i, e)]
  {
    hide Sent, SendResult, ImageHeader, SequenceOf, InfoOf, To, ChunkCount, Size, Serving;
    var t, h := Started(c, s, i, a), Header(c, i, e);
    SentTo(c, t, a, h, e.net, a);
    var sent := if SendResult(c, t, h, e.net) > 0 then [h] else [];
    p := Progress(To(s.wire, a) + sent, 0, false);
    ServingFromTheStart(c, Step(c, s, e), a, i, p);
  }

  lemma ServingFromTheStart(c: Config, s: State, a: Addr, i: Image, p: Progress)
    requires Usable(c) && s.current == Some(i) && s.tx == Transmission(true, i.timestamp, ChunkCount(c, Size(i)), 0, a)
    requires To(s.wire, a) == p.head && p.k == 0 && !p.done
    ensures Serving(c, s, a, i, p)
  {
    ChunkCountIsNonNegative(c, Size(i));
    hide To, ChunkCount, Size;
    assert ChunkMessages(c, i, 0, 0) == [];
  }

  /** Without an image the request is answered by an error or by nothing. */
  lemma RequestRefused(c: Config, s: State, e: Event, a: Addr)
    requires Usable(c) && NotFor(s, a) && AsksForTheImage(e, a) && s.current.None?
    ensures var t := Step(c, s, e);
            && NotFor(t, a)
            && (To(t.wire, a) == To(s.wire, a) || To(t.wire, a) == To(s.wire, a) + [ErrorMessage(SequenceOf(e.bytes))])
  {
    hide Sent, SendResult, ErrorMessage, SequenceOf, To;
    SentTo(c, s, a, ErrorMessage(SequenceOf(e.bytes)), e.net, a);
  }

  // ---------------------------------------------------------------- whole runs

  /** `a` asks for the latest image when no transmission is for it, and does not ask again. */
  predicate AsksOnce(c: Config, before: seq<Event>, ask: Event, after: seq<Event>, a: Addr)
    requires Usable(c)
  {
    AsksForTheImage(ask, a) && NotFor(Run(c, START, before), a) && forall e <- after :: !From(e, a)
  }

  /** So it is with an address that has not asked before. */
  lemma NewAddressAsksOnce(c: Config, before: seq<Event>, ask: Event, after: seq<Event>, a: Addr)
    requires Usable(c) && AsksForTheImage(ask, a) && forall e <- before + after :: !From(e, a)
    ensures AsksOnce(c, before, ask, after, a) && To(Run(c, START, before).wire, a) == []
  {
    hide Run, NotFor, To;
    NothingForAnyone(a);
    QuietRun(c, START, before, a);
  }

  function WholeRun(c: Config, before: seq<Event>, ask: Event, after: seq<Event>): State
    requires Usable(c)
  {
    Run(c, START, before + [ask] + after)
  }

  lemma WholeRunByParts(c: Config, before: seq<Event>, ask: Event, after: seq<Event>)
    requires Usable(c)
    ensures WholeRun(c, before, ask, after) == Run(c, Step(c, Run(c, START, before), ask), after)
  {
    RunInTwo(c, START, before + [ask], after);
    assert (before + [ask])[..|before|] == before;
    hide Step;
  }

  /** What `a` is sent from its request on. */
  function SentSince(c: Config, before: seq<Event>, ask: Event, after: seq<Event>, a: Addr): seq<Bytes>
    requires Usable(c)
  {
    var earlier, all := To(Run(c, START, before).wire, a), To(WholeRun(c, before, ask, after).wire, a);
    if earlier <= all then all[|earlier|..] else []
  }

  /** If there was an image, what `a` is sent from its request on is its header unless that was not
      sent, some of its chunks from the first on, and the completion only after the last. */
  lemma OutboxOfARun(c: Config, before: seq<Event>, ask: Event, after: seq<Event>, a: Addr) returns (p: Progress)
    requires Usable(c) && AsksOnce(c, before, ask, after, a) && Run(c, START, before).current.Some?
    ensures var i := Run(c, START, before).current.value;
            && SentSince(c, before, ask, after, a) == Outbox(c, i, p)
            && (p.head == [] || p.head == [Header(c, i, ask)])
            && p.k <= ChunkCount(c, Size(i)) && (p.done ==> p.k == ChunkCount(c, Size(i)))
  {
    hide Run, Step, Header, Outbox, Size, ChunkCount, To, AsksForTheImage, From, NotFor, OnTheWay, WholeRun;
    WholeRunByParts(c, before, ask, after);
    var s := Run(c, START, before);
    var i := s.current.value;
    var q := RequestServes(c, s, ask, a, i);
    q := ServingRun(c, Step(c, s, ask), after, a, i, q);
    var earlier := To(s.wire, a);
    p := q.(head := q.head[|earlier|..]);
    OutboxAfter(c, i, q, earlier);
  }

  lemma OutboxAfter(c: Config, i: Image, p: Progress, earlier: seq<Bytes>)
    requires Usable(c) && earlier <= p.head
    ensures earlier <= Outbox(c, i, p)
    ensures Outbox(c, i, p)[|earlier|..] == Outbox(c, i, p.(head := p.head[|earlier|..]))
  {
    hide ChunkMessages;
  }

  lemma NothingForAnyone(a: Addr)
    ensures NotFor(START, a) && To(START.wire, a) == []
  {}

  /** If there was none, `a` is sent at most an error. */
  lemma OutboxWithoutImage(c: Config, before: seq<Event>, ask: Event, after: seq<Event>, a: Addr)
    requires Usable(c) && AsksOnce(c, before, ask, after, a) && Run(c, START, before).current.None?
    ensures var sent := SentSince(c, before, ask, after, a);
            sent == [] || sent == [ErrorMessage(SequenceOf(ask.bytes))]
  {
    hide Run, Step, To, From, NotFor, ErrorMessage, SequenceOf, WholeRun;
    WholeRunByParts(c, before, ask, after);
    var s := Run(c, START, before);
    RequestRefused(c, s, ask, a);
    QuietRun(c, Step(c, s, ask), after, a);
  }

  // ---------------------------------------------------------------- what the client makes of it

  lemma {:induction false} ReceivedWasSent(received: seq<Bytes>, sent: seq<Bytes>)
    requires Subsequence(received, sent)
    ensures forall m <- received :: m in sent
    ensures received != [] ==> received[0] in sent
    decreases |sent|
  {
    if received != [] && sent != [] {
      if Subsequence(received, sent[1..]) {
        ReceivedWasSent(received, sent[1..]);
      } else {
        ReceivedWasSent(received[1..], sent[1..]);
        assert received == [received[0]] + received[1..];
      }
    }
  }

  /** A datagram the client can begin with. */
  predicate IsHeader(m: Bytes) {
    IsMessage(Read(m), MSG_IMAGE_HEADER)
  }

  lemma {:induction false} NoHeaderAmongChunks(c: Config, i: Image, j: nat, k: nat)
    requires Usable(c)
    ensures forall m <- ChunkMessages(c, i, j, k) :: !IsHeader(m)
    decreases k - j
  {
    if j < k {
      ChunkIsNoHeader(c, i, j);
      hide ChunkMessage, IsHeader;
      NoHeaderAmongChunks(c, i, j + 1, k);
    }
  }

  lemma ChunkIsNoHeader(c: Config, i: Image, k: nat)
    requires Usable(c)
    ensures !IsHeader(ChunkMessage(c, i, k))
  {
    hide ImageChunk, ChunkData;
  }

  lemma TailHasNoHeader(c: Config, i: Image, p: Progress)
    requires Usable(c)
    ensures forall m <- Tail(c, i, p) :: !IsHeader(m)
  {
    hide ImageComplete;
  }

  /** A client that can begin has received the header first. */
  lemma BeginsWithTheHeader(c: Config, i: Image, p: Progress, header: Bytes, rs: seq<Bytes>)
    requires Usable(c) && (p.head == [] || p.head == [header])
    requires Subsequence(rs, Outbox(c, i, p)) && rs != [] && IsHeader(rs[0])
    ensures p.head == [header] && rs[0] == header && Subsequence(rs[1..], ChunkMessages(c, i, 0, p.k) + Tail(c, i, p))
  {
    hide IsHeader, ChunkMessages, Tail;
    NoHeaderAmongChunks(c, i, 0, p.k);
    TailHasNoHeader(c, i, p);
    var rest := ChunkMessages(c, i, 0, p.k) + Tail(c, i, p);
    assert Outbox(c, i, p) == p.head + rest;
    if Subsequence(rs, rest) {
      ReceivedWasSent(rs, rest);
      assert false;
    } else {
      assert p.head != [] by {
        assert p.head == [] ==> p.head + rest == rest;
      }
      assert (p.head + rest)[1..] == rest;
    }
  }

  lemma HeaderIsRead(c: Config, i: Image, sequence: int)
    requires Usable(c)
    ensures var h := ImageHeader(InfoOf(c, i), sequence);
            && Read(h) == h && IsHeader(h)
            && UnpackImageHeader(h).totalChunks == ChunkCount(c, Size(i))
            && UnpackImageHeader(h).timestamp == i.timestamp % 0x1_0000_0000_0000_0000
            && UnpackImageHeader(h).width == U32(i.width) && UnpackImageHeader(h).height == U32(i.height)
            && UnpackImageHeader(h).quality == i.quality % 256 + 256 * (i.blobCount % 0x100_0000)
            && UnpackImageHeader(h).blobCount == i.blobCount / 0x100_0000 % 256
  {
    hide ImageHeader, LE, FromLE;
    var info := InfoOf(c, i);
    HeaderSlices(info, sequence);
    Powers();
    LERoundTrip(info.timestamp, 8);
    LERoundTrip(info.width, 4);
    LERoundTrip(info.height, 4);
    ChunkCountFits(c, Size(i));
    LEFits(info.totalChunks, 4);
    SplitLE(info.blobCount);
    QualityByte(info.quality, LE(info.blobCount, 4)[..3]);
  }

  lemma ChunkCountFits(c: Config, size: int)
    requires Usable(c)
    ensures 0 <= ChunkCount(c, size) < 0x1_0000_0000
  {
    var u := U32(size + c.chunkSize - 1);
    assert u == c.chunkSize * (u / c.chunkSize) + u % c.chunkSize;
    MulAtLeast(u / c.chunkSize, 1, c.chunkSize);
  }

  /** A valid image has every chunk of the image that was announced, and none was too long to be read. */
  lemma ValidHasEveryChunk(c: Config, i: Image, ask: Event, p: Progress, rs: seq<Bytes>)
    requires Usable(c) && ask.Request? && |ask.bytes| >= HEADER_SIZE
    requires p.head == [] || p.head == [Header(c, i, ask)]
    requires p.k <= ChunkCount(c, Size(i))
    requires Subsequence(rs, Outbox(c, i, p)) && Downloaded(rs).valid
    ensures var r := Downloaded(rs);
            && r.imageData == Span(c, i, 0, ChunkCount(c, Size(i))) && r.totalSize == |r.imageData|
            && r.timestamp == i.timestamp % 0x1_0000_0000_0000_0000
            && r.width == U32(i.width) && r.height == U32(i.height)
            && r.compressionQuality == i.quality % 256 + 256 * (i.blobCount % 0x100_0000)
            && r.blobCount == i.blobCount / 0x100_0000 % 256
    ensures ChunkCount(c, Size(i)) == 0 || FitsOneRead(c, i)
  {
    hide ImageHeader, ChunkCount, Size, Outbox, Subsequence, Assembled, UnpackImageHeader, IsMessage, ChunkMessages,
         Span, U32, ChunkData;
    var header, total := Header(c, i, ask), ChunkCount(c, Size(i));
    HeaderIsRead(c, i, SequenceOf(ask.bytes));
    BeginsWithTheHeader(c, i, p, header, rs);
    CountingAllMeansMissingNone(c, i, total, rs, Assembly(0, [], 1), 0, p.k, Tail(c, i, p));
    assert [] + Span(c, i, 0, total) == Span(c, i, 0, total);
    FirstChunkIsLongest(c, i, 0);
  }

  /** End to end. The client asks from an address that no transmission is for, and does not ask again;
      images arrive, other clients ask, sends fail and are delayed in any order; of the datagrams sent to
      the client some are lost. If the client reports a valid image, there was an image when it asked, and
      the timestamp and dimensions are its. The bytes are that image's exactly when its size, rounded up to
      whole chunks, fits 32 bits. */
  lemma ValidMeansTheImageAskedFor(
    c: Config, before: seq<Event>, ask: Event, after: seq<Event>, a: Addr, rs: seq<Bytes>)
    requires Usable(c) && AsksOnce(c, before, ask, after, a)
    requires Subsequence(rs, SentSince(c, before, ask, after, a))
    requires Downloaded(rs).valid
    ensures Run(c, START, before).current.Some?
    ensures var i, r := Run(c, START, before).current.value, Downloaded(rs);
            && (r.imageData == i.data <==> |i.data| + c.chunkSize - 1 < 0x1_0000_0000)
            && r.totalSize == |r.imageData|
            && r.timestamp == i.timestamp % 0x1_0000_0000_0000_0000
            && r.width == U32(i.width) && r.height == U32(i.height)
            && r.compressionQuality == i.quality % 256 + 256 * (i.blobCount % 0x100_0000)
            && r.blobCount == i.blobCount / 0x100_0000 % 256
            && (ChunkCount(c, Size(i)) == 0 || FitsOneRead(c, i))
  {
    hide Run, SentSince, Downloaded, Outbox, Subsequence, ChunkCount, Size, Span, U32, Header, AsksOnce, FitsOneRead;
    assert AsksForTheImage(ask, a) by { AsksInFull(c, before, ask, after, a); }
    if Run(c, START, before).current.None? {
      OutboxWithoutImage(c, before, ask, after, a);
      NoneFromAnError(rs, SentSince(c, before, ask, after, a), SequenceOf(ask.bytes));
      assert false;
    } else {
      var i := Run(c, START, before).current.value;
      var p := OutboxOfARun(c, before, ask, after, a);
      ValidHasEveryChunk(c, i, ask, p, rs);
      ChunksAreTheImageIff(c, i);
    }
  }

  lemma AsksInFull(c: Config, before: seq<Event>, ask: Event, after: seq<Event>, a: Addr)
    requires Usable(c) && AsksOnce(c, before, ask, after, a)
    ensures AsksForTheImage(ask, a)
  {}

  /** So an image whose chunks are too long for the client's read is never downloaded, whatever arrives. */
  lemma LongChunksAreNeverValid(c: Config, before: seq<Event>, ask: Event, after: seq<Event>, a: Addr, rs: seq<Bytes>)
    requires Usable(c) && AsksOnce(c, before, ask, after, a)
    requires Subsequence(rs, SentSince(c, before, ask, after, a))
    requires var s := Run(c, START, before);
             s.current.Some? ==> ChunkCount(c, Size(s.current.value)) > 0 && !FitsOneRead(c, s.current.value)
    ensures !Downloaded(rs).valid
  {
    hide Run, SentSince, Downloaded, Subsequence, ChunkCount, Size, AsksOnce, FitsOneRead;
    if Downloaded(rs).valid {
      ValidMeansTheImageAskedFor(c, before, ask, after, a, rs);
      assert false;
    }
  }

  lemma NoneFromAnError(rs: seq<Bytes>, sent: seq<Bytes>, sequence: int)
    requires Subsequence(rs, sent) && (sent == [] || sent == [ErrorMessage(sequence)])
    ensures !Downloaded(rs).valid
  {
    hide ErrorMessage, UnpackImageHeader;
    ReceivedWasSent(rs, sent);
    if rs != [] {
      assert rs[0] in sent;
    }
  }

  /** If no transmission was under way when the client asked, what it gets is the newest image of all. */
  lemma AskedWhileIdleMeansTheNewest(c: Config, before: seq<Event>)
    requires Usable(c) && !Run(c, START, before).tx.active
    ensures Run(c, START, before).current == Newest(c, before)
  {
    hide Run, Newest, Owned, Coherent;
    StartIsSound(c);
    RunKeeps(c, START, before);
    NewestIsLatest(c, before);
  }

  // ---------------------------------------------------------------- when nothing is lost

  lemma {:induction false} AllIsASubsequence(s: seq<Bytes>)
    ensures Subsequence(s, s)
  {
    if s != [] {
      AllIsASubsequence(s[1..]);
    }
  }

  lemma AllTaken(c: Config, i: Image, rs: seq<Bytes>, tail: seq<Bytes>, n: nat)
    requires Usable(c) && FitsOneRead(c, i) && rs != [] && rs[1..] == ChunkMessages(c, i, 0, n) + tail
    ensures Assembled(rs, n, Assembly(0, [], 1)).count == n
  {
    hide ChunkMessages, FitsOneRead, Span;
    assert ChunkMessages(c, i, 0, n) <= rs[1..];
    ChunksTaken(c, i, n, rs, Assembly(0, [], 1), 0, n);
  }

  /** When everything was sent and all of it arrives, the download is valid exactly when a chunk datagram
      fits the client's 4096-byte read, or there is no chunk at all. */
  lemma EverythingArrivedIsValidIff(c: Config, i: Image, ask: Event, p: Progress)
    requires Usable(c) && ask.Request? && |ask.bytes| >= HEADER_SIZE
    requires p.head == [Header(c, i, ask)] && p.k == ChunkCount(c, Size(i))
    ensures Downloaded(Outbox(c, i, p)).valid <==> p.k == 0 || FitsOneRead(c, i)
  {
    var rs, tail := Outbox(c, i, p), Tail(c, i, p);
    hide ImageHeader, ChunkCount, Size, Outbox, Tail, UnpackImageHeader, ChunkMessages, FitsOneRead, IsMessage, Read,
        Subsequence;
    OutboxShape(c, i, p);
    HeaderIsRead(c, i, SequenceOf(ask.bytes));
    if FitsOneRead(c, i) {
      AllTaken(c, i, rs, tail, p.k);
    } else if Downloaded(rs).valid {
      AllIsASubsequence(rs);
      ValidHasEveryChunk(c, i, ask, p, rs);
    }
    HeaderBegins(rs, rs[0]);
  }

  lemma OutboxShape(c: Config, i: Image, p: Progress)
    requires Usable(c) && |p.head| == 1
    ensures var rs := Outbox(c, i, p);
            rs != [] && rs[0] == p.head[0] && rs[1..] == ChunkMessages(c, i, 0, p.k) + Tail(c, i, p)
  {
    hide ChunkMessages, Tail;
    assert p.head + ChunkMessages(c, i, 0, p.k) + Tail(c, i, p)
        == p.head + (ChunkMessages(c, i, 0, p.k) + Tail(c, i, p));
  }

  lemma HeaderBegins(rs: seq<Bytes>, h: Bytes)
    requires rs != [] && rs[0] == h && Read(h) == h && IsHeader(h)
    ensures Announces(rs) <==> |h| >= IMAGE_HEADER_SIZE
  {}
}
