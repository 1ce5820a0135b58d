/** What becomes of the downlink when one address asks more than once: the chunks carry no identity the
    client looks at, so those of one transmission complete the header of another. */
module Repeats {
  import opened Common
  import opened Wire
  import opened Downlink
  import opened DownlinkLaws
  import opened DownlinkRate
  import opened Client
  import opened Reassembly
  import opened EndToEnd
  import opened Delivery

  // ---------------------------------------------------------------- an image that stays current

  /** Image `i` is the current one throughout the run. */
  ghost predicate StaysCurrent(c: Config, s: State, events: seq<Event>, i: Image)
    requires Usable(c)
  {
    forall k :: 0 <= k <= |events| ==> Run(c, s, events[..k]).current == Some(i)
  }

  /** What `a` is sent from state `s` on. */
  function SentFrom(c: Config, s: State, events: seq<Event>, a: Addr): seq<Bytes>
    requires Usable(c)
  {
    var earlier, all := To(s.wire, a), To(Run(c, s, events).wire, a);
    if earlier <= all then all[|earlier|..] else []
  }

  /** A header of `i`, a chunk of `i`, or a datagram that is neither a header nor a chunk. */
  ghost predicate About(c: Config, i: Image, m: Bytes)
    requires Usable(c)
  {
    || (exists q :: m == ImageHeader(InfoOf(c, i), q))
    || (exists k: nat :: k < ChunkCount(c, Size(i)) && m == ChunkMessage(c, i, k))
    || Neither(m)
  }

  predicate Neither(m: Bytes) {
    m != [] && m[0] != MSG_IMAGE_HEADER && m[0] != MSG_IMAGE_CHUNK
  }

  /** The step sends at most one datagram to `a`, about `i`. */
  ghost predicate SendsAbout(c: Config, s: State, t: State, a: Addr, i: Image)
    requires Usable(c)
  {
    || To(t.wire, a) == To(s.wire, a)
    || exists m :: About(c, i, m) && To(t.wire, a) == To(s.wire, a) + [m]
  }

  lemma SentAbout(c: Config, s: State, to: Addr, m: Bytes, net: Net, a: Addr, i: Image)
    requires Usable(c) && About(c, i, m) && |m| > 0
    ensures SendsAbout(c, s, Sent(c, s, to, m, net), a, i)
  {
    hide Sent, About, To, SendResult;
    SentTo(c, s, to, m, net, a);
    assert To(s.wire, a) + [] == To(s.wire, a);
  }

  lemma StatusIsNeither(s: State, sequence: int)
    ensures Neither(StatusOf(s, sequence)) && |StatusOf(s, sequence)| > 0
    ensures Neither(ErrorMessage(sequence))
  {
    hide LE;
  }

  lemma RequestAbout(c: Config, s: State, e: Event, a: Addr, i: Image)
    requires Usable(c) && s.current == Some(i) && e.Request?
    ensures SendsAbout(c, s, Step(c, s, e), a, i)
  {
    hide Sent, ErrorMessage, StatusOf, ImageHeader, SequenceOf, InfoOf, To, Size, ChunkCount, SendsAbout, ChunkMessage;
    if |e.bytes| >= HEADER_SIZE {
      var q := SequenceOf(e.bytes);
      StatusIsNeither(s, q);
      SentAbout(c, s, e.from, StatusOf(s, q), e.net, a, i);
      SentAbout(c, s, e.from, ErrorMessage(q), e.net, a, i);
      var t := Started(c, s, i, e.from);
      SentAbout(c, t, e.from, ImageHeader(InfoOf(c, i), q), e.net, a, i);
      SameWire(c, s, t, Sent(c, t, e.from, ImageHeader(InfoOf(c, i), q), e.net), a, i);
    }
    SameWire(c, s, s, s, a, i);
  }

  lemma SameWire(c: Config, s: State, t: State, u: State, a: Addr, i: Image)
    requires Usable(c) && t.wire == s.wire
    ensures SendsAbout(c, t, u, a, i) ==> SendsAbout(c, s, u, a, i)
    ensures u.wire == s.wire ==> SendsAbout(c, s, u, a, i)
  {}

  lemma StepAbout(c: Config, s: State, e: Event, a: Addr, i: Image)
    requires Usable(c) && Inv(c, s) && s.current == Some(i)
    ensures SendsAbout(c, s, Step(c, s, e), a, i)
  {
    hide Sent, ChunkMessage, ImageComplete, SendResult, SendsAbout, To, ChunkCount, Size, Owned, Requested;
    SameWire(c, s, s, Step(c, s, e), a, i);
    match e
    case NewImage(_, _, _, _, _) =>
    case Request(_, _, _) => RequestAbout(c, s, e, a, i);
    case Chunk(net) =>
      if s.tx.active && s.tx.chunksSent < s.tx.totalChunks && net.Some? {
        ChunkIsNotEmpty(c, i, s.tx.chunksSent);
        SentAbout(c, s, s.tx.client, ChunkMessage(c, i, s.tx.chunksSent), net.value, a, i);
        OnlyTheWire(c, s, Sent(c, s, s.tx.client, ChunkMessage(c, i, s.tx.chunksSent), net.value), Step(c, s, e), a, i);
      }
    case Finish(net) =>
      CompletionIsNeither(s.tx.imageTimestamp, s.tx.chunksSent);
      var m := ImageComplete(s.tx.imageTimestamp, s.tx.chunksSent);
      SentAbout(c, s, s.tx.client, m, net, a, i);
      OnlyTheWire(c, s, Sent(c, s, s.tx.client, m, net), Step(c, s, e), a, i);
  }

  lemma OnlyTheWire(c: Config, s: State, t: State, u: State, a: Addr, i: Image)
    requires Usable(c) && SendsAbout(c, s, t, a, i)
    ensures u.wire == t.wire ==> SendsAbout(c, s, u, a, i)
  {}

  lemma CompletionIsNeither(timestamp: int, total: int)
    ensures Neither(ImageComplete(timestamp, total))
  {
    hide LE;
  }

  /** While an image stays current, an address is sent nothing about another one. */
  lemma {:induction false} RunAbout(c: Config, s: State, events: seq<Event>, a: Addr, i: Image)
    requires Usable(c) && Inv(c, s) && StaysCurrent(c, s, events, i)
    ensures To(s.wire, a) <= To(Run(c, s, events).wire, a)
    ensures forall m <- SentFrom(c, s, events, a) :: About(c, i, m)
  {
    hide Step, About, To, Inv;
    if events != [] {
      var n := |events| - 1;
      var init := events[..n];
      assert forall k :: 0 <= k <= n ==> init[..k] == events[..k];
      RunAbout(c, s, init, a, i);
      RunKeeps(c, s, init);
      var t := Run(c, s, init);
      assert init[..n] == init && Run(c, s, events[..n]).current == Some(i);
      StepAbout(c, t, events[n], a, i);
      MoreAbout(c, To(s.wire, a), To(t.wire, a), To(Step(c, t, events[n]).wire, a), i);
    }
  }

  lemma MoreAbout(c: Config, earlier: seq<Bytes>, all: seq<Bytes>, more: seq<Bytes>, i: Image)
    requires Usable(c) && earlier <= all && forall m <- all[|earlier|..] :: About(c, i, m)
    requires more == all || exists m :: About(c, i, m) && more == all + [m]
    ensures earlier <= more && forall m <- more[|earlier|..] :: About(c, i, m)
  {
    hide About;
    if more != all {
      var m :| About(c, i, m) && more == all + [m];
      assert more[|earlier|..] == all[|earlier|..] + [m];
    }
  }

  // ---------------------------------------------------------------- equal chunks

  predicate AllEqual(c: Config, i: Image)
    requires Usable(c)
  {
    forall j: nat, k: nat :: j < ChunkCount(c, Size(i)) && k < ChunkCount(c, Size(i)) ==>
      ChunkData(c, i, j) == ChunkData(c, i, k)
  }

  function Repeated(d: Bytes, n: nat): Bytes {
    if n == 0 then [] else Repeated(d, n - 1) + d
  }

  lemma {:induction false} RepeatedFromTheLeft(d: Bytes, n: nat)
    ensures d + Repeated(d, n) == Repeated(d, n + 1)
  {
    if n == 0 {
      assert d + [] == [] + d;
    } else {
      RepeatedFromTheLeft(d, n - 1);
      assert d + (Repeated(d, n - 1) + d) == d + Repeated(d, n - 1) + d;
    }
  }

  lemma {:induction false} SpanOfEqual(c: Config, i: Image, j: nat, k: nat, d: Bytes)
    requires Usable(c) && j <= k && forall x: nat :: j <= x < k ==> ChunkData(c, i, x) == d
    ensures Span(c, i, j, k) == Repeated(d, k - j)
    decreases k - j
  {
    hide ChunkData;
    if j < k {
      SpanOfEqual(c, i, j + 1, k, d);
      RepeatedFromTheLeft(d, k - j - 1);
    }
  }

  /** What the client makes of a datagram about `i`: a chunk's data or nothing. */
  lemma TakenOfAbout(c: Config, i: Image, m: Bytes)
    requires Usable(c) && About(c, i, m)
    ensures ChunkOf(Read(m)).Some? ==>
              exists k: nat :: k < ChunkCount(c, Size(i)) && ChunkOf(Read(m)).value == ChunkData(c, i, k)
    ensures IsHeader(m) ==> exists q :: m == ImageHeader(InfoOf(c, i), q)
  {
    hide InfoOf, ChunkData, ImageHeader, ChunkMessage, FromLE, ChunkCount, Size;
    if q :| m == ImageHeader(InfoOf(c, i), q) {
      HeaderIsNoChunk(InfoOf(c, i), q);
    } else if k: nat :| k < ChunkCount(c, Size(i)) && m == ChunkMessage(c, i, k) {
      ChunkIsTakenIff(c, i, k);
      ChunkIsNoHeader(c, i, k);
    }
  }

  lemma HeaderIsNoChunk(info: ImageInfo, q: int)
    ensures ChunkOf(Read(ImageHeader(info, q))).None?
  {
    hide ImageHeader, FromLE;
  }

  lemma {:induction false} EqualChunksAssembled(
    c: Config, i: Image, d: Bytes, rs: seq<Bytes>, expected: int, a: Assembly)
    requires Usable(c) && AllEqual(c, i) && (ChunkCount(c, Size(i)) > 0 ==> d == ChunkData(c, i, 0))
    requires a.data == Repeated(d, a.count) && forall m <- rs :: About(c, i, m)
    ensures var r := Assembled(rs, expected, a); r.data == Repeated(d, r.count)
    decreases |rs| - a.taken
  {
    hide About, ChunkOf, Read, IsMessage, ChunkData, ChunkCount, Size;
    if a.count < expected && a.taken < |rs| {
      var m := Read(rs[a.taken]);
      TakenOfAbout(c, i, rs[a.taken]);
      var next := a.(taken := a.taken + 1);
      if !IsMessage(m, MSG_IMAGE_COMPLETE) && !IsMessage(m, MSG_ERROR) {
        match ChunkOf(m)
        case None => EqualChunksAssembled(c, i, d, rs, expected, next);
        case Some(b) =>
          assert b == d;
          EqualChunksAssembled(c, i, d, rs, expected, next.(count := a.count + 1, data := a.data + b));
      }
    }
  }

  lemma {:induction false} ReceivedIsAbout(c: Config, i: Image, rs: seq<Bytes>, sent: seq<Bytes>)
    requires Usable(c) && Subsequence(rs, sent) && forall m <- sent :: About(c, i, m)
    ensures forall m <- rs :: About(c, i, m)
  {
    hide About;
    ReceivedWasSent(rs, sent);
  }

  /** With equal chunks every valid download is the image. */
  lemma EqualChunksAreSafe(c: Config, i: Image, rs: seq<Bytes>)
    requires Usable(c) && AllEqual(c, i) && |i.data| + c.chunkSize - 1 < 0x1_0000_0000
    requires (forall m <- rs :: About(c, i, m)) && Downloaded(rs).valid
    ensures Downloaded(rs).imageData == i.data
  {
    hide About, InfoOf, ImageHeader, UnpackImageHeader, Assembled, ChunkCount, Size, ChunkData, Span, Repeated;
    var n := ChunkCount(c, Size(i));
    TakenOfAbout(c, i, rs[0]);
    var q :| rs[0] == ImageHeader(InfoOf(c, i), q);
    HeaderIsRead(c, i, q);
    var d := if n > 0 then ChunkData(c, i, 0) else [];
    NothingRepeated(d);
    EqualChunksAssembled(c, i, d, rs, n, Assembly(0, [], 1));
    ChunksAreTheImageIff(c, i);
    SpanOfEqual(c, i, 0, n, d);
  }

  lemma NothingRepeated(d: Bytes)
    ensures Repeated(d, 0) == []
  {}

  // ---------------------------------------------------------------- chunks that differ

  /** A chunk that is not the last is full. */
  lemma FullChunk(c: Config, i: Image, k: nat)
    requires Usable(c) && k + 1 < ChunkCount(c, Size(i))
    ensures |ChunkData(c, i, k)| == c.chunkSize
  {
    hide ChunkCount, Size;
    var n := ChunkCount(c, Size(i));
    ChunkBounds(c, Size(i), n - 1);
    MulAtLeast(c.chunkSize, k + 1, n - 1);
    MulAtLeast(c.chunkSize, 0, k);
    FullSlice(k, n, c.chunkSize, Size(i));
  }

  lemma FullSlice(k: nat, n: int, chunkSize: int, size: int)
    requires chunkSize > 0 && 0 <= chunkSize * k && chunkSize * (k + 1) <= chunkSize * (n - 1)
    requires 0 <= (n - 1) * chunkSize < size
    ensures k * chunkSize == chunkSize * k >= 0 && k * chunkSize + chunkSize <= size
  {
    assert chunkSize * (k + 1) == chunkSize * k + chunkSize;
    assert (n - 1) * chunkSize == chunkSize * (n - 1);
  }

  lemma {:induction false} SpanInTwo(c: Config, i: Image, j: nat, m: nat, k: nat)
    requires Usable(c) && j <= m <= k
    ensures Span(c, i, j, k) == Span(c, i, j, m) + Span(c, i, m, k)
    decreases m - j
  {
    hide ChunkData;
    if j == m {
      assert [] + Span(c, i, m, k) == Span(c, i, m, k);
    } else {
      SpanInTwo(c, i, j + 1, m, k);
      assert ChunkData(c, i, j) + (Span(c, i, j + 1, m) + Span(c, i, m, k))
          == ChunkData(c, i, j) + Span(c, i, j + 1, m) + Span(c, i, m, k);
    }
  }

  lemma OneChunkSpan(c: Config, i: Image, k: nat)
    requires Usable(c)
    ensures Span(c, i, k, k + 1) == ChunkData(c, i, k)
  {
    hide ChunkData;
    assert Span(c, i, k + 1, k + 1) == [];
  }

  lemma EqualParts(a: Bytes, b: Bytes, c: Bytes, d: Bytes)
    requires a + b == c + d && |a| == |c|
    ensures a == c && b == d
  {
    assert (a + b)[..|a|] == a && (c + d)[..|a|] == c;
    assert (a + b)[|a|..] == b && (c + d)[|a|..] == d;
  }

  /** Moving the chunks on by one changes nothing only if each equals the next. */
  lemma {:induction false} ShiftedSpans(c: Config, i: Image, j: nat, n: nat)
    requires Usable(c) && j < n && forall k: nat :: j <= k < n ==> |ChunkData(c, i, k)| == c.chunkSize
    requires Span(c, i, j, n - 1) == Span(c, i, j + 1, n)
    ensures forall k: nat :: j <= k < n ==> ChunkData(c, i, k) == ChunkData(c, i, j)
    decreases n - j
  {
    hide ChunkData;
    if j < n - 1 {
      EqualParts(ChunkData(c, i, j), Span(c, i, j + 1, n - 1), ChunkData(c, i, j + 1), Span(c, i, j + 2, n));
      ShiftedSpans(c, i, j + 1, n);
    }
  }

  /** The first chunk followed by all but the last is the image only if the chunks are equal. */
  lemma RepeatingTheFirstIsWrong(c: Config, i: Image)
    requires Usable(c) && ChunkCount(c, Size(i)) >= 2
    requires var n := ChunkCount(c, Size(i)); ChunkData(c, i, 0) + Span(c, i, 0, n - 1) == Span(c, i, 0, n)
    ensures AllEqual(c, i)
  {
    hide ChunkData, ChunkCount, Size;
    var n := ChunkCount(c, Size(i));
    forall k: nat | k < n - 1 ensures |ChunkData(c, i, k)| == c.chunkSize {
      FullChunk(c, i, k);
    }
    SpanInTwo(c, i, 0, n - 1, n);
    OneChunkSpan(c, i, n - 1);
    assert |ChunkData(c, i, n - 1)| == |ChunkData(c, i, 0)|;
    EqualParts(ChunkData(c, i, 0), Span(c, i, 0, n - 1), ChunkData(c, i, 0), Span(c, i, 1, n));
    ShiftedSpans(c, i, 0, n);
  }

  // ---------------------------------------------------------------- the repeated request

  const NET := Net(true, 0)

  function Ask(a: Addr): (e: Event)
    ensures AsksForTheImage(e, a) && e.net.ok
  {
    Request(a, [MSG_GET_LATEST_IMAGE, 0, 0, 0, 0, 0, 0, 0, 0], NET)
  }

  /** The first chunk, the request again, and `k` chunks. */
  function AskAgain(a: Addr, k: nat): seq<Event> {
    [Ask(a), ChunkTurn(NET), Ask(a)] + Turns(NET, k)
  }

  /** The bytes of what those send. */
  function AskAgainBudget(c: Config, k: nat): int {
    IMAGE_HEADER_SIZE + CHUNK_OVERHEAD + c.chunkSize + Budget(c, k)
  }

  lemma AskAgainSends(c: Config, s: State, a: Addr, i: Image, k: nat)
    requires Usable(c) && s.current == Some(i) && WithinLimit(c, s)
    requires 0 < ChunkCount(c, Size(i)) && k <= ChunkCount(c, Size(i))
    requires s.bw.bytesSent + AskAgainBudget(c, k) <= MaxBps(c)
    ensures var h := Header(c, i, Ask(a));
            SentFrom(c, s, AskAgain(a, k), a) == [h, ChunkMessage(c, i, 0), h] + ChunkMessages(c, i, 0, k)
  {
    hide Step, To, Header, ChunkMessage, ChunkMessages, ChunkCount, Size, MaxBps, Run, Turns, Budget, AskAgain;
    var h, m := Header(c, i, Ask(a)), ChunkMessage(c, i, 0);
    var n := s.bw.bytesSent;
    BudgetGrows(c, 0, k);
    FirstBudget(c);
    Asking(c, s, n, Ask(a), a, i);
    var s1 := Step(c, s, Ask(a));
    Chunking(c, s1, n + IMAGE_HEADER_SIZE, NET, a, i, 0);
    var s2 := Step(c, s1, ChunkTurn(NET));
    TurnsSend(c, s2, n + IMAGE_HEADER_SIZE + CHUNK_OVERHEAD + c.chunkSize, Ask(a), NET, a, i, k);
    RunAskAgain(c, s, a, k);
    Rearranged(To(s.wire, a), h, m, ChunkMessages(c, i, 0, k));
  }

  lemma RunAskAgain(c: Config, s: State, a: Addr, k: nat)
    requires Usable(c)
    ensures var s2 := Step(c, Step(c, s, Ask(a)), ChunkTurn(NET));
            Run(c, s, AskAgain(a, k)) == Run(c, Step(c, s2, Ask(a)), Turns(NET, k))
  {
    hide Step;
    RunInTwo(c, s, [Ask(a), ChunkTurn(NET), Ask(a)], Turns(NET, k));
    RunOfThree(c, s, Ask(a), ChunkTurn(NET), Ask(a));
  }

  lemma RunOfThree(c: Config, s: State, d: Event, e: Event, f: Event)
    requires Usable(c)
    ensures Run(c, s, [d, e, f]) == Step(c, Step(c, Step(c, s, d), e), f)
  {
    hide Step;
    assert [d, e, f][..2] == [d, e] && [d, e][..1] == [d] && [d][..0] == [];
    assert Run(c, s, [d]) == Step(c, s, d);
    assert Run(c, s, [d, e]) == Step(c, Run(c, s, [d]), e);
  }

  lemma Rearranged(earlier: seq<Bytes>, h: Bytes, m: Bytes, ms: seq<Bytes>)
    ensures earlier + [h] + [m] + ([h] + ms) == earlier + ([h, m, h] + ms)
    ensures earlier <= earlier + ([h, m, h] + ms) && (earlier + ([h, m, h] + ms))[|earlier|..] == [h, m, h] + ms
  {}

  /** The events other than images: none of them changes the current image of a run without a pending one. */
  lemma {:induction false} NoImagesNoChange(c: Config, s: State, events: seq<Event>, i: Image)
    requires Usable(c) && Inv(c, s) && s.current == Some(i) && s.pending.None? && forall e <- events :: !e.NewImage?
    ensures StaysCurrent(c, s, events, i) && Run(c, s, events).current == Some(i) && Run(c, s, events).pending.None?
  {
    hide Step, Inv;
    if events == [] {
      assert Run(c, s, events[..0]).current == Some(i);
    } else {
      var n := |events| - 1;
      var init := events[..n];
      NoImagesNoChange(c, s, init, i);
      RunKeeps(c, s, init);
      ImagesStay(c, Run(c, s, init), events[n]);
      forall k | 0 <= k <= n + 1 ensures Run(c, s, events[..k]).current == Some(i) {
        if k <= n {
          assert init[..k] == events[..k];
        } else {
          assert events[..k] == events;
        }
      }
    }
  }

  lemma ImagesStay(c: Config, s: State, e: Event)
    requires Usable(c) && Inv(c, s) && !e.NewImage? && s.pending.None?
    ensures Step(c, s, e).current == s.current && Step(c, s, e).pending.None?
  {
    hide Inv, Sent, ImageComplete, Step;
    match e
    case Request(_, _, _) => RequestedKeeps(c, s, e);
    case Chunk(_) => ChunkKeeps(c, s, e);
    case Finish(net) => FinishStays(c, s, net);
  }

  lemma FinishStays(c: Config, s: State, net: Net)
    requires Usable(c) && s.pending.None?
    ensures var t := Step(c, s, Finish(net)); t.current == s.current && t.pending.None?
  {
    hide Sent, ImageComplete;
    SendKeepsTransmission(c, s, s.tx.client, ImageComplete(s.tx.imageTimestamp, s.tx.chunksSent), net);
  }

  lemma AskAgainHasNoImage(a: Addr, k: nat)
    ensures forall e <- AskAgain(a, k) :: !e.NewImage?
  {
    TurnsLength(NET, k);
  }

  /** The client takes the first chunk twice and never the last. */
  lemma AskAgainDownloads(c: Config, i: Image, h: Bytes, n: nat)
    requires Usable(c) && FitsOneRead(c, i) && n >= 2
    requires Read(h) == h && IsHeader(h) && |h| >= IMAGE_HEADER_SIZE && UnpackImageHeader(h).totalChunks == n
    ensures var r := Downloaded([h, ChunkMessage(c, i, 0), h] + ChunkMessages(c, i, 0, n - 1));
            r.valid && r.imageData == ChunkData(c, i, 0) + Span(c, i, 0, n - 1)
  {
    hide UnpackImageHeader, Read, FromLE, ChunkMessage, ChunkMessages, ChunkData, FitsOneRead, ChunkOf, Span;
    var m, d := ChunkMessage(c, i, 0), ChunkData(c, i, 0);
    var rs := [h, m, h] + ChunkMessages(c, i, 0, n - 1);
    assert rs[0] == h && rs[1] == m && rs[2] == h && rs[3..] == ChunkMessages(c, i, 0, n - 1);
    ChunkTaken(c, i, n, rs, Assembly(0, [], 1), 0);
    assert [] + d == d;
    HeaderSkipped(rs, n, Assembly(1, d, 2));
    ChunksTaken(c, i, n, rs, Assembly(1, d, 3), 0, n - 1);
  }

  lemma HeaderSkipped(rs: seq<Bytes>, expected: nat, a: Assembly)
    requires a.taken < |rs| && a.count < expected && IsHeader(rs[a.taken])
    ensures Assembled(rs, expected, a) == Assembled(rs, expected, a.(taken := a.taken + 1))
  {
    hide FromLE;
  }

  // ---------------------------------------------------------------- the exact condition

  /** Reachable, with `i` current, nothing pending, and room for the request, the first chunk, the request again
      and all but the last of its `n` chunks, which fit the read and are the image. */
  predicate Roomy(c: Config, s: State, i: Image)
    requires Usable(c)
  {
    && s.current == Some(i) && s.pending.None? && FitsOneRead(c, i) && |i.data| + c.chunkSize - 1 < 0x1_0000_0000
    && ChunkCount(c, Size(i)) >= 0
    && s.bw.bytesSent + AskAgainBudget(c, ChunkCount(c, Size(i))) <= MaxBps(c)
  }

  /** A valid download of some of what `a` is sent by a run in which `i` stays current. */
  ghost predicate ValidDownload(c: Config, s: State, events: seq<Event>, rs: seq<Bytes>, a: Addr, i: Image)
    requires Usable(c)
  {
    StaysCurrent(c, s, events, i) && Subsequence(rs, SentFrom(c, s, events, a)) && Downloaded(rs).valid
  }

  /** For an image that stays current, however often the address asks and whatever is lost: every valid
      download has the image's bytes exactly when the image's chunks are all equal. */
  lemma RepeatsAreSafeIff(c: Config, before: seq<Event>, a: Addr, i: Image)
    requires Usable(c) && Roomy(c, Run(c, START, before), i)
    ensures (forall events, rs :: ValidDownload(c, Run(c, START, before), events, rs, a, i) ==>
               Downloaded(rs).imageData == i.data)
            <==> AllEqual(c, i)
  {
    hide Run, Inv, StaysCurrent, SentFrom, Subsequence, Downloaded, AllEqual, FitsOneRead, MaxBps, ChunkCount, Size,
         AskAgain;
    var s := Run(c, START, before);
    StartIsSound(c);
    RunKeeps(c, START, before);
    if AllEqual(c, i) {
      forall events, rs | ValidDownload(c, s, events, rs, a, i)
        ensures Downloaded(rs).imageData == i.data
      {
        RunAbout(c, s, events, a, i);
        ReceivedIsAbout(c, i, rs, SentFrom(c, s, events, a));
        EqualChunksAreSafe(c, i, rs);
      }
    } else {
      var events := RepeatGoesWrong(c, before, a, i);
      var sent := SentFrom(c, s, events, a);
      AllIsASubsequence(sent);
      assert ValidDownload(c, s, events, sent, a, i);
    }
  }

  /** With chunks that differ, a request repeated after the first chunk, nothing lost, goes wrong. */
  lemma RepeatGoesWrong(c: Config, before: seq<Event>, a: Addr, i: Image) returns (events: seq<Event>)
    requires Usable(c) && Roomy(c, Run(c, START, before), i) && !AllEqual(c, i)
    ensures var s := Run(c, START, before);
            var r := Downloaded(SentFrom(c, s, events, a));
            && StaysCurrent(c, s, events, i) && r.valid && r.imageData != i.data
            && r.imageData == ChunkData(c, i, 0) + Span(c, i, 0, ChunkCount(c, Size(i)) - 1)
  {
    hide Run, Inv, StaysCurrent, SentFrom, Downloaded, FitsOneRead, MaxBps, Size, ChunkCount, ChunkData, Span,
         ImageHeader, AskAgain, ChunkMessage, ChunkMessages, Budget, UnpackImageHeader, Read, IsHeader;
    var s := Run(c, START, before);
    var n := ChunkCount(c, Size(i));
    DifferentMeansTwo(c, i);
    events := AskAgain(a, n - 1);
    StartIsSound(c);
    RunKeeps(c, START, before);
    LimitIsSmall(c);
    RunIsWithinLimit(c, START, before);
    BudgetGrows(c, n - 1, n);
    AskAgainSends(c, s, a, i, n - 1);
    AskAgainHasNoImage(a, n - 1);
    NoImagesNoChange(c, s, events, i);
    HeaderIsRead(c, i, SequenceOf(Ask(a).bytes));
    AskAgainDownloads(c, i, Header(c, i, Ask(a)), n);
    ChunksAreTheImageIff(c, i);
    if ChunkData(c, i, 0) + Span(c, i, 0, n - 1) == i.data {
      RepeatingTheFirstIsWrong(c, i);
      assert false;
    }
  }

  lemma DifferentMeansTwo(c: Config, i: Image)
    requires Usable(c) && !AllEqual(c, i)
    ensures ChunkCount(c, Size(i)) >= 2
  {
    hide ChunkData, ChunkCount, Size;
  }

  // ---------------------------------------------------------------- a new image in between

  lemma {:induction false} SubsequenceOfSum(r: seq<Bytes>, s: seq<Bytes>, more: seq<Bytes>, all: seq<Bytes>)
    requires Subsequence(r, s) && Subsequence(more, all)
    ensures Subsequence(r + more, s + all)
    decreases |s|
  {
    if s == [] {
      assert r + more == more && s + all == all;
    } else {
      assert (s + all)[0] == s[0] && (s + all)[1..] == s[1..] + all;
      if Subsequence(r, s[1..]) {
        SubsequenceOfSum(r, s[1..], more, all);
        Skipped(r + more, s + all);
      } else {
        SubsequenceOfSum(r[1..], s[1..], more, all);
        assert (r + more)[0] == r[0] && (r + more)[1..] == r[1..] + more;
      }
    }
  }

  lemma Skipped(r: seq<Bytes>, s: seq<Bytes>)
    requires s != [] && Subsequence(r, s[1..])
    ensures Subsequence(r, s)
  {}

  lemma {:induction false} PrefixIsASubsequence(c: Config, i: Image, j: nat, k: nat, n: nat)
    requires Usable(c) && j <= k <= n
    ensures Subsequence(ChunkMessages(c, i, j, k), ChunkMessages(c, i, j, n))
    decreases k - j
  {
    hide ChunkMessage;
    if j < k {
      PrefixIsASubsequence(c, i, j + 1, k, n);
    }
  }

  /** A request, all its chunks, a new image, the end, and the request again with `k` chunks. */
  function AskAcross(a: Addr, n: nat, e: Event, last: Net, k: nat): seq<Event> {
    [Ask(a)] + Turns(NET, n) + [e, Finish(last), Ask(a)] + Turns(NET, k)
  }

  lemma RunAskAcross(c: Config, s: State, a: Addr, n: nat, e: Event, last: Net, k: nat)
    requires Usable(c)
    ensures var t := Run(c, Step(c, s, Ask(a)), Turns(NET, n));
            var u := Step(c, Step(c, t, e), Finish(last));
            Run(c, s, AskAcross(a, n, e, last, k)) == Run(c, Step(c, u, Ask(a)), Turns(NET, k))
  {
    hide Step;
    RunInTwo(c, s, [Ask(a)] + Turns(NET, n) + [e, Finish(last), Ask(a)], Turns(NET, k));
    RunInTwo(c, s, [Ask(a)] + Turns(NET, n), [e, Finish(last), Ask(a)]);
    RunInTwo(c, s, [Ask(a)], Turns(NET, n));
    RunOfThree(c, Run(c, s, [Ask(a)] + Turns(NET, n)), e, Finish(last), Ask(a));
    assert [Ask(a)][..0] == [];
    assert Run(c, s, [Ask(a)]) == Step(c, Run(c, s, []), Ask(a));
  }

  lemma {:induction false} TurnsKeepImages(c: Config, s: State, n: nat)
    requires Usable(c) && Inv(c, s)
    ensures Inv(c, Run(c, s, Turns(NET, n))) && SameImages(s, Run(c, s, Turns(NET, n)))
  {
    hide Step, Inv;
    if n == 0 {
      NoTurns(c, s, NET);
    } else {
      TurnsKeepImages(c, s, n - 1);
      RunOneMoreTurn(c, s, NET, n - 1);
      ChunkKeeps(c, Run(c, s, Turns(NET, n - 1)), ChunkTurn(NET));
    }
  }

  /** The image an event brings, in the buffer the state would give it. */
  function Brought(c: Config, s: State, e: Event): Image
    requires e.NewImage? && e.compressed.Some?
  {
    Image(e.timestamp, e.blobCount, e.width, e.height, c.compressionQuality, e.compressed.value, s.issued)
  }

  /** A new image during a transmission, and the end of it: the new image is current. */
  lemma ImageTakesOver(c: Config, s: State, e: Event, last: Net, a: Addr, i: Image, n: int)
    requires Usable(c) && e.NewImage? && e.compressed.Some? && s.current == Some(i) && s.pending.None? && Room(s, n)
    requires s.tx == Transmission(true, i.timestamp, ChunkCount(c, Size(i)), ChunkCount(c, Size(i)), a)
    requires n + 21 <= MaxBps(c)
    ensures var u := Step(c, Step(c, s, e), Finish(last));
            && u.current == Some(Brought(c, s, e)) && Room(u, n + 21)
            && exists tail: seq<Bytes> :: To(u.wire, a) == To(s.wire, a) + tail
  {
    hide Sent, ImageComplete, SendResult, To, ChunkCount, Size, MaxBps, Freed;
    var p := Step(c, s, e);
    var m := ImageComplete(i.timestamp, ChunkCount(c, Size(i)));
    SentTo(c, p, a, m, last, a);
    RoomAfter(c, p, n, a, m, last);
    var u := Step(c, p, Finish(last));
    var sent := if SendResult(c, p, m, last) > 0 then [m] else [];
    assert To(u.wire, a) == To(s.wire, a) + sent;
  }

  lemma RoomAfter(c: Config, s: State, n: int, to: Addr, m: Bytes, net: Net)
    requires Usable(c) && Room(s, n) && n + |m| <= MaxBps(c) && MessageSized(|m|)
    ensures Room(Sent(c, s, to, m, net), n + |m|)
  {
    if net.ok {
      SentWithRoom(c, s, n, to, m, net);
    }
  }

  /** What the run sends: the first header and all its chunks, some completion or none, the second header and
      `k` chunks of the new image. */
  lemma AskAcrossSends(c: Config, s: State, a: Addr, i: Image, e: Event, last: Net, k: nat) returns (tail: seq<Bytes>)
    requires Usable(c) && Inv(c, s) && s.current == Some(i) && s.pending.None? && WithinLimit(c, s)
    requires e.NewImage? && e.compressed.Some?
    requires 0 <= ChunkCount(c, Size(i)) && k <= ChunkCount(c, Size(Brought(c, s, e)))
    requires s.bw.bytesSent + Budget(c, ChunkCount(c, Size(i))) + 21 + Budget(c, k) <= MaxBps(c)
    ensures var j, h := Brought(c, s, e), SequenceOf(Ask(a).bytes);
            SentFrom(c, s, AskAcross(a, ChunkCount(c, Size(i)), e, last, k), a)
            == [ImageHeader(InfoOf(c, i), h)] + ChunkMessages(c, i, 0, ChunkCount(c, Size(i))) + tail
               + ([ImageHeader(InfoOf(c, j), h)] + ChunkMessages(c, j, 0, k))
  {
    hide Step, To, ImageHeader, InfoOf, SequenceOf, ChunkMessages, ChunkCount, Size, MaxBps, Run, Turns, Budget,
         AskAcross, Inv;
    var n, b := ChunkCount(c, Size(i)), s.bw.bytesSent;
    BudgetGrows(c, 0, k);
    FirstBudget(c);
    TurnsSend(c, s, b, Ask(a), NET, a, i, n);
    RequestedKeeps(c, s, Ask(a));
    TurnsKeepImages(c, Step(c, s, Ask(a)), n);
    var t := Run(c, Step(c, s, Ask(a)), Turns(NET, n));
    ImageTakesOver(c, t, e, last, a, i, b + Budget(c, n));
    var u := Step(c, Step(c, t, e), Finish(last));
    tail :| To(u.wire, a) == To(t.wire, a) + tail;
    TurnsSend(c, u, b + Budget(c, n) + 21, Ask(a), NET, a, Brought(c, s, e), k);
    RunAskAcross(c, s, a, n, e, last, k);
    RearrangedParts(To(s.wire, a), [Header(c, i, Ask(a))] + ChunkMessages(c, i, 0, n), tail,
                [Header(c, Brought(c, s, e), Ask(a))] + ChunkMessages(c, Brought(c, s, e), 0, k));
  }

  lemma RearrangedParts(earlier: seq<Bytes>, x: seq<Bytes>, y: seq<Bytes>, z: seq<Bytes>)
    ensures earlier + x + y + z == earlier + (x + y + z)
    ensures earlier <= earlier + (x + y + z) && (earlier + (x + y + z))[|earlier|..] == x + y + z
  {}

  lemma MixtureAssembled(c: Config, i: Image, j: Image, rs: seq<Bytes>, k: nat, n: nat)
    requires Usable(c) && FitsOneRead(c, i) && FitsOneRead(c, j) && k < n && k + 2 <= |rs|
    requires ChunkMessages(c, i, 0, k) <= rs[1..] && IsHeader(rs[k + 1]) && ChunkMessages(c, j, 0, n - k) <= rs[k + 2..]
    ensures var r := Assembled(rs, n, Assembly(0, [], 1));
            r.count == n && r.data == Span(c, i, 0, k) + Span(c, j, 0, n - k)
  {
    hide ChunkMessages, Span, FitsOneRead, IsHeader, Assembled;
    var d := Span(c, i, 0, k);
    ChunksTaken(c, i, n, rs, Assembly(0, [], 1), 0, k);
    assert [] + d == d;
    HeaderSkipped(rs, n, Assembly(k, d, k + 1));
    ChunksTaken(c, j, n, rs, Assembly(k, d, k + 2), 0, n - k);
    AllCounted(rs, n, Assembly(n, d + Span(c, j, 0, n - k), n + 2));
  }

  lemma AllCounted(rs: seq<Bytes>, expected: nat, a: Assembly)
    requires a.count == expected
    ensures Assembled(rs, expected, a) == a
  {}

  lemma MixtureShape(h: Bytes, x: seq<Bytes>, g: Bytes, y: seq<Bytes>)
    ensures var rs := [h] + x + [g] + y;
            |rs| == |x| + |y| + 2 && rs[0] == h && x <= rs[1..] && rs[|x| + 1] == g && y <= rs[|x| + 2..]
  {}

  /** Two headers, with chunks of either image after its own, counted for the first. */
  lemma MixtureDownloads(c: Config, i: Image, j: Image, h: Bytes, g: Bytes, k: nat, n: nat)
    requires Usable(c) && FitsOneRead(c, i) && FitsOneRead(c, j) && k < n
    requires Read(h) == h && IsHeader(h) && |h| >= IMAGE_HEADER_SIZE && UnpackImageHeader(h).totalChunks == n
    requires IsHeader(g)
    ensures var r := Downloaded([h] + ChunkMessages(c, i, 0, k) + [g] + ChunkMessages(c, j, 0, n - k));
            && r.valid && r.timestamp == UnpackImageHeader(h).timestamp
            && r.imageData == Span(c, i, 0, k) + Span(c, j, 0, n - k)
  {
    hide UnpackImageHeader, Read, ChunkMessages, FitsOneRead, Span, Assembled;
    var x, y := ChunkMessages(c, i, 0, k), ChunkMessages(c, j, 0, n - k);
    ChunkMessagesLength(c, i, 0, k);
    MixtureShape(h, x, g, y);
    MixtureAssembled(c, i, j, [h] + x + [g] + y, k, n);
  }

  /** A second request after a new image has arrived. If the client misses the chunks of the first image from
      the k-th on and the completion, it completes the first header with chunks of the second image: a valid
      image with the timestamp of the one and bytes of both. */
  lemma NewImageCompletesTheOldHeader(c: Config, before: seq<Event>, a: Addr, e: Event, last: Net, k: nat)
    returns (rs: seq<Bytes>)
    requires Usable(c) && e.NewImage? && e.compressed.Some?
    requires var s := Run(c, START, before);
             && s.current.Some? && s.pending.None?
             && FitsOneRead(c, s.current.value) && FitsOneRead(c, Brought(c, s, e))
             && k < ChunkCount(c, Size(s.current.value)) <= k + ChunkCount(c, Size(Brought(c, s, e)))
             && s.bw.bytesSent + Budget(c, ChunkCount(c, Size(s.current.value))) + 21
                + Budget(c, ChunkCount(c, Size(s.current.value)) - k) <= MaxBps(c)
    ensures var s := Run(c, START, before);
            var i, j := s.current.value, Brought(c, s, e);
            var n, r := ChunkCount(c, Size(i)), Downloaded(rs);
            && Subsequence(rs, SentFrom(c, s, AskAcross(a, n, e, last, n - k), a))
            && r.valid && r.timestamp == i.timestamp % 0x1_0000_0000_0000_0000
            && r.imageData == Span(c, i, 0, k) + Span(c, j, 0, n - k)
  {
    hide Run, Inv, SentFrom, Subsequence, Downloaded, FitsOneRead, MaxBps, Size, ChunkCount, ChunkData, Span,
         ImageHeader, InfoOf, AskAcross, ChunkMessage, ChunkMessages, Budget, UnpackImageHeader, Read, IsHeader,
         SequenceOf, Brought;
    var s := Run(c, START, before);
    var i, j, q := s.current.value, Brought(c, s, e), SequenceOf(Ask(a).bytes);
    var n := ChunkCount(c, Size(i));
    StartIsSound(c);
    RunKeeps(c, START, before);
    LimitIsSmall(c);
    RunIsWithinLimit(c, START, before);
    var tail := AskAcrossSends(c, s, a, i, e, last, n - k);
    var h, g := ImageHeader(InfoOf(c, i), q), ImageHeader(InfoOf(c, j), q);
    var x, y := ChunkMessages(c, i, 0, k), ChunkMessages(c, j, 0, n - k);
    rs := [h] + x + [g] + y;
    HeaderIsRead(c, i, q);
    HeaderIsRead(c, j, q);
    MixtureDownloads(c, i, j, h, g, k, n);
    SomeArrive(c, i, h, k, n, tail, [g] + y);
    assert [h] + x + ([g] + y) == rs;
  }

  lemma SomeArrive(c: Config, i: Image, h: Bytes, k: nat, n: nat, tail: seq<Bytes>, last: seq<Bytes>)
    requires Usable(c) && k <= n
    ensures Subsequence([h] + ChunkMessages(c, i, 0, k) + last, [h] + ChunkMessages(c, i, 0, n) + tail + last)
  {
    hide ChunkMessages, Subsequence;
    var x, z := ChunkMessages(c, i, 0, k), ChunkMessages(c, i, 0, n);
    AllIsASubsequence([h]);
    AllIsASubsequence(last);
    PrefixIsASubsequence(c, i, 0, k, n);
    SubsequenceOfSum([h], [h], x, z);
    NothingArrives(tail);
    SubsequenceOfSum([h] + x, [h] + z, [], tail);
    assert [h] + x + [] == [h] + x;
    SubsequenceOfSum([h] + x, [h] + z + tail, last, last);
  }

  lemma NothingArrives(sent: seq<Bytes>)
    ensures Subsequence([], sent)
  {}
}
