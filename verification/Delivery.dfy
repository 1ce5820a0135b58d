/** The downlink when nothing is lost and there is room for every datagram: an image asked for once
    arrives. */
module Delivery {
  import opened Common
  import opened Wire
  import opened Downlink
  import opened DownlinkRate
  import opened Client
  import opened Reassembly
  import opened EndToEnd

  // ---------------------------------------------------------------- sends that succeed

  /** At most `n` bytes are accounted. */
  predicate Room(s: State, n: int) {
    0 <= s.bw.bytesSent <= n
  }

  lemma SentWithRoom(c: Config, s: State, n: int, to: Addr, m: Bytes, net: Net)
    requires Usable(c) && Room(s, n) && n + |m| <= MaxBps(c) && MessageSized(|m|) && net.ok
    ensures SendResult(c, s, m, net) > 0 && Room(Sent(c, s, to, m, net), n + |m|)
  {
    LimitIsSmall(c);
    CanSendIsExact(c, s, |m|);
    hide CanSend, MaxBps, U32;
  }

  lemma Asking(c: Config, s: State, n: int, ask: Event, a: Addr, i: Image)
    requires Usable(c) && s.current == Some(i) && Room(s, n) && n + IMAGE_HEADER_SIZE <= MaxBps(c)
    requires AsksForTheImage(ask, a) && ask.net.ok
    ensures var t := Step(c, s, ask);
            && t.current == Some(i) && Room(t, n + IMAGE_HEADER_SIZE)
            && t.tx == Transmission(true, i.timestamp, ChunkCount(c, Size(i)), 0, a)
            && To(t.wire, a) == To(s.wire, a) + [Header(c, i, ask)]
  {
    hide Sent, SendResult, ImageHeader, SequenceOf, InfoOf, To, ChunkCount, Size, MaxBps;
    var t, m := Started(c, s, i, a), Header(c, i, ask);
    SentTo(c, t, a, m, ask.net, a);
    SentWithRoom(c, t, n, a, m, ask.net);
  }

  function ChunkTurn(net: Net): Event {
    Chunk(Some(net))
  }

  lemma Chunking(c: Config, s: State, n: int, net: Net, a: Addr, i: Image, k: nat)
    requires Usable(c) && s.current == Some(i) && Room(s, n) && n + CHUNK_OVERHEAD + c.chunkSize <= MaxBps(c) && net.ok
    requires k < ChunkCount(c, Size(i)) && s.tx == Transmission(true, i.timestamp, ChunkCount(c, Size(i)), k, a)
    ensures var t := Step(c, s, ChunkTurn(net));
            && t.current == Some(i) && Room(t, n + CHUNK_OVERHEAD + c.chunkSize)
            && t.tx == Transmission(true, i.timestamp, ChunkCount(c, Size(i)), k + 1, a)
            && To(t.wire, a) == To(s.wire, a) + [ChunkMessage(c, i, k)]
  {
    ChunkDataIsShort(c, i, k);
    ChunkMessageLength(c, i, k);
    hide Sent, SendResult, ChunkMessage, ChunkData, To, Size, ChunkCount, MaxBps;
    var m := ChunkMessage(c, i, k);
    SentTo(c, s, a, m, net, a);
    SentWithRoom(c, s, n, a, m, net);
  }

  lemma ChunkMessageLength(c: Config, i: Image, k: nat)
    requires Usable(c)
    ensures |ChunkMessage(c, i, k)| == CHUNK_OVERHEAD + |ChunkData(c, i, k)|
  {
    hide ImageChunk, ChunkData;
  }

  // ---------------------------------------------------------------- asking once

  function Turns(net: Net, n: nat): seq<Event> {
    if n == 0 then [] else Turns(net, n - 1) + [ChunkTurn(net)]
  }

  /** The bytes of a header and `k` chunk datagrams at the most. */
  function Budget(c: Config, k: nat): int {
    if k == 0 then IMAGE_HEADER_SIZE else Budget(c, k - 1) + CHUNK_OVERHEAD + c.chunkSize
  }

  lemma {:induction false} BudgetGrows(c: Config, j: nat, k: nat)
    requires Usable(c) && j <= k
    ensures IMAGE_HEADER_SIZE <= Budget(c, j) <= Budget(c, k)
  {
    if j < k {
      BudgetGrows(c, j, k - 1);
    } else if j > 0 {
      BudgetGrows(c, j - 1, j - 1);
    }
  }

  /** After `k` turns the header and the first `k` chunks are out. */
  predicate SentSoFar(c: Config, s: State, t: State, n: int, ask: Event, a: Addr, i: Image, k: nat)
    requires Usable(c) && AsksForTheImage(ask, a)
  {
    && t.current == Some(i) && Room(t, n + Budget(c, k))
    && t.tx == Transmission(true, i.timestamp, ChunkCount(c, Size(i)), k, a)
    && To(t.wire, a) == To(s.wire, a) + ([Header(c, i, ask)] + ChunkMessages(c, i, 0, k))
  }

  lemma OneMoreTurn(c: Config, s: State, t: State, n: int, ask: Event, net: Net, a: Addr, i: Image, k: nat)
    requires Usable(c) && AsksForTheImage(ask, a) && net.ok && SentSoFar(c, s, t, n, ask, a, i, k)
    requires k < ChunkCount(c, Size(i)) && n + Budget(c, k + 1) <= MaxBps(c)
    ensures SentSoFar(c, s, Step(c, t, ChunkTurn(net)), n, ask, a, i, k + 1)
  {
    hide Step, To, Header, ChunkMessage, ChunkMessages, ChunkCount, Size, MaxBps;
    Chunking(c, t, n + Budget(c, k), net, a, i, k);
    OneMoreChunkMessage(c, i, 0, k);
    Reassociate(To(s.wire, a), [Header(c, i, ask)], ChunkMessages(c, i, 0, k), [ChunkMessage(c, i, k)]);
  }

  lemma FirstSent(c: Config, s: State, n: int, ask: Event, a: Addr, i: Image)
    requires Usable(c) && AsksForTheImage(ask, a) && ask.net.ok
    requires s.current == Some(i) && Room(s, n) && n + IMAGE_HEADER_SIZE <= MaxBps(c)
    ensures SentSoFar(c, s, Step(c, s, ask), n, ask, a, i, 0)
  {
    hide Step, To, Header, ChunkMessage, ChunkCount, Size, MaxBps;
    Asking(c, s, n, ask, a, i);
    assert ChunkMessages(c, i, 0, 0) == [];
  }

  lemma {:induction false} TurnsSend(c: Config, s: State, n: int, ask: Event, net: Net, a: Addr, i: Image, k: nat)
    requires Usable(c) && AsksForTheImage(ask, a) && ask.net.ok && net.ok
    requires s.current == Some(i) && Room(s, n) && k <= ChunkCount(c, Size(i)) && n + Budget(c, k) <= MaxBps(c)
    ensures SentSoFar(c, s, Run(c, Step(c, s, ask), Turns(net, k)), n, ask, a, i, k)
  {
    hide Step, Run, Turns, SentSoFar, ChunkCount, Size, MaxBps, Room, Budget;
    NoTurns(c, Step(c, s, ask), net);
    BudgetGrows(c, 0, k);
    FirstBudget(c);
    if k == 0 {
      FirstSent(c, s, n, ask, a, i);
    } else {
      BudgetGrows(c, k - 1, k);
      TurnsSend(c, s, n, ask, net, a, i, k - 1);
      OneMoreTurn(c, s, Run(c, Step(c, s, ask), Turns(net, k - 1)), n, ask, net, a, i, k - 1);
      RunOneMoreTurn(c, Step(c, s, ask), net, k - 1);
    }
  }

  lemma NoTurns(c: Config, s: State, net: Net)
    requires Usable(c)
    ensures Run(c, s, Turns(net, 0)) == s
  {}

  lemma RunOneMoreTurn(c: Config, s: State, net: Net, k: nat)
    requires Usable(c)
    ensures Run(c, s, Turns(net, k + 1)) == Step(c, Run(c, s, Turns(net, k)), ChunkTurn(net))
  {
    hide Step;
    assert Turns(net, k + 1)[..|Turns(net, k + 1)| - 1] == Turns(net, k);
  }

  lemma FirstBudget(c: Config)
    ensures Budget(c, 0) == IMAGE_HEADER_SIZE
  {}

  lemma {:induction false} TurnsLength(net: Net, k: nat)
    ensures |Turns(net, k)| == k && forall e <- Turns(net, k) :: e.Chunk?
  {
    if k > 0 {
      TurnsLength(net, k - 1);
    }
  }

  lemma Reassociate(a: seq<Bytes>, b: seq<Bytes>, c: seq<Bytes>, d: seq<Bytes>)
    ensures a + (b + c) + d == a + (b + (c + d))
  {}

  /** Asked once, with room for its datagrams and sends that succeed, every image arrives whole whose
      chunks fit the client's read and whose chunk count does not overflow. */
  lemma AskingOnceDelivers(c: Config, before: seq<Event>, ask: Event, net: Net, a: Addr)
    requires Usable(c) && AsksForTheImage(ask, a) && ask.net.ok && net.ok
    requires NotFor(Run(c, START, before), a) && Run(c, START, before).current.Some?
    requires var s := Run(c, START, before);
             var i := s.current.value;
             && FitsOneRead(c, i) && |i.data| + c.chunkSize - 1 < 0x1_0000_0000
             && 0 <= ChunkCount(c, Size(i)) && s.bw.bytesSent + Budget(c, ChunkCount(c, Size(i))) <= MaxBps(c)
    ensures var i := Run(c, START, before).current.value;
            var r := Downloaded(SentSince(c, before, ask, Turns(net, ChunkCount(c, Size(i))), a));
            r.valid && r.imageData == i.data
  {
    hide Run, Step, To, Header, ChunkCount, Size, MaxBps, FitsOneRead, NotFor, Downloaded, WholeRun, Turns;
    var s := Run(c, START, before);
    var i := s.current.value;
    var k := ChunkCount(c, Size(i));
    var after := Turns(net, k);
    LimitIsSmall(c);
    RunIsWithinLimit(c, START, before);
    TurnsLength(net, k);
    TurnsSend(c, s, s.bw.bytesSent, ask, net, a, i, k);
    WholeRunByParts(c, before, ask, after);
    var p := Progress([Header(c, i, ask)], k, false);
    var sent := SentSince(c, before, ask, after, a);
    assert sent == Outbox(c, i, p) by { Shape(To(s.wire, a), c, i, p); }
    EverythingArrivedIsValidIff(c, i, ask, p);
    AllIsASubsequence(sent);
    ValidMeansTheImageAskedFor(c, before, ask, after, a, sent);
  }

  lemma Shape(earlier: seq<Bytes>, c: Config, i: Image, p: Progress)
    requires Usable(c) && !p.done
    ensures var all := earlier + (p.head + ChunkMessages(c, i, 0, p.k));
            earlier <= all && all[|earlier|..] == Outbox(c, i, p)
  {
    hide ChunkMessages;
  }
}
