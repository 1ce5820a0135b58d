/** How the bandwidth limit of the downlink server can block it: for ever, or until the next request. */
module DownlinkStall {
  import opened Common
  import opened Wire
  import opened Downlink
  import opened DownlinkRate

  // ---------------------------------------------------------------- the limit can block for ever

  /** The limiter compares with the account without looking at the clock, and only a datagram sent
      resets the account. So from a state within the limit nothing is ever sent again, whatever
      happens, exactly when the account leaves no room for the shortest message. */
  lemma NeverSendsAgainIff(c: Config, s: State)
    requires Usable(c) && WithinLimit(c, s)
    ensures (forall events :: Run(c, s, events).wire == s.wire) <==> s.bw.bytesSent + HEADER_SIZE > MaxBps(c)
  {
    hide Run, CanSend, MaxBps, U32;
    if s.bw.bytesSent + HEADER_SIZE > MaxBps(c) {
      forall events ensures Run(c, s, events).wire == s.wire {
        NoRoomNothingSent(c, s, events);
      }
    } else {
      RoomForAnError(c, s);
      assert Run(c, s, [ErrorAt(0)]).wire != s.wire;
    }
  }

  lemma RoomForAnError(c: Config, s: State)
    requires Usable(c) && WithinLimit(c, s) && s.bw.bytesSent + HEADER_SIZE <= MaxBps(c)
    ensures |Run(c, s, [ErrorAt(0)]).wire| == |s.wire| + 1
  {
    hide Step;
    assert [ErrorAt(0)][..0] == [];
    assert Run(c, s, [ErrorAt(0)]) == Step(c, Run(c, s, []), ErrorAt(0));
    ErrorStep(c, s, 0);
  }

  lemma TheLimiterWedgesIff(c: Config, prior: seq<Event>)
    requires Usable(c)
    ensures var s := Run(c, START, prior);
            (forall events :: Run(c, s, events).wire == s.wire)
            <==> s.bw.bytesSent + HEADER_SIZE > c.maxBandwidthKbps * 1024 / 8
  {
    hide Run;
    LimitIsSmall(c);
    RunIsWithinLimit(c, START, prior);
    NeverSendsAgainIff(c, Run(c, START, prior));
  }

  /** The block does happen, on every link and in every second: as many errors as the limit allows leave no
      room for another, and the server is silent for ever. */
  lemma TheLimiterDoesWedge(c: Config, now: int, events: seq<Event>)
    requires Usable(c)
    ensures var s := Run(c, START, Errors(now, MaxBps(c) / HEADER_SIZE));
            Run(c, s, events).wire == s.wire && |s.wire| >= (if c.maxBandwidthKbps > 0 then 1 else 0)
  {
    LimitIsSmall(c);
    hide Run, MaxBps, Errors;
    var m := MaxBps(c) / HEADER_SIZE;
    var s := Run(c, START, Errors(now, m));
    RunIsWithinLimit(c, START, Errors(now, m));
    if m > 0 {
      ErrorsRun(c, START, now, m);
    } else {
      NoErrors(c, START, now);
    }
    NoRoomNothingSent(c, s, events);
  }

  // ---------------------------------------------------------------- a transmission can stall

  /** A transmission with chunks left. */
  predicate InProgress(s: State) {
    s.tx.active && Available(s) && 0 <= s.tx.chunksSent < s.tx.totalChunks
  }

  ghost predicate NoRequests(events: seq<Event>) {
    forall e <- events :: !e.Request?
  }

  function NextChunkSize(c: Config, s: State): int
    requires Usable(c) && InProgress(s)
  {
    |ChunkMessage(c, s.current.value, s.tx.chunksSent)|
  }

  lemma {:induction false} StalledRun(c: Config, s: State, events: seq<Event>)
    requires Usable(c) && WithinLimit(c, s) && InProgress(s) && NoRequests(events)
    requires s.bw.bytesSent + NextChunkSize(c, s) > MaxBps(c)
    ensures var t := Run(c, s, events); t == s.(pending := t.pending, freed := t.freed, issued := t.issued)
  {
    hide ChunkMessage, CanSend, MaxBps, Step;
    if events != [] {
      var n := |events| - 1;
      StalledRun(c, s, events[..n]);
      var t := Run(c, s, events[..n]);
      assert !events[n].Request?;
      NextChunkIsRefused(c, t);
      StalledStep(c, t, events[n]);
    }
  }

  lemma NextChunkIsRefused(c: Config, s: State)
    requires Usable(c) && InProgress(s)
    ensures MessageSized(NextChunkSize(c, s))
    ensures WithinLimit(c, s) ==>
            (CanSend(c, s, NextChunkSize(c, s)) <==> s.bw.bytesSent + NextChunkSize(c, s) <= MaxBps(c))
  {
    hide ChunkMessage, CanSend, MaxBps, U32;
    ChunkSize(c, s.current.value, s.tx.chunksSent);
    if WithinLimit(c, s) {
      CanSendIsExact(c, s, NextChunkSize(c, s));
    }
  }

  lemma StalledStep(c: Config, s: State, e: Event)
    requires Usable(c) && InProgress(s) && !e.Request? && !CanSend(c, s, NextChunkSize(c, s))
    ensures var t := Step(c, s, e); t == s.(pending := t.pending, freed := t.freed, issued := t.issued)
  {
    hide ChunkMessage, CanSend, ImageComplete, Requested, Completed, Freed;
  }

  /** While no one asks, only the next chunk can move the account. So an unfinished transmission sends
      nothing any more, whatever images arrive and however long it takes, exactly when that chunk does
      not fit beside what the account holds. */
  lemma TransmissionStallsIff(c: Config, s: State)
    requires Usable(c) && WithinLimit(c, s) && InProgress(s)
    ensures (forall events :: NoRequests(events) ==> Run(c, s, events).wire == s.wire)
            <==> s.bw.bytesSent + NextChunkSize(c, s) > MaxBps(c)
  {
    hide Run, CanSend, MaxBps, ChunkMessage, WithinLimit, Sent;
    if s.bw.bytesSent + NextChunkSize(c, s) > MaxBps(c) {
      forall events | NoRequests(events) ensures Run(c, s, events).wire == s.wire {
        StalledRun(c, s, events);
      }
    } else {
      NextChunkIsRefused(c, s);
      var e := Chunk(Some(Net(true, 0)));
      NextChunkGoesOut(c, s, e);
      assert NoRequests([e]);
      assert Run(c, s, [e]).wire != s.wire;
    }
  }

  lemma NextChunkGoesOut(c: Config, s: State, e: Event)
    requires Usable(c) && InProgress(s) && CanSend(c, s, NextChunkSize(c, s)) && e == Chunk(Some(Net(true, 0)))
    ensures |Run(c, s, [e]).wire| == |s.wire| + 1
  {
    hide ChunkMessage, CanSend, Accounted;
    assert [e][..0] == [];
    assert Run(c, s, []) == s;
  }
}
