/** What every run of the downlink server keeps: buffer ownership, freshness, the image of an active
    transmission and the bandwidth limit. */
module DownlinkLaws {
  import opened Common
  import opened Wire
  import opened Downlink

  // ---------------------------------------------------------------- the invariant

  /** The buffers 0, ..., n - 1, each once. */
  function Issued(n: nat): multiset<nat> {
    if n == 0 then multiset{} else Issued(n - 1) + multiset{n - 1}
  }

  lemma {:induction false} IssuedOnce(n: nat, x: nat)
    ensures Issued(n)[x] == if x < n then 1 else 0
  {
    if n > 0 {
      IssuedOnce(n - 1, x);
    }
  }

  function Held(slot: Option<Image>): multiset<nat> {
    match slot
    case None => multiset{}
    case Some(i) => multiset{i.buffer}
  }

  /** Every buffer ever allocated has been freed once or is owned by exactly one slot. */
  ghost predicate Owned(s: State) {
    multiset(s.freed) + Held(s.current) + Held(s.pending) == Issued(s.issued)
  }

  /** An active transmission has its image; a pending image has a transmission to wait for. */
  ghost predicate InStep(c: Config, s: State)
    requires Usable(c)
  {
    && (s.tx.active ==> Available(s)) && Coherent(c, s)
    && (s.pending.Some? ==> s.tx.active)
  }

  ghost predicate Inv(c: Config, s: State)
    requires Usable(c)
  {
    Owned(s) && InStep(c, s)
  }

  /** The image a client asking next should eventually get. */
  function Latest(s: State): Option<Image> {
    if s.pending.Some? then s.pending else s.current
  }

  /** The image a step delivers, if it is a new one that compressed. */
  function Delivered(c: Config, s: State, e: Event): Option<Image> {
    if e.NewImage? && e.compressed.Some?
    then Some(Image(e.timestamp, e.blobCount, e.width, e.height, c.compressionQuality, e.compressed.value, s.issued))
    else None
  }

  lemma FreedGrows(freed: seq<nat>, slot: Option<Image>)
    ensures multiset(Freed(freed, slot)) == multiset(freed) + Held(slot)
  {}

  lemma ChunkCountIsNonNegative(c: Config, size: int)
    requires Usable(c)
    ensures 0 <= ChunkCount(c, size)
  {}

  lemma SlotReplaced(freed: multiset<nat>, previous: multiset<nat>, kept: multiset<nat>, n: nat)
    requires freed + previous + kept == Issued(n)
    ensures (freed + previous) + multiset{n} + kept == Issued(n + 1)
    ensures (freed + previous) + kept + multiset{n} == Issued(n + 1)
  {}

  lemma ReplacedKeepsOwned(c: Config, s: State, timestamp: int, blobCount: int, width: int, height: int, data: Bytes)
    requires Owned(s)
    ensures Owned(Replaced(c, s, timestamp, blobCount, width, height, Some(data)))
  {
    hide Issued, Freed;
    var f, h, p, n := multiset(s.freed), Held(s.current), Held(s.pending), s.issued;
    FreedGrows(s.freed, s.pending);
    FreedGrows(s.freed, s.current);
    if s.tx.active {
      assert f + p + h == f + h + p;
      SlotReplaced(f, p, h, n);
    } else {
      SlotReplaced(f, h, p, n);
    }
  }

  lemma ReplacedKeeps(c: Config, s: State, e: Event)
    requires Usable(c) && Inv(c, s) && e.NewImage?
    ensures Inv(c, Step(c, s, e))
    ensures e.compressed.Some? ==> Latest(Step(c, s, e)) == Delivered(c, s, e)
    ensures e.compressed.None? ==> Step(c, s, e) == s
  {
    if e.compressed.Some? {
      ReplacedKeepsOwned(c, s, e.timestamp, e.blobCount, e.width, e.height, e.compressed.value);
      hide Owned, ChunkCount, Size;
    }
  }

  lemma CompletedKeeps(c: Config, s: State)
    requires Usable(c) && Owned(s)
    ensures Inv(c, Completed(s)) && Latest(Completed(s)) == Latest(s) && !Completed(s).tx.active
  {
    FreedGrows(s.freed, s.current);
  }

  /** `t` differs from `s` at most in the bandwidth account, the wire and the transmission. */
  ghost predicate SameImages(s: State, t: State) {
    t.current == s.current && t.pending == s.pending && t.issued == s.issued && t.freed == s.freed
  }

  lemma SentKeeps(c: Config, s: State, to: Addr, m: Bytes, net: Net)
    requires Usable(c) && Inv(c, s)
    ensures Inv(c, Sent(c, s, to, m, net)) && SameImages(s, Sent(c, s, to, m, net)) && Sent(c, s, to, m, net).tx == s.tx
  {
    hide ChunkCount, Size, Sent;
    SendKeepsTransmission(c, s, to, m, net);
  }

  lemma StartedKeeps(c: Config, s: State, i: Image, from: Addr)
    requires Usable(c) && Inv(c, s) && s.current == Some(i)
    ensures Inv(c, Started(c, s, i, from)) && SameImages(s, Started(c, s, i, from)) && Started(c, s, i, from).tx.active
  {
    ChunkCountIsNonNegative(c, Size(i));
    hide ChunkCount, Size;
  }

  lemma RequestedKeeps(c: Config, s: State, e: Event)
    requires Usable(c) && Inv(c, s) && e.Request?
    ensures Inv(c, Step(c, s, e)) && SameImages(s, Step(c, s, e))
    ensures s.tx.active ==> Step(c, s, e).tx.active
  {
    hide Sent, ErrorMessage, StatusOf, ImageHeader, SequenceOf, Inv, Started;
    if |e.bytes| >= HEADER_SIZE {
      var q := SequenceOf(e.bytes);
      SentKeeps(c, s, e.from, ErrorMessage(q), e.net);
      SentKeeps(c, s, e.from, StatusOf(s, q), e.net);
      if s.current.Some? {
        var i := s.current.value;
        StartedKeeps(c, s, i, e.from);
        SentKeeps(c, Started(c, s, i, e.from), e.from, ImageHeader(InfoOf(c, i), q), e.net);
      }
    }
  }

  lemma CountedKeeps(c: Config, s: State)
    requires Usable(c) && Inv(c, s) && s.tx.active && s.tx.chunksSent < s.tx.totalChunks
    ensures Inv(c, s.(tx := s.tx.(chunksSent := s.tx.chunksSent + 1)))
  {
    hide ChunkCount, Size;
  }

  lemma ChunkKeeps(c: Config, s: State, e: Event)
    requires Usable(c) && Inv(c, s) && e.Chunk?
    ensures Inv(c, Step(c, s, e)) && SameImages(s, Step(c, s, e)) && Step(c, s, e).tx.active == s.tx.active
  {
    hide Sent, ChunkMessage, SendResult, Coherent, Owned;
    if s.tx.active && 0 <= s.tx.chunksSent < s.tx.totalChunks && e.chunkNet.Some? {
      var m := ChunkMessage(c, s.current.value, s.tx.chunksSent);
      SentKeeps(c, s, s.tx.client, m, e.chunkNet.value);
      CountedKeeps(c, Sent(c, s, s.tx.client, m, e.chunkNet.value));
    }
  }

  /** The end of a transmission whose every chunk was sent. */
  lemma EndKeeps(c: Config, s: State, net: Net)
    requires Usable(c) && Inv(c, s)
    ensures var t := Sent(c, s, s.tx.client, ImageComplete(s.tx.imageTimestamp, s.tx.chunksSent), net);
            var u := Completed(t.(tx := IDLE));
            Inv(c, u) && Latest(u) == Latest(s) && !u.tx.active
  {
    hide Sent, ImageComplete, Coherent, Available;
    var t := Sent(c, s, s.tx.client, ImageComplete(s.tx.imageTimestamp, s.tx.chunksSent), net);
    SentKeeps(c, s, s.tx.client, ImageComplete(s.tx.imageTimestamp, s.tx.chunksSent), net);
    IdleKeepsOwned(t);
    CompletedKeeps(c, t.(tx := IDLE));
  }

  lemma IdleKeepsOwned(s: State)
    requires Owned(s)
    ensures Owned(s.(tx := IDLE)) && Latest(s.(tx := IDLE)) == Latest(s)
  {}

  lemma FinishKeeps(c: Config, s: State, e: Event)
    requires Usable(c) && Inv(c, s) && e.Finish?
    ensures Inv(c, Step(c, s, e)) && Latest(Step(c, s, e)) == Latest(s)
    ensures Step(c, s, e).tx.active ==> Step(c, s, e) == s
  {
    hide Sent, ImageComplete, Coherent, Available, Owned, Completed;
    if s.tx.active && s.tx.chunksSent >= s.tx.totalChunks {
      EndKeeps(c, s, e.net);
    }
  }

  /** Every step keeps the invariant, and the latest image changes only when a new one is delivered,
      which then is the latest. While a transmission stays active its image stays the same. */
  lemma StepKeeps(c: Config, s: State, e: Event)
    requires Usable(c) && Inv(c, s)
    ensures Inv(c, Step(c, s, e))
    ensures Latest(Step(c, s, e)) == if Delivered(c, s, e).Some? then Delivered(c, s, e) else Latest(s)
    ensures s.tx.active && Step(c, s, e).tx.active ==> Step(c, s, e).current == s.current
  {
    match e
    case NewImage(_, _, _, _, _) => ReplacedKeeps(c, s, e);
    case Request(_, _, _) => RequestedKeeps(c, s, e);
    case Chunk(_) => ChunkKeeps(c, s, e);
    case Finish(_) => FinishKeeps(c, s, e);
  }

  // ---------------------------------------------------------------- whole runs

  lemma {:induction false} RunKeeps(c: Config, s: State, events: seq<Event>)
    requires Usable(c) && Inv(c, s)
    ensures Inv(c, Run(c, s, events))
  {
    hide Step, Inv;
    if events != [] {
      RunKeeps(c, s, events[..|events| - 1]);
      StepKeeps(c, Run(c, s, events[..|events| - 1]), events[|events| - 1]);
    }
  }

  lemma StartIsSound(c: Config)
    requires Usable(c)
    ensures Inv(c, START)
  {}

  /** In every reachable state: no buffer has been freed twice, the slots share none and own none that
      was freed, and as many have been freed as allocated less those owned. */
  lemma OwnershipInEveryRun(c: Config, events: seq<Event>)
    requires Usable(c)
    ensures var s := Run(c, START, events);
            && (forall i, j :: 0 <= i < j < |s.freed| ==> s.freed[i] != s.freed[j])
            && (s.current.Some? && s.pending.Some? ==> s.current.value.buffer != s.pending.value.buffer)
            && (s.current.Some? ==> s.current.value.buffer !in s.freed)
            && (s.pending.Some? ==> s.pending.value.buffer !in s.freed)
            && |s.freed| + |Held(s.current)| + |Held(s.pending)| == s.issued
  {
    hide Run, Coherent, Available;
    StartIsSound(c);
    RunKeeps(c, START, events);
    SoundOwnership(Run(c, START, events));
  }

  lemma {:induction false} IssuedSize(n: nat)
    ensures |Issued(n)| == n
  {
    if n > 0 {
      IssuedSize(n - 1);
    }
  }

  lemma SoundOwnership(s: State)
    requires Owned(s)
    ensures forall i, j :: 0 <= i < j < |s.freed| ==> s.freed[i] != s.freed[j]
    ensures s.current.Some? && s.pending.Some? ==> s.current.value.buffer != s.pending.value.buffer
    ensures s.current.Some? ==> s.current.value.buffer !in s.freed
    ensures s.pending.Some? ==> s.pending.value.buffer !in s.freed
    ensures |s.freed| + |Held(s.current)| + |Held(s.pending)| == s.issued
  {
    IssuedSize(s.issued);
    assert |multiset(s.freed) + Held(s.current) + Held(s.pending)| == s.issued;
    forall x: nat ensures multiset(s.freed)[x] + Held(s.current)[x] + Held(s.pending)[x] <= 1 {
      IssuedOnce(s.issued, x);
      assert (multiset(s.freed) + Held(s.current) + Held(s.pending))[x] == Issued(s.issued)[x];
    }
    forall i, j | 0 <= i < j < |s.freed| ensures s.freed[i] != s.freed[j] {
      if s.freed[i] == s.freed[j] {
        TwiceInMultiset(s.freed, i, j);
        assert false;
      }
    }
    assert s.current.Some? ==> multiset(s.freed)[s.current.value.buffer] == 0;
    assert s.pending.Some? ==> multiset(s.freed)[s.pending.value.buffer] == 0;
  }

  lemma TwiceInMultiset(s: seq<nat>, i: int, j: int)
    requires 0 <= i < j < |s| && s[i] == s[j]
    ensures multiset(s)[s[i]] >= 2
  {
    assert s == s[..j] + [s[j]] + s[j + 1..];
    assert s[i] in s[..j];
    assert s[i] in multiset(s[..j]);
  }

  /** `cleanupStarcamDownlink` frees what the slots still own. */
  function CleanedUp(s: State): State {
    s.(current := None, pending := None, freed := Freed(Freed(s.freed, s.current), s.pending))
  }

  /** After any run and the cleanup, every buffer allocated has been freed exactly once. */
  lemma NothingLeaks(c: Config, events: seq<Event>)
    requires Usable(c)
    ensures var s := CleanedUp(Run(c, START, events)); multiset(s.freed) == Issued(s.issued)
  {
    hide Run, Coherent, Available;
    StartIsSound(c);
    RunKeeps(c, START, events);
    var s := Run(c, START, events);
    FreedGrows(s.freed, s.current);
    FreedGrows(Freed(s.freed, s.current), s.pending);
  }

  /** The newest image that compressed, with the buffer it was given. */
  function Newest(c: Config, events: seq<Event>): Option<Image>
    requires Usable(c)
  {
    if events == [] then None
    else
      var n := |events| - 1;
      var d := Delivered(c, Run(c, START, events[..n]), events[n]);
      if d.Some? then d else Newest(c, events[..n])
  }

  /** Freshness: after every run the newest image that compressed is pending if one is pending, and
      current otherwise. */
  lemma {:induction false} NewestIsLatest(c: Config, events: seq<Event>)
    requires Usable(c)
    ensures Latest(Run(c, START, events)) == Newest(c, events)
  {
    hide Step, Inv;
    if events != [] {
      var n := |events| - 1;
      NewestIsLatest(c, events[..n]);
      StartIsSound(c);
      RunKeeps(c, START, events[..n]);
      StepKeeps(c, Run(c, START, events[..n]), events[n]);
    }
  }

  /** While a transmission stays active, whatever arrives, the current image is the one it began with,
      so the branch that gives up on a vanished image is never taken. */
  lemma {:induction false} TransmissionKeepsItsImage(c: Config, s: State, events: seq<Event>)
    requires Usable(c) && Inv(c, s)
    requires forall k :: 0 <= k <= |events| ==> Run(c, s, events[..k]).tx.active
    ensures Run(c, s, events).current == s.current && Available(Run(c, s, events))
  {
    hide Step, Inv, Available;
    RunKeeps(c, s, events);
    assert events[..|events|] == events;
    ActiveHasItsImage(c, Run(c, s, events));
    if events != [] {
      var n := |events| - 1;
      var init := events[..n];
      assert forall k :: 0 <= k <= n ==> init[..k] == events[..k];
      TransmissionKeepsItsImage(c, s, init);
      RunKeeps(c, s, init);
      StepKeeps(c, Run(c, s, init), events[n]);
    }
  }

  lemma ActiveHasItsImage(c: Config, s: State)
    requires Usable(c) && Inv(c, s)
    ensures s.tx.active ==> Available(s)
  {}

  lemma PromotedOverTheNewest(c: Config, s: State, e: Event)
    requires Usable(c) && Inv(c, s) && s.pending.Some? && e.NewImage? && e.compressed.Some?
    ensures var cleared := s.(tx := IDLE);
            var promoted := Completed(Step(c, cleared, e));
            && Latest(promoted) == s.pending
            && Latest(promoted) != Delivered(c, cleared, e)
            && Delivered(c, cleared, e).value.buffer in promoted.freed
  {
    hide Coherent;
    IssuedOnce(s.issued, s.pending.value.buffer);
    assert (multiset(s.freed) + Held(s.current) + Held(s.pending))[s.pending.value.buffer] >= 1;
  }

  /** Freshness needs the completion to be one step. The C code clears `active` before it takes the
      lock: an image delivered in between replaces the current one, and stays the latest exactly when
      none was pending; otherwise the older pending image is promoted over it and its buffer freed. */
  lemma ClearingActiveFirstKeepsTheNewestIff(c: Config, s: State, e: Event)
    requires Usable(c) && Inv(c, s) && e.NewImage? && e.compressed.Some?
    ensures var cleared := s.(tx := IDLE);
            var promoted := Completed(Step(c, cleared, e));
            && (Latest(promoted) == Delivered(c, cleared, e) <==> s.pending.None?)
            && (s.pending.Some? ==>
                Latest(promoted) == s.pending && Delivered(c, cleared, e).value.buffer in promoted.freed)
  {
    if s.pending.Some? {
      PromotedOverTheNewest(c, s, e);
    }
    hide Coherent, Owned, Issued;
  }
}
