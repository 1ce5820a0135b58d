/** The bandwidth limit of the downlink server over whole runs. */
module DownlinkRate {
  import opened Common
  import opened Wire
  import opened Downlink

  // ---------------------------------------------------------------- what one step sends

  predicate MessageSized(n: int) {
    HEADER_SIZE <= n < 0x9000_0000
  }

  /** The step from `s` to `t` sends nothing, or one datagram that the limit admitted. */
  ghost predicate SendsAtMostOne(c: Config, s: State, t: State) {
    || (t.wire == s.wire && t.bw == s.bw)
    || (&& |t.wire| == |s.wire| + 1
        && var p := t.wire[|s.wire|];
           && t.wire == s.wire + [p] && MessageSized(|p.bytes|)
           && CanSend(c, s, |p.bytes|)
           && t.bw == Accounted(s.bw, |p.bytes|, p.at))
  }

  lemma SentIsOne(c: Config, s: State, to: Addr, m: Bytes, net: Net)
    requires MessageSized(|m|)
    ensures SendsAtMostOne(c, s, Sent(c, s, to, m, net))
  {
    hide CanSend, Accounted;
    var t := Sent(c, s, to, m, net);
    if t != s {
      assert t.wire[|s.wire|] == Packet(to, m, net.now);
    }
  }

  lemma StatusSize(s: State, sequence: int)
    ensures |StatusOf(s, sequence)| == 29
  {
    hide LE;
  }

  lemma RequestSendsOne(c: Config, s: State, e: Event)
    requires Usable(c) && e.Request?
    ensures SendsAtMostOne(c, s, Step(c, s, e))
  {
    hide Sent, ErrorMessage, StatusOf, StatusResponse, ImageHeader, SequenceOf, InfoOf, Size;
    if |e.bytes| >= HEADER_SIZE {
      var q := SequenceOf(e.bytes);
      SentIsOne(c, s, e.from, ErrorMessage(q), e.net);
      StatusSize(s, q);
      SentIsOne(c, s, e.from, StatusOf(s, q), e.net);
      if s.current.Some? {
        var i := s.current.value;
        SentIsOne(c, Started(c, s, i, e.from), e.from, ImageHeader(InfoOf(c, i), q), e.net);
      }
    }
  }

  lemma ChunkSize(c: Config, i: Image, k: nat)
    requires Usable(c)
    ensures MessageSized(|ChunkMessage(c, i, k)|)
  {
    hide ImageChunk, Size;
    MulAtLeast(c.chunkSize, 0, k);
  }

  lemma StepSendsOne(c: Config, s: State, e: Event)
    requires Usable(c)
    ensures SendsAtMostOne(c, s, Step(c, s, e))
  {
    hide Sent, ChunkMessage, ImageComplete, SendResult;
    match e
    case NewImage(_, _, _, _, _) =>
    case Request(_, _, _) => RequestSendsOne(c, s, e);
    case Chunk(net) =>
      if s.tx.active && Available(s) && 0 <= s.tx.chunksSent && net.Some? {
        ChunkSize(c, s.current.value, s.tx.chunksSent);
        SentIsOne(c, s, s.tx.client, ChunkMessage(c, s.current.value, s.tx.chunksSent), net.value);
      }
    case Finish(net) => SentIsOne(c, s, s.tx.client, ImageComplete(s.tx.imageTimestamp, s.tx.chunksSent), net);
  }

  // ---------------------------------------------------------------- the account

  /** The bytes of the datagrams accounted to second `t`. */
  function SumAt(wire: seq<Packet>, t: int): (r: int)
    ensures r >= 0
  {
    if wire == [] then 0
    else
      var p := wire[|wire| - 1];
      SumAt(wire[..|wire| - 1], t) + if p.at == t then |p.bytes| else 0
  }

  lemma SumOfOneMore(wire: seq<Packet>, p: Packet, t: int)
    ensures SumAt(wire + [p], t) == SumAt(wire, t) + if p.at == t then |p.bytes| else 0
  {
    assert (wire + [p])[..|wire|] == wire;
  }

  /** The seconds accounted to, in order, each stretch of equal ones once. */
  function Seconds(wire: seq<Packet>): seq<int> {
    if wire == [] then []
    else
      var before, at := Seconds(wire[..|wire| - 1]), wire[|wire| - 1].at;
      if before != [] && before[|before| - 1] == at then before else before + [at]
  }

  lemma SecondsOneMore(wire: seq<Packet>, p: Packet)
    ensures var before := Seconds(wire);
            Seconds(wire + [p]) == if before != [] && before[|before| - 1] == p.at then before else before + [p.at]
  {
    assert (wire + [p])[..|wire|] == wire;
  }

  lemma LastSecond(wire: seq<Packet>)
    requires wire != []
    ensures Seconds(wire) != [] && Seconds(wire)[|Seconds(wire)| - 1] == wire[|wire| - 1].at
  {}

  lemma {:induction false} NothingInOtherSeconds(wire: seq<Packet>, t: int)
    requires t !in Seconds(wire)
    ensures SumAt(wire, t) == 0
  {
    if wire != [] {
      LastSecond(wire);
      NothingInOtherSeconds(wire[..|wire| - 1], t);
    }
  }

  /** No second is accounted to again after another one. */
  predicate Distinct(seconds: seq<int>) {
    forall i, j :: 0 <= i < j < |seconds| ==> seconds[i] != seconds[j]
  }

  /** The clock did not step back between two datagrams. */
  ghost predicate ClockRuns(wire: seq<Packet>) {
    forall i, j :: 0 <= i < j < |wire| ==> wire[i].at <= wire[j].at
  }

  lemma {:induction false} SecondsOfARunningClock(wire: seq<Packet>)
    requires ClockRuns(wire)
    ensures forall i, j :: 0 <= i < j < |Seconds(wire)| ==> Seconds(wire)[i] < Seconds(wire)[j]
    ensures forall i :: 0 <= i < |Seconds(wire)| ==> Seconds(wire)[i] <= wire[|wire| - 1].at
  {
    if |wire| > 1 {
      SecondsOfARunningClock(wire[..|wire| - 1]);
      LastSecond(wire[..|wire| - 1]);
    }
  }

  /** The account never exceeds the limit, so that no addition to it wraps around. */
  ghost predicate WithinLimit(c: Config, s: State) {
    0 <= s.bw.bytesSent <= MaxBps(c)
  }

  lemma LimitIsSmall(c: Config)
    requires Usable(c)
    ensures MaxBps(c) == c.maxBandwidthKbps * 128 < 0x1000_0000
  {}

  /** On an account within the limit the 32-bit test is the exact one. */
  lemma CanSendIsExact(c: Config, s: State, n: int)
    requires Usable(c) && WithinLimit(c, s) && MessageSized(n)
    ensures CanSend(c, s, n) <==> s.bw.bytesSent + n <= MaxBps(c)
    ensures U32(s.bw.bytesSent + n) == s.bw.bytesSent + n
  {
    LimitIsSmall(c);
    hide MaxBps;
  }

  lemma StepIsWithinLimit(c: Config, s: State, e: Event)
    requires Usable(c) && WithinLimit(c, s)
    ensures WithinLimit(c, Step(c, s, e))
  {
    hide Step, CanSend, U32, MaxBps;
    StepSendsOne(c, s, e);
    var t := Step(c, s, e);
    if |t.wire| > |s.wire| {
      CanSendIsExact(c, s, |t.wire[|s.wire|].bytes|);
    }
  }

  lemma {:induction false} RunIsWithinLimit(c: Config, s: State, events: seq<Event>)
    requires Usable(c) && WithinLimit(c, s)
    ensures WithinLimit(c, Run(c, s, events))
  {
    hide Step, WithinLimit;
    if events != [] {
      RunIsWithinLimit(c, s, events[..|events| - 1]);
      StepIsWithinLimit(c, Run(c, s, events[..|events| - 1]), events[|events| - 1]);
    }
  }

  // ---------------------------------------------------------------- rate safety

  /** The account is what was sent in the second of the last update, and no second has more than the
      limit. */
  ghost predicate Accurate(c: Config, s: State) {
    && WithinLimit(c, s)
    && s.bw.bytesSent == SumAt(s.wire, s.bw.lastUpdate)
    && (s.wire != [] ==> s.wire[|s.wire| - 1].at == s.bw.lastUpdate)
    && s.bw.currentBps == PreviousTotal(s.wire)
    && KeepsTheRate(c, s.wire)
  }

  /** The bytes of the second accounted to before the last, 0 if there is none. */
  function PreviousTotal(wire: seq<Packet>): int {
    var seconds := Seconds(wire);
    if |seconds| < 2 then 0 else SumAt(wire, seconds[|seconds| - 2])
  }

  /** One more datagram in the last second, or the first of a new one. */
  lemma PreviousAfter(wire: seq<Packet>, p: Packet)
    requires Distinct(Seconds(wire + [p]))
    ensures wire != [] ==>
              PreviousTotal(wire + [p])
              == if wire[|wire| - 1].at == p.at then PreviousTotal(wire) else SumAt(wire, wire[|wire| - 1].at)
    ensures wire == [] ==> PreviousTotal(wire) == PreviousTotal(wire + [p]) == 0
  {
    hide Seconds, SumAt;
    SecondsOneMore(wire, p);
    if wire == [] {
      NoSeconds();
    } else {
      LastSecond(wire);
      var seconds := Seconds(wire + [p]);
      if |seconds| >= 2 {
        SumOfOneMore(wire, p, seconds[|seconds| - 2]);
        assert seconds[|seconds| - 2] != seconds[|seconds| - 1];
      }
    }
  }

  /** No second is given more than the limit. */
  ghost predicate KeepsTheRate(c: Config, wire: seq<Packet>) {
    forall t :: SumAt(wire, t) <= MaxBps(c)
  }

  lemma LastIsNew(seconds: seq<int>, t: int)
    requires Distinct(seconds + [t])
    ensures t !in seconds
  {
    assert forall k :: 0 <= k < |seconds| ==> (seconds + [t])[k] == seconds[k];
    assert (seconds + [t])[|seconds|] == t;
  }

  lemma NewSecondIsEmpty(wire: seq<Packet>, p: Packet)
    requires Distinct(Seconds(wire + [p])) && (wire != [] ==> wire[|wire| - 1].at != p.at)
    ensures SumAt(wire, p.at) == 0
  {
    hide Seconds, Distinct, SumAt;
    SecondsOneMore(wire, p);
    if wire == [] {
      NoSeconds();
    } else {
      LastSecond(wire);
      LastIsNew(Seconds(wire), p.at);
      NothingInOtherSeconds(wire, p.at);
    }
  }

  lemma SendIsAccurate(c: Config, s: State, t: State, p: Packet)
    requires Usable(c) && Accurate(c, s) && t.wire == s.wire + [p] && Distinct(Seconds(t.wire))
    requires MessageSized(|p.bytes|) && CanSend(c, s, |p.bytes|) && t.bw == Accounted(s.bw, |p.bytes|, p.at)
    ensures Accurate(c, t)
  {
    hide CanSend, U32, MaxBps, Distinct, Seconds, SumAt, PreviousTotal;
    PreviousAfter(s.wire, p);
    NoSeconds();
    CanSendIsExact(c, s, |p.bytes|);
    assert t.wire[|s.wire|] == p;
    SumOfOneMore(s.wire, p, p.at);
    if p.at != s.bw.lastUpdate {
      NewSecondIsEmpty(s.wire, p);
    }
    forall x ensures SumAt(t.wire, x) <= MaxBps(c) {
      SumOfOneMore(s.wire, p, x);
    }
  }

  lemma StepIsAccurate(c: Config, s: State, e: Event)
    requires Usable(c) && Accurate(c, s) && Distinct(Seconds(Step(c, s, e).wire))
    ensures Accurate(c, Step(c, s, e))
  {
    hide Step, CanSend, Accounted, Accurate, Distinct, Seconds;
    StepSendsOne(c, s, e);
    var t := Step(c, s, e);
    if |t.wire| > |s.wire| {
      SendIsAccurate(c, s, t, t.wire[|s.wire|]);
    } else {
      OnlyTheAccountMatters(c, s, t);
    }
  }

  lemma OnlyTheAccountMatters(c: Config, s: State, t: State)
    requires Accurate(c, s) && t.wire == s.wire && t.bw == s.bw
    ensures Accurate(c, t)
  {}

  lemma SecondsGrow(c: Config, s: State, e: Event)
    requires Usable(c)
    ensures Distinct(Seconds(Step(c, s, e).wire)) ==> Distinct(Seconds(s.wire))
  {
    hide Step, CanSend, Accounted, Seconds;
    StepSendsOne(c, s, e);
    var w := Step(c, s, e).wire;
    if |w| > |s.wire| {
      SecondsOneMore(s.wire, w[|s.wire|]);
      assert forall k :: 0 <= k < |Seconds(s.wire)| ==> Seconds(w)[k] == Seconds(s.wire)[k];
    }
  }

  lemma {:induction false} RunIsAccurate(c: Config, events: seq<Event>)
    requires Usable(c) && Distinct(Seconds(Run(c, START, events).wire))
    ensures Accurate(c, Run(c, START, events))
  {
    hide Step, Accurate, Distinct, Seconds;
    if events == [] {
      StartIsAccurate(c);
    } else {
      var n := |events| - 1;
      SecondsGrow(c, Run(c, START, events[..n]), events[n]);
      RunIsAccurate(c, events[..n]);
      StepIsAccurate(c, Run(c, START, events[..n]), events[n]);
    }
  }

  lemma StartIsAccurate(c: Config)
    requires Usable(c)
    ensures Accurate(c, START)
  {
    LimitIsSmall(c);
  }

  /** In every run that accounts to no second again after another one, whatever messages are mixed, no
      second is given more than `max_bandwidth_kbps * 1024 / 8` bytes, `bytes_sent` is the total of the last
      and `current_bps` that of the one before. A clock that does not step back is such a run. */
  lemma NoSecondExceedsTheLimit(c: Config, events: seq<Event>)
    requires Usable(c)
    ensures var s := Run(c, START, events);
            Distinct(Seconds(s.wire)) ==>
              && (forall t :: SumAt(s.wire, t) <= c.maxBandwidthKbps * 1024 / 8)
              && s.bw.bytesSent == SumAt(s.wire, s.bw.lastUpdate)
              && s.bw.currentBps == PreviousTotal(s.wire)
    ensures var s := Run(c, START, events); ClockRuns(s.wire) ==> Distinct(Seconds(s.wire))
  {
    hide Run, ClockRuns, Seconds;
    var s := Run(c, START, events);
    LimitIsSmall(c);
    if Distinct(Seconds(s.wire)) {
      RunIsAccurate(c, events);
    }
    if ClockRuns(s.wire) {
      SecondsOfARunningClock(s.wire);
    }
  }

  // ---------------------------------------------------------------- runs of bare errors

  /** A request by timestamp without the timestamp, which is answered by a bare error of 9 bytes. */
  function ErrorAt(now: int): Event {
    Request(0, [MSG_GET_IMAGE_BY_TIMESTAMP, 0, 0, 0, 0, 0, 0, 0, 0], Net(true, now))
  }

  function Errors(now: int, n: nat): seq<Event> {
    if n == 0 then [] else Errors(now, n - 1) + [ErrorAt(now)]
  }

  lemma ErrorStep(c: Config, s: State, now: int)
    requires Usable(c) && WithinLimit(c, s) && s.bw.bytesSent + HEADER_SIZE <= MaxBps(c)
    ensures var t := Step(c, s, ErrorAt(now));
            && |t.wire| == |s.wire| + 1 && t.wire == s.wire + [t.wire[|s.wire|]]
            && t.wire[|s.wire|].at == now && |t.wire[|s.wire|].bytes| == HEADER_SIZE
            && t.bw == Accounted(s.bw, HEADER_SIZE, now)
            && (now == s.bw.lastUpdate ==> U32(s.bw.bytesSent + HEADER_SIZE) == s.bw.bytesSent + HEADER_SIZE)
  {
    CanSendIsExact(c, s, HEADER_SIZE);
    hide CanSend, ErrorMessage, SequenceOf, Accounted, MaxBps;
    var m := ErrorMessage(SequenceOf(ErrorAt(now).bytes));
    assert Step(c, s, ErrorAt(now)) == Sent(c, s, 0, m, Net(true, now));
  }

  /** The last datagram was accounted to the second of the account; nothing sent, nothing accounted. */
  predicate Synced(s: State) {
    if s.wire == [] then s.bw.bytesSent == 0 else s.wire[|s.wire| - 1].at == s.bw.lastUpdate
  }

  /** `n` errors in a second other than the last add to that second alone. */
  ghost predicate ErrorsSent(s: State, t: State, now: int, n: nat) {
    && Synced(t) && t.bw.lastUpdate == now && t.bw.bytesSent == HEADER_SIZE * n
    && Seconds(t.wire) == Seconds(s.wire) + [now] && t.wire != []
    && forall x :: SumAt(t.wire, x) == SumAt(s.wire, x) + if x == now then HEADER_SIZE * n else 0
  }

  predicate NewSecond(s: State, now: int) {
    Synced(s) && (s.wire != [] ==> s.bw.lastUpdate != now)
  }

  lemma FirstError(c: Config, s: State, now: int)
    requires Usable(c) && WithinLimit(c, s) && s.bw.bytesSent + HEADER_SIZE <= MaxBps(c) && NewSecond(s, now)
    ensures ErrorsSent(s, Step(c, s, ErrorAt(now)), now, 1)
  {
    hide Step, Seconds, SumAt, MaxBps, U32;
    ErrorStep(c, s, now);
    var t := Step(c, s, ErrorAt(now));
    SecondsOneMore(s.wire, t.wire[|s.wire|]);
    if s.wire != [] {
      LastSecond(s.wire);
    } else {
      NoSeconds();
    }
    forall x ensures SumAt(t.wire, x) == SumAt(s.wire, x) + if x == now then HEADER_SIZE else 0 {
      SumOfOneMore(s.wire, t.wire[|s.wire|], x);
    }
  }

  lemma NoSeconds()
    ensures Seconds([]) == [] && forall t :: SumAt([], t) == 0
  {}

  lemma OneMoreError(c: Config, s: State, t: State, now: int, n: nat)
    requires Usable(c) && ErrorsSent(s, t, now, n) && HEADER_SIZE * (n + 1) <= MaxBps(c)
    ensures ErrorsSent(s, Step(c, t, ErrorAt(now)), now, n + 1)
  {
    hide Step, Seconds, SumAt, MaxBps, U32;
    ErrorStep(c, t, now);
    var u := Step(c, t, ErrorAt(now));
    SecondsOneMore(t.wire, u.wire[|t.wire|]);
    LastSecond(t.wire);
    forall x ensures SumAt(u.wire, x) == SumAt(s.wire, x) + if x == now then HEADER_SIZE * (n + 1) else 0 {
      SumOfOneMore(t.wire, u.wire[|t.wire|], x);
    }
  }

  lemma {:induction false} ErrorsRun(c: Config, s: State, now: int, n: nat)
    requires Usable(c) && WithinLimit(c, s) && s.bw.bytesSent + HEADER_SIZE <= MaxBps(c) && NewSecond(s, now)
    requires 0 < n && HEADER_SIZE * n <= MaxBps(c)
    ensures ErrorsSent(s, Run(c, s, Errors(now, n)), now, n)
  {
    hide Step, ErrorsSent, NewSecond, WithinLimit, MaxBps, Run, Errors;
    RunOneMoreError(c, s, now, n - 1);
    if n == 1 {
      NoErrors(c, s, now);
      FirstError(c, s, now);
    } else {
      ErrorsRun(c, s, now, n - 1);
      OneMoreError(c, s, Run(c, s, Errors(now, n - 1)), now, n - 1);
    }
  }

  lemma NoErrors(c: Config, s: State, now: int)
    requires Usable(c)
    ensures Run(c, s, Errors(now, 0)) == s
  {}

  lemma RunOneMoreError(c: Config, s: State, now: int, n: nat)
    requires Usable(c)
    ensures Run(c, s, Errors(now, n + 1)) == Step(c, Run(c, s, Errors(now, n)), ErrorAt(now))
  {
    hide Step;
    assert Errors(now, n + 1)[..|Errors(now, n + 1)| - 1] == Errors(now, n);
  }

  // ---------------------------------------------------------------- second after second

  /** `counts[k]` errors in second `seconds[k]`, one second after the other. */
  function Visits(seconds: seq<int>, counts: seq<nat>): seq<Event>
    requires |counts| == |seconds|
  {
    if seconds == [] then []
    else
      var n := |seconds| - 1;
      Visits(seconds[..n], counts[..n]) + Errors(seconds[n], counts[n])
  }

  /** How many errors that is for second `t`. */
  function CountIn(seconds: seq<int>, counts: seq<nat>, t: int): nat
    requires |counts| == |seconds|
  {
    if seconds == [] then 0
    else
      var n := |seconds| - 1;
      CountIn(seconds[..n], counts[..n], t) + if seconds[n] == t then counts[n] else 0
  }

  /** No two neighbours are equal. */
  predicate Changing(seconds: seq<int>) {
    forall k :: 0 < k < |seconds| ==> seconds[k - 1] != seconds[k]
  }

  /** Each count is positive and fits the limit, and all but the last leave room for one error more. */
  predicate Fitting(c: Config, counts: seq<nat>) {
    && (forall k :: 0 <= k < |counts| ==> 0 < counts[k] && HEADER_SIZE * counts[k] <= MaxBps(c))
    && (forall k :: 0 <= k < |counts| - 1 ==> HEADER_SIZE * counts[k] + HEADER_SIZE <= MaxBps(c))
  }

  /** The run has accounted to those seconds, that many errors each. */
  ghost predicate Visited(s: State, seconds: seq<int>, counts: seq<nat>)
    requires |counts| == |seconds|
  {
    && Synced(s) && Seconds(s.wire) == seconds
    && (forall t :: SumAt(s.wire, t) == HEADER_SIZE * CountIn(seconds, counts, t))
    && (if seconds == [] then s.wire == []
        else s.wire != [] && s.bw.lastUpdate == seconds[|seconds| - 1]
             && s.bw.bytesSent == HEADER_SIZE * counts[|counts| - 1])
  }

  lemma {:induction false} VisitsRun(c: Config, seconds: seq<int>, counts: seq<nat>)
    requires Usable(c) && |counts| == |seconds| && Changing(seconds) && Fitting(c, counts) && HEADER_SIZE <= MaxBps(c)
    ensures Visited(Run(c, START, Visits(seconds, counts)), seconds, counts)
  {
    hide Run, MaxBps, Seconds, SumAt;
    if seconds == [] {
      NoVisits(c);
    } else {
      var n := |seconds| - 1;
      VisitsRun(c, seconds[..n], counts[..n]);
      var s := Run(c, START, Visits(seconds[..n], counts[..n]));
      RunInTwo(c, START, Visits(seconds[..n], counts[..n]), Errors(seconds[n], counts[n]));
      ErrorsRun(c, s, seconds[n], counts[n]);
      assert seconds == seconds[..n] + [seconds[n]];
    }
  }

  lemma NoVisits(c: Config)
    requires Usable(c)
    ensures Visited(Run(c, START, Visits([], [])), [], [])
  {
    assert Run(c, START, []) == START;
  }

  lemma {:induction false} CountsOfTwo(seconds: seq<int>, counts: seq<nat>, x: nat, y: nat)
    requires |counts| == |seconds| && x < y < |seconds| && seconds[x] == seconds[y]
    ensures CountIn(seconds, counts, seconds[x]) >= counts[x] + counts[y]
  {
    var n := |seconds| - 1;
    if y < n {
      CountsOfTwo(seconds[..n], counts[..n], x, y);
    } else {
      CountsOfOne(seconds[..n], counts[..n], x);
    }
  }

  lemma {:induction false} CountsOfOne(seconds: seq<int>, counts: seq<nat>, x: nat)
    requires |counts| == |seconds| && x < |seconds|
    ensures CountIn(seconds, counts, seconds[x]) >= counts[x]
  {
    var n := |seconds| - 1;
    if x < n {
      CountsOfOne(seconds[..n], counts[..n], x);
    }
  }

  // ---------------------------------------------------------------- the exact condition

  /** A second that comes back can be filled up twice: a run that gives it more than the limit. */
  lemma ReturningBreaksTheLimit(c: Config, seconds: seq<int>, x: nat, y: nat) returns (events: seq<Event>)
    requires Usable(c) && c.maxBandwidthKbps > 0 && Changing(seconds) && x < y < |seconds| && seconds[x] == seconds[y]
    ensures Seconds(Run(c, START, events).wire) <= seconds
    ensures SumAt(Run(c, START, events).wire, seconds[x]) > MaxBps(c)
  {
    LimitIsSmall(c);
    hide Run, MaxBps, Seconds, SumAt;
    var m := MaxBps(c) / HEADER_SIZE;
    assert m >= 2 && HEADER_SIZE * m <= MaxBps(c) < HEADER_SIZE * m + HEADER_SIZE;
    var counts := seq(y + 1, k => if k == y then m else if k == x then m - 1 else 1);
    events := Visits(seconds[..y + 1], counts);
    VisitsRun(c, seconds[..y + 1], counts);
    CountsOfTwo(seconds[..y + 1], counts, x, y);
  }

  /** For every sequence of seconds without equal neighbours: all runs that account to a prefix of it keep
      the limit exactly when no second occurs in it twice, or the limit is 0 and nothing is ever sent. */
  lemma RateIsKeptIff(c: Config, seconds: seq<int>)
    requires Usable(c) && Changing(seconds)
    ensures (forall events :: Seconds(Run(c, START, events).wire) <= seconds ==>
               KeepsTheRate(c, Run(c, START, events).wire))
            <==> Distinct(seconds) || c.maxBandwidthKbps == 0
  {
    hide Run, Seconds, Changing, KeepsTheRate, MaxBps;
    if Distinct(seconds) || c.maxBandwidthKbps == 0 {
      forall events | Seconds(Run(c, START, events).wire) <= seconds
        ensures KeepsTheRate(c, Run(c, START, events).wire)
      {
        KeptByDistinctSeconds(c, seconds, events);
      }
    } else {
      var x, y :| 0 <= x < y < |seconds| && seconds[x] == seconds[y];
      var events := ReturningBreaksTheLimit(c, seconds, x, y);
      Exceeded(c, Run(c, START, events).wire, seconds[x]);
    }
  }

  lemma Exceeded(c: Config, wire: seq<Packet>, t: int)
    requires SumAt(wire, t) > MaxBps(c)
    ensures !KeepsTheRate(c, wire)
  {
    hide SumAt, MaxBps;
  }

  lemma KeptByDistinctSeconds(c: Config, seconds: seq<int>, events: seq<Event>)
    requires Usable(c) && (Distinct(seconds) || c.maxBandwidthKbps == 0)
    requires Seconds(Run(c, START, events).wire) <= seconds
    ensures KeepsTheRate(c, Run(c, START, events).wire)
  {
    hide Run, Seconds, MaxBps, SumAt;
    if Distinct(seconds) {
      RunIsAccurate(c, events);
    } else {
      LimitIsSmall(c);
      NoRoomNothingSent(c, START, events);
      NoSeconds();
    }
  }

  /** An account that leaves no room for the shortest message is never reset. */
  lemma {:induction false} NoRoomNothingSent(c: Config, s: State, events: seq<Event>)
    requires Usable(c) && WithinLimit(c, s) && s.bw.bytesSent + HEADER_SIZE > MaxBps(c)
    ensures Run(c, s, events).wire == s.wire && Run(c, s, events).bw == s.bw
  {
    hide Step, CanSend, MaxBps, U32;
    if events != [] {
      var n := |events| - 1;
      NoRoomNothingSent(c, s, events[..n]);
      var t := Run(c, s, events[..n]);
      StepSendsOne(c, t, events[n]);
      var w := Step(c, t, events[n]).wire;
      if |w| > |t.wire| {
        CanSendIsExact(c, t, |w[|t.wire|].bytes|);
      }
    }
  }
}
