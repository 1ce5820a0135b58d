/** The star-camera downlink server of Oph/src/starcam_downlink.c as a state machine over its atomic
    steps, and the C functions that take those steps. */
module Downlink {
  import opened Common
  import opened Wire

  type Addr = nat

  // ---------------------------------------------------------------- state

  datatype Config = Config(chunkSize: int, maxBandwidthKbps: int, compressionQuality: int)

  /** A positive chunk size, and a bandwidth whose product with 1024 fits an int. */
  predicate Usable(c: Config) {
    0 < c.chunkSize < 0x8000_0000 && 0 <= c.maxBandwidthKbps < 0x20_0000
  }

  /** A valid image slot; `buffer` names the allocation its compressed data lives in. */
  datatype Image = Image(timestamp: int, blobCount: int, width: int, height: int, quality: int,
                         data: Bytes, buffer: nat)

  datatype Transmission = Transmission(active: bool, imageTimestamp: int, totalChunks: int, chunksSent: int,
      client: Addr)

  const IDLE := Transmission(false, 0, 0, 0, 0)

  datatype Bandwidth = Bandwidth(lastUpdate: int, bytesSent: int, currentBps: int)

  /** A datagram handed to the network, and the clock reading it was accounted to. */
  datatype Packet = Packet(to: Addr, bytes: Bytes, at: int)

  datatype State = State(current: Option<Image>, pending: Option<Image>, tx: Transmission, bw: Bandwidth,
                         issued: nat, freed: seq<nat>, wire: seq<Packet>)

  const START := State(None, None, IDLE, Bandwidth(0, 0, 0), 0, [], [])

  /** What the environment does during one `send_message`: whether `sendto` succeeds, and the clock. */
  datatype Net = Net(ok: bool, now: int)

  function U32(x: int): (r: int)
    ensures 0 <= r < 0x1_0000_0000
  {
    x % 0x1_0000_0000
  }

  /** `compressed_size`. */
  function Size(i: Image): (r: int)
    ensures 0 <= r <= |i.data| && r < 0x1_0000_0000
  {
    U32(|i.data|)
  }

  // ---------------------------------------------------------------- bandwidth

  function MaxBps(c: Config): int {
    U32(c.maxBandwidthKbps * 1024 / 8)
  }

  predicate CanSend(c: Config, s: State, n: int) {
    U32(s.bw.bytesSent + U32(n)) <= MaxBps(c)
  }

  function Accounted(b: Bandwidth, n: int, now: int): Bandwidth {
    if now != b.lastUpdate then Bandwidth(now, n, b.bytesSent) else b.(bytesSent := U32(b.bytesSent + n))
  }

  /** `send_message`: the datagram goes out, or nothing changes. */
  function Sent(c: Config, s: State, to: Addr, m: Bytes, net: Net): State {
    if CanSend(c, s, |m|) && net.ok
    then s.(bw := Accounted(s.bw, |m|, net.now), wire := s.wire + [Packet(to, m, net.now)])
    else s
  }

  /** Its result: the size sent, 0 when the limit delays it, negative when `sendto` fails. */
  function SendResult(c: Config, s: State, m: Bytes, net: Net): int {
    if !CanSend(c, s, |m|) then 0 else if net.ok then |m| else -1
  }

  // ---------------------------------------------------------------- images

  /** `free_image_data` on a slot. */
  function Freed(freed: seq<nat>, slot: Option<Image>): seq<nat> {
    match slot
    case None => freed
    case Some(i) => freed + [i.buffer]
  }

  /** `replace_current_image`: into the pending slot while a transmission is active. */
  function Replaced(c: Config, s: State, timestamp: int, blobCount: int, width: int, height: int,
                    compressed: Option<Bytes>): State
  {
    match compressed
    case None => s
    case Some(data) =>
      var i := Image(timestamp, blobCount, width, height, c.compressionQuality, data, s.issued);
      if s.tx.active then s.(pending := Some(i), freed := Freed(s.freed, s.pending), issued := s.issued + 1)
      else s.(current := Some(i), freed := Freed(s.freed, s.current), issued := s.issued + 1)
  }

  /** `on_transmission_complete`: the pending image takes over. */
  function Completed(s: State): State {
    var t := s.(tx := s.tx.(active := false));
    if s.pending.Some? then t.(current := s.pending, pending := None, freed := Freed(s.freed, s.current)) else t
  }

  // ---------------------------------------------------------------- requests

  function ChunkCount(c: Config, size: int): int
    requires Usable(c)
  {
    U32(size + c.chunkSize - 1) / c.chunkSize
  }

  function InfoOf(c: Config, i: Image): ImageInfo
    requires Usable(c)
  {
    ImageInfo(i.timestamp, Size(i), ChunkCount(c, Size(i)), i.quality, i.blobCount, i.width, i.height)
  }

  function SequenceOf(m: Bytes): int
    requires |m| >= HEADER_SIZE
  {
    FromLE(m[5..9])
  }

  function StatusOf(s: State, sequence: int): Bytes {
    StatusResponse(if s.current.Some? then 1 else 0, if s.current.Some? then s.current.value.timestamp else 0,
                   U32(s.bw.currentBps * 8) / 1024, if s.tx.active then 1 else 0, sequence)
  }

  function Started(c: Config, s: State, i: Image, from: Addr): State
    requires Usable(c)
  {
    s.(tx := Transmission(true, i.timestamp, ChunkCount(c, Size(i)), 0, from))
  }

  function LatestImageRequested(c: Config, s: State, from: Addr, sequence: int, net: Net): State
    requires Usable(c)
  {
    match s.current
    case None => Sent(c, s, from, ErrorMessage(sequence), net)
    case Some(i) => Sent(c, Started(c, s, i, from), from, ImageHeader(InfoOf(c, i), sequence), net)
  }

  /** `handle_client_request`. */
  function Requested(c: Config, s: State, from: Addr, m: Bytes, net: Net): State
    requires Usable(c)
  {
    if |m| < HEADER_SIZE then s
    else if m[0] == MSG_GET_LATEST_IMAGE then
      LatestImageRequested(c, s, from, SequenceOf(m), net)
    else if m[0] == MSG_GET_STATUS then Sent(c, s, from, StatusOf(s, SequenceOf(m)), net)
    else if m[0] == MSG_GET_IMAGE_BY_TIMESTAMP && (|m| < 17 || s.current.None?) then
      Sent(c, s, from, ErrorMessage(SequenceOf(m)), net)
    else s
  }

  // ---------------------------------------------------------------- transmission

  /** The current image is still the one the transmission started with. */
  predicate Available(s: State) {
    s.current.Some? && s.current.value.timestamp == s.tx.imageTimestamp
  }

  /** The bytes of chunk `k`. */
  function ChunkData(c: Config, i: Image, k: int): Bytes
    requires Usable(c) && k >= 0
  {
    var lo := Min(k * c.chunkSize, Size(i));
    i.data[lo..Min(lo + c.chunkSize, Size(i))]
  }

  function ChunkMessage(c: Config, i: Image, k: int): Bytes
    requires Usable(c) && k >= 0
  {
    ImageChunk(k, ChunkData(c, i, k))
  }

  /** One turn of the chunk loop; `None` is a failed allocation. */
  function ChunkSent(c: Config, s: State, net: Option<Net>): State
    requires Usable(c)
  {
    if !s.tx.active then s
    else if !Available(s) then Completed(s)
    else if s.tx.chunksSent < 0 || s.tx.chunksSent >= s.tx.totalChunks || net.None? then s
    else
      var m := ChunkMessage(c, s.current.value, s.tx.chunksSent);
      var t := Sent(c, s, s.tx.client, m, net.value);
      if SendResult(c, s, m, net.value) > 0 then t.(tx := t.tx.(chunksSent := t.tx.chunksSent + 1)) else t
  }

  /** The end of `continue_transmission`, once every chunk has been sent. */
  function Finished(c: Config, s: State, net: Net): State {
    if !s.tx.active then s
    else if !Available(s) then Completed(s)
    else if s.tx.chunksSent < s.tx.totalChunks then s
    else
      var t := Sent(c, s, s.tx.client, ImageComplete(s.tx.imageTimestamp, s.tx.chunksSent), net);
      Completed(t.(tx := IDLE))
  }

  // ---------------------------------------------------------------- steps

  datatype Event =
    | NewImage(timestamp: int, blobCount: int, width: int, height: int, compressed: Option<Bytes>)
    | Request(from: Addr, bytes: Bytes, net: Net)
    | Chunk(chunkNet: Option<Net>)
    | Finish(net: Net)

  function Step(c: Config, s: State, e: Event): State
    requires Usable(c)
  {
    match e
    case NewImage(timestamp, blobCount, width, height, compressed) =>
      Replaced(c, s, timestamp, blobCount, width, height, compressed)
    case Request(from, bytes, net) => Requested(c, s, from, bytes, net)
    case Chunk(net) => ChunkSent(c, s, net)
    case Finish(net) => Finished(c, s, net)
  }

  function Run(c: Config, s: State, events: seq<Event>): State
    requires Usable(c)
  {
    if events == [] then s else Step(c, Run(c, s, events[..|events| - 1]), events[|events| - 1])
  }

  lemma {:induction false} RunInTwo(c: Config, s: State, first: seq<Event>, second: seq<Event>)
    requires Usable(c)
    ensures Run(c, s, first + second) == Run(c, Run(c, s, first), second)
  {
    hide Step;
    if second == [] {
      assert first + second == first;
    } else {
      var n := |second| - 1;
      RunInTwo(c, s, first, second[..n]);
      assert (first + second)[..|first + second| - 1] == first + second[..n];
    }
  }

  /** `n` turns of the chunk loop. */
  function ChunkEvents(env: nat -> Option<Net>, n: nat): seq<Event> {
    if n == 0 then [] else ChunkEvents(env, n - 1) + [Chunk(env(n - 1))]
  }

  lemma RunOneMoreChunk(c: Config, s: State, env: nat -> Option<Net>, n: nat)
    requires Usable(c)
    ensures Run(c, s, ChunkEvents(env, n + 1)) == ChunkSent(c, Run(c, s, ChunkEvents(env, n)), env(n))
  {
    var e := ChunkEvents(env, n + 1);
    assert e[..|e| - 1] == ChunkEvents(env, n);
  }

  /** While the image of a transmission is there, the chunk counts are those of that image. */
  predicate Coherent(c: Config, s: State)
    requires Usable(c)
  {
    s.tx.active && Available(s) ==>
      s.tx.totalChunks == ChunkCount(c, Size(s.current.value)) && 0 <= s.tx.chunksSent <= s.tx.totalChunks
  }

  // ---------------------------------------------------------------- the C functions

  /** The statics of the C file. The allocation and packet logs are for the specification. */
  class Server {
    const config: Config
    var current: Option<Image>
    var pending: Option<Image>
    var active: bool
    var imageTimestamp: int
    var totalChunks: int
    var chunksSent: int
    var client: Addr
    var lastUpdate: int
    var bytesSent: int
    var currentBps: int
    var issued: nat
    ghost var freed: seq<nat>
    ghost var wire: seq<Packet>

    ghost function Abstract(): State
      reads this
    {
      State(current, pending, Transmission(active, imageTimestamp, totalChunks, chunksSent, client),
            Bandwidth(lastUpdate, bytesSent, currentBps), issued, freed, wire)
    }

    constructor (config: Config)
      ensures Abstract() == START && this.config == config
    {
      this.config, current, pending := config, None, None;
      active, imageTimestamp, totalChunks, chunksSent, client := false, 0, 0, 0, 0;
      lastUpdate, bytesSent, currentBps, issued, freed, wire := 0, 0, 0, 0, [], [];
    }

    method UpdateBandwidthUsage(n: int, now: int)
      modifies this`lastUpdate, this`bytesSent, this`currentBps
      ensures Bandwidth(lastUpdate, bytesSent, currentBps) == Accounted(old(Abstract()).bw, n, now)
    {
      if now != lastUpdate {
        currentBps := bytesSent;
        bytesSent := n;
        lastUpdate := now;
      } else {
        bytesSent := U32(bytesSent + n);
      }
    }

    method CanSendData(n: int) returns (ok: bool)
      ensures ok == CanSend(config, Abstract(), n)
    {
      var maxBps := U32(config.maxBandwidthKbps * 1024 / 8);
      ok := U32(bytesSent + U32(n)) <= maxBps;
    }

    method SendMessage(to: Addr, m: Bytes, net: Net) returns (sent: int)
      modifies this`lastUpdate, this`bytesSent, this`currentBps, this`wire
      ensures Abstract() == Sent(config, old(Abstract()), to, m, net)
      ensures sent == SendResult(config, old(Abstract()), m, net)
    {
      var ok := CanSendData(|m|);
      if !ok {
        return 0;
      }
      if !net.ok {
        return -1;
      }
      wire := wire + [Packet(to, m, net.now)];
      UpdateBandwidthUsage(|m|, net.now);
      return |m|;
    }

    method ReplaceCurrentImage(timestamp: int, blobCount: int, width: int, height: int, compressed: Option<Bytes>)
      returns (ret: int)
      modifies this`current, this`pending, this`issued, this`freed
      ensures Abstract() == Replaced(config, old(Abstract()), timestamp, blobCount, width, height, compressed)
      ensures ret == if compressed.Some? then 0 else -1
    {
      match compressed
      case None =>
        return -1;
      case Some(data) =>
        var buffer := issued;
        issued := issued + 1;
        if active {
          FreeImageData(pending);
          pending := Some(Image(timestamp, blobCount, width, height, config.compressionQuality, data, buffer));
        } else {
          FreeImageData(current);
          current := Some(Image(timestamp, blobCount, width, height, config.compressionQuality, data, buffer));
        }
        return 0;
    }

    ghost method FreeImageData(slot: Option<Image>)
      modifies this`freed
      ensures freed == Freed(old(freed), slot)
    {
      if slot.Some? {
        freed := freed + [slot.value.buffer];
      }
    }

    method OnTransmissionComplete()
      modifies this`active, this`current, this`pending, this`freed
      ensures Abstract() == Completed(old(Abstract()))
    {
      active := false;
      if pending.Some? {
        FreeImageData(current);
        current := pending;
        pending := None;
      }
    }

    method HandleGetLatestImage(from: Addr, sequence: int, net: Net)
      requires Usable(config)
      modifies this
      ensures Abstract() == LatestImageRequested(config, old(Abstract()), from, sequence, net)
    {
      hide Sent, ImageHeader, ErrorMessage, U32;
      match current
      case None =>
        var _ := SendMessage(from, ErrorMessage(sequence), net);
      case Some(i) =>
        active, imageTimestamp := true, i.timestamp;
        totalChunks := U32(Size(i) + config.chunkSize - 1) / config.chunkSize;
        chunksSent, client := 0, from;
        var info := ImageInfo(i.timestamp, Size(i), totalChunks, i.quality, i.blobCount, i.width, i.height);
        var _ := SendMessage(from, ImageHeader(info, sequence), net);
    }

    method HandleGetStatus(from: Addr, sequence: int, net: Net)
      modifies this
      ensures Abstract() == Sent(config, old(Abstract()), from, StatusOf(old(Abstract()), sequence), net)
    {
      hide Sent, StatusResponse, U32;
      var available, latest := 0, 0;
      if current.Some? {
        available, latest := 1, current.value.timestamp;
      }
      var status := StatusResponse(available, latest, U32(currentBps * 8) / 1024, if active then 1 else 0, sequence);
      var _ := SendMessage(from, status, net);
    }

    method HandleClientRequest(from: Addr, m: Bytes, net: Net)
      requires Usable(config)
      modifies this
      ensures Abstract() == Requested(config, old(Abstract()), from, m, net)
    {
      hide Sent, LatestImageRequested, StatusOf, ErrorMessage, SequenceOf;
      if |m| < HEADER_SIZE {
        return;
      }
      var sequence := SequenceOf(m);
      if m[0] == MSG_GET_LATEST_IMAGE {
        HandleGetLatestImage(from, sequence, net);
      } else if m[0] == MSG_GET_STATUS {
        HandleGetStatus(from, sequence, net);
      } else if m[0] == MSG_GET_IMAGE_BY_TIMESTAMP {
        if |m| < 17 || current.None? {
          var _ := SendMessage(from, ErrorMessage(sequence), net);
        }
      }
    }

    /** The chunk the loop builds, in 32-bit arithmetic. */
    method NextChunk(data: Bytes, compressedSize: int) returns (chunk: Bytes)
      requires Usable(config) && current.Some? && data == current.value.data && compressedSize == Size(current.value)
      requires 0 <= chunksSent < totalChunks == ChunkCount(config, compressedSize)
      ensures chunk == ChunkMessage(config, current.value, chunksSent)
    {
      hide ImageChunk, ChunkCount, Size, U32;
      ChunkInRange(config, compressedSize, chunksSent);
      var chunkOffset := U32(chunksSent * config.chunkSize);
      var chunkSize := config.chunkSize;
      if U32(chunkOffset + chunkSize) > compressedSize {
        chunkSize := U32(compressedSize - chunkOffset);
      }
      chunk := ImageChunk(chunksSent, data[chunkOffset..chunkOffset + chunkSize]);
    }

    /** The chunk loop, with the environment of its k-th turn given by `env(k)`. */
    method SendChunks(env: nat -> Option<Net>) returns (steps: nat)
      requires Usable(config) && Coherent(config, Abstract()) && active && Available(Abstract())
      modifies this
      ensures active && Available(Abstract())
      ensures Abstract() == Run(config, old(Abstract()), ChunkEvents(env, steps))
    {
      hide Run, Sent, ChunkMessage, ChunkCount, Size;
      steps := 0;
      RunNothing(config, Abstract());
      var data, compressedSize, blocked := current.value.data, Size(current.value), false;
      while chunksSent < totalChunks && !blocked
        invariant Coherent(config, Abstract()) && active && Available(Abstract()) && current == old(current)
        invariant Abstract() == Run(config, old(Abstract()), ChunkEvents(env, steps))
        decreases totalChunks - chunksSent, !blocked
      {
        RunOneMoreChunk(config, old(Abstract()), env, steps);
        var net := env(steps);
        steps := steps + 1;
        match net
        case None =>
          blocked := true;
        case Some(n) =>
          var chunk := NextChunk(data, compressedSize);
          SendKeepsTransmission(config, Abstract(), client, chunk, n);
          var sent := SendMessage(client, chunk, n);
          if sent <= 0 {
            blocked := true;
          } else {
            chunksSent := chunksSent + 1;
          }
      }
    }

    /** The end of `continue_transmission`. */
    method FinishTransmission(last: Net)
      requires active && Available(Abstract())
      modifies this
      ensures Abstract() == Finished(config, old(Abstract()), last)
    {
      hide ImageComplete, Sent, Completed;
      SendKeepsTransmission(config, Abstract(), client, ImageComplete(imageTimestamp, chunksSent), last);
      if chunksSent >= totalChunks {
        var _ := SendMessage(client, ImageComplete(imageTimestamp, chunksSent), last);
        active, imageTimestamp, totalChunks, chunksSent, client := false, 0, 0, 0, 0;
        OnTransmissionComplete();
      }
    }

    /** `continue_transmission`: a number of chunk steps and then the finishing step. */
    method ContinueTransmission(env: nat -> Option<Net>, last: Net) returns (steps: nat)
      requires Usable(config) && Coherent(config, Abstract())
      modifies this
      ensures Abstract() == Finished(config, Run(config, old(Abstract()), ChunkEvents(env, steps)), last)
    {
      hide Run;
      steps := 0;
      RunNothing(config, Abstract());
      if !active {
        return;
      }
      if current.None? || current.value.timestamp != imageTimestamp {
        active := false;
        OnTransmissionComplete();
        return;
      }
      steps := SendChunks(env);
      FinishTransmission(last);
    }
  }

  lemma RunNothing(c: Config, s: State)
    requires Usable(c)
    ensures Run(c, s, []) == s
    ensures forall env: nat -> Option<Net> :: ChunkEvents(env, 0) == []
  {}

  /** Sending touches only the bandwidth account and the wire. */
  lemma SendKeepsTransmission(c: Config, s: State, to: Addr, m: Bytes, net: Net)
    ensures Sent(c, s, to, m, net) == s.(bw := Sent(c, s, to, m, net).bw, wire := Sent(c, s, to, m, net).wire)
  {}

  lemma ChunkInRange(c: Config, size: int, k: int)
    requires Usable(c) && 0 <= size < 0x1_0000_0000 && 0 <= k < ChunkCount(c, size)
    ensures 0 <= k * c.chunkSize < size
    ensures k * c.chunkSize + c.chunkSize < 0x1_0000_0000
    ensures U32(k * c.chunkSize) == k * c.chunkSize
    ensures U32(k * c.chunkSize + c.chunkSize) == k * c.chunkSize + c.chunkSize
    ensures U32(size - k * c.chunkSize) == size - k * c.chunkSize
  {
    hide U32;
    ChunkBounds(c, size, k);
    SmallIsKept(k * c.chunkSize);
    SmallIsKept(k * c.chunkSize + c.chunkSize);
    SmallIsKept(size - k * c.chunkSize);
  }

  lemma SmallIsKept(x: int)
    requires 0 <= x < 0x1_0000_0000
    ensures U32(x) == x
  {}

  lemma ChunkBounds(c: Config, size: int, k: int)
    requires Usable(c) && 0 <= size < 0x1_0000_0000 && 0 <= k < ChunkCount(c, size)
    ensures 0 <= k * c.chunkSize < size
    ensures k * c.chunkSize + c.chunkSize < 0x1_0000_0000
  {
    var u := U32(size + c.chunkSize - 1);
    assert u <= size + c.chunkSize - 1;
    var t := u / c.chunkSize;
    assert c.chunkSize * t <= u by { assert u == c.chunkSize * t + u % c.chunkSize; }
    MulAtLeast(c.chunkSize, k + 1, t);
    assert c.chunkSize * (k + 1) == k * c.chunkSize + c.chunkSize;
    MulAtLeast(c.chunkSize, 0, k);
  }
}
