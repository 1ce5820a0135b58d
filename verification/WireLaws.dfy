/** Where each field of each datagram lies and what it holds, in bytes and numbers. */
module WireLaws {
  import opened Common
  import opened Wire
  import opened Downlink
  import opened Client
  import opened ClientLaws

  /** Kind, size of what follows the header, and sequence number. */
  predicate Framed(m: Bytes, kind: int, sequence: int) {
    && |m| >= 9 && m[0] == kind && FromLE(m[1..5]) == |m| - 9 && FromLE(m[5..9]) == sequence % 0x1_0000_0000
  }

  lemma HeaderFields(kind: byte, payload: int, sequence: int, rest: Bytes)
    requires 0 <= payload < 0x1_0000_0000
    ensures var m := MessageHeader(kind, payload, sequence) + rest;
            m[0] == kind && FromLE(m[1..5]) == payload && FromLE(m[5..9]) == sequence % 0x1_0000_0000
  {
    hide LE, FromLE;
    var m := MessageHeader(kind, payload, sequence) + rest;
    Powers();
    LEFits(payload, 4);
    LERoundTrip(sequence, 4);
    assert m[1..5] == LE(payload, 4) && m[5..9] == LE(sequence, 4);
  }

  lemma ImageHeaderIs(i: ImageInfo, sequence: int)
    ensures var m := ImageHeader(i, sequence); |m| == 38 && Framed(m, 5, sequence)
  {
    hide LE, FromLE, MessageHeader;
    var rest := LE(i.timestamp, 8) + LE(i.totalSize, 4) + LE(i.totalChunks, 4) + LE(i.quality, 1) + LE(i.blobCount, 4)
                + LE(i.width, 4) + LE(i.height, 4);
    HeaderFields(MSG_IMAGE_HEADER, 29, sequence, rest);
    assert ImageHeader(i, sequence) == MessageHeader(MSG_IMAGE_HEADER, 29, sequence) + rest;
  }

  lemma ImageChunkIs(id: int, data: Bytes)
    requires |data| < 0x8000_0000
    ensures var m := ImageChunk(id, data);
            && |m| == 17 + |data| && Framed(m, 6, id) && m[17..] == data
            && FromLE(m[9..13]) == id % 0x1_0000_0000 && FromLE(m[13..17]) == |data|
  {
    hide LE, FromLE, MessageHeader;
    var rest := LE(id, 4) + LE(|data|, 4) + data;
    HeaderFields(MSG_IMAGE_CHUNK, 8 + |data|, id, rest);
    var m := ImageChunk(id, data);
    assert m == MessageHeader(MSG_IMAGE_CHUNK, 8 + |data|, id) + rest;
    Powers();
    LERoundTrip(id, 4);
    LEFits(|data|, 4);
    assert m[9..13] == LE(id, 4) && m[13..17] == LE(|data|, 4);
  }

  lemma ImageCompleteIs(timestamp: int, total: int)
    ensures var m := ImageComplete(timestamp, total);
            && |m| == 21 && Framed(m, 7, 0)
            && FromLE(m[9..17]) == timestamp % 0x1_0000_0000_0000_0000 && FromLE(m[17..21]) == total % 0x1_0000_0000
  {
    hide LE, FromLE, MessageHeader;
    var rest := LE(timestamp, 8) + LE(total, 4);
    HeaderFields(MSG_IMAGE_COMPLETE, 12, 0, rest);
    var m := ImageComplete(timestamp, total);
    assert m == MessageHeader(MSG_IMAGE_COMPLETE, 12, 0) + rest;
    Powers();
    LERoundTrip(timestamp, 8);
    LERoundTrip(total, 4);
    assert m[9..17] == LE(timestamp, 8) && m[17..21] == LE(total, 4);
  }

  lemma ErrorMessageIs(sequence: int)
    ensures |ErrorMessage(sequence)| == 9 && Framed(ErrorMessage(sequence), 8, sequence)
  {
    hide LE, FromLE, MessageHeader;
    HeaderFields(MSG_ERROR, 0, sequence, []);
    assert ErrorMessage(sequence) == MessageHeader(MSG_ERROR, 0, sequence) + [];
  }

  lemma StatusResponseIs(available: int, timestamp: int, kbps: int, active: int, sequence: int)
    ensures var m := StatusResponse(available, timestamp, kbps, active, sequence);
            && |m| == 29 && Framed(m, 9, sequence)
            && FromLE(m[9..13]) == available % 0x1_0000_0000
            && FromLE(m[13..21]) == timestamp % 0x1_0000_0000_0000_0000
            && FromLE(m[21..25]) == kbps % 0x1_0000_0000 && FromLE(m[25..29]) == active % 0x1_0000_0000
  {
    hide LE, FromLE, MessageHeader;
    var rest := LE(available, 4) + LE(timestamp, 8) + LE(kbps, 4) + LE(active, 4);
    HeaderFields(MSG_STATUS_RESPONSE, 20, sequence, rest);
    var m := StatusResponse(available, timestamp, kbps, active, sequence);
    assert m == MessageHeader(MSG_STATUS_RESPONSE, 20, sequence) + rest;
    Powers();
    LERoundTrip(available, 4);
    LERoundTrip(timestamp, 8);
    LERoundTrip(kbps, 4);
    LERoundTrip(active, 4);
    assert m[9..13] == LE(available, 4) && m[13..21] == LE(timestamp, 8) && m[21..25] == LE(kbps, 4)
        && m[25..29] == LE(active, 4);
  }

  // ---------------------------------------------------------------- the status from end to end

  /** What the client makes of the server's status: how many images there are, 1 or 0; the bandwidth of the
      second before in kbps; and whether the image is from after the epoch. That a transmission is under way
      is sent but not read. */
  lemma StatusRoundTrip(s: State, sequence: int)
    requires 0 <= s.bw.currentBps < 0x1000_0000
    requires s.current.Some? ==> 0 <= s.current.value.timestamp < 0x8000_0000_0000_0000
    ensures var r := StatusFrom(Some(StatusOf(s, sequence)));
            && r.valid && r.isActive
            && r.queueSize == (if s.current.Some? then 1 else 0)
            && r.bandwidthKbps == s.bw.currentBps * 8 / 1024
            && (r.isStreaming <==> s.current.Some? && s.current.value.timestamp > 0)
    ensures FromLE(StatusOf(s, sequence)[25..29]) == if s.tx.active then 1 else 0
    ensures Framed(StatusOf(s, sequence), 9, sequence)
  {
    hide FromLE, StatusResponse, StatusFrom;
    var m := StatusOf(s, sequence);
    var timestamp := if s.current.Some? then s.current.value.timestamp else 0;
    assert U32(s.bw.currentBps * 8) == s.bw.currentBps * 8;
    StatusResponseIs(if s.current.Some? then 1 else 0, timestamp, s.bw.currentBps * 8 / 1024,
                     if s.tx.active then 1 else 0,
                     sequence);
    StatusIs(m);
  }

  // ---------------------------------------------------------------- requests and replies

  /** The step sends one datagram of the given kind to the requester, with the sequence number of the request. */
  ghost predicate Replies(c: Config, s: State, t: State, e: Event, kind: int)
    requires e.Request? && |e.bytes| >= 9
  {
    exists m: Bytes :: Framed(m, kind, FromLE(e.bytes[5..9])) && t == Sent(c, s, e.from, m, e.net)
  }

  /** What each request is answered with. The latest image, kind 1: its header, and a transmission of as many
      chunks as its size needs, or an error. The status, kind 4: a status. An image by its timestamp, kind 3: an
      error without the timestamp or an image, and otherwise nothing. Anything else: nothing. */
  lemma RequestIsAnswered(c: Config, s: State, e: Event)
    requires Usable(c) && e.Request?
    ensures var t := Step(c, s, e);
            if |e.bytes| < 9 then t == s
            else if e.bytes[0] == 1 then
              match s.current
              case None => Replies(c, s, t, e, 8)
              case Some(i) =>
                && Replies(c, s.(tx := t.tx), t, e, 5)
                && t.tx.active && t.tx.client == e.from && t.tx.imageTimestamp == i.timestamp && t.tx.chunksSent == 0
                && t.tx.totalChunks == ChunkCount(c, Size(i))
            else if e.bytes[0] == 4 then Replies(c, s, t, e, 9)
            else if e.bytes[0] == 3 && (|e.bytes| < 17 || s.current.None?) then Replies(c, s, t, e, 8)
            else t == s
  {
    hide Sent, ErrorMessage, StatusOf, ImageHeader, FromLE, InfoOf, ChunkCount, Size, Framed;
    if |e.bytes| >= 9 {
      var q := FromLE(e.bytes[5..9]);
      ErrorMessageIs(q);
      StatusIsFramed(s, q);
      if s.current.Some? {
        var i := s.current.value;
        ImageHeaderIs(InfoOf(c, i), q);
        SendKeepsTransmission(c, Started(c, s, i, e.from), e.from, ImageHeader(InfoOf(c, i), q), e.net);
      }
    }
  }

  lemma StatusIsFramed(s: State, sequence: int)
    ensures Framed(StatusOf(s, sequence), 9, sequence)
  {
    hide FromLE, StatusResponse, U32, Framed;
    StatusResponseIs(if s.current.Some? then 1 else 0, if s.current.Some? then s.current.value.timestamp else 0,
                     U32(s.bw.currentBps * 8) / 1024, if s.tx.active then 1 else 0, sequence);
  }

  /** The number of chunks is the size over the chunk size, rounded up. */
  lemma ChunkCountIs(c: Config, size: int)
    requires Usable(c) && 0 <= size && size + c.chunkSize - 1 < 0x1_0000_0000
    ensures var n := ChunkCount(c, size); n * c.chunkSize >= size && (n - 1) * c.chunkSize < size
  {
    var t := size + c.chunkSize - 1;
    SmallIsKept(t);
    var n := ChunkCount(c, size);
    assert t == c.chunkSize * n + t % c.chunkSize;
    assert n * c.chunkSize == c.chunkSize * n && (n - 1) * c.chunkSize == c.chunkSize * n - c.chunkSize;
  }
}
