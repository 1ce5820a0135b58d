/** The ground station's image download, Oph/star_camera_client.py. */
module Client {
  import opened Common
  import opened Wire

  /** `recvfrom(4096)`: the rest of a longer datagram is lost. */
  const RECV_SIZE := 4096

  function Read(m: Bytes): (r: Bytes)
    ensures |r| <= RECV_SIZE && r <= m
  {
    if |m| > RECV_SIZE then m[..RECV_SIZE] else m
  }

  datatype StarCameraImage = StarCameraImage(timestamp: int, width: int, height: int, totalSize: int,
                                             compressionQuality: int, blobCount: int, imageData: Bytes, valid: bool)

  const INVALID := StarCameraImage(0, 0, 0, 0, 0, 0, [], false)

  predicate IsMessage(m: Bytes, kind: byte) {
    |m| >= HEADER_SIZE && m[0] == kind
  }

  /** The data of a chunk whose announced size is the one that arrived. */
  function ChunkOf(m: Bytes): Option<Bytes> {
    if !IsMessage(m, MSG_IMAGE_CHUNK) || |m| < CHUNK_OVERHEAD then None
    else
      var dataSize := FromLE(m[13..17]);
      if CHUNK_OVERHEAD + dataSize > |m| then None else Some(m[CHUNK_OVERHEAD..CHUNK_OVERHEAD + dataSize])
  }

  lemma NoChunkOtherwise()
    ensures forall m: Bytes :: !IsMessage(m, MSG_IMAGE_CHUNK) ==> ChunkOf(m).None?
  {}

  /** The chunk loop so far: chunks counted, their data, and the datagrams taken from the socket. */
  datatype Assembly = Assembly(count: nat, data: Bytes, taken: nat)

  /** The chunk loop over the datagrams that arrive before the time-out. */
  function Assembled(rs: seq<Bytes>, expected: int, a: Assembly): Assembly
    decreases |rs| - a.taken
  {
    if a.count >= expected || a.taken >= |rs| then a
    else
      var m := Read(rs[a.taken]);
      var next := a.(taken := a.taken + 1);
      if IsMessage(m, MSG_IMAGE_COMPLETE) || IsMessage(m, MSG_ERROR) then next
      else
        match ChunkOf(m)
        case None => Assembled(rs, expected, next)
        case Some(d) => Assembled(rs, expected, next.(count := a.count + 1, data := a.data + d))
  }

  /** The first datagram announces an image. */
  predicate Announces(rs: seq<Bytes>) {
    rs != [] && IsMessage(Read(rs[0]), MSG_IMAGE_HEADER) && |Read(rs[0])| >= IMAGE_HEADER_SIZE
  }

  function AfterHeader(rs: seq<Bytes>): Assembly
    requires Announces(rs)
  {
    Assembled(rs, UnpackImageHeader(Read(rs[0])).totalChunks, Assembly(0, [], 1))
  }

  /** The image made of the datagrams that arrive. */
  function Downloaded(rs: seq<Bytes>): StarCameraImage {
    if !Announces(rs) then INVALID
    else
      var h, a := UnpackImageHeader(Read(rs[0])), AfterHeader(rs);
      if a.count == h.totalChunks
      then StarCameraImage(h.timestamp, h.width, h.height, |a.data|, h.quality, h.blobCount, a.data, true)
      else INVALID
  }

  /** A valid image clears the failures, an error reply leaves them, anything else is one more. */
  function FailuresAfter(failures: nat, rs: seq<Bytes>): nat {
    if Downloaded(rs).valid then 0
    else if rs != [] && IsMessage(Read(rs[0]), MSG_ERROR) then failures
    else failures + 1
  }

  /** One call: whether its request leaves, and the datagrams that arrive in time, in order. */
  datatype Exchange = Exchange(sent: bool, rs: seq<Bytes>)

  /** A call after more than three failures is refused without asking. */
  function ImageFor(failures: nat, x: Exchange): Option<StarCameraImage> {
    if failures > 3 then Some(INVALID) else if !x.sent then None else Some(Downloaded(x.rs))
  }

  function FailuresFor(failures: nat, x: Exchange): nat {
    if failures > 3 then failures else if !x.sent then failures + 1 else FailuresAfter(failures, x.rs)
  }

  /** The failures counted after a sequence of calls on a new client. */
  function FailuresOver(calls: seq<Exchange>): nat {
    if calls == [] then 0 else FailuresFor(FailuresOver(calls[..|calls| - 1]), calls[|calls| - 1])
  }

  /** The images those calls return. */
  function Images(calls: seq<Exchange>): (images: seq<Option<StarCameraImage>>)
    ensures |images| == |calls|
  {
    if calls == [] then []
    else
      var n := |calls| - 1;
      Images(calls[..n]) + [ImageFor(FailuresOver(calls[..n]), calls[n])]
  }

  function Taken(rs: seq<Bytes>): nat {
    if rs == [] then 0 else if Announces(rs) then AfterHeader(rs).taken else 1
  }

  // ---------------------------------------------------------------- the status

  datatype StarCameraStatus = StarCameraStatus(queueSize: int, bandwidthKbps: int, isActive: bool,
                                               isStreaming: bool, valid: bool)

  const NO_STATUS := StarCameraStatus(0, 0, false, false, false)

  /** `recvfrom(1024)`. */
  function StatusRead(m: Bytes): (r: Bytes)
    ensures r <= m
  {
    if |m| > 1024 then m[..1024] else m
  }

  /** `struct.unpack('<IQI', data[9:25])` of a status reply. */
  function StatusFrom(reply: Option<Bytes>): StarCameraStatus {
    match reply
    case None => NO_STATUS
    case Some(m) =>
      var r := StatusRead(m);
      if !IsMessage(r, MSG_STATUS_RESPONSE) || |r| < 25 then NO_STATUS
      else StarCameraStatus(FromLE(r[9..13]), FromLE(r[21..25]), true, FromLE(r[13..21]) > 0, true)
  }

  function Volume(rs: seq<Bytes>, n: nat): nat {
    if n == 0 || n > |rs| then 0 else Volume(rs, n - 1) + |Read(rs[n - 1])|
  }

  class StarCameraClient {
    var consecutiveFailures: nat
    var bytesReceived: nat

    constructor ()
      ensures consecutiveFailures == 0 && bytesReceived == 0
    {
      consecutiveFailures, bytesReceived := 0, 0;
    }

    /** The calls one after the other. */
    method GetImages(calls: seq<Exchange>) returns (images: seq<Option<StarCameraImage>>)
      requires consecutiveFailures == 0
      modifies this
      ensures images == Images(calls) && consecutiveFailures == FailuresOver(calls)
    {
      hide ImageFor, FailuresFor;
      images := [];
      var k := 0;
      while k < |calls|
        invariant 0 <= k <= |calls| && images == Images(calls[..k]) && consecutiveFailures == FailuresOver(calls[..k])
      {
        assert calls[..k + 1][..k] == calls[..k];
        var image := GetLatestImage(calls[k].sent, calls[k].rs);
        images := images + [image];
        k := k + 1;
      }
      assert calls[..k] == calls;
    }

    /** `rs` are the datagrams that arrive in time, in order; `sent` tells whether the request left. */
    method GetLatestImage(sent: bool, rs: seq<Bytes>) returns (image: Option<StarCameraImage>)
      modifies this
      ensures image == ImageFor(old(consecutiveFailures), Exchange(sent, rs))
      ensures consecutiveFailures == FailuresFor(old(consecutiveFailures), Exchange(sent, rs))
      ensures bytesReceived == old(bytesReceived)
                               + if old(consecutiveFailures) <= 3 && sent then Volume(rs, Taken(rs)) else 0
    {
      hide UnpackImageHeader, FromLE;
      if consecutiveFailures > 3 {
        return Some(INVALID);
      }
      if !sent {
        consecutiveFailures := consecutiveFailures + 1;
        return None;
      }
      if |rs| == 0 {
        consecutiveFailures := consecutiveFailures + 1;
        return Some(INVALID);
      }
      var data := Read(rs[0]);
      bytesReceived := bytesReceived + |data|;
      assert Volume(rs, 1) == Volume(rs, 0) + |data|;
      if |data| < HEADER_SIZE {
        consecutiveFailures := consecutiveFailures + 1;
        return Some(INVALID);
      }
      if data[0] == MSG_ERROR {
        return Some(INVALID);
      }
      if data[0] != MSG_IMAGE_HEADER || |data| < IMAGE_HEADER_SIZE {
        consecutiveFailures := consecutiveFailures + 1;
        return Some(INVALID);
      }
      var h := UnpackImageHeader(data);
      var count, imageData := ReceiveChunks(rs, h.totalChunks);
      if count == h.totalChunks {
        consecutiveFailures := 0;
        return Some(StarCameraImage(h.timestamp, h.width, h.height, |imageData|, h.quality, h.blobCount,
                                    imageData, true));
      }
      consecutiveFailures := consecutiveFailures + 1;
      return Some(INVALID);
    }

    /** `get_status`; `reply` is the datagram that arrives in time, if any. */
    method GetStatus(sent: bool, reply: Option<Bytes>) returns (status: StarCameraStatus)
      modifies this
      ensures status == if sent then StatusFrom(reply) else NO_STATUS
      ensures consecutiveFailures == if status.valid then 0 else old(consecutiveFailures) + 1
      ensures bytesReceived
              == old(bytesReceived) + if sent && reply.Some? then |StatusRead(reply.value)| else 0
    {
      hide FromLE;
      if !sent || reply.None? {
        consecutiveFailures := consecutiveFailures + 1;
        return NO_STATUS;
      }
      var data := StatusRead(reply.value);
      bytesReceived := bytesReceived + |data|;
      if |data| >= HEADER_SIZE && data[0] == MSG_STATUS_RESPONSE && |data| >= 25 {
        consecutiveFailures := 0;
        return StarCameraStatus(FromLE(data[9..13]), FromLE(data[21..25]), true, FromLE(data[13..21]) > 0, true);
      }
      consecutiveFailures := consecutiveFailures + 1;
      return NO_STATUS;
    }

    /** The data of a chunk message, unless it is too short for its header or its announced size. */
    static method ChunkData(data: Bytes) returns (chunkData: Option<Bytes>)
      requires IsMessage(data, MSG_IMAGE_CHUNK)
      ensures chunkData == ChunkOf(data)
    {
      hide FromLE;
      if |data| < CHUNK_OVERHEAD {
        return None;
      }
      var dataSize := FromLE(data[13..17]);
      var bytes := data[CHUNK_OVERHEAD..Min(CHUNK_OVERHEAD + dataSize, |data|)];
      if |bytes| != dataSize {
        return None;
      }
      return Some(bytes);
    }

    method ReceiveChunks(rs: seq<Bytes>, expected: int) returns (chunksReceived: nat, imageData: Bytes)
      requires rs != []
      modifies this`bytesReceived
      ensures var a := Assembled(rs, expected, Assembly(0, [], 1));
              && chunksReceived == a.count && imageData == a.data
              && bytesReceived == old(bytesReceived) + Volume(rs, a.taken) - Volume(rs, 1)
    {
      hide ChunkOf;
      chunksReceived, imageData := 0, [];
      NoChunkOtherwise();
      var k := 1;
      while chunksReceived < expected && k < |rs|
        invariant 1 <= k <= |rs|
        invariant Assembled(rs, expected, Assembly(0, [], 1))
                  == Assembled(rs, expected, Assembly(chunksReceived, imageData, k))
        invariant bytesReceived == old(bytesReceived) + Volume(rs, k) - Volume(rs, 1)
      {
        var data := Read(rs[k]);
        k := k + 1;
        bytesReceived := bytesReceived + |data|;
        if |data| < HEADER_SIZE {
          continue;
        }
        if data[0] == MSG_IMAGE_CHUNK {
          var chunkData := ChunkData(data);
          if chunkData.None? {
            continue;
          }
          imageData := imageData + chunkData.value;
          chunksReceived := chunksReceived + 1;
        } else if data[0] == MSG_IMAGE_COMPLETE || data[0] == MSG_ERROR {
          break;
        }
      }
    }
  }
}
