/** The datagrams of the star-camera downlink: the packed structs of Oph/include/starcam_downlink.h as
    a little-endian sender lays them out, and the fields Oph/star_camera_client.py unpacks. */
module Wire {

  type byte = x: int | 0 <= x < 256
  type Bytes = seq<byte>

  const MSG_GET_LATEST_IMAGE: byte := 1
  const MSG_GET_IMAGE_BY_TIMESTAMP: byte := 3
  const MSG_GET_STATUS: byte := 4
  const MSG_IMAGE_HEADER: byte := 5
  const MSG_IMAGE_CHUNK: byte := 6
  const MSG_IMAGE_COMPLETE: byte := 7
  const MSG_ERROR: byte := 8
  const MSG_STATUS_RESPONSE: byte := 9

  const HEADER_SIZE := 9
  const IMAGE_HEADER_SIZE := 38
  const CHUNK_OVERHEAD := 17

  // ---------------------------------------------------------------- little-endian integers

  function Pow256(w: nat): (p: int)
    ensures p > 0
  {
    if w == 0 then 1 else 256 * Pow256(w - 1)
  }

  /** The low `w` bytes of `n`, least significant first; two's complement when `n` is negative. */
  function LE(n: int, w: nat): (s: Bytes)
    ensures |s| == w
    decreases w
  {
    if w == 0 then [] else [n % 256] + LE(n / 256, w - 1)
  }

  function FromLE(s: Bytes): (n: int)
    ensures 0 <= n < Pow256(|s|)
  {
    if s == [] then 0 else s[0] + 256 * FromLE(s[1..])
  }

  lemma ModByParts(n: int, p: int)
    requires p > 0
    ensures n % (256 * p) == n % 256 + 256 * (n / 256 % p)
  {
    var q, r := n / 256, n % 256;
    var h, g := q / p, q % p;
    assert n == 256 * (p * h + g) + r;
    assert n == (256 * p) * h + (256 * g + r);
    assert 0 <= 256 * g + r < 256 * p;
    UniqueRemainder(n, 256 * p, h, 256 * g + r);
  }

  lemma UniqueRemainder(n: int, m: int, q: int, r: int)
    requires 0 <= r < m && n == m * q + r
    ensures n % m == r && n / m == q
  {
    var d, e := n / m, n % m;
    assert n == m * d + e;
    assert m * (d - q) == m * d - m * q;
    SmallMultiple(m, d - q);
  }

  lemma SmallMultiple(m: int, k: int)
    requires -m < m * k < m
    ensures k == 0
  {
    if k >= 1 {
      MulAtLeast(m, 1, k);
    } else if k <= -1 {
      MulAtLeast(m, k, -1);
    }
  }

  lemma MulAtLeast(m: int, x: int, y: int)
    requires m >= 0 && x <= y
    ensures m * x <= m * y
  {}

  /** Reading back the low bytes of a number gives it modulo their range. */
  lemma {:induction false} LERoundTrip(n: int, w: nat)
    ensures FromLE(LE(n, w)) == n % Pow256(w)
    decreases w
  {
    if w == 0 {
      assert n % 1 == 0;
    } else {
      LERoundTrip(n / 256, w - 1);
      assert LE(n, w)[1..] == LE(n / 256, w - 1);
      ModByParts(n, Pow256(w - 1));
    }
  }

  lemma LEFits(n: int, w: nat)
    requires 0 <= n < Pow256(w)
    ensures FromLE(LE(n, w)) == n
  {
    LERoundTrip(n, w);
    UniqueRemainder(n, Pow256(w), 0, n);
  }

  lemma Powers()
    ensures Pow256(1) == 0x100 && Pow256(4) == 0x1_0000_0000 && Pow256(8) == 0x1_0000_0000_0000_0000
    ensures Pow256(3) == 0x100_0000
  {
    assert Pow256(1) == 256 && Pow256(2) == 65536 && Pow256(3) == 16777216 && Pow256(4) == 4294967296;
    assert Pow256(5) == 1099511627776 && Pow256(6) == 281474976710656;
    assert Pow256(7) == 72057594037927936;
  }

  // ---------------------------------------------------------------- messages

  function MessageHeader(kind: byte, payloadSize: int, sequence: int): (m: Bytes)
    ensures |m| == HEADER_SIZE && m[0] == kind
  {
    [kind] + LE(payloadSize, 4) + LE(sequence, 4)
  }

  datatype ImageInfo = ImageInfo(timestamp: int, totalSize: int, totalChunks: int, quality: int,
                                 blobCount: int, width: int, height: int)

  function ImageHeader(i: ImageInfo, sequence: int): (m: Bytes)
    ensures |m| == IMAGE_HEADER_SIZE && m[0] == MSG_IMAGE_HEADER
  {
    MessageHeader(MSG_IMAGE_HEADER, IMAGE_HEADER_SIZE - HEADER_SIZE, sequence) + LE(i.timestamp, 8)
    + LE(i.totalSize, 4) + LE(i.totalChunks, 4) + LE(i.quality, 1) + LE(i.blobCount, 4) + LE(i.width, 4)
    + LE(i.height, 4)
  }

  function ImageChunk(id: int, data: Bytes): (m: Bytes)
    ensures |m| == CHUNK_OVERHEAD + |data| && m[0] == MSG_IMAGE_CHUNK
  {
    MessageHeader(MSG_IMAGE_CHUNK, CHUNK_OVERHEAD + |data| - HEADER_SIZE, id) + LE(id, 4) + LE(|data|, 4) + data
  }

  function ImageComplete(timestamp: int, totalChunksSent: int): (m: Bytes)
    ensures |m| == 21 && m[0] == MSG_IMAGE_COMPLETE
  {
    MessageHeader(MSG_IMAGE_COMPLETE, 12, 0) + LE(timestamp, 8) + LE(totalChunksSent, 4)
  }

  function ErrorMessage(sequence: int): (m: Bytes)
    ensures |m| == HEADER_SIZE && m[0] == MSG_ERROR
  {
    MessageHeader(MSG_ERROR, 0, sequence)
  }

  function StatusResponse(available: int, timestamp: int, kbps: int, active: int, sequence: int): (m: Bytes)
    ensures |m| == 29 && m[0] == MSG_STATUS_RESPONSE
  {
    MessageHeader(MSG_STATUS_RESPONSE, 20, sequence) + LE(available, 4) + LE(timestamp, 8) + LE(kbps, 4) + LE(active, 4)
  }

  // ---------------------------------------------------------------- what the client unpacks

  /** `struct.unpack('<QIIIBII', ...)` of the 29 bytes after the message header: it takes four bytes
      for the quality and one for the blob count. */
  function UnpackImageHeader(m: Bytes): ImageInfo
    requires |m| >= IMAGE_HEADER_SIZE
  {
    ImageInfo(FromLE(m[9..17]), FromLE(m[17..21]), FromLE(m[21..25]), FromLE(m[25..29]),
              FromLE(m[29..30]), FromLE(m[30..34]), FromLE(m[34..38]))
  }

  /** The fields fit their C types. */
  predicate Fits(i: ImageInfo) {
    && 0 <= i.timestamp < 0x8000_0000_0000_0000
    && 0 <= i.totalSize < 0x1_0000_0000 && 0 <= i.totalChunks < 0x1_0000_0000
    && 0 <= i.quality < 0x100
    && -0x8000_0000 <= i.blobCount < 0x8000_0000
    && 0 <= i.width < 0x8000_0000 && 0 <= i.height < 0x8000_0000
  }

  lemma HeaderSlices(i: ImageInfo, sequence: int)
    ensures var m := ImageHeader(i, sequence);
            && m[9..17] == LE(i.timestamp, 8) && m[17..21] == LE(i.totalSize, 4) && m[21..25] == LE(i.totalChunks, 4)
            && m[25..29] == LE(i.quality, 1) + LE(i.blobCount, 4)[..3]
            && m[29..30] == LE(i.blobCount, 4)[3..]
            && m[30..34] == LE(i.width, 4) && m[34..38] == LE(i.height, 4)
  {
    hide LE;
  }

  lemma SplitLE(n: int)
    ensures FromLE(LE(n, 4)[..3]) == n % 0x100_0000
    ensures FromLE(LE(n, 4)[3..]) == n / 0x100_0000 % 256
  {
    var a, b, c := n / 256, n / 256 / 256, n / 256 / 256 / 256;
    assert LE(n, 4) == [n % 256, a % 256, b % 256, c % 256] by {
      assert LE(c, 1) == [c % 256] + LE(c / 256, 0);
      assert LE(b, 2) == [b % 256] + LE(c, 1);
      assert LE(a, 3) == [a % 256] + LE(b, 2);
      assert LE(n, 4) == [n % 256] + LE(a, 3);
    }
    assert LE(n, 4)[..3] == LE(n, 3) by {
      assert LE(b, 1) == [b % 256] + LE(c, 0);
      assert LE(a, 2) == [a % 256] + LE(b, 1);
      assert LE(n, 3) == [n % 256] + LE(a, 2);
    }
    LERoundTrip(n, 3);
    Powers();
    assert LE(n, 4)[3..] == [c % 256];
    assert [c % 256][1..] == [];
    assert FromLE([c % 256]) == c % 256;
    assert c == n / 0x100_0000;
  }

  /** The client reads back the timestamp, sizes and dimensions of every header. */
  lemma HeaderRoundTrip(i: ImageInfo, sequence: int)
    requires Fits(i)
    ensures var u := UnpackImageHeader(ImageHeader(i, sequence));
            && u.timestamp == i.timestamp && u.totalSize == i.totalSize && u.totalChunks == i.totalChunks
            && u.width == i.width && u.height == i.height
  {
    hide ImageHeader, LE, FromLE;
    HeaderSlices(i, sequence);
    Powers();
    LEFits(i.timestamp, 8);
    LEFits(i.totalSize, 4);
    LEFits(i.totalChunks, 4);
    LEFits(i.width, 4);
    LEFits(i.height, 4);
  }

  /** But quality and blob count have their widths exchanged: the blob count is read back exactly when
      it is zero, and the quality exactly when the blob count is a multiple of 2^24. */
  lemma QualityAndBlobCount(i: ImageInfo, sequence: int)
    requires Fits(i)
    ensures var u := UnpackImageHeader(ImageHeader(i, sequence));
            && u.quality == i.quality + 256 * (i.blobCount % 0x100_0000)
            && (u.quality == i.quality <==> i.blobCount % 0x100_0000 == 0)
            && (u.blobCount == i.blobCount <==> i.blobCount == 0)
  {
    hide ImageHeader, LE, FromLE;
    HeaderSlices(i, sequence);
    SplitLE(i.blobCount);
    QualityByte(i.quality, LE(i.blobCount, 4)[..3]);
    BlobByte(i.blobCount);
  }

  lemma QualityByte(q: int, more: Bytes)
    ensures FromLE(LE(q, 1) + more) == q % 256 + 256 * FromLE(more)
  {
    assert LE(q, 1) == [q % 256] + LE(q / 256, 0);
    assert (LE(q, 1) + more)[1..] == more;
  }

  lemma BlobByte(b: int)
    requires -0x8000_0000 <= b < 0x8000_0000
    ensures b / 0x100_0000 % 256 == b <==> b == 0
  {}
}
