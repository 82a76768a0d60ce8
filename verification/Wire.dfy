/** The packet format: what the receiver reads out of one packet, and the packet the
    sender builds. Floating-point fields stay bit patterns; only their validity and
    equality are interpreted. */
module Wire {
  import opened Prelude

  const LENGTH_PREFIX_BYTES := 4
  const SEQUENCE_OFFSET := 4
  const CHUNK_INDEX_OFFSET := 8
  const CHUNK_COUNT_OFFSET := 10
  const WIDTH_OFFSET := 12
  const HEIGHT_OFFSET := 14
  const CAPTURE_TIME_OFFSET := 16
  const ENCODE_DURATION_OFFSET := 24
  const SEND_START_TIME_OFFSET := 28
  const LEGACY_HEADER_BYTES := 16
  const TIMED_V1_HEADER_BYTES := 28
  const PACKET_HEADER_BYTES := 36
  const CHUNK_BYTES := 1350
  const MAX_ACCESS_UNIT_BYTES := 8 * 1024 * 1024
  const MAX_CHUNKS := (MAX_ACCESS_UNIT_BYTES + CHUNK_BYTES - 1) / CHUNK_BYTES
  const MAX_UNI_STREAM_MESSAGE_BYTES := MAX_ACCESS_UNIT_BYTES + PACKET_HEADER_BYTES

  const H264_TAG: bytes := [0x48, 0x32, 0x36, 0x34]
  const H265_TAG: bytes := [0x48, 0x32, 0x36, 0x35]
  const TIMED_H264_TAG: bytes := [0x48, 0x32, 0x34, 0x54]
  const TIMED_H265_TAG: bytes := [0x48, 0x32, 0x36, 0x54]
  const SYNC_H264_TAG: bytes := [0x48, 0x32, 0x34, 0x53]
  const SYNC_H265_TAG: bytes := [0x48, 0x32, 0x36, 0x53]
  const LEGACY_H264_TAG: bytes := [0x56, 0x49, 0x44, 0x43]
  const LEGACY_H265_TAG: bytes := [0x48, 0x45, 0x56, 0x43]
  const STOP_TAG: bytes := [0x53, 0x54, 0x4F, 0x50]

  datatype Codec = H264 | Hevc

  function MaxWidth(codec: Codec): nat { if codec == H264 then 1920 else 3840 }

  function MaxHeight(codec: Codec): nat { if codec == H264 then 1088 else 2160 }

  // ---- timing fields ----

  /** IEEE 754 binary64, big-endian: finite and greater than zero. */
  predicate PositiveF64(b: bytes)
  {
    && |b| == 8
    && b[0] < 0x80
    && b[0] as int * 0x10 + b[1] / 0x10 != 0x7FF
    && b != [0, 0, 0, 0, 0, 0, 0, 0]
  }

  predicate ZeroF32(b: bytes)
  {
    |b| == 4 && (b == [0, 0, 0, 0] || b == [0x80, 0, 0, 0])
  }

  /** IEEE 754 binary32, big-endian: between zero (of either sign) and 30000.0. */
  predicate DurationF32(b: bytes)
  {
    |b| == 4 && (ZeroF32(b) || ReadU32(b, 0) <= 0x46EA_6000)
  }

  datatype Timing =
    | Untimed
    | TimedV1(captureTime: bytes, encodeDuration: bytes)
    | Synchronised(captureTime: bytes, encodeDuration: bytes, sendStart: bytes)

  /** The timing a packet may carry past the receiver's checks. */
  predicate Acceptable(t: Timing)
  {
    match t
    case Untimed => true
    case TimedV1(c, d) => PositiveF64(c) && DurationF32(d)
    case Synchronised(c, d, s) => PositiveF64(c) && DurationF32(d) && PositiveF64(s)
  }

  /** Each field has the width the packet gives it. */
  predicate Sized(t: Timing)
  {
    match t
    case Untimed => true
    case TimedV1(c, d) => |c| == 8 && |d| == 4
    case Synchronised(c, d, s) => |c| == 8 && |d| == 4 && |s| == 8
  }

  /** Equality of durations as numbers: the two zeros are equal. */
  predicate SameDuration(a: bytes, b: bytes)
  {
    a == b || (ZeroF32(a) && ZeroF32(b))
  }

  predicate SameTiming(a: Timing, b: Timing)
  {
    match (a, b)
    case (Untimed, Untimed) => true
    case (TimedV1(c, d), TimedV1(c', d')) => c == c' && SameDuration(d, d')
    case (Synchronised(c, d, s), Synchronised(c', d', s')) => c == c' && SameDuration(d, d') && s == s'
    case _ => false
  }

  // ---- parsing ----

  datatype Header = Header(total: nat, width: nat, height: nat, codec: Codec, timing: Timing)

  predicate SameHeader(a: Header, b: Header)
  {
    a.total == b.total && a.width == b.width && a.height == b.height && a.codec == b.codec
    && SameTiming(a.timing, b.timing)
  }

  predicate Admissible(h: Header)
  {
    && 0 < h.total <= MAX_CHUNKS
    && 0 < h.width <= MaxWidth(h.codec)
    && 0 < h.height <= MaxHeight(h.codec)
    && Acceptable(h.timing)
  }

  datatype RawChunk = Chunk(number: nat, index: nat, header: Header, payload: bytes)

  /** A chunk that passed every check made before the table is consulted. */
  type Chunk = c: RawChunk |
      Admissible(c.header) && c.index < c.header.total && 0 < |c.payload| <= MAX_ACCESS_UNIT_BYTES
    witness Chunk(0, 0, Header(1, 1, 1, H264, Untimed), [0])

  /** What one packet is to the receiver. A media packet whose remaining fields are
      rejected still has a sequence number, and that number is looked at first. */
  datatype Parsed =
    | StopMarker
    | Unrecognised
    | Media(number: nat, body: Option<Chunk>)

  function CodecOf(tag: bytes): Option<Codec>
  {
    if tag == H265_TAG || tag == LEGACY_H265_TAG || tag == TIMED_H265_TAG || tag == SYNC_H265_TAG then Some(Hevc)
    else if tag == H264_TAG || tag == LEGACY_H264_TAG || tag == TIMED_H264_TAG || tag == SYNC_H264_TAG then Some(H264)
    else None
  }

  function ReadTiming(p: bytes): (r: Option<Timing>)
    requires |p| > LEGACY_HEADER_BYTES
    ensures r.Some? ==> Acceptable(r.value) && |p| > HeaderBytes(r.value)
  {
    var tag := p[..4];
    var synchronised := tag == SYNC_H264_TAG || tag == SYNC_H265_TAG;
    if tag == TIMED_H264_TAG || tag == TIMED_H265_TAG || synchronised then
      if |p| <= (if synchronised then PACKET_HEADER_BYTES else TIMED_V1_HEADER_BYTES) then None else
      var capture := p[CAPTURE_TIME_OFFSET..ENCODE_DURATION_OFFSET];
      var duration := p[ENCODE_DURATION_OFFSET..SEND_START_TIME_OFFSET];
      var t := if synchronised
               then Synchronised(capture, duration, p[SEND_START_TIME_OFFSET..PACKET_HEADER_BYTES])
               else TimedV1(capture, duration);
      if Acceptable(t) then Some(t) else None
    else Some(Untimed)
  }

  function HeaderBytes(t: Timing): nat
  {
    match t
    case Untimed => LEGACY_HEADER_BYTES
    case TimedV1(_, _) => TIMED_V1_HEADER_BYTES
    case Synchronised(_, _, _) => PACKET_HEADER_BYTES
  }

  function ReadChunk(p: bytes, codec: Codec): (r: Option<Chunk>)
    requires |p| > LEGACY_HEADER_BYTES
    ensures r.Some? ==> r.value.number == ReadU32(p, SEQUENCE_OFFSET)
  {
    var index := ReadU16(p, CHUNK_INDEX_OFFSET);
    var total := ReadU16(p, CHUNK_COUNT_OFFSET);
    var width := ReadU16(p, WIDTH_OFFSET);
    var height := ReadU16(p, HEIGHT_OFFSET);
    var timing := ReadTiming(p);
    if timing.None? then None
    else if total == 0 || total > MAX_CHUNKS || index >= total || width == 0 || height == 0 then None
    else if width > MaxWidth(codec) || height > MaxHeight(codec) then None
    else
      var payload := p[HeaderBytes(timing.value)..];
      if |payload| > MAX_ACCESS_UNIT_BYTES then None
      else Some(Chunk(ReadU32(p, SEQUENCE_OFFSET), index, Header(total, width, height, codec, timing.value), payload))
  }

  function Parse(p: bytes): (r: Parsed)
    ensures r.Media? && r.body.Some? ==> r.body.value.number == r.number
  {
    if |p| >= 4 && p[..4] == STOP_TAG then StopMarker
    else if |p| <= LEGACY_HEADER_BYTES then Unrecognised
    else
      match CodecOf(p[..4])
      case None => Unrecognised
      case Some(codec) => Media(ReadU32(p, SEQUENCE_OFFSET), ReadChunk(p, codec))
  }

  // ---- building ----

  /** One encoded access unit as the sender hands it to the packet writer. The sender
      writes either no timing or all three timing fields. */
  datatype Unit = Unit(number: nat, width: nat, height: nat, codec: Codec, timing: Timing, data: bytes)

  predicate Sendable(u: Unit)
  {
    && 0 < u.number < 0x1_0000_0000
    && 0 < u.width <= MaxWidth(u.codec)
    && 0 < u.height <= MaxHeight(u.codec)
    && !u.timing.TimedV1? && Acceptable(u.timing)
    && 0 < |u.data| <= MAX_ACCESS_UNIT_BYTES
  }

  function SenderTag(codec: Codec, timed: bool): (r: bytes)
    ensures |r| == 4
  {
    if timed then (if codec == Hevc then SYNC_H265_TAG else SYNC_H264_TAG)
    else (if codec == Hevc then H265_TAG else H264_TAG)
  }

  function TimingBytes(t: Timing): bytes
  {
    match t
    case Untimed => []
    case TimedV1(c, d) => c + d
    case Synchronised(c, d, s) => c + d + s
  }

  /** The sixteen bytes in front of the timing fields. */
  function FixedFields(tag: bytes, c: RawChunk): (r: bytes)
    ensures |r| == |tag| + 12
  {
    tag + U32(c.number) + U16(c.index) + U16(c.header.total) + U16(c.header.width) + U16(c.header.height)
  }

  /** A chunk as a packet, without its length prefix. */
  function Encoded(tag: bytes, c: RawChunk): bytes
  {
    FixedFields(tag, c) + TimingBytes(c.header.timing) + c.payload
  }

  /** A sender packet is chunk 0 of 1. */
  function ChunkOf(u: Unit): RawChunk
  {
    Chunk(u.number, 0, Header(1, u.width, u.height, u.codec, u.timing), u.data)
  }

  function UnitTag(u: Unit): (r: bytes)
    ensures |r| == 4
  {
    SenderTag(u.codec, u.timing.Synchronised?)
  }

  /** The packet of a unit, without its length prefix. */
  function PacketOf(u: Unit): bytes { Encoded(UnitTag(u), ChunkOf(u)) }

  /** Writes `field` into the packet at `at` (`DataView.set*`, `Uint8Array.set`). */
  method Put(packet: array<byte>, at: nat, field: bytes)
    requires at + |field| <= packet.Length
    modifies packet
    ensures packet[..at + |field|] == old(packet[..at]) + field
    ensures forall j :: at + |field| <= j < packet.Length ==> packet[j] == old(packet[j])
  {
    forall i | 0 <= i < |field| {
      packet[at + i] := field[i];
    }
  }

  /** Builds the framed packet field by field in a fresh buffer. */
  method MakePacket(u: Unit) returns (packet: array<byte>)
    requires !u.timing.TimedV1? && Sized(u.timing)
    ensures fresh(packet)
    ensures packet[..] == U32(|PacketOf(u)|) + PacketOf(u)
  {
    var tag := UnitTag(u);
    var headerBytes := if u.timing.Synchronised? then PACKET_HEADER_BYTES else LEGACY_HEADER_BYTES;
    var packetLen := headerBytes + |u.data|;
    packet := new byte[LENGTH_PREFIX_BYTES + packetLen](_ => 0);
    ghost var written := U32(packetLen);
    Put(packet, 0, U32(packetLen));
    var i := 0;
    while i < 4
      invariant 0 <= i <= 4
      invariant packet[..4 + i] == written + tag[..i]
    {
      packet[LENGTH_PREFIX_BYTES + i] := tag[i];
      assert tag[..i + 1] == tag[..i] + [tag[i]];
      i := i + 1;
    }
    PutFixedFields(packet, u, written);
    written := written + FixedFields(UnitTag(u), ChunkOf(u));
    if u.timing.Synchronised? {
      PutTiming(packet, u.timing, written);
    }
    written := written + TimingBytes(u.timing);
    assert packet[..LENGTH_PREFIX_BYTES + headerBytes] == written;
    Put(packet, LENGTH_PREFIX_BYTES + headerBytes, u.data);
    assert packet[..] == packet[..packet.Length] == written + u.data;
    assert written + u.data == U32(packetLen) + PacketOf(u);
    assert |PacketOf(u)| == packetLen;
  }

  method PutFixedFields(packet: array<byte>, u: Unit, ghost written: bytes)
    requires packet.Length >= 20 && |written| == 4
    requires packet[..8] == written + UnitTag(u)
    modifies packet
    ensures packet[..20] == written + FixedFields(UnitTag(u), ChunkOf(u))
  {
    Put(packet, 8, U32(u.number));
    Put(packet, 12, U16(0));
    Put(packet, 14, U16(1));
    Put(packet, 16, U16(u.width));
    Put(packet, 18, U16(u.height));
  }

  method PutTiming(packet: array<byte>, t: Timing, ghost written: bytes)
    requires t.Synchronised? && Sized(t)
    requires packet.Length >= 40 && |written| == 20 && packet[..20] == written
    modifies packet
    ensures packet[..40] == written + TimingBytes(t)
  {
    Put(packet, 20, t.captureTime);
    Put(packet, 28, t.encodeDuration);
    Put(packet, 32, t.sendStart);
  }

  /** The stop marker: a full header that is zero after its tag. */
  function StopPacket(): (r: bytes)
    ensures |r| == PACKET_HEADER_BYTES && Parse(r) == StopMarker
  {
    STOP_TAG + seq(32, _ => 0)
  }

  /** Builds the framed stop marker. */
  method MakeStopPacket() returns (packet: array<byte>)
    ensures fresh(packet)
    ensures packet[..] == U32(|StopPacket()|) + StopPacket()
  {
    packet := new byte[LENGTH_PREFIX_BYTES + PACKET_HEADER_BYTES](_ => 0);
    Put(packet, 0, U32(PACKET_HEADER_BYTES));
    var i := 0;
    while i < 4
      invariant 0 <= i <= 4
      invariant packet[..4 + i] == U32(PACKET_HEADER_BYTES) + STOP_TAG[..i]
      invariant forall j :: 8 <= j < packet.Length ==> packet[j] == 0
    {
      packet[LENGTH_PREFIX_BYTES + i] := STOP_TAG[i];
      i := i + 1;
    }
    assert packet[..] == packet[..8] + packet[8..];
    assert packet[8..] == seq(32, _ => 0);
  }
}
