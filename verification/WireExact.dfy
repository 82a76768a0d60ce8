/** Exactly which packets the receiver accepts as chunks: the encodings of admissible chunks
    under a tag that goes with their codec and timing. */
module WireExact {
  import opened Prelude
  import opened Wire

  /** The tag names the codec, and says which timing fields follow. */
  predicate TagFits(tag: bytes, h: Header)
  {
    && CodecOf(tag) == Some(h.codec)
    && (h.timing.Synchronised? <==> tag == SYNC_H264_TAG || tag == SYNC_H265_TAG)
    && (h.timing.TimedV1? <==> tag == TIMED_H264_TAG || tag == TIMED_H265_TAG)
  }

  /** The fixed fields of `c`, each where the receiver looks for it. */
  predicate HasFixed(p: bytes, tag: bytes, c: Chunk)
  {
    && |p| >= LEGACY_HEADER_BYTES && p[..4] == tag
    && ReadU32(p, SEQUENCE_OFFSET) == c.number
    && ReadU16(p, CHUNK_INDEX_OFFSET) == c.index && ReadU16(p, CHUNK_COUNT_OFFSET) == c.header.total
    && ReadU16(p, WIDTH_OFFSET) == c.header.width && ReadU16(p, HEIGHT_OFFSET) == c.header.height
  }

  lemma FixedFieldsRead(p: bytes, tag: bytes, c: Chunk)
    requires |tag| == 4 && c.number < 0x1_0000_0000 && |p| >= LEGACY_HEADER_BYTES
    ensures p[..LEGACY_HEADER_BYTES] == FixedFields(tag, c) <==> HasFixed(p, tag, c)
  {
    hide U16, U32, ReadU16, ReadU32;
    var f := FixedFields(tag, c);
    assert p[4..8] == p[..16][4..8] && p[8..10] == p[..16][8..10] && p[10..12] == p[..16][10..12];
    assert p[12..14] == p[..16][12..14] && p[14..16] == p[..16][14..16];
    if p[..16] == f {
      U32RoundTrip(p, 4, c.number);
      U16RoundTrip(p, 8, c.index);
      U16RoundTrip(p, 10, c.header.total);
      U16RoundTrip(p, 12, c.header.width);
      U16RoundTrip(p, 14, c.header.height);
    }
    if HasFixed(p, tag, c) {
      ReadBack32(p, 4);
      ReadBack16(p, 8);
      ReadBack16(p, 10);
      ReadBack16(p, 12);
      ReadBack16(p, 14);
      assert p[..16] == p[..4] + p[4..8] + p[8..10] + p[10..12] + p[12..14] + p[14..16];
    }
  }

  /** Behind the fixed fields: the timing the tag announces, then the payload. */
  lemma RestRead(p: bytes, c: Chunk)
    requires |p| > LEGACY_HEADER_BYTES && TagFits(p[..4], c.header)
    ensures p[LEGACY_HEADER_BYTES..] == TimingBytes(c.header.timing) + c.payload
            <==> |p| >= HeaderBytes(c.header.timing) && ReadTiming(p) == Some(c.header.timing)
                 && p[HeaderBytes(c.header.timing)..] == c.payload
  {
    match c.header.timing
    case Untimed =>
    case TimedV1(t, d) => if |p| >= TIMED_V1_HEADER_BYTES { TimedFields(p, t, d, c.payload); }
    case Synchronised(t, d, s) => if |p| >= PACKET_HEADER_BYTES { SynchronisedFields(p, t, d, s, c.payload); }
  }

  lemma TimedFields(p: bytes, t: bytes, d: bytes, payload: bytes)
    requires |p| >= TIMED_V1_HEADER_BYTES && |t| == 8 && |d| == 4
    ensures p[16..] == t + d + payload <==> p[16..24] == t && p[24..28] == d && p[28..] == payload
  {
    var rest := p[16..];
    assert p[16..24] == rest[..12][..8] && p[24..28] == rest[..12][8..] && p[28..] == rest[12..];
    Pieces(rest, t + d, payload);
    Pieces(rest[..12], t, d);
  }

  lemma SynchronisedFields(p: bytes, t: bytes, d: bytes, s: bytes, payload: bytes)
    requires |p| >= PACKET_HEADER_BYTES && |t| == 8 && |d| == 4 && |s| == 8
    ensures p[16..] == t + d + s + payload
            <==> p[16..24] == t && p[24..28] == d && p[28..36] == s && p[36..] == payload
  {
    var rest := p[16..];
    assert rest[12..] == p[28..] && p[28..36] == rest[12..][..8] && p[36..] == rest[12..][8..];
    Associate(t + d, s, payload);
    TimedFields(p, t, d, s + payload);
    Pieces(rest[12..], s, payload);
  }

  lemma Pieces(rest: bytes, front: bytes, payload: bytes)
    requires |rest| >= |front|
    ensures rest == front + payload <==> rest[..|front|] == front && rest[|front|..] == payload
  {
    assert rest == rest[..|front|] + rest[|front|..];
  }

  lemma Whole(p: bytes, tag: bytes, c: Chunk)
    requires |tag| == 4
    ensures p == Encoded(tag, c) <==>
            |p| >= LEGACY_HEADER_BYTES && p[..LEGACY_HEADER_BYTES] == FixedFields(tag, c)
            && p[LEGACY_HEADER_BYTES..] == TimingBytes(c.header.timing) + c.payload
  {
    hide U16, U32, TimingBytes;
    var rest := TimingBytes(c.header.timing) + c.payload;
    assert |FixedFields(tag, c)| == 16;
    Associate(FixedFields(tag, c), TimingBytes(c.header.timing), c.payload);
    if |p| >= 16 { Pieces(p, FixedFields(tag, c), rest); }
  }

  lemma FieldsParse(p: bytes, c: Chunk)
    requires c.number < 0x1_0000_0000 && |p| > LEGACY_HEADER_BYTES
    ensures Parse(p) == Media(c.number, Some(c))
            <==> TagFits(p[..4], c.header) && HasFixed(p, p[..4], c) && |p| >= HeaderBytes(c.header.timing)
                 && ReadTiming(p) == Some(c.header.timing) && p[HeaderBytes(c.header.timing)..] == c.payload
  {
  }

  lemma EncodedLength(tag: bytes, c: Chunk)
    requires |tag| == 4
    ensures |Encoded(tag, c)| > LEGACY_HEADER_BYTES
  {
  }

  /** The receiver reads a chunk out of a packet if and only if the packet is the encoding of
      that chunk under a fitting tag: it accepts every encoding and nothing else, and no field
      is lost or altered. */
  lemma ChunksExactly(p: bytes, c: Chunk)
    requires c.number < 0x1_0000_0000
    ensures Parse(p) == Media(c.number, Some(c))
            <==> exists tag: bytes :: |tag| == 4 && TagFits(tag, c.header) && p == Encoded(tag, c)
  {
    hide FixedFields, Encoded, TimingBytes, ReadTiming, HasFixed, TagFits;
    if Parse(p) == Media(c.number, Some(c)) {
      assert |p| > LEGACY_HEADER_BYTES;
      hide Parse;
      var tag := p[..4];
      FieldsParse(p, c);
      FixedFieldsRead(p, tag, c);
      RestRead(p, c);
      Whole(p, tag, c);
    }
    hide Parse;
    if tag: bytes :| |tag| == 4 && TagFits(tag, c.header) && p == Encoded(tag, c) {
      EncodedLength(tag, c);
      Whole(p, tag, c);
      FixedFieldsRead(p, tag, c);
      TagInFront(p, tag, c);
      RestRead(p, c);
      FieldsParse(p, c);
    }
  }

  lemma TagInFront(p: bytes, tag: bytes, c: Chunk)
    requires HasFixed(p, tag, c)
    ensures p[..4] == tag
  {
  }

  /** The receiver reads back exactly the unit that was sent, as chunk 0 of 1. */
  lemma ParsePacket(u: Unit)
    requires Sendable(u)
    ensures Parse(PacketOf(u)) == Media(u.number, Some(ChunkOf(u)))
  {
    var c: Chunk := ChunkOf(u);
    assert TagFits(UnitTag(u), c.header);
    hide Parse, Encoded, TagFits;
    ChunksExactly(PacketOf(u), c);
  }
}
