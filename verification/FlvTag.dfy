/** FLV tags as `rtmp_core.c` writes them (section E.4 of the Flash Video File Format Specification 10.1, with the
    AVCDecoderConfigurationRecord of section 5.2.4.1 of ISO/IEC 14496-15), and a demultiplexer for them. */
module FlvTag {
  import opened Bytes
  import opened Words

  const FLV_TAG_HEAD_LEN: nat := 11
  const FLV_PRE_TAG_LEN: nat := 4

  type Triple = s: Bytes | |s| == 3 witness [0, 0, 0]
  type Pair = s: Bytes | |s| == 2 witness [0, 0]

  /** The five layouts the two writers produce; a slice is a key frame or not. */
  datatype Tag =
    | AvcHeader(profile: Triple, sps: Bytes, pps: Bytes)
    | AvcSlice(key: bool, nal: Bytes)
    | AacHeader(config: Pair)
    | AacFrame(data: Bytes)

  function Kind(t: Tag): byte { if t.AvcHeader? || t.AvcSlice? then 9 else 8 }

  function Be16(n: nat): (r: Bytes)
    ensures |r| == 2
  {
    [Low(n / 0x100), Low(n)]
  }

  function Be24(n: nat): (r: Bytes)
    ensures |r| == 3
  {
    [Low(n / 0x1_0000), Low(n / 0x100), Low(n)]
  }

  function Be32(n: nat): (r: Bytes)
    ensures |r| == 4
  {
    [Low(n / 0x100_0000), Low(n / 0x1_0000), Low(n / 0x100), Low(n)]
  }

  /** `gen_audio_tag_header`: AAC, 44 kHz, 16 bits, stereo. */
  const AUDIO_TAG_HEADER: byte := 0xA0 + 3 * 4 + 2 + 1

  function Body(t: Tag): Bytes {
    match t
    case AvcHeader(profile, sps, pps) =>
      [0x17, 0, 0, 0, 0, 1] + profile + ([0xff, 0xe1] + Be16(|sps|)) + sps + ([1] + Be16(|pps|)) + pps
    case AvcSlice(key, nal) => [if key then 0x17 else 0x27, 1, 0, 0, 0] + Be32(|nal|) + nal
    case AacHeader(config) => [AUDIO_TAG_HEADER, 0] + config
    case AacFrame(data) => [AUDIO_TAG_HEADER, 1] + data
  }

  /** The tag header: the low 24 bits of the timestamp come first, its high 8 bits after them. */
  function Header(kind: byte, bodyLen: nat, ts: word, absTs: nat): (r: Bytes)
    ensures |r| == FLV_TAG_HEAD_LEN
  {
    [kind] + Be24(bodyLen) + Be24(ts) + [Low(ts / 0x100_0000), Low(absTs), 0, 0]
  }

  function TagBytes(t: Tag, ts: word, absTs: nat): Bytes {
    Header(Kind(t), |Body(t)|, ts, absTs) + Body(t)
  }

  // ------------------------------------------------------------ demultiplexing

  function From16(s: Bytes, at: nat): nat
    requires at + 2 <= |s|
  {
    0x100 * s[at] as nat + s[at + 1] as nat
  }

  function From24(s: Bytes, at: nat): nat
    requires at + 3 <= |s|
  {
    0x1_0000 * s[at] as nat + From16(s, at + 1)
  }

  function From32(s: Bytes, at: nat): nat
    requires at + 4 <= |s|
  {
    0x100_0000 * s[at] as nat + From24(s, at + 1)
  }

  /** A tag as a receiver sees it. */
  datatype Received = Received(tag: Tag, ts: nat, streamId: byte)

  function ParseVideo(p: Bytes): Option<Tag> {
    if |p| < 5 || (p[0] != 0x17 && p[0] != 0x27) then None
    else if p[1] == 1 then
      if |p| >= 9 && From32(p, 5) == |p| - 9 then Some(AvcSlice(p[0] == 0x17, p[9..])) else None
    else if p[1] == 0 && p[0] == 0x17 && |p| >= 13 && p[5] == 1 && p[10] == 0xe1 then
      var n := From16(p, 11);
      if |p| >= 16 + n && p[13 + n] == 1 && From16(p, 14 + n) == |p| - (16 + n)
      then Some(AvcHeader(p[6..9], p[13..13 + n], p[16 + n..])) else None
    else None
  }

  function ParseAudio(p: Bytes): Option<Tag> {
    if |p| < 2 || p[0] != AUDIO_TAG_HEADER then None
    else if p[1] == 0 then if |p| == 4 then Some(AacHeader(p[2..])) else None
    else if p[1] == 1 then Some(AacFrame(p[2..]))
    else None
  }

  /** Reads one tag from a packet, by the size in its header; the four bytes after the body are skipped. */
  function Demux(packet: Bytes): Option<Received> {
    if |packet| < FLV_TAG_HEAD_LEN then None
    else
      var size := From24(packet, 1);
      if |packet| < FLV_TAG_HEAD_LEN + size + FLV_PRE_TAG_LEN then None
      else
        var body := packet[FLV_TAG_HEAD_LEN..FLV_TAG_HEAD_LEN + size];
        var tag := if packet[0] == 9 then ParseVideo(body) else if packet[0] == 8 then ParseAudio(body) else None;
        match tag
        case None => None
        case Some(t) => Some(Received(t, From24(packet, 4) + 0x100_0000 * packet[7] as nat, packet[8]))
  }

  // -------------------------------------------------------------------- layout

  /** AAC (10), 44 kHz (3), 16 bits (1), stereo (1). */
  lemma AudioTagHeaderIs()
    ensures AUDIO_TAG_HEADER == 10 * 16 + 3 * 4 + 1 * 2 + 1 == 0xAF
  {
  }

  /** The eleven bytes before the body: type, size, the low 24 bits of the timestamp, its high 8 bits, stream id. */
  lemma HeaderLayout(t: Tag, ts: word, absTs: nat)
    ensures var b := TagBytes(t, ts, absTs);
            && |b| == 11 + |Body(t)|
            && b[0] == (if t.AvcHeader? || t.AvcSlice? then 9 else 8)
            && 65536 * b[1] as nat + 256 * b[2] as nat + b[3] as nat == |Body(t)| % 0x100_0000
            && 65536 * b[4] as nat + 256 * b[5] as nat + b[6] as nat == ts % 0x100_0000 && b[7] == ts / 0x100_0000
            && b[8] == absTs % 256 && b[9] == 0 && b[10] == 0 && b[11..] == Body(t)
  {
    hide Body;
    BigEndian(|Body(t)|);
    BigEndian(ts);
  }

  /** A slice: key frame or inter frame of AVC, NAL unit, no composition time, the length in four bytes, the unit. */
  lemma SliceLayout(key: bool, nal: Bytes)
    ensures var b := Body(AvcSlice(key, nal));
            && |b| == 9 + |nal| && b[0] == (if key then 0x17 else 0x27) && b[1] == 1 && b[2] == 0 && b[3] == 0
              && b[4] == 0
            && (|nal| < 0x1_0000_0000 ==>
                  16777216 * b[5] as nat + 65536 * b[6] as nat + 256 * b[7] as nat + b[8] as nat == |nal|)
            && b[9..] == nal
  {
    BigEndian(|nal|);
  }

  /** The configuration record: version 1, three profile bytes, 4-byte lengths, one SPS, one PPS. */
  lemma RecordLayout(profile: Triple, sps: Bytes, pps: Bytes)
    ensures var b := Body(AvcHeader(profile, sps, pps));
            && |b| == 16 + |sps| + |pps|
            && b[..6] == [0x17, 0, 0, 0, 0, 1] && b[6..9] == profile && b[9] == 0xff && b[10] == 0xe1
            && (|sps| < 0x1_0000 ==> 256 * b[11] as nat + b[12] as nat == |sps|)
  {
    BigEndian(|sps|);
  }

  lemma RecordContents(profile: Triple, sps: Bytes, pps: Bytes)
    ensures var b, n := Body(AvcHeader(profile, sps, pps)), |sps|;
            && |b| == 16 + n + |pps| && b[13..13 + n] == sps && b[13 + n] == 1 && b[16 + n..] == pps
            && (|pps| < 0x1_0000 ==> 256 * b[14 + n] as nat + b[15 + n] as nat == |pps|)
  {
    BigEndian(|pps|);
  }

  lemma AudioLayout(config: Pair, data: Bytes)
    ensures Body(AacHeader(config)) == [0xAF, 0, config[0], config[1]]
    ensures Body(AacFrame(data)) == [0xAF, 1] + data
  {
  }

  // --------------------------------------------------------------- round trip

  /** The length fields hold the lengths. */
  predicate Fits(t: Tag) {
    && |Body(t)| < 0x100_0000
    && (t.AvcHeader? ==> |t.sps| < 0x1_0000 && |t.pps| < 0x1_0000)
  }

  lemma BigEndian(n: nat)
    ensures n < 0x1_0000 ==> 0x100 * Low(n / 0x100) as nat + Low(n) as nat == n
    ensures n < 0x100_0000 ==> 0x1_0000 * Low(n / 0x1_0000) as nat + 0x100 * Low(n / 0x100) as nat + Low(n) as nat == n
    ensures 0x1_0000 * Low(n / 0x1_0000) as nat + 0x100 * Low(n / 0x100) as nat + Low(n) as nat == n % 0x100_0000
    ensures n < 0x1_0000_0000 ==>
              0x100_0000 * Low(n / 0x100_0000) as nat + 0x1_0000 * Low(n / 0x1_0000) as nat
                + 0x100 * Low(n / 0x100) as nat + Low(n) as nat == n
  {
    var a, b, c := n / 0x100, n / 0x1_0000, n / 0x100_0000;
    assert a / 0x100 == b && b / 0x100 == c;
    assert n == 0x100 * a + n % 0x100 && a == 0x100 * b + a % 0x100 && b == 0x100 * c + b % 0x100;
  }

  lemma ParseBody(t: Tag)
    requires Fits(t)
    ensures (if Kind(t) == 9 then ParseVideo(Body(t)) else ParseAudio(Body(t))) == Some(t)
  {
    var p := Body(t);
    match t
    case AvcHeader(profile, sps, pps) =>
      BigEndian(|sps|);
      BigEndian(|pps|);
      assert p[6..9] == profile && p[13..13 + |sps|] == sps && p[16 + |sps|..] == pps;
    case AvcSlice(key, nal) =>
      BigEndian(|nal|);
      assert p[9..] == nal;
    case AacHeader(config) => assert p[2..] == config;
    case AacFrame(data) => assert p[2..] == data;
  }

  /** What is parsed out of a body always fits, and is as long as the body. */
  lemma ParsedFits(p: Bytes)
    ensures ParseVideo(p).Some? ==>
              var t := ParseVideo(p).value;
              |Body(t)| == |p| && (t.AvcHeader? ==> |t.sps| < 0x1_0000 && |t.pps| < 0x1_0000)
    ensures ParseAudio(p).Some? ==> |Body(ParseAudio(p).value)| == |p| && !ParseAudio(p).value.AvcHeader?
  {
  }

  lemma HeaderFields(kind: byte, bodyLen: nat, ts: word, absTs: nat, rest: Bytes)
    ensures var packet := Header(kind, bodyLen, ts, absTs) + rest;
            && packet[0] == kind && From24(packet, 1) == bodyLen % 0x100_0000
            && From24(packet, 4) + 0x100_0000 * packet[7] as nat == ts && packet[8] == Low(absTs)
            && packet[FLV_TAG_HEAD_LEN..] == rest
  {
    BigEndian(bodyLen);
    BigEndian(ts);
  }

  /** A receiver gets back the tag, the full 32-bit timestamp and the stream id byte from a written packet, whatever the
      four trailing bytes hold, exactly when the lengths fit their fields. */
  lemma DemuxUndoesTagBytes(t: Tag, ts: word, absTs: nat, tail: Bytes)
    requires |tail| == FLV_PRE_TAG_LEN
    ensures Demux(TagBytes(t, ts, absTs) + tail) == Some(Received(t, ts, Low(absTs))) <==> Fits(t)
  {
    hide Header, Body, ParseVideo, ParseAudio, From24;
    var packet := TagBytes(t, ts, absTs) + tail;
    var body := Body(t);
    HeaderFields(Kind(t), |body|, ts, absTs, body + tail);
    assert packet == Header(Kind(t), |body|, ts, absTs) + (body + tail);
    var size := From24(packet, 1);
    var seen := packet[FLV_TAG_HEAD_LEN..FLV_TAG_HEAD_LEN + size];
    assert seen == (body + tail)[..size];
    ParsedFits(seen);
    if Fits(t) {
      assert seen == body;
      ParseBody(t);
    } else if |body| < 0x100_0000 {
      assert seen == body;
    }
  }
}
