/**
 * The four PES headers of the container model's own test: no timestamp, a PTS
 * that is also the DTS, a PTS and a different DTS, and a packet length of zero.
 * Each optional header is the one the test builds with CreateOptionalPESHeader:
 * not scrambled, data aligned.
 */
module PesExample {
  import opened Bits
  import opened Wrappers
  import opened PesHeaders

  const NoTimestampBytes: seq<byte> := [0x00, 0x00, 0x01, 0xea, 0x17, 0xb2, 0x8f, 0x00, 0x00]
  const EqualTimestampBytes: seq<byte> := [0x00, 0x00, 0x01, 0xea, 0x17, 0xb2, 0x8f, 0x80, 0x05, 0x21, 0x00, 0x2b, 0x4d, 0xbb]
  const DiffTimestampBytes: seq<byte> := [0x00, 0x00, 0x01, 0xea, 0x7d, 0xb2, 0x8f, 0xc0, 0x0a, 0x31, 0x00, 0x2b, 0x85, 0xfb,
                                          0x11, 0x00, 0x2b, 0x31, 0x9b]
  const ZeroLengthBytes: seq<byte> := [0x00, 0x00, 0x01, 0xea, 0x00, 0x00, 0x8f, 0x00, 0x00, 0x01, 0x02, 0x03, 0x04, 0x05]

  /** CreateOptionalPESHeader: not scrambled, data aligned. */
  function AlignedHeader(length: int, pts: int, dts: int): (o: OptionalHeader)
    ensures !o.scrambled && o.dataAligned
  {
    OptionalHeader(false, true, length, pts, dts)
  }

  // ----- the fixed part -----

  /**
   * A buffer that starts with the start code: the stream id and the packet
   * length come from bytes 3 to 5 and the optional header from byte 6 on.
   */
  lemma PesOf(buf: seq<byte>, streamId: int, pesLen: int, o: OptionalHeader)
    requires |buf| >= 6 && buf[0] == 0 && buf[1] == 0 && buf[2] == 1
    requires buf[3] as int == streamId && buf[4] as int * 0x100 + buf[5] as int == pesLen
    requires DecodeOptionalHeader(BitsOf(buf[6..])) == Ok(o)
    ensures DecodePes(BitsOf(buf)) == Ok(ParsedPes(PesHeader(streamId,
      if pesLen != 0 then pesLen - o.length else |buf| - 6 - o.length, o), 6 + o.length))
  {
    var bits := BitsOf(buf);
    StartCodeBytes(buf);
    FieldByte(buf, 3);
    SmallPowers();
    FieldOfPair(buf, 4, 32, 16, pesLen, 1, 0x1_0000);
    BitsOfSuffix(buf, 6);
    PesRead(bits, streamId, pesLen, o, if pesLen != 0 then pesLen - o.length else |buf| - 6 - o.length, 6 + o.length);
  }

  // ----- the optional header -----

  /** Byte 8f, the flags byte and the header length: marker 10, not scrambled, data aligned. */
  lemma FlagFields(bs: seq<byte>, v: nat)
    requires |bs| >= 3 && bs[0] == 0x8f && v == 0x8f00 + bs[1] as int
    ensures Field(BitsOf(bs), 0, 2) == 2 && Field(BitsOf(bs), 2, 2) == 0 && BitsOf(bs)[5]
    ensures Field(BitsOf(bs), 8, 2) == bs[1] as int / 64 && Field(BitsOf(bs), 16, 8) == bs[2]
  {
    SmallPowers();
    DivModUnique(v, 0x4000, 2, 0xf00 + bs[1] as int);
    DivModUnique(v, 0x1000, 8, 0xf00 + bs[1] as int);
    DivModUnique(v, 0x400, 0x23, 0x300 + bs[1] as int);
    DivModUnique(v / 0x400, 2, 0x11, 1);
    DivModUnique(v, 0x40, 0x23c + bs[1] as int / 64, bs[1] as int % 64);
    FieldOfPair(bs, 0, 0, 2, v, 0x4000, 4);
    FieldOfPair(bs, 0, 2, 2, v, 0x1000, 4);
    FieldOfPair(bs, 0, 5, 1, v, 0x400, 2);
    FieldOfOne(BitsOf(bs), 5);
    FieldOfPair(bs, 0, 8, 2, v, 0x40, 4);
    FieldByte(bs, 2);
  }

  /**
   * The five timestamp bytes from byte i, given as the 16-bit values v1 (bytes
   * i, i + 1), v2 (bytes i + 1, i + 2) and v3 (bytes i + 3, i + 4): the prefix
   * and the 33-bit value between the markers.
   */
  lemma TimestampBytes(bs: seq<byte>, i: nat, v1: nat, v2: nat, v3: nat)
    requires i + 5 <= |bs|
    requires v1 == bs[i] as int * 0x100 + bs[i + 1] as int && v2 == bs[i + 1] as int * 0x100 + bs[i + 2] as int
    requires v3 == bs[i + 3] as int * 0x100 + bs[i + 4] as int
    ensures 8 * i + 40 <= |BitsOf(bs)|
    ensures Field(BitsOf(bs), 8 * i, 4) == (v1 / 0x1000) % 16
    ensures TimestampAt(BitsOf(bs), 8 * i + 4) == ((v1 / 0x200) % 8 * 0x8000 + (v2 / 2) % 0x8000) * 0x8000 + (v3 / 2) % 0x8000
  {
    SmallPowers();
    FieldOfPair(bs, i, 8 * i, 4, v1, 0x1000, 16);
    FieldOfPair(bs, i, 8 * i + 4, 3, v1, 0x200, 8);
    FieldOfPair(bs, i + 1, 8 * i + 8, 15, v2, 2, 0x8000);
    FieldOfPair(bs, i + 3, 8 * i + 24, 15, v3, 2, 0x8000);
  }

  /** The timestamp field at byte i: its prefix is sync and its value the 33 bits between the markers. */
  lemma TimestampFieldAt(bs: seq<byte>, i: nat, v1: nat, v2: nat, v3: nat, sync: int, flag: int, isDts: bool, value: int)
    requires i + 5 <= |bs|
    requires v1 == bs[i] as int * 0x100 + bs[i + 1] as int && v2 == bs[i + 1] as int * 0x100 + bs[i + 2] as int
    requires v3 == bs[i + 3] as int * 0x100 + bs[i + 4] as int
    requires sync == (v1 / 0x1000) % 16
    requires value == ((v1 / 0x200) % 8 * 0x8000 + (v2 / 2) % 0x8000) * 0x8000 + (v3 / 2) % 0x8000
    ensures TimestampField(BitsOf(bs), 8 * i, sync, flag, isDts) == Ok(value)
  {
    TimestampBytes(bs, i, v1, v2, v3);
  }

  /** An optional header whose marker, flags, header length and timestamps are known. */
  lemma OptionalOf(bits: seq<bool>, flag: int, headerLen: int, t: Timestamps)
    requires |bits| >= 24 && Field(bits, 0, 2) == 2 && Field(bits, 2, 2) == 0 && bits[5]
    requires Field(bits, 8, 2) == flag && Field(bits, 16, 8) == headerLen
    requires DecodeTimestamps(bits, flag) == Ok(t)
    requires 8 * (headerLen - t.size) <= |bits| - (24 + 8 * t.size)
    ensures DecodeOptionalHeader(bits) == Ok(AlignedHeader(headerLen + 3, t.pts, t.dts))
  {
  }

  /** Flags 00, header length 0: no timestamps, a three-byte optional header. */
  lemma NoTimestampOptional(bs: seq<byte>)
    requires |bs| >= 3 && bs[0] == 0x8f && bs[1] == 0x00 && bs[2] == 0x00
    ensures DecodeOptionalHeader(BitsOf(bs)) == Ok(AlignedHeader(3, -1, -1))
  {
    FlagFields(bs, 0x8f00);
    OptionalOf(BitsOf(bs), 0, 0, Timestamps(-1, -1, 0));
  }

  /** Flags 80, header length 5, then 21 00 2b 4d bb: the PTS 698077, which is also the DTS. */
  lemma EqualTimestampOptional(bs: seq<byte>)
    requires |bs| == 8 && bs[0] == 0x8f && bs[1] == 0x80 && bs[2] == 0x05
    requires bs[3] == 0x21 && bs[4] == 0x00 && bs[5] == 0x2b && bs[6] == 0x4d && bs[7] == 0xbb
    ensures DecodeOptionalHeader(BitsOf(bs)) == Ok(AlignedHeader(8, 698077, 698077))
  {
    FlagFields(bs, 0x8f80);
    TimestampFieldAt(bs, 3, 0x2100, 0x002b, 0x4dbb, 2, 2, false, 698077);
    OptionalOf(BitsOf(bs), 2, 5, Timestamps(698077, 698077, 5));
  }

  /** Flags c0, header length 10: the PTS 705277 after prefix 3 and the DTS 694477 after prefix 1. */
  lemma DiffTimestampOptional(bs: seq<byte>)
    requires |bs| == 13 && bs[0] == 0x8f && bs[1] == 0xc0 && bs[2] == 0x0a
    requires bs[3] == 0x31 && bs[4] == 0x00 && bs[5] == 0x2b && bs[6] == 0x85 && bs[7] == 0xfb
    requires bs[8] == 0x11 && bs[9] == 0x00 && bs[10] == 0x2b && bs[11] == 0x31 && bs[12] == 0x9b
    ensures DecodeOptionalHeader(BitsOf(bs)) == Ok(AlignedHeader(13, 705277, 694477))
  {
    FlagFields(bs, 0x8fc0);
    DiffTimestamps(bs);
    OptionalOf(BitsOf(bs), 3, 10, Timestamps(705277, 694477, 10));
  }

  /** The timestamps of the header above: 31 00 2b 85 fb, then 11 00 2b 31 9b. */
  lemma DiffTimestamps(bs: seq<byte>)
    requires |bs| == 13
    requires bs[3] == 0x31 && bs[4] == 0x00 && bs[5] == 0x2b && bs[6] == 0x85 && bs[7] == 0xfb
    requires bs[8] == 0x11 && bs[9] == 0x00 && bs[10] == 0x2b && bs[11] == 0x31 && bs[12] == 0x9b
    ensures DecodeTimestamps(BitsOf(bs), 3) == Ok(Timestamps(705277, 694477, 10))
  {
    TimestampFieldAt(bs, 3, 0x3100, 0x002b, 0x85fb, 3, 3, false, 705277);
    TimestampFieldAt(bs, 8, 0x1100, 0x002b, 0x319b, 1, 3, true, 694477);
  }

  // ----- the four headers -----

  /** No timestamp: packet length 0x17b2 less the 3-byte optional header. */
  lemma NoTimestampExample()
    ensures DecodePes(BitsOf(NoTimestampBytes)) == Ok(ParsedPes(PesHeader(234, 6063, AlignedHeader(3, -1, -1)), 9))
  {
    var buf := NoTimestampBytes;
    NoTimestampOptional(buf[6..]);
    PesOf(buf, 234, 0x17b2, AlignedHeader(3, -1, -1));
  }

  /** PTS equal to DTS: packet length 0x17b2 less the 8-byte optional header. */
  lemma EqualTimestampExample()
    ensures DecodePes(BitsOf(EqualTimestampBytes)) == Ok(ParsedPes(PesHeader(234, 6058, AlignedHeader(8, 698077, 698077)), 14))
  {
    var buf := EqualTimestampBytes;
    EqualTimestampOptional(buf[6..]);
    PesOf(buf, 234, 0x17b2, AlignedHeader(8, 698077, 698077));
  }

  /** Different PTS and DTS: packet length 0x7db2 less the 13-byte optional header. */
  lemma DiffTimestampExample()
    ensures DecodePes(BitsOf(DiffTimestampBytes)) == Ok(ParsedPes(PesHeader(234, 32165, AlignedHeader(13, 705277, 694477)), 19))
  {
    var buf := DiffTimestampBytes;
    DiffTimestampOptional(buf[6..]);
    PesOf(buf, 234, 0x7db2, AlignedHeader(13, 705277, 694477));
  }

  /** Packet length zero: the eight bytes after the fixed part less the 3-byte optional header. */
  lemma ZeroLengthExample()
    ensures DecodePes(BitsOf(ZeroLengthBytes)) == Ok(ParsedPes(PesHeader(234, 5, AlignedHeader(3, -1, -1)), 9))
  {
    var buf := ZeroLengthBytes;
    NoTimestampOptional(buf[6..]);
    PesOf(buf, 234, 0, AlignedHeader(3, -1, -1));
  }

  /** ParsePESHeader on the test's four buffers. */
  method ParsePesExamples() returns (none: Result<ParsedPes, PesError>, equal: Result<ParsedPes, PesError>,
                                     diff: Result<ParsedPes, PesError>, zero: Result<ParsedPes, PesError>)
    ensures none == Ok(ParsedPes(PesHeader(234, 6063, AlignedHeader(3, -1, -1)), 9))
    ensures equal == Ok(ParsedPes(PesHeader(234, 6058, AlignedHeader(8, 698077, 698077)), 14))
    ensures diff == Ok(ParsedPes(PesHeader(234, 32165, AlignedHeader(13, 705277, 694477)), 19))
    ensures zero == Ok(ParsedPes(PesHeader(234, 5, AlignedHeader(3, -1, -1)), 9))
  {
    NoTimestampExample();
    EqualTimestampExample();
    DiffTimestampExample();
    ZeroLengthExample();
    none := ParsePESHeader(NoTimestampBytes);
    equal := ParsePESHeader(EqualTimestampBytes);
    diff := ParsePESHeader(DiffTimestampBytes);
    zero := ParsePESHeader(ZeroLengthBytes);
  }
}
