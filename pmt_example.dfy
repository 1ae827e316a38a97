/**
 * The program map table of the container's own test: program 10, version 0,
 * current, PCR on PID 32, no program descriptors, a stream of type 2 on PID
 * 32 and a stream of type 4 on PID 33 carrying one descriptor (tag 10, the
 * four bytes 65 6e 67 00).
 */
module PmtExample {
  import opened Bits
  import opened Wrappers
  import opened BitReader
  import opened PsiSections
  import opened PmtTables
  import opened Text

  const PmtBytes: seq<byte> := [0x00, 0x02, 0xb0, 0x1d, 0x00, 0x0a, 0xc1,
    0x00, 0x00, 0xe0, 0x20, 0xf0, 0x00, 0x02, 0xe0, 0x20,
    0xf0, 0x00, 0x04, 0xe0, 0x21, 0xf0, 0x06, 0x0a, 0x04,
    0x65, 0x6e, 0x67, 0x00, 0x75, 0xff, 0x59, 0x3a]

  /** The audio stream's descriptor: ReadHex puts a space before each byte's digits. */
  const LanguageDescriptor := Descriptor(10, " 65 6e 67 0")

  const VideoStream := DataStream(32, 2, [])
  const AudioStream := DataStream(33, 4, [LanguageDescriptor])

  // ----- the fields the bytes hold -----

  /** The bytes of the test's table up to its CRC, stated one by one. */
  predicate PmtLayout(bs: seq<byte>)
  {
    |bs| == 33
    && bs[0] == 0x00 && bs[1] == 0x02 && bs[2] == 0xb0 && bs[3] == 0x1d && bs[4] == 0x00 && bs[5] == 0x0a
    && bs[6] == 0xc1 && bs[7] == 0x00 && bs[8] == 0x00 && bs[9] == 0xe0 && bs[10] == 0x20 && bs[11] == 0xf0
    && bs[12] == 0x00 && bs[13] == 0x02 && bs[14] == 0xe0 && bs[15] == 0x20 && bs[16] == 0xf0 && bs[17] == 0x00
    && bs[18] == 0x04 && bs[19] == 0xe0 && bs[20] == 0x21 && bs[21] == 0xf0 && bs[22] == 0x06 && bs[23] == 0x0a
    && bs[24] == 0x04 && bs[25] == 0x65 && bs[26] == 0x6e && bs[27] == 0x67 && bs[28] == 0x00
  }

  lemma LayoutOfExample()
    ensures PmtLayout(PmtBytes)
  {
  }

  /** Bytes 00 02 b0 1d 00 0a c1: no filler, table_id 2, the indicators, section_length 29, program 10, version 0, current. */
  predicate HeaderValues(bits: seq<bool>)
  {
    |bits| >= 72 && Field(bits, 0, 8) == 0 && Field(bits, 8, 8) == 2 && IndicatorValues(bits)
    && Field(bits, 32, 16) == 10 && Field(bits, 48, 2) == 3 && Field(bits, 50, 5) == 0 && bits[55]
  }

  predicate IndicatorValues(bits: seq<bool>)
  {
    |bits| >= 32
    && Field(bits, 16, 1) == 1 && Field(bits, 17, 1) == 0 && Field(bits, 18, 2) == 3 && Field(bits, 20, 2) == 0
    && Field(bits, 22, 10) == 29
  }

  /** Bytes e0 20 f0 00: PCR_PID 32 between its reserved bits, program_info_length 0. */
  predicate ProgramValues(bits: seq<bool>)
  {
    |bits| >= 104
    && Field(bits, 72, 3) == 7 && Field(bits, 75, 13) == 32 && Field(bits, 88, 4) == 15 && Field(bits, 94, 10) == 0
  }

  /** Bytes 02 e0 20 f0 00: stream_type 2 on PID 32, ES_info_length 0. */
  predicate VideoValues(bits: seq<bool>)
  {
    |bits| >= 144
    && Field(bits, 104, 8) == 2 && Field(bits, 112, 3) == 7 && Field(bits, 115, 13) == 32
    && Field(bits, 128, 4) == 15 && Field(bits, 132, 2) == 0 && Field(bits, 134, 10) == 0
  }

  /** Bytes 04 e0 21 f0 06 0a 04 65 6e 67 00: stream_type 4 on PID 33, ES_info_length 6, one descriptor. */
  predicate AudioValues(bits: seq<bool>)
  {
    |bits| >= 232
    && Field(bits, 144, 8) == 4 && Field(bits, 152, 3) == 7 && Field(bits, 155, 13) == 33
    && Field(bits, 168, 4) == 15 && Field(bits, 172, 2) == 0 && Field(bits, 174, 10) == 6
    && Field(bits, 184, 8) == 10 && Field(bits, 192, 8) == 4 && HexText(bits, 200, 4) == LanguageDescriptor.content
  }

  lemma HeaderFields(bs: seq<byte>)
    requires |bs| >= 9 && bs[0] == 0x00 && bs[1] == 0x02 && bs[2] == 0xb0 && bs[3] == 0x1d
    requires bs[4] == 0x00 && bs[5] == 0x0a && bs[6] == 0xc1 && bs[7] == 0x00
    ensures HeaderValues(BitsOf(bs))
  {
    FieldByte(bs, 0);
    FieldByte(bs, 1);
    IndicatorFields(bs);
    ExtensionField(bs);
    VersionFields(bs);
  }

  /** Bytes b0 1d: the indicators 1, 0, 11, 00 and section_length 29. */
  lemma IndicatorFields(bs: seq<byte>)
    requires |bs| >= 4 && bs[2] == 0xb0 && bs[3] == 0x1d
    ensures IndicatorValues(BitsOf(bs))
  {
    SmallPowers();
    FieldOfPair(bs, 2, 16, 1, 0xb01d, 0x8000, 2);
    FieldOfPair(bs, 2, 17, 1, 0xb01d, 0x4000, 2);
    FieldOfPair(bs, 2, 18, 2, 0xb01d, 0x1000, 4);
    FieldOfPair(bs, 2, 20, 2, 0xb01d, 0x400, 4);
    FieldOfPair(bs, 2, 22, 10, 0xb01d, 1, 0x400);
  }

  /** Bytes 00 0a: program_number 10. */
  lemma ExtensionField(bs: seq<byte>)
    requires |bs| >= 6 && bs[4] == 0x00 && bs[5] == 0x0a
    ensures Field(BitsOf(bs), 32, 16) == 10
  {
    SmallPowers();
    FieldOfPair(bs, 4, 32, 16, 0x000a, 1, 0x1_0000);
  }

  /** Byte c1: reserved 11, version 0, current_next_indicator 1. */
  lemma VersionFields(bs: seq<byte>)
    requires |bs| >= 8 && bs[6] == 0xc1 && bs[7] == 0x00
    ensures Field(BitsOf(bs), 48, 2) == 3 && Field(BitsOf(bs), 50, 5) == 0 && BitsOf(bs)[55]
  {
    SmallPowers();
    FieldOfPair(bs, 6, 48, 2, 0xc100, 0x4000, 4);
    FieldOfPair(bs, 6, 50, 5, 0xc100, 0x200, 32);
    FieldOfPair(bs, 6, 55, 1, 0xc100, 0x100, 2);
    FieldOfOne(BitsOf(bs), 55);
  }

  /** Bytes e0 pid: reserved 111 and a 13-bit PID below 256. */
  lemma PidFields(bs: seq<byte>, i: nat, pid: nat)
    requires i + 2 <= |bs| && bs[i] == 0xe0 && bs[i + 1] as int == pid
    ensures Field(BitsOf(bs), 8 * i, 3) == 7 && Field(BitsOf(bs), 8 * i + 3, 13) == pid
  {
    SmallPowers();
    DivModUnique(0xe000 + pid, 0x2000, 7, pid);
    DivModUnique(0xe000 + pid, 1, 0xe000 + pid, 0);
    FieldOfPair(bs, i, 8 * i, 3, 0xe000 + pid, 0x2000, 8);
    FieldOfPair(bs, i, 8 * i + 3, 13, 0xe000 + pid, 1, 0x2000);
  }

  /** Bytes f0 len: reserved 1111, unused 00 and a 10-bit length below 256. */
  lemma LengthFields(bs: seq<byte>, i: nat, len: nat)
    requires i + 2 <= |bs| && bs[i] == 0xf0 && bs[i + 1] as int == len
    ensures Field(BitsOf(bs), 8 * i, 4) == 15 && Field(BitsOf(bs), 8 * i + 4, 2) == 0
    ensures Field(BitsOf(bs), 8 * i + 6, 10) == len
  {
    SmallPowers();
    DivModUnique(0xf000 + len, 0x1000, 15, len);
    DivModUnique(0xf000 + len, 0x400, 60, len);
    DivModUnique(0xf000 + len, 1, 0xf000 + len, 0);
    DivModUnique(60, 4, 15, 0);
    DivModUnique(15, 16, 0, 15);
    FieldOfPair(bs, i, 8 * i, 4, 0xf000 + len, 0x1000, 16);
    FieldOfPair(bs, i, 8 * i + 4, 2, 0xf000 + len, 0x400, 4);
    FieldOfPair(bs, i, 8 * i + 6, 10, 0xf000 + len, 1, 0x400);
  }

  lemma ProgramFields(bs: seq<byte>)
    requires |bs| >= 13 && bs[9] == 0xe0 && bs[10] == 0x20 && bs[11] == 0xf0 && bs[12] == 0x00
    ensures ProgramValues(BitsOf(bs))
  {
    PidFields(bs, 9, 32);
    LengthFields(bs, 11, 0);
  }

  lemma VideoFields(bs: seq<byte>)
    requires |bs| >= 18 && bs[13] == 0x02 && bs[14] == 0xe0 && bs[15] == 0x20 && bs[16] == 0xf0 && bs[17] == 0x00
    ensures VideoValues(BitsOf(bs))
  {
    FieldByte(bs, 13);
    PidFields(bs, 14, 32);
    LengthFields(bs, 16, 0);
  }

  lemma AudioFields(bs: seq<byte>)
    requires PmtLayout(bs)
    ensures AudioValues(BitsOf(bs))
  {
    FieldByte(bs, 18);
    PidFields(bs, 19, 33);
    LengthFields(bs, 21, 6);
    FieldByte(bs, 23);
    FieldByte(bs, 24);
    DescriptorText(bs);
  }

  /** The descriptor's four bytes as ReadHex prints them. */
  lemma DescriptorText(bs: seq<byte>)
    requires |bs| >= 29 && bs[25] == 0x65 && bs[26] == 0x6e && bs[27] == 0x67 && bs[28] == 0x00
    ensures HexText(BitsOf(bs), 200, 4) == LanguageDescriptor.content
  {
    assert bs[25..29] == [0x65, 0x6e, 0x67, 0x00];
    HexTextBytes(bs, 25, 4);
    LanguageText();
  }

  lemma LanguageText()
    ensures FormatHex([0x65, 0x6e, 0x67, 0x00]) == " 65 6e 67 0"
  {
    var t: seq<byte> := [0x65, 0x6e, 0x67, 0x00];
    LanguageDigits();
    assert t[..0] == [] && t[..1] == [0x65] && t[..2] == [0x65, 0x6e] && t[..3] == [0x65, 0x6e, 0x67];
    FormatHexLast(t[..1]);
    FormatHexLast(t[..2]);
    FormatHexLast(t[..3]);
    FormatHexLast(t);
  }

  lemma LanguageDigits()
    ensures HexOf(0x65) == "65" && HexOf(0x6e) == "6e" && HexOf(0x67) == "67" && HexOf(0) == "0"
  {
    assert HexOf(6) == "6";
  }

  // ----- the table from those fields -----

  lemma HeaderOf(bits: seq<bool>)
    requires |bits| == 264 && HeaderValues(bits)
    ensures SectionHeaderOf(bits) == Ok(Step(SectionHeader(2, 29, 10, 0, true), 72))
  {
    assert TableStart(bits) == Ok(8);
    assert FlagChecks(bits, 16) == Ok(22);
    HeaderAtOk(bits, 8, SectionHeader(2, 29, 10, 0, true));
  }

  lemma ProgramOf(bits: seq<bool>)
    requires |bits| == 264 && ProgramValues(bits)
    ensures ProgramAt(bits, 72) == Ok(Step((0, []), 104))
  {
    assert ReservedPidAt(bits, 72) == Ok(Step(32, 92));
    assert ProgramInfoAt(bits, 72) == Ok(Step(0, 104));
    assert DescriptorsFrom(bits, 104, 0, []) == Ok(Step([], 104));
  }

  lemma VideoOf(bits: seq<bool>)
    requires |bits| == 264 && VideoValues(bits)
    ensures StreamAt(bits, 104) == Ok(Step((VideoStream, 0), 144))
  {
    assert ReservedPidAt(bits, 112) == Ok(Step(32, 132));
    assert StreamIdAt(bits, 104) == Ok(Step((2, 32), 132));
    assert StreamHeadAt(bits, 104) == Ok(Step(StreamHead(2, 32, 0), 144));
    assert DescriptorsFrom(bits, 144, 0, []) == Ok(Step([], 144));
  }

  lemma AudioOf(bits: seq<bool>)
    requires |bits| == 264 && AudioValues(bits)
    ensures StreamAt(bits, 144) == Ok(Step((AudioStream, 6), 232))
  {
    assert ReservedPidAt(bits, 152) == Ok(Step(33, 172));
    assert StreamIdAt(bits, 144) == Ok(Step((4, 33), 172));
    assert StreamHeadAt(bits, 144) == Ok(Step(StreamHead(4, 33, 6), 184));
    AudioDescriptors(bits);
  }

  lemma AudioDescriptors(bits: seq<bool>)
    requires |bits| == 264 && AudioValues(bits)
    ensures DescriptorsFrom(bits, 184, 6, []) == Ok(Step([LanguageDescriptor], 232))
  {
    assert DescriptorAt(bits, 184) == Ok(Step((LanguageDescriptor, 4), 232));
    assert DescriptorsFrom(bits, 232, 0, [LanguageDescriptor]) == Ok(Step([LanguageDescriptor], 232));
    assert [] + [LanguageDescriptor] == [LanguageDescriptor];
    assert DescriptorsNext(bits, 184, 6, []) == Ok(Step([LanguageDescriptor], 232));
  }

  /** The stream loop: 16 bytes are left, the video stream takes 5 and the audio stream 11. */
  lemma StreamsOfExample(bits: seq<bool>)
    requires |bits| == 264 && StreamAt(bits, 104) == Ok(Step((VideoStream, 0), 144))
    requires StreamAt(bits, 144) == Ok(Step((AudioStream, 6), 232))
    ensures StreamsOf(bits, 104, 16) == Ok(Step([VideoStream, AudioStream], 232))
  {
    var both := [VideoStream, AudioStream];
    assert [] + [VideoStream] == [VideoStream] && [VideoStream] + [AudioStream] == both;
    assert StreamsFrom(bits, 232, 0, both) == Ok(Step(both, 232));
    assert StreamsNext(bits, 144, 11, [VideoStream]) == Ok(Step(both, 232));
    assert StreamsAfter(bits, 144, 11, [VideoStream]) == Ok(Step(both, 232));
    assert StreamsFrom(bits, 144, 11, [VideoStream]) == Ok(Step(both, 232));
    assert StreamsNext(bits, 104, 16, []) == Ok(Step(both, 232));
    assert StreamsAfter(bits, 104, 16, []) == Ok(Step(both, 232));
    assert StreamsFrom(bits, 104, 16, []) == Ok(Step(both, 232));
  }

  /** The test's table, as ParsePMT is expected to give it for PID 258. */
  lemma PmtExampleParsed()
    ensures PmtAt(BitsOf(PmtBytes), 258, 0) == Ok(CreatePmt(258, 2, 10, 0, true, [], [VideoStream, AudioStream], -1))
  {
    LayoutOfExample();
    PmtOfLayout(PmtBytes);
  }

  lemma PmtOfLayout(bs: seq<byte>)
    requires PmtLayout(bs)
    ensures PmtAt(BitsOf(bs), 258, 0) == Ok(CreatePmt(258, 2, 10, 0, true, [], [VideoStream, AudioStream], -1))
  {
    PmtHeadFields(bs);
    PmtStreamFields(bs);
    PmtOfFields(BitsOf(bs));
  }

  lemma PmtHeadFields(bs: seq<byte>)
    requires PmtLayout(bs)
    ensures |BitsOf(bs)| == 264 && HeaderValues(BitsOf(bs)) && ProgramValues(BitsOf(bs))
  {
    HeaderFields(bs);
    ProgramFields(bs);
  }

  lemma PmtStreamFields(bs: seq<byte>)
    requires PmtLayout(bs)
    ensures VideoValues(BitsOf(bs)) && AudioValues(BitsOf(bs))
  {
    VideoFields(bs);
    AudioFields(bs);
  }

  lemma PmtOfFields(bits: seq<bool>)
    requires |bits| == 264 && HeaderValues(bits) && ProgramValues(bits) && VideoValues(bits) && AudioValues(bits)
    ensures PmtAt(bits, 258, 0) == Ok(CreatePmt(258, 2, 10, 0, true, [], [VideoStream, AudioStream], -1))
  {
    HeaderOf(bits);
    ProgramOf(bits);
    VideoOf(bits);
    AudioOf(bits);
    StreamsOfExample(bits);
    assert BodyAt(bits, 72, 29) == Ok(Step(Body([], [VideoStream, AudioStream]), 232));
  }

  /** ParsePMT on the test's bytes: two streams, (32, type 2) and (33, type 4, one descriptor). */
  method ParsePmtExample() returns (r: Result<Pmt, SectionError>)
    ensures r == Ok(CreatePmt(258, 2, 10, 0, true, [], [VideoStream, AudioStream], -1))
  {
    PmtExampleParsed();
    r := ParsePmt(PmtBytes, 258, 0);
  }
}
