/**
 * The packet of the pcap reader's unit test, layer by layer: a little-endian
 * record header, then an Ethernet header, an IPv4 header of 20 bytes and a
 * UDP datagram carrying two bytes.
 */
module PcapExamples {
  import opened Wrappers
  import opened Bits
  import opened BitReader
  import opened Text
  import opened PcapFile

  const RecordBytes: seq<byte> := [0x3d, 0x17, 0x9c, 0x63, 0x14, 0x08, 0x08, 0x00, 0x4e, 0x05, 0x00, 0x00, 0x4e, 0x05, 0x00, 0x00]
  const EthernetBytes: seq<byte> := [0x01, 0x00, 0x5e, 0x01, 0x01, 0x01, 0x00, 0x1e, 0x67, 0xd1, 0x1c, 0xe4, 0x08, 0x00]
  const Ipv4Bytes: seq<byte> := [0x45, 0x00, 0x00, 0x1e, 0xf7, 0x5a, 0x00, 0x00, 0x40, 0x11, 0xe0, 0x30,
                                 0xac, 0x12, 0x0f, 0x0d, 0xe2, 0x01, 0x01, 0x01]
  const UdpBytes: seq<byte> := [0xb4, 0x46, 0x30, 0x22, 0x00, 0x0a, 0xa3, 0x5f, 0x01, 0x02]

  const ExampleUdp := UdpPacket(46150, 12322, 10, 0xa35f, [0x01, 0x02])
  const ExampleIpv4 := Ipv4Packet(4, 20, 30, 0xe030, "172.18.15.13", "226.1.1.1", ExampleUdp)

  /** The record header: seconds, microseconds and the two lengths, each four bytes little-endian. */
  lemma RecordExample(bs: seq<byte>)
    requires bs == RecordBytes
    ensures RecordOf(bs, false) == Ok(RecordHeader(1671173949, 526356, 1358, 1358))
  {
    RecordTimes(bs);
    RecordLengths(bs);
    RecordFromFields(bs, 1671173949, 526356, 1358, 1358);
  }

  lemma RecordTimes(bs: seq<byte>)
    requires bs == RecordBytes
    ensures LittleEndianAt(BitsOf(bs), 0, 4) == 1671173949 && LittleEndianAt(BitsOf(bs), 32, 4) == 526356
  {
    LittleEndianFour(bs, 0);
    LittleEndianFour(bs, 4);
  }

  lemma RecordLengths(bs: seq<byte>)
    requires bs == RecordBytes
    ensures LittleEndianAt(BitsOf(bs), 64, 4) == 1358 && LittleEndianAt(BitsOf(bs), 96, 4) == 1358
  {
    LittleEndianFour(bs, 8);
    LittleEndianFour(bs, 12);
  }

  lemma RecordFromFields(bs: seq<byte>, sec: nat, msec: nat, length: nat, origLength: nat)
    requires |bs| == RecordHeaderSize
    requires LittleEndianAt(BitsOf(bs), 0, 4) == sec && LittleEndianAt(BitsOf(bs), 32, 4) == msec
    requires LittleEndianAt(BitsOf(bs), 64, 4) == length && LittleEndianAt(BitsOf(bs), 96, 4) == origLength
    ensures RecordOf(bs, false) == Ok(RecordHeader(sec, msec, length, origLength))
  {
  }

  /** The UDP header: ports 46150 and 12322, length 10, and the two payload bytes. */
  lemma UdpExample(bs: seq<byte>)
    requires bs == UdpBytes
    ensures UdpOf(bs) == Ok(ExampleUdp)
  {
    UdpPorts(bs);
    UdpLengthChecksum(bs);
    assert bs[8..] == [0x01, 0x02];
    UdpFromFields(bs, ExampleUdp);
  }

  lemma UdpPorts(bs: seq<byte>)
    requires bs == UdpBytes
    ensures Field(BitsOf(bs), 0, 16) == 46150 && Field(BitsOf(bs), 16, 16) == 12322
  {
    BigEndianTwo(bs, 0);
    BigEndianTwo(bs, 2);
  }

  lemma UdpLengthChecksum(bs: seq<byte>)
    requires bs == UdpBytes
    ensures Field(BitsOf(bs), 32, 16) == 10 && Field(BitsOf(bs), 48, 16) == 0xa35f
  {
    BigEndianTwo(bs, 4);
    BigEndianTwo(bs, 6);
  }

  lemma UdpFromFields(bs: seq<byte>, u: UdpPacket)
    requires |bs| >= 8
    requires Field(BitsOf(bs), 0, 16) == u.srcPort && Field(BitsOf(bs), 16, 16) == u.dstPort
    requires Field(BitsOf(bs), 32, 16) == u.length && Field(BitsOf(bs), 48, 16) == u.checksum
    requires bs[8..] == u.payload
    ensures UdpOf(bs) == Ok(u)
  {
  }

  /**
   * The whole frame: destination MAC 01:00:5e:01:01:01, source MAC
   * 00:1e:67:d1:1c:e4, EtherType IPv4, and the IPv4 packet above.
   */
  lemma EthernetExample(buf: seq<byte>)
    requires buf == EthernetBytes + Ipv4Bytes + UdpBytes
    ensures EthernetOf(buf) == Ok(EthernetFrame("01:00:5e:01:01:01", "00:1e:67:d1:1c:e4", EtherTypeIpv4, ExampleIpv4))
  {
    EtherTypeField(buf);
    DestinationMac(buf);
    SourceMac(buf);
    EthernetPayload(buf);
    EthernetFromFields(buf, EthernetFrame("01:00:5e:01:01:01", "00:1e:67:d1:1c:e4", EtherTypeIpv4, ExampleIpv4));
  }

  lemma EtherTypeField(buf: seq<byte>)
    requires buf == EthernetBytes + Ipv4Bytes + UdpBytes
    ensures |buf| >= 14 && Field(BitsOf(buf), 96, 16) == EtherTypeIpv4
  {
    BigEndianTwo(buf, 12);
  }

  lemma EthernetPayload(buf: seq<byte>)
    requires buf == EthernetBytes + Ipv4Bytes + UdpBytes
    ensures |buf| >= 14 && Ipv4Of(buf[14..]) == Ok(ExampleIpv4)
  {
    assert buf[14..] == Ipv4Bytes + UdpBytes;
    Ipv4Example(buf[14..]);
  }

  lemma DestinationMac(buf: seq<byte>)
    requires buf == EthernetBytes + Ipv4Bytes + UdpBytes
    ensures MacAt(BitsOf(buf), 0) == "01:00:5e:01:01:01"
  {
    assert buf[0] == 0x01 && buf[1] == 0x00 && buf[2] == 0x5e && buf[3] == 0x01 && buf[4] == 0x01 && buf[5] == 0x01;
    MacText(buf, 0, 0x01, 0x00, 0x5e, 0x01, 0x01, 0x01);
    DestinationText();
  }

  lemma DestinationText()
    ensures Hex2(0x01) + ":" + Hex2(0x00) + ":" + Hex2(0x5e) + ":" + Hex2(0x01) + ":" + Hex2(0x01) + ":" + Hex2(0x01)
         == "01:00:5e:01:01:01"
  {
    HexTexts();
  }

  lemma SourceMac(buf: seq<byte>)
    requires buf == EthernetBytes + Ipv4Bytes + UdpBytes
    ensures MacAt(BitsOf(buf), 48) == "00:1e:67:d1:1c:e4"
  {
    assert buf[6] == 0x00 && buf[7] == 0x1e && buf[8] == 0x67 && buf[9] == 0xd1 && buf[10] == 0x1c && buf[11] == 0xe4;
    MacText(buf, 6, 0x00, 0x1e, 0x67, 0xd1, 0x1c, 0xe4);
    SourceText();
  }

  lemma SourceText()
    ensures Hex2(0x00) + ":" + Hex2(0x1e) + ":" + Hex2(0x67) + ":" + Hex2(0xd1) + ":" + Hex2(0x1c) + ":" + Hex2(0xe4)
         == "00:1e:67:d1:1c:e4"
  {
    HexTexts();
  }

  /** The MAC address at byte i, from its six bytes. */
  lemma MacText(buf: seq<byte>, i: nat, a: byte, b: byte, c: byte, d: byte, e: byte, f: byte)
    requires i + 6 <= |buf|
    requires buf[i] == a && buf[i + 1] == b && buf[i + 2] == c && buf[i + 3] == d && buf[i + 4] == e && buf[i + 5] == f
    ensures MacAt(BitsOf(buf), 8 * i)
         == Hex2(a) + ":" + Hex2(b) + ":" + Hex2(c) + ":" + Hex2(d) + ":" + Hex2(e) + ":" + Hex2(f)
  {
    TripleAt(buf, i, a, b, c);
    TripleAt(buf, i + 3, d, e, f);
    var parts := [Hex2(a), Hex2(b), Hex2(c), Hex2(d), Hex2(e), Hex2(f)];
    assert HexTriple(BitsOf(buf), 8 * i) + HexTriple(BitsOf(buf), 8 * i + 24) == parts;
    MacJoin(BitsOf(buf), 8 * i, parts);
  }

  lemma MacJoin(bits: seq<bool>, p: nat, parts: seq<string>)
    requires p + 48 <= |bits| && |parts| == 6 && HexTriple(bits, p) + HexTriple(bits, p + 24) == parts
    ensures MacAt(bits, p) == parts[0] + ":" + parts[1] + ":" + parts[2] + ":" + parts[3] + ":" + parts[4] + ":" + parts[5]
  {
    JoinSix(parts, ":");
  }

  /** Three bytes from byte i as hex texts. */
  lemma TripleAt(buf: seq<byte>, i: nat, a: byte, b: byte, c: byte)
    requires i + 3 <= |buf| && buf[i] == a && buf[i + 1] == b && buf[i + 2] == c
    ensures HexTriple(BitsOf(buf), 8 * i) == [Hex2(a), Hex2(b), Hex2(c)]
  {
    FieldByte(buf, i);
    FieldByte(buf, i + 1);
    FieldByte(buf, i + 2);
  }

  lemma EthernetFromFields(buf: seq<byte>, frame: EthernetFrame)
    requires |buf| >= 14 && frame.etherType == EtherTypeIpv4
    requires Field(BitsOf(buf), 96, 16) == EtherTypeIpv4
    requires MacAt(BitsOf(buf), 0) == frame.dstMac && MacAt(BitsOf(buf), 48) == frame.srcMac
    requires Ipv4Of(buf[14..]) == Ok(frame.payload)
    ensures EthernetOf(buf) == Ok(frame)
  {
  }

  /** The two-digit hex texts of the MAC bytes. */
  lemma HexTexts()
    ensures Hex2(0x00) == "00" && Hex2(0x01) == "01" && Hex2(0x5e) == "5e" && Hex2(0x1e) == "1e"
    ensures Hex2(0x67) == "67" && Hex2(0xd1) == "d1" && Hex2(0x1c) == "1c" && Hex2(0xe4) == "e4"
  {
  }

  lemma JoinSix(parts: seq<string>, sep: string)
    requires |parts| == 6
    ensures Join(parts, sep) == parts[0] + sep + parts[1] + sep + parts[2] + sep + parts[3] + sep + parts[4] + sep + parts[5]
  {
    var p5 := parts[..5];
    JoinFour(p5[..4], sep);
    assert p5[..4] == parts[..4] && p5[4] == parts[4];
    assert Join(p5, sep) == parts[0] + sep + parts[1] + sep + parts[2] + sep + parts[3] + sep + parts[4];
  }

  /**
   * The IPv4 header in front of the datagram: version 4, a header length of
   * 20 bytes, total length 30, and the addresses 172.18.15.13 and 226.1.1.1.
   */
  lemma Ipv4Example(buf: seq<byte>)
    requires buf == Ipv4Bytes + UdpBytes
    ensures Ipv4Of(buf) == Ok(ExampleIpv4)
  {
    Ipv4Version(buf);
    Ipv4Lengths(buf);
    Ipv4Source(buf);
    Ipv4Destination(buf);
    assert buf[20..] == UdpBytes;
    UdpExample(buf[20..]);
    Ipv4FromFields(buf, ExampleIpv4);
  }

  lemma Ipv4Version(buf: seq<byte>)
    requires buf == Ipv4Bytes + UdpBytes
    ensures Field(BitsOf(buf), 0, 4) == 4 && Field(BitsOf(buf), 4, 4) == 5
  {
    var bits := BitsOf(buf);
    FieldSplit(bits, 0, 4, 4);
    FieldByte(buf, 0);
    FieldBound(bits, 4, 4);
    assert Pow2(4) == 16;
  }

  lemma Ipv4Lengths(buf: seq<byte>)
    requires buf == Ipv4Bytes + UdpBytes
    ensures Field(BitsOf(buf), 16, 16) == 30 && Field(BitsOf(buf), 80, 16) == 0xe030
  {
    BigEndianTwo(buf, 2);
    BigEndianTwo(buf, 10);
  }

  lemma Ipv4Source(buf: seq<byte>)
    requires buf == Ipv4Bytes + UdpBytes
    ensures DottedAt(BitsOf(buf), 96) == "172.18.15.13"
  {
    assert buf[12] == 172 && buf[13] == 18 && buf[14] == 15 && buf[15] == 13;
    DottedText(buf, 12, 172, 18, 15, 13);
    DecimalTexts();
  }

  lemma Ipv4Destination(buf: seq<byte>)
    requires buf == Ipv4Bytes + UdpBytes
    ensures DottedAt(BitsOf(buf), 128) == "226.1.1.1"
  {
    assert buf[16] == 226 && buf[17] == 1 && buf[18] == 1 && buf[19] == 1;
    DottedText(buf, 16, 226, 1, 1, 1);
    DecimalTexts();
  }

  /** The dotted address at byte i, from its four bytes. */
  lemma DottedText(buf: seq<byte>, i: nat, a: byte, b: byte, c: byte, d: byte)
    requires i + 4 <= |buf| && buf[i] == a && buf[i + 1] == b && buf[i + 2] == c && buf[i + 3] == d
    ensures DottedAt(BitsOf(buf), 8 * i) == Itoa(a) + "." + Itoa(b) + "." + Itoa(c) + "." + Itoa(d)
  {
    FieldByte(buf, i);
    FieldByte(buf, i + 1);
    FieldByte(buf, i + 2);
    FieldByte(buf, i + 3);
    JoinFour([Itoa(a), Itoa(b), Itoa(c), Itoa(d)], ".");
  }

  lemma Ipv4FromFields(buf: seq<byte>, ip: Ipv4Packet)
    requires |buf| >= 20
    requires Field(BitsOf(buf), 0, 4) == ip.version && Field(BitsOf(buf), 4, 4) * 4 == ip.headerLength
    requires Field(BitsOf(buf), 16, 16) == ip.length && Field(BitsOf(buf), 80, 16) == ip.checksum
    requires DottedAt(BitsOf(buf), 96) == ip.srcIp && DottedAt(BitsOf(buf), 128) == ip.dstIp
    requires Ipv4Body(buf, ip.headerLength) == Ok(ip.payload)
    ensures Ipv4Of(buf) == Ok(ip)
  {
  }

  /** The decimal texts of the address bytes. */
  lemma DecimalTexts()
    ensures Itoa(172) == "172" && Itoa(18) == "18" && Itoa(15) == "15" && Itoa(13) == "13"
    ensures Itoa(226) == "226" && Itoa(1) == "1"
  {
    var one, thirteen, fifteen, seventeen, eighteen, twentytwo := 1, 13, 15, 17, 18, 22;
    assert DecimalDigits(one) == "1";
    assert DecimalDigits(thirteen) == DecimalDigits(one) + "3";
    assert DecimalDigits(fifteen) == DecimalDigits(one) + "5";
    assert DecimalDigits(eighteen) == DecimalDigits(one) + "8";
    assert DecimalDigits(seventeen) == DecimalDigits(one) + "7";
    assert DecimalDigits(172) == DecimalDigits(seventeen) + "2";
    assert DecimalDigits(twentytwo) == DecimalDigits(2) + "2";
    assert DecimalDigits(226) == DecimalDigits(twentytwo) + "6";
  }

  lemma JoinFour(parts: seq<string>, sep: string)
    requires |parts| == 4
    ensures Join(parts, sep) == parts[0] + sep + parts[1] + sep + parts[2] + sep + parts[3]
  {
    var p3 := parts[..3];
    var p2 := p3[..2];
    assert p2[..1] == [parts[0]] && p2[1] == parts[1] && p3[2] == parts[2];
    assert Join(p2, sep) == parts[0] + sep + parts[1];
    assert Join(p3, sep) == parts[0] + sep + parts[1] + sep + parts[2];
  }

  /**
   * The test's record header announces 1358 bytes while its packet has 44:
   * in a file of those 60 bytes, getBuffer consumes the record header and
   * hands out an empty buffer, so the next call reads the frame's first 16
   * bytes as a record header.
   */
  lemma ExampleRecordDropped(s: ReaderState)
    requires s.Valid() && s.bInit && !s.isBigEndian && s.bufferQueue == [] && s.cursor == 0
    requires |s.file| == 60 && s.file[0..16] == RecordBytes
    ensures NextBuffer(s) == Fetch(Ok([]), s.(cursor := 16))
  {
    ExampleHeader(s);
    IncompleteBodyDropsHeader(s, RecordHeader(1671173949, 526356, 1358, 1358));
  }

  /** The intended reader leaves the same file untouched until the rest of the record arrives. */
  lemma ExampleRecordKept(s: ReaderState)
    requires s.Valid() && s.bInit && !s.isBigEndian && s.bufferQueue == [] && s.cursor == 0
    requires |s.file| == 60 && s.file[0..16] == RecordBytes
    ensures NextRecordIntended(s) == Fetch(Ok([]), s)
  {
    ExampleHeader(s);
    IntendedWaits(s, RecordHeader(1671173949, 526356, 1358, 1358));
  }

  lemma ExampleHeader(s: ReaderState)
    requires s.cursor == 0 && !s.isBigEndian && |s.file| == 60 && s.file[0..16] == RecordBytes
    ensures RecordOf(s.file[s.cursor..s.cursor + 16], s.isBigEndian) == Ok(RecordHeader(1671173949, 526356, 1358, 1358))
  {
    var bs := s.file[s.cursor..s.cursor + 16];
    RecordExample(bs);
  }

  /** Four bytes from byte i, least significant first. */
  lemma LittleEndianFour(bs: seq<byte>, i: nat)
    requires i + 4 <= |bs|
    ensures LittleEndianAt(BitsOf(bs), 8 * i, 4)
         == bs[i] as int + 256 * (bs[i + 1] as int + 256 * (bs[i + 2] as int + 256 * bs[i + 3] as int))
  {
    var bits := BitsOf(bs);
    FieldByte(bs, i);
    FieldByte(bs, i + 1);
    FieldByte(bs, i + 2);
    FieldByte(bs, i + 3);
    LittleEndianUnfold(bits, 8 * i, 4, 8 * (i + 1), 3);
    LittleEndianUnfold(bits, 8 * (i + 1), 3, 8 * (i + 2), 2);
    LittleEndianUnfold(bits, 8 * (i + 2), 2, 8 * (i + 3), 1);
    LittleEndianUnfold(bits, 8 * (i + 3), 1, 8 * (i + 4), 0);
  }

  /** Two bytes from byte i, most significant first. */
  lemma BigEndianTwo(bs: seq<byte>, i: nat)
    requires i + 2 <= |bs|
    ensures Field(BitsOf(bs), 8 * i, 16) == bs[i] as int * 256 + bs[i + 1] as int
  {
    FieldSplit(BitsOf(bs), 8 * i, 8, 8);
    FieldByte(bs, i);
    FieldByte(bs, i + 1);
    Pow2Widths();
  }
}
