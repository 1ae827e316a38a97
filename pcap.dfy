/**
 * The pcap capture file reader: the 24-byte global header (magic number, byte
 * order, time resolution, link-layer type), the 16-byte record header, and the
 * Ethernet, IPv4 (section 3.1 of RFC 791) and UDP (RFC 768) headers of each
 * record, each read through a bit reader; getBuffer hands out one UDP payload
 * per call through a queue.
 */
module PcapFile {
  import opened Wrappers
  import opened Bits
  import opened BitReader
  import opened Text

  /** What stops the reader: an error value, or a panic of the Go code. */
  datatype PcapError =
    | UnknownMagic(firstByte: int)          // parseHeader's error for an unknown first magic byte
    | ReadPastEnd                           // a header parser reads past its buffer
    | UnsupportedEtherType(etherType: int)  // the Ethernet payload is not IPv4 (logger.Fatal)

  datatype FileHeader = FileHeader(isBigEndian: bool, useNanoSec: bool, linkLayerType: int)
  datatype RecordHeader = RecordHeader(sec: nat, msec: nat, length: nat, origLength: nat)
  datatype UdpPacket = UdpPacket(srcPort: int, dstPort: int, length: int, checksum: int, payload: seq<byte>)
  datatype Ipv4Packet = Ipv4Packet(version: int, headerLength: int, length: int, checksum: int,
                                   srcIp: string, dstIp: string, payload: UdpPacket)
  datatype EthernetFrame = EthernetFrame(dstMac: string, srcMac: string, etherType: int, payload: Ipv4Packet)

  const EtherTypeIpv4 := 0x0800
  const FileHeaderSize := 24
  const RecordHeaderSize := 16

  // ----- the headers, as functions of the bytes -----

  /** The byte order and time resolution the first magic byte selects, if it is one of the four. */
  function MagicOf(firstByte: int): Option<(bool, bool)>
  {
    if firstByte == 0xd4 then Some((false, false))
    else if firstByte == 0x4d then Some((false, true))
    else if firstByte == 0xa1 then Some((true, false))
    else if firstByte == 0x1a then Some((true, true))
    else None
  }

  /** The global header: the magic's first byte, 19 bytes skipped, then the link-layer type in the file's byte order. */
  function FileHeaderOf(buf: seq<byte>): Result<FileHeader, PcapError>
    requires |buf| == FileHeaderSize
  {
    var bits := BitsOf(buf);
    match MagicOf(Field(bits, 0, 8))
    case None => Err(UnknownMagic(Field(bits, 0, 8)))
    case Some((big, nano)) =>
      Ok(FileHeader(big, nano, if big then Field(bits, 160, 32) else LittleEndianAt(bits, 160, 4)))
  }

  /** The record header: four 32-bit fields, big-endian or little-endian as the file is. */
  function RecordOf(buf: seq<byte>, big: bool): Result<RecordHeader, PcapError>
  {
    if |buf| < RecordHeaderSize then Err(ReadPastEnd)
    else
      var bits := BitsOf(buf);
      if big then Ok(RecordHeader(Field(bits, 0, 32), Field(bits, 32, 32), Field(bits, 64, 32), Field(bits, 96, 32)))
      else Ok(RecordHeader(LittleEndianAt(bits, 0, 4), LittleEndianAt(bits, 32, 4),
                           LittleEndianAt(bits, 64, 4), LittleEndianAt(bits, 96, 4)))
  }

  /** The UDP header: four 16-bit fields, then the rest of the buffer as payload. */
  function UdpOf(buf: seq<byte>): Result<UdpPacket, PcapError>
  {
    if |buf| < 8 then Err(ReadPastEnd)
    else
      var bits := BitsOf(buf);
      Ok(UdpPacket(Field(bits, 0, 16), Field(bits, 16, 16), Field(bits, 32, 16), Field(bits, 48, 16), buf[8..]))
  }

  /** An address as four decimal bytes joined by dots. */
  function DottedAt(bits: seq<bool>, p: nat): string
    requires p + 32 <= |bits|
  {
    Join([Itoa(Field(bits, p, 8)), Itoa(Field(bits, p + 8, 8)), Itoa(Field(bits, p + 16, 8)), Itoa(Field(bits, p + 24, 8))], ".")
  }

  /** A MAC address as six two-digit hex bytes joined by colons. */
  function MacAt(bits: seq<bool>, p: nat): string
    requires p + 48 <= |bits|
  {
    Join(HexTriple(bits, p) + HexTriple(bits, p + 24), ":")
  }

  /** Three bytes from bit p, each as two hex digits. */
  function HexTriple(bits: seq<bool>, p: nat): seq<string>
    requires p + 24 <= |bits|
  {
    [Hex2(ByteAt(bits, p)), Hex2(ByteAt(bits, p + 8)), Hex2(ByteAt(bits, p + 16))]
  }

  /**
   * The IPv4 header: version and IHL (the header length is IHL * 4 bytes),
   * total length, checksum and the two addresses; options are skipped up to
   * the header length, and a header length under 20 skips nothing.
   */
  function Ipv4Of(buf: seq<byte>): Result<Ipv4Packet, PcapError>
  {
    if |buf| < 20 then Err(ReadPastEnd)
    else
      var bits := BitsOf(buf);
      var headerLength := Field(bits, 4, 4) * 4;
      match Ipv4Body(buf, headerLength)
      case Err(e) => Err(e)
      case Ok(udp) =>
        Ok(Ipv4Packet(Field(bits, 0, 4), headerLength, Field(bits, 16, 16), Field(bits, 80, 16),
                      DottedAt(bits, 96), DottedAt(bits, 128), udp))
  }

  /** What follows the first 20 bytes: options up to the header length skipped, then UDP. */
  function Ipv4Body(buf: seq<byte>, headerLength: int): Result<UdpPacket, PcapError>
    requires 20 <= |buf|
  {
    if headerLength > |buf| then Err(ReadPastEnd)
    else UdpOf(buf[if headerLength > 20 then headerLength else 20..])
  }

  /** The Ethernet header: destination and source MACs and the EtherType, which must be IPv4. */
  function EthernetOf(buf: seq<byte>): Result<EthernetFrame, PcapError>
  {
    if |buf| < 14 then Err(ReadPastEnd)
    else
      var bits := BitsOf(buf);
      var etherType := Field(bits, 96, 16);
      if etherType != EtherTypeIpv4 then Err(UnsupportedEtherType(etherType))
      else
        match Ipv4Of(buf[14..])
        case Err(e) => Err(e)
        case Ok(ip) => Ok(EthernetFrame(MacAt(bits, 0), MacAt(bits, 48), etherType, ip))
  }

  // ----- the header parsers, through a bit reader -----

  /** udpPacketStruct.parseHeader */
  method ParseUdp(buf: seq<byte>) returns (r: Result<UdpPacket, PcapError>)
    ensures r == UdpOf(buf)
  {
    var rd := new BsReader(buf);
    if rd.Remaining() < 64 {
      r := Err(ReadPastEnd);
    } else {
      var w := 16;
      var srcPort := rd.ReadBits(w);
      var dstPort := rd.ReadBits(w);
      var length := rd.ReadBits(w);
      var checksum := rd.ReadBits(w);
      assert rd.pos == 8;
      r := Ok(UdpPacket(srcPort, dstPort, length, checksum, rd.GetRemainedBuffer()));
    }
  }

  /** Four bytes as a dotted decimal address. */
  method ReadDotted(rd: BsReader) returns (s: string)
    requires rd.Valid() && 32 <= rd.Remaining()
    modifies rd
    ensures rd.Valid() && rd.BitPos() == old(rd.BitPos()) + 32
    ensures s == DottedAt(rd.Bits(), old(rd.BitPos()))
  {
    var w := 8;
    var a := rd.ReadBits(w);
    var b := rd.ReadBits(w);
    var c := rd.ReadBits(w);
    var d := rd.ReadBits(w);
    s := Join([Itoa(a), Itoa(b), Itoa(c), Itoa(d)], ".");
  }

  /** ReadHex(1): one byte as two hex digits. */
  method ReadHexByte(rd: BsReader) returns (s: string)
    requires rd.Valid() && 8 <= rd.Remaining()
    modifies rd
    ensures rd.Valid() && rd.BitPos() == old(rd.BitPos()) + 8
    ensures s == Hex2(ByteAt(rd.Bits(), old(rd.BitPos())))
  {
    ghost var p := rd.BitPos();
    var one := 1;
    s := ReadHex(rd, one);
    assert HexBytes(rd.Bits(), p, 0) == [];
  }

  /** Six bytes as a colon-separated MAC address. */
  method ReadMac(rd: BsReader) returns (s: string)
    requires rd.Valid() && 48 <= rd.Remaining()
    modifies rd
    ensures rd.Valid() && rd.BitPos() == old(rd.BitPos()) + 48
    ensures s == MacAt(rd.Bits(), old(rd.BitPos()))
  {
    var first := ReadHexTriple(rd);
    var last := ReadHexTriple(rd);
    s := Join(first + last, ":");
  }

  /** Three ReadHex(1) calls in a row. */
  method ReadHexTriple(rd: BsReader) returns (t: seq<string>)
    requires rd.Valid() && 24 <= rd.Remaining()
    modifies rd
    ensures rd.Valid() && rd.BitPos() == old(rd.BitPos()) + 24
    ensures t == HexTriple(rd.Bits(), old(rd.BitPos()))
  {
    var a := ReadHexByte(rd);
    var b := ReadHexByte(rd);
    var c := ReadHexByte(rd);
    t := [a, b, c];
  }

  /** ipv4PacketStruct.parseHeader, then its payload parsed as UDP. */
  method ParseIpv4(buf: seq<byte>) returns (r: Result<Ipv4Packet, PcapError>)
    ensures r == Ipv4Of(buf)
  {
    var rd := new BsReader(buf);
    if rd.Remaining() < 160 {
      r := Err(ReadPastEnd);
    } else {
      var h := ReadIpv4Fixed(rd);
      rd.BitsAreBuffer();
      var udp := SkipOptions(rd, h.headerLength);
      match udp {
        case Err(e) => r := Err(e);
        case Ok(u) => r := Ok(h.(payload := u));
      }
    }
  }

  /** The 20 fixed bytes of an IPv4 header, with an empty UDP packet in place of the payload. */
  method ReadIpv4Fixed(rd: BsReader) returns (h: Ipv4Packet)
    requires rd.Valid() && rd.BitPos() == 0 && 160 <= rd.Remaining()
    modifies rd
    ensures rd.Valid() && rd.BitPos() == 160
    ensures var bits := rd.Bits();
      h == Ipv4Packet(Field(bits, 0, 4), Field(bits, 4, 4) * 4, Field(bits, 16, 16), Field(bits, 80, 16),
                      DottedAt(bits, 96), DottedAt(bits, 128), h.payload)
  {
    var four := 4;
    var version := rd.ReadBits(four);
    var ihl := rd.ReadBits(four);
    var headerLength := ihl * 4;
    var eight := 8;
    var serviceType := rd.ReadBits(eight);
    var length := rd.ReadBits(16);
    var idAndFragment := rd.ReadBits(48);
    var checksum := rd.ReadBits(16);
    var srcIp := ReadDotted(rd);
    var dstIp := ReadDotted(rd);
    h := Ipv4Packet(version, headerLength, length, checksum, srcIp, dstIp, UdpPacket(0, 0, 0, 0, []));
  }

  /** The options skipped up to the header length, and the rest parsed as UDP. */
  method SkipOptions(rd: BsReader, headerLength: int) returns (r: Result<UdpPacket, PcapError>)
    requires rd.Valid() && rd.BitPos() == 160 && 20 <= |rd.rawBs|
    modifies rd
    ensures r == Ipv4Body(rd.rawBs, headerLength)
  {
    var skip := headerLength * 8 - 160;
    if skip > rd.Remaining() {
      r := Err(ReadPastEnd);
    } else {
      var options := rd.ReadBits(skip);
      assert rd.pos == (if headerLength > 20 then headerLength else 20);
      r := ParseUdp(rd.GetRemainedBuffer());
    }
  }

  /** ethernetPacketStruct.parseHeader, then its payload parsed as IPv4. */
  method ParseEthernet(buf: seq<byte>) returns (r: Result<EthernetFrame, PcapError>)
    ensures r == EthernetOf(buf)
  {
    var rd := new BsReader(buf);
    if rd.Remaining() < 112 {
      r := Err(ReadPastEnd);
    } else {
      var dstMac, srcMac, etherType := ReadEthernetFixed(rd);
      rd.BitsAreBuffer();
      var rest := rd.GetRemainedBuffer();
      if etherType != EtherTypeIpv4 {
        r := Err(UnsupportedEtherType(etherType));
      } else {
        var ip := ParseIpv4(rest);
        match ip {
          case Err(e) => r := Err(e);
          case Ok(p) => r := Ok(EthernetFrame(dstMac, srcMac, etherType, p));
        }
      }
    }
  }

  /** The 14 bytes of an Ethernet header. */
  method ReadEthernetFixed(rd: BsReader) returns (dstMac: string, srcMac: string, etherType: int)
    requires rd.Valid() && rd.BitPos() == 0 && 112 <= rd.Remaining()
    modifies rd
    ensures rd.Valid() && rd.BitPos() == 112 && rd.pos == 14
    ensures dstMac == MacAt(rd.Bits(), 0) && srcMac == MacAt(rd.Bits(), 48) && etherType == Field(rd.Bits(), 96, 16)
  {
    dstMac := ReadMac(rd);
    srcMac := ReadMac(rd);
    etherType := rd.ReadBits(16);
  }

  /** pcapPacketStruct.parseHeader */
  method ParseRecord(buf: seq<byte>, isBigEndian: bool) returns (r: Result<RecordHeader, PcapError>)
    ensures r == RecordOf(buf, isBigEndian)
  {
    var rd := new BsReader(buf);
    if rd.Remaining() < 128 {
      r := Err(ReadPastEnd);
    } else {
      var rec: RecordHeader;
      rd.BitsAreBuffer();
      if isBigEndian {
        rec := ReadBigEndianRecord(rd);
      } else {
        rec := ReadLittleEndianRecord(rd);
      }
      r := Ok(rec);
    }
  }

  /** Four 32-bit big-endian fields from the start of the reader. */
  method ReadBigEndianRecord(rd: BsReader) returns (rec: RecordHeader)
    requires rd.Valid() && rd.BitPos() == 0 && rd.Remaining() >= 128
    modifies rd
    ensures rec == RecordHeader(Field(rd.Bits(), 0, 32), Field(rd.Bits(), 32, 32), Field(rd.Bits(), 64, 32), Field(rd.Bits(), 96, 32))
  {
    var w := 32;
    var sec := rd.ReadBits(w);
    var msec := rd.ReadBits(w);
    var length := rd.ReadBits(w);
    var origLength := rd.ReadBits(w);
    rec := RecordHeader(sec, msec, length, origLength);
  }

  /** Four 4-byte little-endian fields from the start of the reader. */
  method ReadLittleEndianRecord(rd: BsReader) returns (rec: RecordHeader)
    requires rd.Valid() && rd.BitPos() == 0 && rd.Remaining() >= 128
    modifies rd
    ensures rec == RecordHeader(LittleEndianAt(rd.Bits(), 0, 4), LittleEndianAt(rd.Bits(), 32, 4),
                                LittleEndianAt(rd.Bits(), 64, 4), LittleEndianAt(rd.Bits(), 96, 4))
  {
    var n := 4;
    var sec := rd.ReadLIBytes(n);
    var msec := rd.ReadLIBytes(n);
    var length := rd.ReadLIBytes(n);
    var origLength := rd.ReadLIBytes(n);
    rec := RecordHeader(sec, msec, length, origLength);
  }

  /** The magic number's first byte picks the byte order; the link-layer type sits at byte 20. */
  method DecodeFileHeader(buf: seq<byte>) returns (r: Result<FileHeader, PcapError>)
    requires |buf| == FileHeaderSize
    ensures r == FileHeaderOf(buf)
  {
    var rd := new BsReader(buf);
    var eight := 8;
    var firstByte := rd.ReadBits(eight);
    rd.BitsAreBuffer();
    var isBigEndian, useNanoSec := false, false;
    var known := true;
    if firstByte == 0xd4 {
      isBigEndian, useNanoSec := false, false;
    } else if firstByte == 0x4d {
      isBigEndian, useNanoSec := false, true;
    } else if firstByte == 0xa1 {
      isBigEndian, useNanoSec := true, false;
    } else if firstByte == 0x1a {
      isBigEndian, useNanoSec := true, true;
    } else {
      known := false;
    }
    if !known {
      r := Err(UnknownMagic(firstByte));
    } else {
      var skipped := rd.ReadBits((3 + 2 + 2 + 4 + 4 + 4) * 8);
      var linkLayerType;
      if isBigEndian {
        linkLayerType := rd.ReadBits(32);
      } else {
        var n := 4;
        linkLayerType := rd.ReadLIBytes(n);
      }
      r := Ok(FileHeader(isBigEndian, useNanoSec, linkLayerType));
    }
  }

  // ----- the reader and its queue -----

  /** The n bytes a read at cursor fills: what the file still holds, then zeros. */
  function Padded(file: seq<byte>, cursor: nat, n: nat): (buf: seq<byte>)
    requires cursor <= |file|
    ensures |buf| == n
  {
    var got := if cursor + n <= |file| then n else |file| - cursor;
    file[cursor..cursor + got] + seq(n - got, i => 0)
  }

  /** Everything getBuffer reads and changes. */
  datatype ReaderState = ReaderState(file: seq<byte>, cursor: nat, isBigEndian: bool, useNanoSec: bool,
                                     linkLayerType: int, bufferQueue: seq<seq<byte>>, bInit: bool)
  {
    ghost predicate Valid() { cursor <= |file| }
  }

  /** One call's result and the state after it. */
  datatype Fetch = Fetch(result: Result<seq<byte>, PcapError>, after: ReaderState)

  /** One getBuffer call: the global header on the first call, a record when the queue is empty, then a pop. */
  function NextBuffer(s: ReaderState): (f: Fetch)
    requires s.Valid()
    ensures f.after.Valid() && f.after.file == s.file
  {
    if !s.bInit then
      var end := if s.cursor + FileHeaderSize <= |s.file| then s.cursor + FileHeaderSize else |s.file|;
      var s1 := s.(cursor := end);
      match FileHeaderOf(Padded(s.file, s.cursor, FileHeaderSize))
      case Err(e) => Fetch(Err(e), s1)
      case Ok(h) =>
        NextRecord(s1.(isBigEndian := h.isBigEndian, useNanoSec := h.useNanoSec,
                       linkLayerType := h.linkLayerType, bInit := true))
    else NextRecord(s)
  }

  /**
   * With an empty queue: a record header and body are read; a header or body
   * the file does not hold yet gives an empty buffer, the body's bytes are
   * parsed as Ethernet, IPv4 and UDP and the UDP payload is queued. Then the
   * queue's head is handed out.
   */
  function NextRecord(s: ReaderState): (f: Fetch)
    requires s.Valid()
    ensures f.after.Valid() && f.after.file == s.file
  {
    if s.bufferQueue != [] then Pop(s)
    else if s.cursor + RecordHeaderSize > |s.file| then Fetch(Ok([]), s)
    else
      var c := s.cursor + RecordHeaderSize;
      match RecordOf(s.file[s.cursor..c], s.isBigEndian)
      case Err(e) => Fetch(Err(e), s.(cursor := c))
      case Ok(rec) => BodyFetch(s.(cursor := c), rec.length)
  }

  /**
   * The n bytes of a record's body: none yet, or none at all, give an empty
   * buffer; otherwise the UDP payload inside them, queued and handed out.
   */
  function BodyFetch(s: ReaderState, n: nat): (f: Fetch)
    requires s.Valid() && s.bufferQueue == []
    ensures f.after.Valid() && f.after.file == s.file
  {
    if s.cursor + n > |s.file| || n == 0 then Fetch(Ok([]), s)
    else Deliver(s.(cursor := s.cursor + n), EthernetOf(s.file[s.cursor..s.cursor + n]))
  }

  /** A parsed body's UDP payload queued and handed out, or the parse's error. */
  function Deliver(s: ReaderState, parsed: Result<EthernetFrame, PcapError>): (f: Fetch)
    requires s.Valid() && s.bufferQueue == []
    ensures f.after.Valid() && f.after.file == s.file
  {
    match parsed
    case Err(e) => Fetch(Err(e), s)
    case Ok(frame) => Pop(s.(bufferQueue := s.bufferQueue + [frame.payload.payload.payload]))
  }

  /** The queue's head handed out and dropped. */
  function Pop(s: ReaderState): (f: Fetch)
    requires s.Valid() && s.bufferQueue != []
    ensures f.result == Ok(s.bufferQueue[0]) && f.after == s.(bufferQueue := s.bufferQueue[1..])
  {
    Fetch(Ok(s.bufferQueue[0]), s.(bufferQueue := s.bufferQueue[1..]))
  }

  /** pcapFileStruct: a capture file's bytes read from a cursor, and the queue of payloads not yet handed out. */
  class PcapReader {
    const file: seq<byte>
    var cursor: nat
    var isBigEndian: bool
    var useNanoSec: bool
    var linkLayerType: int
    var bufferQueue: seq<seq<byte>>
    var bInit: bool

    ghost predicate Valid()
      reads this
    {
      cursor <= |file|
    }

    function State(): ReaderState
      reads this
    {
      ReaderState(file, cursor, isBigEndian, useNanoSec, linkLayerType, bufferQueue, bInit)
    }

    /** pcapFile: a reader at the start of the file, with an empty queue and the global header not yet read. */
    constructor (contents: seq<byte>)
      ensures Valid() && file == contents && cursor == 0 && bufferQueue == [] && !bInit
    {
      file := contents;
      cursor := 0;
      bufferQueue := [];
      bInit := false;
    }

    /** The file handle's Read: as many of the n bytes as the file holds, zeros after them. */
    method ReadInto(n: nat) returns (buf: seq<byte>)
      requires Valid()
      modifies this
      ensures Valid() && buf == Padded(file, old(cursor), n)
      ensures cursor == (if old(cursor) + n <= |file| then old(cursor) + n else |file|)
      ensures unchanged(this`isBigEndian, this`useNanoSec, this`linkLayerType, this`bufferQueue, this`bInit)
    {
      buf := Padded(file, cursor, n);
      cursor := if cursor + n <= |file| then cursor + n else |file|;
    }

    /** advanceCursor: n bytes and the cursor past them, or nothing and the cursor back where it was. */
    method AdvanceCursor(n: nat) returns (buf: seq<byte>)
      requires Valid()
      modifies this
      ensures Valid()
      ensures old(cursor) + n <= |file| ==> buf == file[old(cursor)..old(cursor) + n] && cursor == old(cursor) + n
      ensures old(cursor) + n > |file| ==> buf == [] && cursor == old(cursor)
      ensures unchanged(this`isBigEndian, this`useNanoSec, this`linkLayerType, this`bufferQueue, this`bInit)
    {
      var start := cursor;
      buf := ReadInto(n);
      if cursor - start < n {
        cursor := start;
        buf := [];
      }
    }

    /** parseHeader: the global header read, and the byte order, time resolution and link-layer type set from it. */
    method ParseHeader() returns (err: Option<PcapError>)
      requires Valid()
      modifies this
      ensures Valid()
      ensures cursor == (if old(cursor) + FileHeaderSize <= |file| then old(cursor) + FileHeaderSize else |file|)
      ensures var r := FileHeaderOf(Padded(file, old(cursor), FileHeaderSize));
        && (r.Err? ==> err == Some(r.error) && unchanged(this`isBigEndian, this`useNanoSec, this`linkLayerType))
        && (r.Ok? ==> err == None && isBigEndian == r.value.isBigEndian && useNanoSec == r.value.useNanoSec
                                  && linkLayerType == r.value.linkLayerType)
      ensures unchanged(this`bufferQueue, this`bInit)
    {
      var buf := ReadInto(FileHeaderSize);
      var h := DecodeFileHeader(buf);
      match h {
        case Err(e) =>
          err := Some(e);
        case Ok(v) =>
          isBigEndian, useNanoSec, linkLayerType := v.isBigEndian, v.useNanoSec, v.linkLayerType;
          err := None;
      }
    }

    /** getBuffer */
    method GetBuffer() returns (r: Result<seq<byte>, PcapError>)
      requires Valid()
      modifies this
      ensures Valid()
      ensures Fetch(r, State()) == NextBuffer(old(State()))
    {
      if bInit {
        r := FetchRecord();
      } else {
        ghost var s0 := State();
        ghost var h := FileHeaderOf(Padded(file, cursor, FileHeaderSize));
        var failed := ParseHeader();
        ghost var s1 := s0.(cursor := cursor);
        if failed.Some? {
          assert h.Err? && State() == s1;
          r := Err(failed.value);
        } else {
          bInit := true;
          assert h.Ok?;
          assert State() == s1.(isBigEndian := h.value.isBigEndian, useNanoSec := h.value.useNanoSec,
                                linkLayerType := h.value.linkLayerType, bInit := true);
          r := FetchRecord();
        }
      }
    }

    /** The part of getBuffer after the global header. */
    method FetchRecord() returns (r: Result<seq<byte>, PcapError>)
      requires Valid()
      modifies this
      ensures Valid()
      ensures Fetch(r, State()) == NextRecord(old(State()))
    {
      if bufferQueue == [] {
        r := FetchNewRecord();
      } else {
        r := PopQueue();
      }
    }

    /** With the queue empty: the next record header, then its body. */
    method FetchNewRecord() returns (r: Result<seq<byte>, PcapError>)
      requires Valid() && bufferQueue == []
      modifies this
      ensures Valid()
      ensures Fetch(r, State()) == NextRecord(old(State()))
    {
      var buf := AdvanceCursor(RecordHeaderSize);
      if |buf| == 0 {
        r := Ok(buf);
      } else {
        var hdr := ParseRecord(buf, isBigEndian);
        match hdr {
          case Err(e) => r := Err(e);
          case Ok(rec) => r := FetchBody(rec.length);
        }
      }
    }

    /** The queue's head taken off; a queue of one becomes a fresh empty queue. */
    method PopQueue() returns (r: Result<seq<byte>, PcapError>)
      requires Valid() && bufferQueue != []
      modifies this
      ensures Valid()
      ensures Fetch(r, State()) == Pop(old(State()))
    {
      var buf := bufferQueue[0];
      if |bufferQueue| == 1 {
        bufferQueue := [];
      } else {
        bufferQueue := bufferQueue[1..];
      }
      r := Ok(buf);
    }

    /** The record's body read and parsed, and its UDP payload queued and handed out. */
    method FetchBody(n: nat) returns (r: Result<seq<byte>, PcapError>)
      requires Valid() && bufferQueue == []
      modifies this
      ensures Valid()
      ensures Fetch(r, State()) == BodyFetch(old(State()), n)
    {
      ghost var s0 := State();
      var body := AdvanceCursor(n);
      if |body| == 0 {
        assert State() == s0;
        r := Ok(body);
      } else {
        BodyRead(s0, n);
        assert body == file[s0.cursor..s0.cursor + n];
        assert State() == s0.(cursor := s0.cursor + n);
        var frame := ParseEthernet(body);
        match frame {
          case Err(e) =>
            r := Err(e);
          case Ok(f) =>
            bufferQueue := bufferQueue + [f.payload.payload.payload];
            r := PopQueue();
        }
      }
    }
  }

  // ----- properties of the reader -----

  /** The results of k calls in a row. */
  function Fetches(s: ReaderState, k: nat): (rs: seq<Result<seq<byte>, PcapError>>)
    requires s.Valid()
    ensures |rs| == k
    decreases k
  {
    if k == 0 then [] else [NextBuffer(s).result] + Fetches(NextBuffer(s).after, k - 1)
  }

  /** Once the global header is read, queued payloads come out first in, first out, without touching the file. */
  lemma {:induction false} QueueFirstInFirstOut(s: ReaderState, k: nat)
    requires s.Valid() && s.bInit && k <= |s.bufferQueue|
    ensures forall i | 0 <= i < k :: Fetches(s, k)[i] == Ok(s.bufferQueue[i])
    decreases k
  {
    if k > 0 {
      var t := NextBuffer(s).after;
      assert t == s.(bufferQueue := s.bufferQueue[1..]);
      QueueFirstInFirstOut(t, k - 1);
    }
  }

  /** With an empty queue and no complete record header left, a call hands out an empty buffer and changes nothing. */
  lemma EndOfInput(s: ReaderState)
    requires s.Valid() && s.bInit && s.bufferQueue == [] && s.cursor + RecordHeaderSize > |s.file|
    ensures NextBuffer(s) == Fetch(Ok([]), s)
  {
  }

  /** A first call on a file whose magic byte is unknown reports it and leaves the header unread. */
  lemma UnknownMagicReported(s: ReaderState)
    requires s.Valid() && !s.bInit && s.cursor < |s.file| && MagicOf(s.file[s.cursor]).None?
    ensures NextBuffer(s).result == Err(UnknownMagic(s.file[s.cursor]))
    ensures !NextBuffer(s).after.bInit
  {
    var buf := Padded(s.file, s.cursor, FileHeaderSize);
    FieldByte(buf, 0);
  }

  /**
   * A complete record whose length field counts its body, at the cursor with
   * an empty queue, gives the body's UDP payload and leaves the cursor after
   * the body.
   */
  lemma RecordGivesPayload(s: ReaderState, pre: seq<byte>, header: seq<byte>, body: seq<byte>, post: seq<byte>,
                           rec: RecordHeader, frame: EthernetFrame)
    requires s.Valid() && s.bInit && s.bufferQueue == []
    requires s.file == pre + header + body + post && s.cursor == |pre| && |header| == RecordHeaderSize
    requires RecordOf(header, s.isBigEndian) == Ok(rec) && rec.length == |body| > 0
    requires EthernetOf(body) == Ok(frame)
    ensures NextBuffer(s) == Fetch(Ok(frame.payload.payload.payload), s.(cursor := |pre| + 16 + |body|))
  {
    Parts(pre, header, body, post);
    RecordHeaderRead(s, rec);
    var t := s.(cursor := |pre| + 16);
    BodyRead(t, |body|);
    Delivered(t.(cursor := t.cursor + |body|), frame);
  }

  /** With an empty queue, a complete record header leads on to the record's body. */
  lemma RecordHeaderRead(s: ReaderState, rec: RecordHeader)
    requires s.Valid() && s.bInit && s.bufferQueue == [] && s.cursor + 16 <= |s.file|
    requires RecordOf(s.file[s.cursor..s.cursor + 16], s.isBigEndian) == Ok(rec)
    ensures NextBuffer(s) == BodyFetch(s.(cursor := s.cursor + 16), rec.length)
  {
  }

  /** A complete body that parses gives its UDP payload, with the queue left empty. */
  lemma BodyRead(t: ReaderState, n: nat)
    requires t.Valid() && t.bufferQueue == [] && 0 < n && t.cursor + n <= |t.file|
    ensures BodyFetch(t, n) == Deliver(t.(cursor := t.cursor + n), EthernetOf(t.file[t.cursor..t.cursor + n]))
  {
    assert !(t.cursor + n > |t.file| || n == 0);
  }

  /** A body that parses gives its UDP payload and leaves the queue empty. */
  lemma Delivered(u: ReaderState, frame: EthernetFrame)
    requires u.Valid() && u.bufferQueue == []
    ensures Deliver(u, Ok(frame)) == Fetch(Ok(frame.payload.payload.payload), u)
  {
    var f := Deliver(u, Ok(frame));
    assert f.after.bufferQueue == [];
    assert f.after == u;
  }

  /** The slices of a file made of four parts. */
  lemma Parts(a: seq<byte>, b: seq<byte>, c: seq<byte>, d: seq<byte>)
    ensures (a + b + c + d)[|a|..|a| + |b|] == b
    ensures (a + b + c + d)[|a| + |b|..|a| + |b| + |c|] == c
  {
    var f := a + b + c + d;
    assert f[|a|..|a| + |b|] == b by {
      forall i | 0 <= i < |b| ensures f[|a| + i] == b[i] {}
    }
    assert f[|a| + |b|..|a| + |b| + |c|] == c by {
      forall i | 0 <= i < |c| ensures f[|a| + |b| + i] == c[i] {}
    }
  }

  // ----- a record header left behind -----

  /**
   * getBuffer as written: when the record header is complete but its body is
   * not, the call hands out an empty buffer with the header's 16 bytes
   * consumed, so a later call takes the body's first 16 bytes for a header.
   */
  lemma IncompleteBodyDropsHeader(s: ReaderState, rec: RecordHeader)
    requires s.Valid() && s.bInit && s.bufferQueue == [] && s.cursor + 16 <= |s.file|
    requires RecordOf(s.file[s.cursor..s.cursor + 16], s.isBigEndian) == Ok(rec)
    requires s.cursor + 16 + rec.length > |s.file|
    ensures NextBuffer(s) == Fetch(Ok([]), s.(cursor := s.cursor + 16))
  {
  }

  /** The later call reads its record header from the bytes after the dropped one, where the body begins. */
  lemma NextHeaderFromBody(s: ReaderState, rec: RecordHeader, more: seq<byte>)
    requires s.Valid() && s.bInit && s.bufferQueue == [] && s.cursor + 16 <= |s.file|
    requires RecordOf(s.file[s.cursor..s.cursor + 16], s.isBigEndian) == Ok(rec)
    requires s.cursor + 16 + rec.length > |s.file| && s.cursor + 32 <= |s.file| + |more|
    ensures var t := NextBuffer(s).after.(file := s.file + more);
      t.Valid() && t.cursor == s.cursor + 16 && (s.file + more)[t.cursor..t.cursor + 16] == (s.file + more)[s.cursor + 16..s.cursor + 32]
  {
    IncompleteBodyDropsHeader(s, rec);
  }

  /** getBuffer as intended: a record whose body is not complete yet is left whole for the next call. */
  function NextRecordIntended(s: ReaderState): (f: Fetch)
    requires s.Valid()
    ensures f.after.Valid() && f.after.file == s.file
  {
    if s.bufferQueue != [] then Pop(s)
    else if s.cursor + RecordHeaderSize > |s.file| then Fetch(Ok([]), s)
    else
      var c := s.cursor + RecordHeaderSize;
      match RecordOf(s.file[s.cursor..c], s.isBigEndian)
      case Err(e) => Fetch(Err(e), s.(cursor := c))
      case Ok(rec) =>
        if c + rec.length > |s.file| then Fetch(Ok([]), s)
        else BodyFetch(s.(cursor := c), rec.length)
  }

  /** The intended reader leaves a record whose body is not complete where it is. */
  lemma IntendedWaits(s: ReaderState, rec: RecordHeader)
    requires s.Valid() && s.bufferQueue == [] && s.cursor + 16 <= |s.file|
    requires RecordOf(s.file[s.cursor..s.cursor + 16], s.isBigEndian) == Ok(rec)
    requires s.cursor + 16 + rec.length > |s.file|
    ensures NextRecordIntended(s) == Fetch(Ok([]), s)
  {
  }
}
