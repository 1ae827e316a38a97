/**
 * The PES packet header (section 2.4.3.6 of ISO/IEC 13818-1): the start code
 * prefix 0x000001, the stream id and the PES packet length, then the optional
 * header with its flags, its own length byte and, by PTS_DTS_flags, a PTS or a
 * PTS and a DTS, each 33 bits spread over five bytes with marker bits between.
 */
module PesHeaders {
  import opened Bits
  import opened Wrappers
  import opened BitReader
  import opened Packing

  /** pts and dts are -1 when absent; length is the optional header's size in bytes. */
  datatype OptionalHeader = OptionalHeader(scrambled: bool, dataAligned: bool, length: int, pts: int, dts: int)

  datatype PesHeader = PesHeader(streamId: int, sectionLen: int, optionalHeader: OptionalHeader)

  /** ParsePESHeader's results: the header and the number of bytes it takes. */
  datatype ParsedPes = ParsedPes(header: PesHeader, headerLen: int)

  /**
   * The errors the Go code returns, by kind; PesTruncated stands for the panic
   * of a read past the end of the buffer.
   */
  datatype PesError =
    | StartCodeMismatch
    | MarkerMismatch
    | PtsSyncMismatch(sync: int, flag: int)
    | DtsSyncMismatch(sync: int, flag: int)
    | ForbiddenFlag(flag: int)
    | PesTruncated

  // ----- the header as a function of its bits -----

  /**
   * The 33-bit timestamp whose first bit is at p: 3 bits, a marker, 15 bits,
   * a marker, 15 bits, each part shifted in (x << 15 is x * 0x8000) after the ones before.
   */
  function TimestampAt(bits: seq<bool>, p: nat): int
    requires p + 36 <= |bits|
  {
    (Field(bits, p, 3) * 0x8000 + Field(bits, p + 4, 15)) * 0x8000 + Field(bits, p + 20, 15)
  }

  /** A 4-bit prefix at p that must equal sync, then a timestamp. */
  function TimestampField(bits: seq<bool>, p: nat, sync: int, flag: int, isDts: bool): Result<int, PesError>
  {
    if p + 4 > |bits| then Err(PesTruncated)
    else if Field(bits, p, 4) != sync then
      Err(if isDts then DtsSyncMismatch(Field(bits, p, 4), flag) else PtsSyncMismatch(Field(bits, p, 4), flag))
    else if p + 40 > |bits| then Err(PesTruncated)
    else Ok(TimestampAt(bits, p + 4))
  }

  /** The timestamps by PTS_DTS_flags and the number of header bytes they take. */
  datatype Timestamps = Timestamps(pts: int, dts: int, size: int)

  /** Flag 3: a PTS with prefix 3 and a DTS with prefix 1; flag 2: a PTS with prefix 2, which is also the DTS; flag 1 is forbidden. */
  function DecodeTimestamps(bits: seq<bool>, flag: int): Result<Timestamps, PesError>
  {
    if flag == 3 then
      match TimestampField(bits, 24, 3, flag, false)
      case Err(e) => Err(e)
      case Ok(pts) =>
        match TimestampField(bits, 64, 1, flag, true)
        case Err(e) => Err(e)
        case Ok(dts) => Ok(Timestamps(pts, dts, 10))
    else if flag == 2 then
      match TimestampField(bits, 24, 2, flag, false)
      case Err(e) => Err(e)
      case Ok(pts) => Ok(Timestamps(pts, pts, 5))
    else if flag == 1 then Err(ForbiddenFlag(flag))
    else Ok(Timestamps(-1, -1, 0))
  }

  /**
   * The optional header read from bits: the marker bits '10', the flags, the
   * header length, the timestamps; the rest of the header length is skipped.
   */
  function DecodeOptionalHeader(bits: seq<bool>): Result<OptionalHeader, PesError>
  {
    if |bits| < 2 then Err(PesTruncated)
    else if Field(bits, 0, 2) != 2 then Err(MarkerMismatch)
    else if |bits| < 24 then Err(PesTruncated)
    else
      match DecodeTimestamps(bits, Field(bits, 8, 2))
      case Err(e) => Err(e)
      case Ok(t) =>
        var headerLen := Field(bits, 16, 8);
        if 8 * (headerLen - t.size) > |bits| - (24 + 8 * t.size) then Err(PesTruncated)
        else Ok(OptionalHeader(Field(bits, 2, 2) != 0, bits[5], headerLen + 3, t.pts, t.dts))
  }

  /**
   * The header read from bits: the start code, the stream id, the packet length,
   * then the optional header from byte 6. The section length is the packet
   * length less the optional header, or, for a packet length of zero, the bytes
   * after the first six less the optional header.
   */
  function DecodePes(bits: seq<bool>): Result<ParsedPes, PesError>
  {
    if |bits| < 24 then Err(PesTruncated)
    else if Field(bits, 0, 24) != 1 then Err(StartCodeMismatch)
    else if |bits| < 48 then Err(PesTruncated)
    else
      match DecodeOptionalHeader(bits[48..])
      case Err(e) => Err(e)
      case Ok(o) =>
        var pesLen := Field(bits, 32, 16);
        var sectionLen := if pesLen != 0 then pesLen - o.length else (|bits| - 48) / 8 - o.length;
        Ok(ParsedPes(PesHeader(Field(bits, 24, 8), sectionLen, o), 6 + o.length))
  }

  // ----- the parsers -----

  /** ParseOptionalHeader: the optional header at the start of buf. */
  method ParseOptionalHeader(buf: seq<byte>) returns (r: Result<OptionalHeader, PesError>)
    ensures r == DecodeOptionalHeader(BitsOf(buf))
  {
    var rd := new BsReader(buf);
    ghost var bits := rd.Bits();
    if rd.Remaining() < 2 {
      return Err(PesTruncated);
    }
    var marker := rd.ReadBits(2);
    if marker != 2 {
      return Err(MarkerMismatch);
    }
    if rd.Remaining() < 22 {
      return Err(PesTruncated);
    }
    var scrambled, dataAligned, flag := ReadOptionalFlags(rd);
    var headerLen := rd.ReadBits(8);
    var t := ReadTimestamps(rd, flag);
    if t.Err? {
      return Err(t.error);
    }
    var remained := headerLen - t.value.size;
    assert rd.Remaining() == |bits| - (24 + 8 * t.value.size);
    if 8 * remained > rd.Remaining() {
      return Err(PesTruncated);
    }
    var _ := rd.ReadBits(remained * 8);
    r := Ok(OptionalHeader(scrambled != 0, dataAligned != 0, headerLen + 3, t.value.pts, t.value.dts));
    assert 24 <= |bits|;
    assert Field(bits, 0, 2) == 2;
    assert headerLen == Field(bits, 16, 8);
    assert DecodeTimestamps(bits, Field(bits, 8, 2)) == Ok(t.value);
    assert 8 * (headerLen - t.value.size) <= |bits| - (24 + 8 * t.value.size);
    OptionalHeaderRead(bits, t.value, headerLen);
  }

  /** The successful end of DecodeOptionalHeader, with the timestamps and the header length given. */
  lemma OptionalHeaderRead(bits: seq<bool>, t: Timestamps, headerLen: int)
    requires 24 <= |bits| && Field(bits, 0, 2) == 2 && headerLen == Field(bits, 16, 8)
    requires DecodeTimestamps(bits, Field(bits, 8, 2)) == Ok(t)
    requires 8 * (headerLen - t.size) <= |bits| - (24 + 8 * t.size)
    ensures DecodeOptionalHeader(bits) == Ok(OptionalHeader(Field(bits, 2, 2) != 0, bits[5], headerLen + 3, t.pts, t.dts))
  {
  }

  /** The flag bits from bit 2 to bit 16: scrambling control, data alignment and PTS_DTS_flags are kept. */
  method ReadOptionalFlags(rd: BsReader) returns (scrambled: int, dataAligned: int, flag: int)
    requires rd.Valid() && rd.BitPos() == 2 && 24 <= |rd.Bits()|
    modifies rd
    ensures rd.Valid() && rd.BitPos() == 16
    ensures scrambled == Field(rd.Bits(), 2, 2) && (dataAligned != 0 <==> rd.Bits()[5]) && flag == Field(rd.Bits(), 8, 2)
  {
    var one := 1;
    scrambled := rd.ReadBits(2);
    var _ := rd.ReadBits(one);
    dataAligned := rd.ReadBits(one);
    FieldOfOne(rd.Bits(), 5);
    var _ := rd.ReadBits(one);
    var _ := rd.ReadBits(one);
    flag := rd.ReadBits(2);
    var _ := rd.ReadBits(6);
  }

  /** The timestamps PTS_DTS_flags announces, read from bit 24. */
  method ReadTimestamps(rd: BsReader, flag: int) returns (r: Result<Timestamps, PesError>)
    requires rd.Valid() && rd.BitPos() == 24
    modifies rd
    ensures rd.Valid()
    ensures r == DecodeTimestamps(rd.Bits(), flag)
    ensures r.Ok? ==> rd.BitPos() == 24 + 8 * r.value.size
  {
    if flag == 3 {
      var pts := ReadTimestamp(rd, 3, flag, false);
      if pts.Err? {
        return Err(pts.error);
      }
      var dts := ReadTimestamp(rd, 1, flag, true);
      if dts.Err? {
        return Err(dts.error);
      }
      r := Ok(Timestamps(pts.value, dts.value, 10));
    } else if flag == 2 {
      var pts := ReadTimestamp(rd, 2, flag, false);
      if pts.Err? {
        return Err(pts.error);
      }
      r := Ok(Timestamps(pts.value, pts.value, 5));
    } else if flag == 1 {
      r := Err(ForbiddenFlag(flag));
    } else {
      r := Ok(Timestamps(-1, -1, 0));
    }
  }

  /** A 4-bit prefix that must equal sync, then 3, 1, 15, 1, 15 and 1 bits. */
  method ReadTimestamp(rd: BsReader, sync: int, flag: int, isDts: bool) returns (r: Result<int, PesError>)
    requires rd.Valid()
    modifies rd
    ensures rd.Valid()
    ensures r == TimestampField(rd.Bits(), old(rd.BitPos()), sync, flag, isDts)
    ensures r.Ok? ==> rd.BitPos() == old(rd.BitPos()) + 40
  {
    ghost var bits, p := rd.Bits(), rd.BitPos();
    if rd.Remaining() < 4 {
      return Err(PesTruncated);
    }
    var s := rd.ReadBits(4);
    TimestampFieldRead(bits, p, s, sync, flag, isDts);
    if s != sync {
      return Err(if isDts then DtsSyncMismatch(s, flag) else PtsSyncMismatch(s, flag));
    }
    if rd.Remaining() < 36 {
      return Err(PesTruncated);
    }
    var t := ReadTimestampBits(rd);
    r := Ok(t);
  }

  /** TimestampField once its prefix s is read at p. */
  lemma TimestampFieldRead(bits: seq<bool>, p: nat, s: int, sync: int, flag: int, isDts: bool)
    requires p + 4 <= |bits| && s == Field(bits, p, 4)
    ensures s != sync ==>
      TimestampField(bits, p, sync, flag, isDts) == Err(if isDts then DtsSyncMismatch(s, flag) else PtsSyncMismatch(s, flag))
    ensures s == sync && p + 40 > |bits| ==> TimestampField(bits, p, sync, flag, isDts) == Err(PesTruncated)
    ensures s == sync && p + 40 <= |bits| ==> TimestampField(bits, p, sync, flag, isDts) == Ok(TimestampAt(bits, p + 4))
  {
  }

  /** The 36 bits after the prefix: 3 bits, a marker, 15 bits, a marker, 15 bits, a marker. */
  method ReadTimestampBits(rd: BsReader) returns (t: int)
    requires rd.Valid() && 36 <= rd.Remaining()
    modifies rd
    ensures rd.Valid() && rd.BitPos() == old(rd.BitPos()) + 36
    ensures t == TimestampAt(rd.Bits(), old(rd.BitPos()))
  {
    ghost var bits, p := rd.Bits(), rd.BitPos();
    var one := 1;
    t := rd.ReadBits(3);
    ghost var a := t;
    var _ := rd.ReadBits(one);
    ghost var q1 := rd.BitPos();
    var b := rd.ReadBits(15);
    t := t * 0x8000 + b;
    var _ := rd.ReadBits(one);
    ghost var q2 := rd.BitPos();
    var c := rd.ReadBits(15);
    t := t * 0x8000 + c;
    var _ := rd.ReadBits(one);
    TimestampOfParts(bits, p, q1, q2, a, b, c);
  }

  /** TimestampAt from its three parts, read at p, q1 and q2. */
  lemma TimestampOfParts(bits: seq<bool>, p: nat, q1: nat, q2: nat, a: int, b: int, c: int)
    requires p + 36 <= |bits| && q1 == p + 4 && q2 == p + 20
    requires a == Field(bits, p, 3) && b == Field(bits, q1, 15) && c == Field(bits, q2, 15)
    ensures TimestampAt(bits, p) == (a * 0x8000 + b) * 0x8000 + c
  {
  }

  /** ParsePESHeader: the header at the start of buf and the bytes it takes. */
  method ParsePESHeader(buf: seq<byte>) returns (r: Result<ParsedPes, PesError>)
    ensures r == DecodePes(BitsOf(buf))
  {
    var rd := new BsReader(buf);
    ghost var bits := rd.Bits();
    var headerLen := 0;
    if rd.Remaining() < 24 {
      return Err(PesTruncated);
    }
    var startCode := rd.ReadBits(24);
    PesPrefix(bits, startCode);
    if startCode != 0x000001 {
      return Err(StartCodeMismatch);
    }
    if rd.Remaining() < 24 {
      return Err(PesTruncated);
    }
    r := ParsePesFields(rd);
  }

  /** The stream id, the packet length and the optional header, after a matching start code. */
  method ParsePesFields(rd: BsReader) returns (r: Result<ParsedPes, PesError>)
    requires rd.Valid() && rd.BitPos() == 24 && 48 <= |rd.Bits()| && Field(rd.Bits(), 0, 24) == 1
    modifies rd
    ensures r == DecodePes(rd.Bits())
  {
    ghost var bits := rd.Bits();
    var headerLen := 6;
    var streamId := rd.ReadBits(8);
    var pesLen := rd.ReadBits(16);
    var rest := rd.GetRemainedBuffer();
    rd.RemainedBits();
    assert BitsOf(rest) == bits[48..];
    assert (|bits| - 48) / 8 == |rest|;
    var o := ParseOptionalHeader(rest);
    if o.Err? {
      PesOptionalFails(bits, o.error);
      return Err(o.error);
    }
    ghost var field := pesLen;
    headerLen := headerLen + o.value.length;
    if pesLen != 0 {
      pesLen := pesLen - o.value.length;
    } else {
      pesLen := |rd.GetRemainedBuffer()| - o.value.length;
    }
    r := Ok(ParsedPes(PesHeader(streamId, pesLen, o.value), headerLen));
    PesRead(bits, streamId, field, o.value, pesLen, headerLen);
  }

  /** DecodePes after the start code: a wrong one is an error, a right one needs 48 bits. */
  lemma PesPrefix(bits: seq<bool>, startCode: int)
    requires 24 <= |bits| && startCode == Field(bits, 0, 24)
    ensures startCode != 1 ==> DecodePes(bits) == Err(StartCodeMismatch)
    ensures startCode == 1 && |bits| < 48 ==> DecodePes(bits) == Err(PesTruncated)
  {
  }

  /** DecodePes when the optional header fails. */
  lemma PesOptionalFails(bits: seq<bool>, e: PesError)
    requires 48 <= |bits| && Field(bits, 0, 24) == 1 && DecodeOptionalHeader(bits[48..]) == Err(e)
    ensures DecodePes(bits) == Err(e)
  {
  }

  /** DecodePes once every field is read: the section length follows the packet length field. */
  lemma PesRead(bits: seq<bool>, streamId: int, field: int, o: OptionalHeader, sectionLen: int, headerLen: int)
    requires 48 <= |bits| && Field(bits, 0, 24) == 1 && streamId == Field(bits, 24, 8) && field == Field(bits, 32, 16)
    requires DecodeOptionalHeader(bits[48..]) == Ok(o) && headerLen == 6 + o.length
    requires sectionLen == if field != 0 then field - o.length else (|bits| - 48) / 8 - o.length
    ensures DecodePes(bits) == Ok(ParsedPes(PesHeader(streamId, sectionLen, o), headerLen))
  {
  }
  // ----- properties -----

  /** The start code is the three bytes 00 00 01. */
  lemma StartCodeBytes(buf: seq<byte>)
    requires 3 <= |buf|
    ensures 24 <= |BitsOf(buf)|
    ensures Field(BitsOf(buf), 0, 24) == 1 <==> buf[0] == 0 && buf[1] == 0 && buf[2] == 1
  {
    var bits := BitsOf(buf);
    var eight, sixteen := 8, 16;
    FieldSplit(bits, 0, sixteen, eight);
    FieldSplit(bits, 0, eight, eight);
    FieldByte(buf, 0);
    FieldByte(buf, 1);
    FieldByte(buf, 2);
    Pow2Widths();
  }

  /** A buffer of three bytes or more is rejected for its start code exactly when it does not begin 00 00 01. */
  lemma StartCodeRejected(buf: seq<byte>)
    requires 3 <= |buf|
    ensures DecodePes(BitsOf(buf)) == Err(StartCodeMismatch) <==> !(buf[0] == 0 && buf[1] == 0 && buf[2] == 1)
  {
    StartCodeBytes(buf);
    var bits := BitsOf(buf);
    if |bits| >= 48 {
      NoStartCodeError(bits[48..]);
    }
  }

  /** The optional header never reports a start code error. */
  lemma NoStartCodeError(bits: seq<bool>)
    ensures DecodeOptionalHeader(bits) != Err(StartCodeMismatch)
  {
  }

  /** The optional header is rejected for its marker bits exactly when they are not '10'. */
  lemma MarkerRejected(bits: seq<bool>)
    requires 2 <= |bits|
    ensures DecodeOptionalHeader(bits) == Err(MarkerMismatch) <==> Field(bits, 0, 2) != 2
  {
  }

  /** PTS_DTS_flags 1 is rejected once the marker and the flag byte are there. */
  lemma ForbiddenFlagRejected(bits: seq<bool>)
    requires 24 <= |bits| && Field(bits, 0, 2) == 2 && Field(bits, 8, 2) == 1
    ensures DecodeOptionalHeader(bits) == Err(ForbiddenFlag(1))
  {
  }

  /**
   * What a successful parse of the optional header gives: its length is the
   * header length byte plus 3; flag 0 gives no timestamp; flag 2 a PTS after the
   * prefix 2, which is the DTS too; flag 3 a PTS after the prefix 3 and a DTS
   * after the prefix 1; flag 1 never parses.
   */
  lemma OptionalHeaderParsed(bits: seq<bool>)
    requires DecodeOptionalHeader(bits).Ok?
    ensures var o, flag := DecodeOptionalHeader(bits).value, Field(bits, 8, 2);
      && 24 <= |bits| && Field(bits, 0, 2) == 2
      && o.length == Field(bits, 16, 8) + 3 && 3 <= o.length < 259
      && o.scrambled == (Field(bits, 2, 2) != 0) && o.dataAligned == bits[5]
      && flag != 1
      && (flag == 0 ==> o.pts == -1 && o.dts == -1)
      && (flag == 2 ==> 64 <= |bits| && Field(bits, 24, 4) == 2 && o.pts == o.dts == TimestampAt(bits, 28))
      && (flag == 3 ==> 104 <= |bits| && Field(bits, 24, 4) == 3 && Field(bits, 64, 4) == 1
                        && o.pts == TimestampAt(bits, 28) && o.dts == TimestampAt(bits, 68))
  {
    FieldBound(bits, 16, 8);
    FieldBound(bits, 8, 2);
    Pow2Widths();
  }

  /** A timestamp that is there is a 33-bit value: -1 or 0 <= t < 2^33. */
  lemma TimestampsInRange(bits: seq<bool>)
    requires DecodeOptionalHeader(bits).Ok?
    ensures var o := DecodeOptionalHeader(bits).value;
      (o.pts == -1 || 0 <= o.pts < Pow2(33)) && (o.dts == -1 || 0 <= o.dts < Pow2(33))
      && (o.pts == -1 <==> o.dts == -1)
  {
    OptionalHeaderParsed(bits);
    var flag := Field(bits, 8, 2);
    FieldBound(bits, 8, 2);
    assert Pow2(2) == 4;
    if flag == 2 || flag == 3 {
      TimestampRange(bits, 28);
    }
    if flag == 3 {
      TimestampRange(bits, 68);
    }
  }

  /** TimestampAt assembles 3 + 15 + 15 bits into one value below 2^33. */
  lemma TimestampRange(bits: seq<bool>, p: nat)
    requires p + 36 <= |bits|
    ensures 0 <= TimestampAt(bits, p) < Pow2(33)
  {
    var a, b, c := Field(bits, p, 3), Field(bits, p + 4, 15), Field(bits, p + 20, 15);
    FieldBound(bits, p, 3);
    FieldBound(bits, p + 4, 15);
    FieldBound(bits, p + 20, 15);
    var m := 0x8000;
    TimestampPowers();
    Pow2Add(18, 15);
    Pow2Add(3, 15);
    MulBelow(a, m, 8);
    var u := a * m + b;
    MulBelow(u, m, Pow2(18));
  }

  /**
   * What a successful parse of the whole header gives: the stream id byte, a
   * header length of 6 plus the optional header, and the section length: the
   * packet length field less the optional header, or, when that field is zero,
   * the bytes after the first six less the optional header.
   */
  lemma PesParsed(bits: seq<bool>)
    requires DecodePes(bits).Ok?
    ensures var r := DecodePes(bits).value; var o := r.header.optionalHeader; var field := Field(bits, 32, 16);
      && 48 <= |bits| && Field(bits, 0, 24) == 1
      && DecodeOptionalHeader(bits[48..]) == Ok(o)
      && r.header.streamId == Field(bits, 24, 8)
      && r.headerLen == 6 + o.length == 9 + Field(bits, 64, 8)
      && (field != 0 ==> r.header.sectionLen == field - o.length)
      && (field == 0 ==> r.header.sectionLen == (|bits| - 48) / 8 - o.length)
  {
    var rest := bits[48..];
    OptionalHeaderParsed(rest);
    FieldShift(bits[..48], rest, 16, 8);
    assert bits[..48] + rest == bits;
  }

  // ----- the timestamp layout -----

  /** A timestamp as written: the 4-bit prefix, 3 bits, a marker, 15 bits, a marker, 15 bits, a marker. */
  function TimestampSlots(prefix: int, t: int): seq<Slot>
  {
    [Slot(prefix, 4), Slot(t / 0x4000_0000, 3), Slot(1, 1), Slot(t / 0x8000 % 0x8000, 15), Slot(1, 1),
     Slot(t % 0x8000, 15), Slot(1, 1)]
  }

  /** Reading a written timestamp gives the prefix and the timestamp back, whatever follows it. */
  lemma TimestampRoundTrip(prefix: int, t: int, rest: seq<bool>)
    requires 0 <= prefix < 16 && 0 <= t < Pow2(33)
    ensures var bits := PackAll(TimestampSlots(prefix, t)) + rest;
      40 <= |bits| && Field(bits, 0, 4) == prefix && TimestampAt(bits, 4) == t
  {
    var s := TimestampSlots(prefix, t);
    var bits := PackAll(s) + rest;
    var m := 0x8000;
    var a, b, c := t / 0x4000_0000, t / m % m, t % m;
    TimestampParts(t, a, b, c);
    TimestampFits(prefix, t, s);
    TimestampOffsets(s);
    FieldOfPackAll(s, 0, rest);
    FieldOfPackAll(s, 1, rest);
    FieldOfPackAll(s, 3, rest);
    FieldOfPackAll(s, 5, rest);
  }

  /** t split into its top 3 bits and two 15-bit parts, and put back together. */
  lemma TimestampParts(t: int, a: int, b: int, c: int)
    requires 0 <= t < Pow2(33) && a == t / 0x4000_0000 && b == t / 0x8000 % 0x8000 && c == t % 0x8000
    ensures 0 <= a < 8 && (a * 0x8000 + b) * 0x8000 + c == t
  {
    var m := 0x8000;
    TimestampPowers();
    DivBelow(t, 8, 0x4000_0000);
    DivDivBy(t, m, m);
  }

  /** Every slot of a written timestamp fits its width. */
  lemma TimestampFits(prefix: int, t: int, s: seq<Slot>)
    requires 0 <= prefix < 16 && 0 <= t < Pow2(33) && s == TimestampSlots(prefix, t)
    ensures AllFit(s)
  {
    var a, b, c := t / 0x4000_0000, t / 0x8000 % 0x8000, t % 0x8000;
    TimestampParts(t, a, b, c);
    TimestampPowers();
    assert s == [Slot(prefix, 4), Slot(a, 3), Slot(1, 1), Slot(b, 15), Slot(1, 1), Slot(c, 15), Slot(1, 1)];
  }

  lemma TimestampPowers()
    ensures Pow2(1) == 2 && Pow2(3) == 8 && Pow2(4) == 16 && Pow2(15) == 0x8000
    ensures Pow2(30) == 0x4000_0000 && Pow2(33) == 0x2_0000_0000
  {
    Pow2Widths();
    Pow2Add(8, 7);
    Pow2Add(16, 14);
    Pow2Add(30, 3);
    assert Pow2(7) == 128 && Pow2(6) == 64;
    Pow2Add(8, 6);
  }

  /** Where the parts of a written timestamp start: 0, 4, 8 and 24. */
  lemma TimestampOffsets(s: seq<Slot>)
    requires |s| == 7 && s[0].width == 4 && s[1].width == 3 && s[2].width == 1 && s[3].width == 15
    requires s[4].width == 1 && s[5].width == 15 && s[6].width == 1
    ensures Offset(s, 1) == 4 && Offset(s, 3) == 8 && Offset(s, 5) == 24 && Offset(s, 7) == 40
  {
    assert Offset(s, 1) == 4;
    assert Offset(s, 2) == 7;
    assert Offset(s, 3) == 8;
    assert Offset(s, 4) == 23;
    assert Offset(s, 5) == 24;
    assert Offset(s, 6) == 39;
  }
}
