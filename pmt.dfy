/**
 * The program map table (ISO/IEC 13818-1 section 2.4.4.8): after the shared
 * section header, the PCR_PID and program_info_length with the program's
 * descriptors, then one entry per elementary stream (stream_type,
 * elementary_PID, ES_info_length and the stream's descriptors) until the
 * section length is used up. The CRC is not read; the table records -1.
 */
module PmtTables {
  import opened Bits
  import opened Wrappers
  import opened BitReader
  import opened PsiSections
  import opened Text

  /** A descriptor: its tag and its bytes as ReadHex prints them. */
  datatype Descriptor = Descriptor(tag: int, content: string)

  datatype DataStream = DataStream(streamPid: int, streamType: int, streamDesc: seq<Descriptor>)

  datatype Pmt = Pmt(pktCnt: int, pmtPid: int, tableId: int, progNum: int, version: int, curNextIdr: bool,
    progDesc: seq<Descriptor>, streams: seq<DataStream>, crc32: int)

  /** CreatePMT: a table built by hand; the crc32 argument is dropped and -1 stored, with packet count 0. */
  function CreatePmt(pmtPid: int, tableId: int, progNum: int, version: int, curNextIdr: bool,
    progDesc: seq<Descriptor>, streams: seq<DataStream>, crc32: int): (t: Pmt)
    ensures t.crc32 == -1 && t.pktCnt == 0
  {
    Pmt(0, pmtPid, tableId, progNum, version, curNextIdr, progDesc, streams, -1)
  }

  // ----- ReadHex: bytes as text -----

  /** The text ReadHex makes of n bytes from bit p: for each byte a space and its hex digits. */
  function HexText(bits: seq<bool>, p: nat, n: nat): string
    requires p + 8 * n <= |bits|
  {
    if n == 0 then "" else HexText(bits, p, n - 1) + " " + HexOf(Field(bits, p + 8 * (n - 1), 8))
  }

  /** The same text made from a byte buffer. */
  function FormatHex(bytes: seq<byte>): (s: string)
    ensures 2 * |bytes| <= |s| <= 3 * |bytes|
  {
    if bytes == [] then ""
    else
      HexOfByte(bytes[|bytes| - 1]);
      FormatHex(bytes[..|bytes| - 1]) + " " + HexOf(bytes[|bytes| - 1])
  }

  /** ReadHex on a byte boundary prints the buffer's own bytes. */
  lemma {:induction false} HexTextBytes(bs: seq<byte>, i: nat, n: nat)
    requires i + n <= |bs|
    ensures 8 * i + 8 * n <= |BitsOf(bs)|
    ensures HexText(BitsOf(bs), 8 * i, n) == FormatHex(bs[i..i + n])
  {
    var bits := BitsOf(bs);
    if n > 0 {
      HexTextBytes(bs, i, n - 1);
      var t, prev := bs[i..i + n], bs[i..i + n - 1];
      assert t[..n - 1] == prev;
      var v := Field(bits, 8 * i + 8 * (n - 1), 8);
      assert 8 * i + 8 * (n - 1) == 8 * (i + n - 1);
      FieldByte(bs, i + n - 1);
      assert v == t[n - 1];
      FormatHexLast(t);
      HexTextStep(bits, 8 * i, n - 1, 8 * i + 8 * (n - 1));
      var h := " " + HexOf(v);
      assert FormatHex(t) == FormatHex(prev) + h;
      assert HexText(bits, 8 * i, n) == HexText(bits, 8 * i, n - 1) + h;
    } else {
      assert bs[i..i + n] == [];
    }
  }

  /** One more byte of text, for the byte at bit q. */
  lemma HexTextStep(bits: seq<bool>, p: nat, n: nat, q: nat)
    requires q == p + 8 * n && q + 8 <= |bits|
    ensures HexText(bits, p, n + 1) == HexText(bits, p, n) + (" " + HexOf(Field(bits, q, 8)))
  {
  }

  lemma FormatHexLast(t: seq<byte>)
    requires t != []
    ensures FormatHex(t) == FormatHex(t[..|t| - 1]) + (" " + HexOf(t[|t| - 1]))
  {
  }

  // ----- the table as a function of its bits -----

  /** A reserved 111, a 13-bit PID and a reserved 1111 from bit s, as both PCR_PID and elementary_PID are laid out. */
  function ReservedPidAt(bits: seq<bool>, s: nat): (r: Result<Step<int>, SectionError>)
    ensures r.Ok? ==> r.value.next == s + 20 <= |bits|
  {
    if s + 3 > |bits| then Err(SectionTruncated)
    else if Field(bits, s, 3) != 7 then Err(ReservedBitsNotSet)
    else if s + 20 > |bits| then Err(SectionTruncated)
    else if Field(bits, s + 16, 4) != 15 then Err(ReservedBitsNotSet)
    else Ok(Step(Field(bits, s + 3, 13), s + 20))
  }

  /** After the header: PCR_PID, two bits that are not checked, then program_info_length. */
  function ProgramInfoAt(bits: seq<bool>, q: nat): (r: Result<Step<nat>, SectionError>)
    ensures r.Ok? ==> r.value.next == q + 32 <= |bits|
  {
    match ReservedPidAt(bits, q)
    case Err(e) => Err(e)
    case Ok(_) => if q + 32 > |bits| then Err(SectionTruncated) else Ok(Step(Field(bits, q + 22, 10), q + 32))
  }

  /** _readDescriptor at bit p: the tag, the length, and that many bytes as text; with the length. */
  function DescriptorAt(bits: seq<bool>, p: nat): (r: Result<Step<(Descriptor, nat)>, SectionError>)
    ensures r.Ok? ==> p + 16 <= |bits| && r.value.next == p + 16 + 8 * r.value.value.1 <= |bits|
  {
    if p + 16 > |bits| then Err(SectionTruncated)
    else
      var len := Field(bits, p + 8, 8);
      if p + 16 + 8 * len > |bits| then Err(SectionTruncated)
      else Ok(Step((Descriptor(Field(bits, p, 8), HexText(bits, p + 16, len)), len), p + 16 + 8 * len))
  }

  /** The descriptor loop: while the counter l is positive, a descriptor, and l less its length and 2. */
  function DescriptorsFrom(bits: seq<bool>, p: nat, l: int, acc: seq<Descriptor>): (r: Result<Step<seq<Descriptor>>, SectionError>)
    ensures r.Ok? ==> p <= r.value.next <= |bits| || (l <= 0 && r.value.next == p)
    decreases l, 2
  {
    if l <= 0 then Ok(Step(acc, p)) else DescriptorsAfter(bits, p, l, acc)
  }

  /**
   * l is positive, so the loop body runs. A call of its own, so that unfolding
   * DescriptorsFrom once or twice stops short of parsing a descriptor.
   */
  function DescriptorsAfter(bits: seq<bool>, p: nat, l: int, acc: seq<Descriptor>): (r: Result<Step<seq<Descriptor>>, SectionError>)
    requires l > 0
    ensures r.Ok? ==> p <= r.value.next <= |bits|
    decreases l, 1
  {
    DescriptorsNext(bits, p, l, acc)
  }

  /** The loop body: one descriptor at p, then the loop again with the counter reduced. */
  function DescriptorsNext(bits: seq<bool>, p: nat, l: int, acc: seq<Descriptor>): (r: Result<Step<seq<Descriptor>>, SectionError>)
    requires l > 0
    ensures r.Ok? ==> p <= r.value.next <= |bits|
    decreases l, 0
  {
    match DescriptorAt(bits, p)
    case Err(e) => Err(e)
    case Ok(d) => DescriptorsFrom(bits, d.next, l - (d.value.1 + 2), acc + [d.value.0])
  }

  /** The program part: program_info_length and the program's descriptors. */
  function ProgramAt(bits: seq<bool>, q: nat): (r: Result<Step<(nat, seq<Descriptor>)>, SectionError>)
  {
    match ProgramInfoAt(bits, q)
    case Err(e) => Err(e)
    case Ok(pi) =>
      match DescriptorsFrom(bits, pi.next, pi.value, [])
      case Err(e) => Err(e)
      case Ok(pd) => Ok(Step((pi.value, pd.value), pd.next))
  }

  datatype StreamHead = StreamHead(streamType: int, streamPid: int, esInfoLen: nat)

  /** stream_type, then elementary_PID between its reserved bits. */
  function StreamIdAt(bits: seq<bool>, p: nat): (r: Result<Step<(int, int)>, SectionError>)
    ensures r.Ok? ==> r.value.next == p + 28 <= |bits|
  {
    if p + 8 > |bits| then Err(SectionTruncated)
    else
      match ReservedPidAt(bits, p + 8)
      case Err(e) => Err(e)
      case Ok(pid) => Ok(Step((Field(bits, p, 8), pid.value), p + 28))
  }

  /** A stream's five fixed bytes: the above, unused 00 and ES_info_length. */
  function StreamHeadAt(bits: seq<bool>, p: nat): (r: Result<Step<StreamHead>, SectionError>)
    ensures r.Ok? ==> r.value.next == p + 40 <= |bits|
  {
    match StreamIdAt(bits, p)
    case Err(e) => Err(e)
    case Ok(id) =>
      if p + 30 > |bits| then Err(SectionTruncated)
      else if Field(bits, p + 28, 2) != 0 then Err(UnusedBitsSet)
      else if p + 40 > |bits| then Err(SectionTruncated)
      else Ok(Step(StreamHead(id.value.0, id.value.1, Field(bits, p + 30, 10)), p + 40))
  }

  /** One stream: its head, then ES_info_length's worth of descriptors; with ES_info_length. */
  function StreamAt(bits: seq<bool>, p: nat): (r: Result<Step<(DataStream, nat)>, SectionError>)
    ensures r.Ok? ==> p + 40 <= r.value.next <= |bits|
  {
    match StreamHeadAt(bits, p)
    case Err(e) => Err(e)
    case Ok(h) =>
      match DescriptorsFrom(bits, h.next, h.value.esInfoLen, [])
      case Err(e) => Err(e)
      case Ok(d) => Ok(Step((DataStream(h.value.streamPid, h.value.streamType, d.value), h.value.esInfoLen), d.next))
  }

  /**
   * The stream loop with n section bytes left: it stops only when n is
   * exactly 0, taking 5 + ES_info_length off n for each stream.
   */
  function StreamsFrom(bits: seq<bool>, p: nat, n: int, acc: seq<DataStream>): Result<Step<seq<DataStream>>, SectionError>
    decreases |bits| - p, 2
  {
    if n == 0 then Ok(Step(acc, p)) else StreamsAfter(bits, p, n, acc)
  }

  /** n is not used up, so the loop body runs (a call of its own, as DescriptorsAfter is). */
  function StreamsAfter(bits: seq<bool>, p: nat, n: int, acc: seq<DataStream>): Result<Step<seq<DataStream>>, SectionError>
    decreases |bits| - p, 1
  {
    StreamsNext(bits, p, n, acc)
  }

  /** The loop body: one stream at p, then the loop again on what is left. */
  function StreamsNext(bits: seq<bool>, p: nat, n: int, acc: seq<DataStream>): Result<Step<seq<DataStream>>, SectionError>
    decreases |bits| - p, 0
  {
    match StreamAt(bits, p)
    case Err(e) => Err(e)
    case Ok(s) => StreamsFrom(bits, s.next, n - (5 + s.value.1), acc + [s.value.0])
  }

  /** The stream loop from its start at p with n section bytes left. */
  function StreamsOf(bits: seq<bool>, p: nat, n: int): Result<Step<seq<DataStream>>, SectionError>
  {
    StreamsFrom(bits, p, n, [])
  }

  datatype Body = Body(progDesc: seq<Descriptor>, streams: seq<DataStream>)

  /**
   * What follows the section header: the program part, then the streams;
   * section_length less 9 (the five header bytes after it and the CRC) and
   * less the program part's 4 + program_info_length bytes is left for them.
   */
  function BodyAt(bits: seq<bool>, q: nat, sectionLen: int): Result<Step<Body>, SectionError>
  {
    match ProgramAt(bits, q)
    case Err(e) => Err(e)
    case Ok(pr) =>
      match StreamsOf(bits, pr.next, sectionLen - 9 - (4 + pr.value.0))
      case Err(e) => Err(e)
      case Ok(ss) => Ok(Step(Body(pr.value.1, ss.value), ss.next))
  }

  /** The table a buffer holds; the Go code panics where this gives an error. */
  function PmtAt(bits: seq<bool>, pmtPid: int, cnt: int): Result<Pmt, SectionError>
  {
    match SectionHeaderOf(bits)
    case Err(e) => Err(e)
    case Ok(h) =>
      match BodyAt(bits, h.next, h.value.sectionLen)
      case Err(e) => Err(e)
      case Ok(b) =>
        Ok(Pmt(cnt, pmtPid, h.value.tableId, h.value.tableIdExt, h.value.version, h.value.curNextIdr,
          b.value.progDesc, b.value.streams, -1))
  }

  // ----- the parser -----

  /** ParsePMT. */
  method ParsePmt(buf: seq<byte>, pmtPid: int, cnt: int) returns (r: Result<Pmt, SectionError>)
    ensures r == PmtAt(BitsOf(buf), pmtPid, cnt)
  {
    var rd := new BsReader(buf);
    ghost var bits := rd.Bits();
    var h := ReadSectionHeader(rd);
    if h.Err? {
      return Err(h.error);
    }
    ghost var q := rd.BitPos();
    var body := ReadBody(rd, h.value.sectionLen);
    if body.Err? {
      return Err(body.error);
    }
    r := Ok(Pmt(cnt, pmtPid, h.value.tableId, h.value.tableIdExt, h.value.version, h.value.curNextIdr,
      body.value.progDesc, body.value.streams, -1));
  }

  /** Everything after the section header. */
  method ReadBody(rd: BsReader, sectionLen: int) returns (r: Result<Body, SectionError>)
    requires rd.Valid()
    modifies rd
    ensures rd.Valid()
    ensures ReadAs(r, rd.BitPos(), BodyAt(rd.Bits(), old(rd.BitPos()), sectionLen))
  {
    ghost var bits, q := rd.Bits(), rd.BitPos();
    var program := ReadProgram(rd);
    if program.Err? {
      return Err(program.error);
    }
    ghost var q1 := rd.BitPos();
    BodyStep(bits, q, sectionLen, program, q1);
    var streams := ReadStreams(rd, sectionLen - 9 - (4 + program.value.0));
    if streams.Err? {
      return Err(streams.error);
    }
    r := Ok(Body(program.value.1, streams.value));
  }

  lemma BodyStep(bits: seq<bool>, q: nat, sectionLen: int, pr: Result<(nat, seq<Descriptor>), SectionError>, pos: nat)
    requires ReadAs(pr, pos, ProgramAt(bits, q)) && pr.Ok?
    ensures ProgramAt(bits, q) == Ok(Step(pr.value, pos))
    ensures BodyAt(bits, q, sectionLen) ==
      match StreamsOf(bits, pos, sectionLen - 9 - (4 + pr.value.0))
      case Err(e) => Err(e)
      case Ok(ss) => Ok(Step(Body(pr.value.1, ss.value), ss.next))
  {
  }

  /** program_info_length and the program's descriptors. */
  method ReadProgram(rd: BsReader) returns (r: Result<(nat, seq<Descriptor>), SectionError>)
    requires rd.Valid()
    modifies rd
    ensures rd.Valid()
    ensures ReadAs(r, rd.BitPos(), ProgramAt(rd.Bits(), old(rd.BitPos())))
  {
    ghost var bits, q := rd.Bits(), rd.BitPos();
    var progInfoLen := ReadProgramInfo(rd);
    if progInfoLen.Err? {
      return Err(progInfoLen.error);
    }
    ghost var q1 := rd.BitPos();
    ProgramStep(bits, q, progInfoLen, q1);
    var progDesc := ReadDescriptors(rd, progInfoLen.value);
    if progDesc.Err? {
      return Err(progDesc.error);
    }
    r := Ok((progInfoLen.value, progDesc.value));
  }

  lemma ProgramStep(bits: seq<bool>, q: nat, pi: Result<nat, SectionError>, pos: nat)
    requires ReadAs(pi, pos, ProgramInfoAt(bits, q)) && pi.Ok?
    ensures ProgramAt(bits, q) ==
      match DescriptorsFrom(bits, pos, pi.value, [])
      case Err(e) => Err(e)
      case Ok(pd) => Ok(Step((pi.value, pd.value), pd.next))
  {
  }

  /** PCR_PID between its reserved bits, the two unchecked bits, program_info_length. */
  method ReadProgramInfo(rd: BsReader) returns (r: Result<nat, SectionError>)
    requires rd.Valid()
    modifies rd
    ensures rd.Valid()
    ensures ReadAs(r, rd.BitPos(), ProgramInfoAt(rd.Bits(), old(rd.BitPos())))
  {
    ghost var bits, q := rd.Bits(), rd.BitPos();
    var pcrPid := ReadReservedPid(rd);
    if pcrPid.Err? {
      return Err(pcrPid.error);
    }
    if rd.Remaining() < 12 {
      return Err(SectionTruncated);
    }
    var _ := rd.ReadBits(2);
    var progInfoLen := rd.ReadBits(10);
    r := Ok(progInfoLen);
  }

  /** Reserved 111, a 13-bit PID, reserved 1111. */
  method ReadReservedPid(rd: BsReader) returns (r: Result<int, SectionError>)
    requires rd.Valid()
    modifies rd
    ensures rd.Valid()
    ensures ReadAs(r, rd.BitPos(), ReservedPidAt(rd.Bits(), old(rd.BitPos())))
  {
    ghost var bits, s := rd.Bits(), rd.BitPos();
    if rd.Remaining() < 3 {
      return Err(SectionTruncated);
    }
    var reserved := rd.ReadBits(3);
    if reserved != 7 {
      return Err(ReservedBitsNotSet);
    }
    if rd.Remaining() < 17 {
      return Err(SectionTruncated);
    }
    var pid := rd.ReadBits(13);
    var reserved2 := rd.ReadBits(4);
    if reserved2 != 15 {
      return Err(ReservedBitsNotSet);
    }
    r := Ok(pid);
  }

  /** The descriptor loop over a counter. */
  method ReadDescriptors(rd: BsReader, l: int) returns (r: Result<seq<Descriptor>, SectionError>)
    requires rd.Valid()
    modifies rd
    ensures rd.Valid()
    ensures ReadAs(r, rd.BitPos(), DescriptorsFrom(rd.Bits(), old(rd.BitPos()), l, []))
  {
    ghost var bits, goal := rd.Bits(), DescriptorsFrom(rd.Bits(), rd.BitPos(), l, []);
    var descs: seq<Descriptor> := [];
    var infoLen := l;
    while infoLen > 0
      invariant rd.Valid() && rd.Bits() == bits
      invariant goal == DescriptorsFrom(bits, rd.BitPos(), infoLen, descs)
      decreases infoLen
    {
      var desc := ReadNextDescriptor(rd, infoLen, descs);
      if desc.Err? {
        return Err(desc.error);
      }
      infoLen := infoLen - (desc.value.1 + 2);
      descs := descs + [desc.value.0];
    }
    r := Ok(descs);
  }

  method ReadNextDescriptor(rd: BsReader, ghost l: int, ghost acc: seq<Descriptor>) returns (r: Result<(Descriptor, nat), SectionError>)
    requires rd.Valid() && l > 0
    modifies rd
    ensures rd.Valid()
    ensures r.Err? ==> DescriptorsFrom(rd.Bits(), old(rd.BitPos()), l, acc) == Err(r.error)
    ensures r.Ok? ==> DescriptorsFrom(rd.Bits(), old(rd.BitPos()), l, acc) == DescriptorsFrom(rd.Bits(), rd.BitPos(), l - (r.value.1 + 2), acc + [r.value.0])
  {
    ghost var bits, q := rd.Bits(), rd.BitPos();
    r := ReadDescriptor(rd);
    if r.Err? {
      DescriptorsStops(bits, q, l, acc);
      return;
    }
    DescriptorsStep(bits, q, l, acc, r, rd.BitPos());
  }

  lemma DescriptorsStops(bits: seq<bool>, q: nat, l: int, acc: seq<Descriptor>)
    requires l > 0 && DescriptorAt(bits, q).Err?
    ensures DescriptorsFrom(bits, q, l, acc) == Err(DescriptorAt(bits, q).error)
  {
    assert DescriptorsFrom(bits, q, l, acc) == DescriptorsNext(bits, q, l, acc);
  }

  lemma DescriptorsStep(bits: seq<bool>, q: nat, l: int, acc: seq<Descriptor>, d: Result<(Descriptor, nat), SectionError>, pos: nat)
    requires l > 0 && ReadAs(d, pos, DescriptorAt(bits, q)) && d.Ok?
    ensures DescriptorsFrom(bits, q, l, acc) == DescriptorsFrom(bits, pos, l - (d.value.1 + 2), acc + [d.value.0])
  {
    assert DescriptorsFrom(bits, q, l, acc) == DescriptorsNext(bits, q, l, acc);
  }

  /**
   * _readDescriptor: the descriptor and its length; the caller takes the
   * length and 2 off its counter.
   */
  method ReadDescriptor(rd: BsReader) returns (r: Result<(Descriptor, nat), SectionError>)
    requires rd.Valid()
    modifies rd
    ensures rd.Valid()
    ensures ReadAs(r, rd.BitPos(), DescriptorAt(rd.Bits(), old(rd.BitPos())))
  {
    ghost var bits, p := rd.Bits(), rd.BitPos();
    if rd.Remaining() < 16 {
      return Err(SectionTruncated);
    }
    var tag := rd.ReadBits(8);
    ghost var p8 := rd.BitPos();
    var descLen := rd.ReadBits(8);
    ghost var q := rd.BitPos();
    if rd.Remaining() < 8 * descLen {
      return Err(SectionTruncated);
    }
    var content := ReadHex(rd, descLen);
    DescriptorRead(bits, p, tag, p8, descLen, q, content, rd.BitPos());
    r := Ok((Descriptor(tag, content), descLen));
  }

  lemma DescriptorRead(bits: seq<bool>, p: nat, tag: int, p8: nat, len: nat, q: nat, content: string, pos: nat)
    requires p + 16 <= |bits| && p8 == p + 8 && q == p + 16
    requires tag == Field(bits, p, 8) && len == Field(bits, p8, 8)
    requires q + 8 * len <= |bits| && pos == q + 8 * len && content == HexText(bits, q, len)
    ensures DescriptorAt(bits, p) == Ok(Step((Descriptor(tag, content), len), pos))
  {
  }

  /** ReadHex: n bytes, each as a space and its hex digits. */
  method ReadHex(rd: BsReader, n: nat) returns (s: string)
    requires rd.Valid() && 8 * n <= rd.Remaining()
    modifies rd
    ensures rd.Valid() && rd.BitPos() == old(rd.BitPos()) + 8 * n
    ensures s == HexText(rd.Bits(), old(rd.BitPos()), n)
  {
    ghost var bits, p := rd.Bits(), rd.BitPos();
    s := "";
    var i := 0;
    while i < n
      invariant 0 <= i <= n && rd.Valid() && rd.Bits() == bits
      invariant rd.BitPos() == p + 8 * i
      invariant s == HexText(bits, p, i)
    {
      ghost var q := rd.BitPos();
      var b := rd.ReadBits(8);
      HexTextStep(bits, p, i, q);
      s := s + (" " + HexOf(b));
      i := i + 1;
    }
  }

  /** The stream loop: until the section length left is exactly 0. */
  method ReadStreams(rd: BsReader, n: int) returns (r: Result<seq<DataStream>, SectionError>)
    requires rd.Valid()
    modifies rd
    ensures rd.Valid()
    ensures ReadAs(r, rd.BitPos(), StreamsOf(rd.Bits(), old(rd.BitPos()), n))
  {
    ghost var bits, goal := rd.Bits(), StreamsOf(rd.Bits(), rd.BitPos(), n);
    var streams: seq<DataStream> := [];
    var sectionLen := n;
    while sectionLen != 0
      invariant rd.Valid() && rd.Bits() == bits && rd.BitPos() <= |bits|
      invariant goal == StreamsFrom(bits, rd.BitPos(), sectionLen, streams)
      decreases |bits| - rd.BitPos()
    {
      var stream := ReadNextStream(rd, sectionLen, streams);
      if stream.Err? {
        return Err(stream.error);
      }
      sectionLen := sectionLen - (5 + stream.value.1);
      streams := streams + [stream.value.0];
    }
    r := Ok(streams);
  }

  method ReadNextStream(rd: BsReader, ghost n: int, ghost acc: seq<DataStream>) returns (r: Result<(DataStream, nat), SectionError>)
    requires rd.Valid() && n != 0
    modifies rd
    ensures rd.Valid()
    ensures r.Err? ==> StreamsFrom(rd.Bits(), old(rd.BitPos()), n, acc) == Err(r.error)
    ensures r.Ok? ==> old(rd.BitPos()) < rd.BitPos() <= |rd.Bits()|
    ensures r.Ok? ==> StreamsFrom(rd.Bits(), old(rd.BitPos()), n, acc) == StreamsFrom(rd.Bits(), rd.BitPos(), n - (5 + r.value.1), acc + [r.value.0])
  {
    ghost var bits, q := rd.Bits(), rd.BitPos();
    r := ReadStream(rd);
    if r.Err? {
      StreamsStops(bits, q, n, acc);
      return;
    }
    StreamsStep(bits, q, n, acc, r, rd.BitPos());
  }

  lemma StreamsStops(bits: seq<bool>, q: nat, n: int, acc: seq<DataStream>)
    requires n != 0 && StreamAt(bits, q).Err?
    ensures StreamsFrom(bits, q, n, acc) == Err(StreamAt(bits, q).error)
  {
    assert StreamsFrom(bits, q, n, acc) == StreamsNext(bits, q, n, acc);
  }

  lemma StreamsStep(bits: seq<bool>, q: nat, n: int, acc: seq<DataStream>, s: Result<(DataStream, nat), SectionError>, pos: nat)
    requires n != 0 && ReadAs(s, pos, StreamAt(bits, q)) && s.Ok?
    ensures q + 40 <= pos <= |bits|
    ensures StreamsFrom(bits, q, n, acc) == StreamsFrom(bits, pos, n - (5 + s.value.1), acc + [s.value.0])
  {
    assert StreamsFrom(bits, q, n, acc) == StreamsNext(bits, q, n, acc);
  }

  /** One stream: its head and its descriptors, and ES_info_length. */
  method ReadStream(rd: BsReader) returns (r: Result<(DataStream, nat), SectionError>)
    requires rd.Valid()
    modifies rd
    ensures rd.Valid()
    ensures ReadAs(r, rd.BitPos(), StreamAt(rd.Bits(), old(rd.BitPos())))
  {
    ghost var bits, p := rd.Bits(), rd.BitPos();
    var h := ReadStreamHead(rd);
    if h.Err? {
      return Err(h.error);
    }
    ghost var p1 := rd.BitPos();
    StreamStep(bits, p, h, p1);
    var desc := ReadDescriptors(rd, h.value.esInfoLen);
    if desc.Err? {
      return Err(desc.error);
    }
    r := Ok((DataStream(h.value.streamPid, h.value.streamType, desc.value), h.value.esInfoLen));
  }

  lemma StreamStep(bits: seq<bool>, p: nat, h: Result<StreamHead, SectionError>, pos: nat)
    requires ReadAs(h, pos, StreamHeadAt(bits, p)) && h.Ok?
    ensures StreamAt(bits, p) ==
      match DescriptorsFrom(bits, pos, h.value.esInfoLen, [])
      case Err(e) => Err(e)
      case Ok(d) => Ok(Step((DataStream(h.value.streamPid, h.value.streamType, d.value), h.value.esInfoLen), d.next))
  {
  }

  /** A stream's five fixed bytes. */
  method ReadStreamHead(rd: BsReader) returns (r: Result<StreamHead, SectionError>)
    requires rd.Valid()
    modifies rd
    ensures rd.Valid()
    ensures ReadAs(r, rd.BitPos(), StreamHeadAt(rd.Bits(), old(rd.BitPos())))
  {
    ghost var bits, p := rd.Bits(), rd.BitPos();
    var id := ReadStreamId(rd);
    if id.Err? {
      return Err(id.error);
    }
    assert StreamIdAt(bits, p) == Ok(Step(id.value, p + 28)) && rd.BitPos() == p + 28;
    if rd.Remaining() < 2 {
      return Err(SectionTruncated);
    }
    var unused := rd.ReadBits(2);
    if unused != 0 {
      return Err(UnusedBitsSet);
    }
    if rd.Remaining() < 10 {
      return Err(SectionTruncated);
    }
    var esInfoLen := rd.ReadBits(10);
    r := Ok(StreamHead(id.value.0, id.value.1, esInfoLen));
  }

  /** stream_type, then elementary_PID between its reserved bits. */
  method ReadStreamId(rd: BsReader) returns (r: Result<(int, int), SectionError>)
    requires rd.Valid()
    modifies rd
    ensures rd.Valid()
    ensures ReadAs(r, rd.BitPos(), StreamIdAt(rd.Bits(), old(rd.BitPos())))
  {
    ghost var bits, p := rd.Bits(), rd.BitPos();
    if rd.Remaining() < 8 {
      return Err(SectionTruncated);
    }
    var streamType := rd.ReadBits(8);
    var pid := ReadReservedPid(rd);
    if pid.Err? {
      return Err(pid.error);
    }
    assert ReservedPidAt(bits, p + 8) == Ok(Step(pid.value, p + 28));
    r := Ok((streamType, pid.value));
  }
}
