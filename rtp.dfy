/**
 * The RTP parser: the fixed RTP header of section 5.1 of RFC 3550 (version,
 * padding, extension, CSRC count, marker, payload type, sequence number,
 * timestamp, SSRC), the CSRC list skipped, and the payload with its padding
 * removed.
 */
module Rtp {
  import opened Bits
  import opened Wrappers
  import opened BitReader
  import opened ProtocolParser
  import opened Packing

  /** The parser panics on each of these. */
  datatype RtpError =
    | BadVersion        // the version field is not 2
    | ExtensionHeader   // the extension bit is set
    | RtpTruncated      // a read past the end of the buffer
    | BadPadding        // the padding count is missing or longer than the payload

  const RtpVersion := 2

  /** The header fields the parser keeps, under the names it gives them. */
  function RtpFields(marker: int, payloadType: int, seqNumber: int, timestamp: int, syncId: int): map<string, int>
  {
    map["marker" := marker, "payloadType" := payloadType, "seqNumber" := seqNumber,
        "timestamp" := timestamp, "syncId" := syncId]
  }

  /** The twelve-byte fixed header, field by field. */
  datatype RtpHeader = RtpHeader(version: int, padding: int, extension: int, csrcCount: nat, marker: int,
                                 payloadType: int, seqNumber: int, timestamp: int, syncId: int)

  /** The fixed header read from the first 96 bits: 2, 1, 1, 4, 1, 7, 16, 32 and 32 bits wide. */
  function FixedHeader(bits: seq<bool>): RtpHeader
    requires 96 <= |bits|
  {
    RtpHeader(Field(bits, 0, 2), Field(bits, 2, 1), Field(bits, 3, 1), Field(bits, 4, 4), Field(bits, 8, 1),
              Field(bits, 9, 7), Field(bits, 16, 16), Field(bits, 32, 32), Field(bits, 64, 32))
  }

  /** The parse of buf: the payload after 12 + 4·CSRC bytes, less the padding, and the header fields. */
  function DecodeRtp(buf: seq<byte>): Result<ParseResult, RtpError>
  {
    if |buf| < 1 then Err(RtpTruncated)
    else if Field(BitsOf(buf), 0, 2) != RtpVersion then Err(BadVersion)
    else if |buf| < 12 then Err(RtpTruncated)
    else DecodeBody(buf, FixedHeader(BitsOf(buf)))
  }

  /** What follows the fixed header h of buf: the CSRC list, then the payload and its padding. */
  function DecodeBody(buf: seq<byte>, h: RtpHeader): Result<ParseResult, RtpError>
  {
    if |buf| < 12 + 4 * h.csrcCount then Err(RtpTruncated)
    else if h.extension != 0 then Err(ExtensionHeader)
    else
      var rest := buf[12 + 4 * h.csrcCount..];
      if h.padding != 0 && (rest == [] || rest[|rest| - 1] > |rest|) then Err(BadPadding)
      else
        var nPad := if h.padding != 0 then rest[|rest| - 1] else 0;
        Ok(ParseResult(rest[..|rest| - nPad], RtpFields(h.marker, h.payloadType, h.seqNumber, h.timestamp, h.syncId), false))
  }

  /** RtpProtocolParser.Parse: one result, read through a bit reader; the CSRC identifiers are skipped in a loop. */
  method RtpParse(data: ParseResult) returns (r: Result<seq<ParseResult>, RtpError>)
    ensures r.Ok? <==> DecodeRtp(data.buffer).Ok?
    ensures r.Ok? ==> r.value == [DecodeRtp(data.buffer).value]
    ensures r.Err? ==> r.error == DecodeRtp(data.buffer).error
  {
    var rawBuf := data.buffer;
    var rd := new BsReader(rawBuf);
    if rd.Remaining() < 2 {
      return Err(RtpTruncated);
    }
    var version := rd.ReadBits(2);
    if version != RtpVersion {
      return Err(BadVersion);
    }
    if rd.Remaining() < 94 {
      return Err(RtpTruncated);
    }
    var h := ReadFixedRest(rd, version);
    var body := SkipAndStrip(rd, h);
    match body {
      case Ok(res) => r := Ok([res]);
      case Err(e) => r := Err(e);
    }
  }

  /** The fields after the version, read in order. */
  method ReadFixedRest(rd: BsReader, version: int) returns (h: RtpHeader)
    requires rd.Valid() && rd.BitPos() == 2 && 96 <= 8 * |rd.rawBs| && version == Field(rd.Bits(), 0, 2)
    modifies rd
    ensures rd.Valid() && rd.BitPos() == 96
    ensures h == FixedHeader(rd.Bits())
  {
    var one := 1;
    var bPad := rd.ReadBits(one);
    var bExtension := rd.ReadBits(one);
    var csrcCount := rd.ReadBits(4);
    var marker := rd.ReadBits(one);
    var payloadType := rd.ReadBits(7);
    var seqNumber := rd.ReadBits(16);
    var timestamp := rd.ReadBits(32);
    var syncId := rd.ReadBits(32);
    h := RtpHeader(version, bPad, bExtension, csrcCount, marker, payloadType, seqNumber, timestamp, syncId);
  }

  /** The CSRC identifiers skipped one by one, then the payload taken and its padding dropped. */
  method SkipAndStrip(rd: BsReader, h: RtpHeader) returns (r: Result<ParseResult, RtpError>)
    requires rd.Valid() && rd.BitPos() == 96
    modifies rd
    ensures r == DecodeBody(rd.rawBs, h)
  {
    var i := 0;
    while i < h.csrcCount
      invariant rd.Valid() && 0 <= i <= h.csrcCount
      invariant rd.BitPos() == 96 + 32 * i
      decreases h.csrcCount - i
    {
      if rd.Remaining() < 32 {
        return Err(RtpTruncated);
      }
      var _ := rd.ReadBits(32);
      i := i + 1;
    }
    if h.extension != 0 {
      return Err(ExtensionHeader);
    }
    var remainedBuf := rd.GetRemainedBuffer();
    assert remainedBuf == rd.rawBs[12 + 4 * h.csrcCount..];
    var nPad := 0;
    if h.padding != 0 {
      if |remainedBuf| == 0 || remainedBuf[|remainedBuf| - 1] > |remainedBuf| {
        return Err(BadPadding);
      }
      nPad := remainedBuf[|remainedBuf| - 1];
    }
    r := Ok(ParseResult(remainedBuf[..|remainedBuf| - nPad], RtpFields(h.marker, h.payloadType, h.seqNumber, h.timestamp, h.syncId), false));
  }

  /** The fixed header as the 96 bits a sender writes: version 2, no extension. */
  function RtpHeaderSlots(padding: bool, csrcCount: nat, marker: bool, payloadType: int, seqNumber: int, timestamp: int, syncId: int): (s: seq<Slot>)
    ensures |s| == 9
  {
    [Slot(RtpVersion, 2), Slot(BoolBit(padding), 1), Slot(0, 1), Slot(csrcCount, 4), Slot(BoolBit(marker), 1),
     Slot(payloadType, 7), Slot(seqNumber, 16), Slot(timestamp, 32), Slot(syncId, 32)]
  }

  lemma RtpOffsets(s: seq<Slot>, pad: bool, csrcCount: nat, marker: bool, payloadType: int, seqNumber: int, timestamp: int, syncId: int)
    requires s == RtpHeaderSlots(pad, csrcCount, marker, payloadType, seqNumber, timestamp, syncId)
    ensures Offset(s, 1) == 2 && Offset(s, 2) == 3 && Offset(s, 3) == 4 && Offset(s, 4) == 8 && Offset(s, 5) == 9
    ensures Offset(s, 6) == 16 && Offset(s, 7) == 32 && Offset(s, 8) == 64 && Offset(s, 9) == 96
  {
    assert Offset(s, 1) == 2;
    assert Offset(s, 2) == 3;
    assert Offset(s, 3) == 4;
    assert Offset(s, 4) == 8;
    assert Offset(s, 5) == 9;
    assert Offset(s, 6) == 16;
    assert Offset(s, 7) == 32;
    assert Offset(s, 8) == 64;
  }

  /**
   * A packet made of a 12-byte fixed header, csrcCount 4-byte identifiers, the
   * payload and its padding (whose last byte counts the padding) parses to that
   * payload and the header's fields.
   */
  lemma DecodePacket(header: seq<byte>, csrcs: seq<byte>, payload: seq<byte>, padding: seq<byte>,
                     pad: bool, csrcCount: nat, marker: bool, payloadType: int, seqNumber: int, timestamp: int, syncId: int)
    requires AllFit(RtpHeaderSlots(pad, csrcCount, marker, payloadType, seqNumber, timestamp, syncId))
    requires |header| == 12 && BitsOf(header) == PackTo(RtpHeaderSlots(pad, csrcCount, marker, payloadType, seqNumber, timestamp, syncId), 9)
    requires |csrcs| == 4 * csrcCount
    requires pad ==> padding != [] && padding[|padding| - 1] == |padding|
    requires !pad ==> padding == []
    ensures DecodeRtp(header + csrcs + payload + padding)
         == Ok(ParseResult(payload, RtpFields(BoolBit(marker), payloadType, seqNumber, timestamp, syncId), false))
  {
    var buf := header + csrcs + payload + padding;
    var rest := csrcs + payload + padding;
    var h := RtpHeader(RtpVersion, BoolBit(pad), 0, csrcCount, BoolBit(marker), payloadType, seqNumber, timestamp, syncId);
    var res := ParseResult(payload, RtpFields(BoolBit(marker), payloadType, seqNumber, timestamp, syncId), false);
    HeaderOfPacket(header, rest, buf, pad, csrcCount, marker, payloadType, seqNumber, timestamp, syncId);
    BodyOfPacket(header, csrcs, payload, padding, buf, pad, h);
    DecodeFrom(buf, h, res);
  }

  /** The parse, given the fixed header and the body that follows it. */
  lemma DecodeFrom(buf: seq<byte>, h: RtpHeader, res: ParseResult)
    requires 12 <= |buf| && Field(BitsOf(buf), 0, 2) == RtpVersion
    requires FixedHeader(BitsOf(buf)) == h && DecodeBody(buf, h) == Ok(res)
    ensures DecodeRtp(buf) == Ok(res)
  {
  }

  /** After a fixed header without extension, the CSRC list is skipped and the padding dropped. */
  lemma BodyOfPacket(header: seq<byte>, csrcs: seq<byte>, payload: seq<byte>, padding: seq<byte>, buf: seq<byte>, pad: bool, h: RtpHeader)
    requires |header| == 12 && |csrcs| == 4 * h.csrcCount && h.extension == 0 && h.padding == BoolBit(pad)
    requires pad ==> padding != [] && padding[|padding| - 1] == |padding|
    requires !pad ==> padding == []
    requires buf == header + csrcs + payload + padding
    ensures DecodeBody(buf, h)
         == Ok(ParseResult(payload, RtpFields(h.marker, h.payloadType, h.seqNumber, h.timestamp, h.syncId), false))
  {
    assert buf[12 + 4 * h.csrcCount..] == payload + padding;
  }

  /** The fixed header of a packet reads back the slots it was written from, whatever follows it. */
  lemma HeaderOfPacket(header: seq<byte>, rest: seq<byte>, buf: seq<byte>,
                       pad: bool, csrcCount: nat, marker: bool, payloadType: int, seqNumber: int, timestamp: int, syncId: int)
    requires AllFit(RtpHeaderSlots(pad, csrcCount, marker, payloadType, seqNumber, timestamp, syncId))
    requires |header| == 12 && BitsOf(header) == PackTo(RtpHeaderSlots(pad, csrcCount, marker, payloadType, seqNumber, timestamp, syncId), 9)
    requires buf == header + rest
    ensures 12 <= |buf| && Field(BitsOf(buf), 0, 2) == RtpVersion
    ensures FixedHeader(BitsOf(buf))
         == RtpHeader(RtpVersion, BoolBit(pad), 0, csrcCount, BoolBit(marker), payloadType, seqNumber, timestamp, syncId)
  {
    var s := RtpHeaderSlots(pad, csrcCount, marker, payloadType, seqNumber, timestamp, syncId);
    var bits, tail := BitsOf(buf), BitsOf(rest);
    BitsOfConcat(header, rest);
    RtpOffsets(s, pad, csrcCount, marker, payloadType, seqNumber, timestamp, syncId);
    RtpSlotBack(s, 0, bits, tail, 0, 2);
    RtpSlotBack(s, 1, bits, tail, 2, 1);
    RtpSlotBack(s, 2, bits, tail, 3, 1);
    RtpSlotBack(s, 3, bits, tail, 4, 4);
    RtpSlotBack(s, 4, bits, tail, 8, 1);
    RtpSlotBack(s, 5, bits, tail, 9, 7);
    RtpSlotBack(s, 6, bits, tail, 16, 16);
    RtpSlotBack(s, 7, bits, tail, 32, 32);
    RtpSlotBack(s, 8, bits, tail, 64, 32);
  }

  /** Slot i of the nine header slots, at bit p and n bits wide, reads back whatever follows the header. */
  lemma RtpSlotBack(s: seq<Slot>, i: nat, bits: seq<bool>, tail: seq<bool>, p: nat, n: nat)
    requires |s| == 9 && AllFit(s) && i < 9 && bits == PackTo(s, 9) + tail
    requires p == Offset(s, i) && n == s[i].width
    ensures p + n <= |bits| && Field(bits, p, n) == s[i].value
  {
    FieldOfPackTo(s, i, 9, tail);
  }

  /** A version other than 2 is refused before anything else is read. */
  lemma VersionChecked(buf: seq<byte>)
    requires |buf| >= 1 && Field(BitsOf(buf), 0, 2) != RtpVersion
    ensures DecodeRtp(buf) == Err(BadVersion)
  {
  }
}
