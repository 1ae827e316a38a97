/**
 * The 4-byte transport stream packet header (section 2.4.3.2 of ISO/IEC 13818-1):
 * a sync byte 0x47, then transport_error_indicator, payload_unit_start_indicator,
 * transport_priority (one bit each), a 13-bit PID, 2-bit scrambling control,
 * 2-bit adaptation field control and a 4-bit continuity counter.
 */
module TsHeaders {
  import opened Bits
  import opened Wrappers
  import opened BitReader
  import opened BitWriter
  import opened Packing

  datatype TsHeader = TsHeader(tei: bool, pusi: bool, priority: bool, pid: int, tsc: int, afc: int, cc: int)

  /** A sync byte other than 0x47 panics; so does a read past the end of the buffer. */
  datatype HeaderError = SyncByteMismatch | HeaderTruncated

  const SyncByte := 0x47

  /** Every numeric field fits its width. */
  predicate Fits(h: TsHeader)
  {
    0 <= h.pid < 0x2000 && 0 <= h.tsc < 4 && 0 <= h.afc < 4 && 0 <= h.cc < 16
  }

  /** The header read from the bits of buf. */
  function DecodeTsHeader(buf: seq<byte>): Result<TsHeader, HeaderError>
  {
    var bits := BitsOf(buf);
    if |buf| < 1 then Err(HeaderTruncated)
    else if buf[0] != SyncByte then Err(SyncByteMismatch)
    else if |buf| < 4 then Err(HeaderTruncated)
    else Ok(TsHeader(bits[8], bits[9], bits[10], Field(bits, 11, 13), Field(bits, 24, 2), Field(bits, 26, 2), Field(bits, 28, 4)))
  }

  /** The fields Serialize writes for h, in order, each in its width. */
  function HeaderSlots(h: TsHeader): (s: seq<Slot>)
    ensures |s| == 8
  {
    [Slot(SyncByte, 8), Slot(BoolBit(h.tei), 1), Slot(BoolBit(h.pusi), 1), Slot(BoolBit(h.priority), 1),
     Slot(h.pid, 13), Slot(h.tsc, 2), Slot(h.afc, 2), Slot(h.cc, 4)]
  }

  /** The 32 bits Serialize writes for h. */
  function HeaderBits(h: TsHeader): seq<bool>
  {
    PackTo(HeaderSlots(h), 8)
  }

  /** Where each field starts: 0, 8, 9, 10, 11, 24, 26, 28, and 32 bits in all. */
  lemma HeaderOffsets(h: TsHeader)
    ensures var s := HeaderSlots(h);
      Offset(s, 0) == 0 && Offset(s, 1) == 8 && Offset(s, 2) == 9 && Offset(s, 3) == 10 && Offset(s, 4) == 11
      && Offset(s, 5) == 24 && Offset(s, 6) == 26 && Offset(s, 7) == 28 && Offset(s, 8) == 32
  {
    var s := HeaderSlots(h);
    assert Offset(s, 1) == 8;
    assert Offset(s, 2) == 9;
    assert Offset(s, 3) == 10;
    assert Offset(s, 4) == 11;
    assert Offset(s, 5) == 24;
    assert Offset(s, 6) == 26;
    assert Offset(s, 7) == 28;
  }

  /** A header fits its widths exactly when every slot fits. */
  lemma HeaderFits(h: TsHeader)
    ensures Fits(h) <==> AllFit(HeaderSlots(h))
  {
    var s := HeaderSlots(h);
    assert Pow2(1) == 2 && Pow2(2) == 4 && Pow2(4) == 16 && Pow2(8) == 256 && Pow2(13) == 0x2000;
    if AllFit(s) {
      assert 0 <= s[4].value < Pow2(s[4].width) && 0 <= s[5].value < Pow2(s[5].width);
      assert 0 <= s[6].value < Pow2(s[6].width) && 0 <= s[7].value < Pow2(s[7].width);
    }
  }

  /** ReadTsHeader: the reader takes 8, 1, 1, 1, 13, 2, 2 and 4 bits; a read past the end fails. */
  method ReadTsHeader(buf: seq<byte>) returns (r: Result<TsHeader, HeaderError>)
    ensures r == DecodeTsHeader(buf)
    ensures r.Ok? ==> Fits(r.value)
  {
    var rd := new BsReader(buf);
    if rd.Remaining() < 8 {
      return Err(HeaderTruncated);
    }
    var sync := rd.ReadBits(8);
    FieldByte(buf, 0);
    if sync != SyncByte {
      return Err(SyncByteMismatch);
    }
    if rd.Remaining() < 24 {
      return Err(HeaderTruncated);
    }
    var h := ReadHeaderFields(rd);
    FieldByte(buf, 0);
    r := Ok(h);
  }

  /** The seven fields after the sync byte, read in order from bit 8. */
  method ReadHeaderFields(rd: BsReader) returns (h: TsHeader)
    requires rd.Valid() && rd.BitPos() == 8 && |rd.rawBs| >= 4
    modifies rd
    ensures var bits := rd.Bits();
      h == TsHeader(bits[8], bits[9], bits[10], Field(bits, 11, 13), Field(bits, 24, 2), Field(bits, 26, 2), Field(bits, 28, 4))
    ensures Fits(h)
  {
    ghost var bits := rd.Bits();
    var tei := rd.ReadBits(1);
    var pusi := rd.ReadBits(1);
    var priority := rd.ReadBits(1);
    FieldOfOne(bits, 8);
    FieldOfOne(bits, 9);
    FieldOfOne(bits, 10);
    var pid := rd.ReadBits(13);
    var tsc := rd.ReadBits(2);
    var afc := rd.ReadBits(2);
    var cc := rd.ReadBits(4);
    HeaderFieldsFit(bits);
    h := TsHeader(tei != 0, pusi != 0, priority != 0, pid, tsc, afc, cc);
  }

  lemma HeaderFieldsFit(bits: seq<bool>)
    requires 32 <= |bits|
    ensures Field(bits, 11, 13) < 0x2000 && Field(bits, 24, 2) < 4 && Field(bits, 26, 2) < 4 && Field(bits, 28, 4) < 16
  {
    FieldBound(bits, 11, 13);
    FieldBound(bits, 24, 2);
    FieldBound(bits, 26, 2);
    FieldBound(bits, 28, 4);
  }

  /** Serialize: a fresh 4-byte writer, the sync byte, then each field in its width. */
  method Serialize(h: TsHeader) returns (out: seq<byte>)
    ensures |out| == 4 && out[0] == SyncByte
    ensures Fits(h) ==> BitsOf(out) == HeaderBits(h)
  {
    var w := new BsWriter(4);
    Pow2Widths();
    w.WriteByte(SyncByte);
    FirstByteOf(w.buf[..], SyncByte);
    ghost var s := HeaderSlots(h);
    HeaderOffsets(h);
    assert w.Written() == PackTo(s, 1);
    WriteHeaderFields(w, h);
    out := w.buf[..];
    WholePrefix(w.Bits(), w.BitPos());
  }

  /** The seven fields after the sync byte; the sync byte itself stays as it is. */
  method WriteHeaderFields(w: BsWriter, h: TsHeader)
    requires w.Clean() && w.buf.Length == 4 && w.pos == 1 && w.offset == 8
    requires w.Written() == PackTo(HeaderSlots(h), 1)
    modifies w, w.buf
    ensures w.Valid() && w.BitPos() == 32 && w.buf[0] == old(w.buf[0])
    ensures Fits(h) ==> w.Written() == PackTo(HeaderSlots(h), 8)
  {
    WriteHeaderFlags(w, h);
    WriteHeaderNumbers(w, h);
  }

  /** The three one-bit flags, bits 8 to 10. */
  method WriteHeaderFlags(w: BsWriter, h: TsHeader)
    requires w.Clean() && w.buf.Length == 4 && w.pos == 1 && w.offset == 8
    requires w.Written() == PackTo(HeaderSlots(h), 1)
    modifies w, w.buf
    ensures w.Clean() && w.pos == 1 && w.offset == 5 && w.buf[0] == old(w.buf[0])
    ensures w.Written() == PackTo(HeaderSlots(h), 4)
  {
    var s := HeaderSlots(h);
    HeaderOffsets(h);
    ghost var b0 := w.buf[0];
    WriteHeaderSlot(w, s, 1, 2, b0, true);
    WriteHeaderSlot(w, s, 2, 3, b0, true);
    WriteHeaderSlot(w, s, 3, 4, b0, true);
    CursorOf(w.pos, w.offset, 1, 5);
  }

  /**
   * Slot i of the header (s[i].value in s[i].width bits, as Serialize writes tei, pusi,
   * priority, pid, tsc, afc and cc in turn), written where slot i - 1 ended.
   */
  method WriteHeaderSlot(w: BsWriter, s: seq<Slot>, i: nat, j: nat, ghost b0: byte, ghost ok: bool)
    requires i < |s| && j == i + 1 && s[i].width > 0 && Offset(s, j) <= 32
    requires w.Clean() && w.buf.Length == 4 && 1 <= w.pos && w.buf[0] == b0 && w.BitPos() == Offset(s, i)
    requires ok ==> 0 <= s[i].value < Pow2(s[i].width) && w.Written() == PackTo(s, i)
    modifies w, w.buf
    ensures w.Clean() && 1 <= w.pos && w.buf[0] == b0 && w.BitPos() == Offset(s, j)
    ensures ok ==> w.Written() == PackTo(s, j)
  {
    OffsetStep(s, i, j);
    w.Write(s[i].value, s[i].width);
    PackToNext(s, i, j);
  }

  /** The pid, scrambling, adaptation-field and continuity-counter fields, bits 11 to 31. */
  method WriteHeaderNumbers(w: BsWriter, h: TsHeader)
    requires w.Clean() && w.buf.Length == 4 && w.pos == 1 && w.offset == 5
    requires w.Written() == PackTo(HeaderSlots(h), 4)
    modifies w, w.buf
    ensures w.Valid() && w.BitPos() == 32 && w.buf[0] == old(w.buf[0])
    ensures Fits(h) ==> w.Written() == PackTo(HeaderSlots(h), 8)
  {
    var s := HeaderSlots(h);
    HeaderOffsets(h);
    HeaderFits(h);
    ghost var b0 := w.buf[0];
    ghost var ok := Fits(h);
    WriteHeaderSlot(w, s, 4, 5, b0, ok);
    WriteHeaderSlot(w, s, 5, 6, b0, ok);
    WriteHeaderSlot(w, s, 6, 7, b0, ok);
    WriteHeaderSlot(w, s, 7, 8, b0, ok);
  }

  /** Reading back what Serialize wrote gives the header again. */
  lemma ReadAfterSerialize(h: TsHeader, out: seq<byte>)
    requires Fits(h) && |out| == 4 && BitsOf(out) == HeaderBits(h)
    ensures DecodeTsHeader(out) == Ok(h)
  {
    var s, bits := HeaderSlots(h), BitsOf(out);
    HeaderOffsets(h);
    HeaderFits(h);
    SlotBack(s, 0, bits, 0, 8, SyncByte);
    FieldByte(out, 0);
    SlotBack(s, 1, bits, 8, 1, BoolBit(h.tei));
    FlagBack(bits, 8, h.tei);
    SlotBack(s, 2, bits, 9, 1, BoolBit(h.pusi));
    FlagBack(bits, 9, h.pusi);
    SlotBack(s, 3, bits, 10, 1, BoolBit(h.priority));
    FlagBack(bits, 10, h.priority);
    SlotBack(s, 4, bits, 11, 13, h.pid);
    SlotBack(s, 5, bits, 24, 2, h.tsc);
    SlotBack(s, 6, bits, 26, 2, h.afc);
    SlotBack(s, 7, bits, 28, 4, h.cc);
  }

  /** A one-bit field holding BoolBit(v) is the bit v. */
  lemma FlagBack(bits: seq<bool>, p: nat, v: bool)
    requires p < |bits| && Field(bits, p, 1) == BoolBit(v)
    ensures bits[p] == v
  {
    FieldOfOne(bits, p);
  }

  /** Serializing the header read from a 4-byte buffer gives the buffer back. */
  lemma SerializeAfterRead(buf: seq<byte>, out: seq<byte>)
    requires |buf| == 4 && DecodeTsHeader(buf).Ok?
    requires BitsOf(out) == HeaderBits(DecodeTsHeader(buf).value)
    ensures out == buf
  {
    var bits := BitsOf(buf);
    var h := DecodeTsHeader(buf).value;
    var s := HeaderSlots(h);
    HeaderOffsets(h);
    FieldByte(buf, 0);
    FieldOfOne(bits, 8);
    FieldOfOne(bits, 9);
    FieldOfOne(bits, 10);
    assert ReadsBack(s, 0, bits) && ReadsBack(s, 1, bits) && ReadsBack(s, 2, bits) && ReadsBack(s, 3, bits);
    assert ReadsBack(s, 4, bits) && ReadsBack(s, 5, bits) && ReadsBack(s, 6, bits) && ReadsBack(s, 7, bits);
    PackToOfFields(s, 8, bits);
    assert bits[..32] == bits;
    BitsOfInjective(out, buf);
  }

  /** The header the tests read from 47 03 8f 1f: PID 911, adaptation field control 1, counter 15. */
  lemma HeaderExample()
    ensures DecodeTsHeader([0x47, 0x03, 0x8f, 0x1f]) == Ok(TsHeader(false, false, false, 911, 0, 1, 15))
  {
    var bits := BitsOf([0x47, 0x03, 0x8f, 0x1f]);
    ExampleFields([0x47, 0x03, 0x8f, 0x1f]);
    FieldOfOne(bits, 8);
    FieldOfOne(bits, 9);
    FieldOfOne(bits, 10);
  }

  lemma ExampleFields(bs: seq<byte>)
    requires bs == [0x47, 0x03, 0x8f, 0x1f]
    ensures var bits := BitsOf(bs);
      Field(bits, 8, 1) == 0 && Field(bits, 9, 1) == 0 && Field(bits, 10, 1) == 0 && Field(bits, 11, 13) == 911
      && Field(bits, 24, 2) == 0 && Field(bits, 26, 2) == 1 && Field(bits, 28, 4) == 15
  {
    ExamplePowers();
    ExampleField(bs, 8, 1, 0x80_0000, 2, 0);
    ExampleField(bs, 9, 1, 0x40_0000, 2, 0);
    ExampleField(bs, 10, 1, 0x20_0000, 2, 0);
    ExampleField(bs, 11, 13, 256, 8192, 911);
    ExampleField(bs, 24, 2, 64, 4, 0);
    ExampleField(bs, 26, 2, 16, 4, 1);
    ExampleField(bs, 28, 4, 1, 16, 15);
  }

  lemma ExamplePowers()
    ensures Pow2(0) == 1 && Pow2(1) == 2 && Pow2(2) == 4 && Pow2(4) == 16 && Pow2(6) == 64
    ensures Pow2(8) == 256 && Pow2(13) == 8192 && Pow2(21) == 0x20_0000 && Pow2(22) == 0x40_0000 && Pow2(23) == 0x80_0000
  {
    Pow2Widths();
    Pow2Add(8, 5);
    Pow2Add(8, 15);
    Pow2Add(8, 14);
    Pow2Add(8, 13);
  }

  /** One field of the example header, from the header's 32-bit value. */
  lemma ExampleField(bs: seq<byte>, p: nat, k: nat, d: nat, m: nat, r: int)
    requires bs == [0x47, 0x03, 0x8f, 0x1f] && p + k <= 32
    requires Pow2(32 - p - k) == d && Pow2(k) == m && (0x47038f1f / d) % m == r
    ensures Field(BitsOf(bs), p, k) == r
  {
    ExampleValue();
    FieldOfValue(bs, p, k, 0x47038f1f, d, m);
  }

  lemma ExampleValue()
    ensures BigEndian([0x47, 0x03, 0x8f, 0x1f]) == 0x47038f1f
  {
    var bs: seq<byte> := [0x47, 0x03, 0x8f, 0x1f];
    assert bs[..0] == [];
    BigEndianStep(bs, 0);
    BigEndianStep(bs, 1);
    BigEndianStep(bs, 2);
    BigEndianStep(bs, 3);
    assert bs[..4] == bs;
  }
}
