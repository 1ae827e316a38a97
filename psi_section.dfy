/**
 * The long-form section header that the program association and program map
 * tables share (ISO/IEC 13818-1 section 2.4.4.11): the pointer field and its
 * filler, table_id, the four indicator bits, section_length, the 16-bit table
 * id extension, version_number, current_next_indicator and the two section
 * numbers; and the readiness test that compares section_length with the
 * bytes buffered so far.
 */
module PsiSections {
  import opened Bits
  import opened Wrappers
  import opened BitReader

  /** Why a section is refused; Truncated stands for the Go reader indexing past the buffer. */
  datatype SectionError =
    | SyntaxIndicatorNotSet
    | PrivateBitsSet
    | ReservedBitsNotSet
    | UnusedBitsSet
    | SectionLengthMismatch
    | SectionTruncated

  datatype SectionHeader = SectionHeader(tableId: int, sectionLen: int, tableIdExt: int, version: int, curNextIdr: bool)

  /** The n bits at p compared with want: the position after them, or error e. */
  function Check(bits: seq<bool>, p: nat, n: nat, want: int, e: SectionError): Result<nat, SectionError>
  {
    if p + n > |bits| then Err(SectionTruncated)
    else if Field(bits, p, n) != want then Err(e)
    else Ok(p + n)
  }

  /** The first error of two checks made one after the other. */
  function AndThen(a: Result<nat, SectionError>, b: Result<nat, SectionError>): Result<nat, SectionError>
  {
    if a.Err? then a else b
  }

  /** Where table_id starts: after the pointer byte and pointer_field filler bytes. */
  function TableStart(bits: seq<bool>): Result<nat, SectionError>
  {
    if |bits| < 8 then Err(SectionTruncated)
    else if 8 + 8 * Field(bits, 0, 8) > |bits| then Err(SectionTruncated)
    else Ok(8 + 8 * Field(bits, 0, 8))
  }

  /** section_syntax_indicator 1, private bit 0, reserved 11, the two unused bits 00, in that order. */
  function IndicatorsAt(bits: seq<bool>, s: nat): Result<nat, SectionError>
  {
    FlagChecks(bits, s + 8)
  }

  /** The four checks from the bit after table_id. */
  function FlagChecks(bits: seq<bool>, q: nat): Result<nat, SectionError>
  {
    AndThen(Check(bits, q, 1, 1, SyntaxIndicatorNotSet),
      AndThen(Check(bits, q + 1, 1, 0, PrivateBitsSet),
        AndThen(Check(bits, q + 2, 2, 3, ReservedBitsNotSet),
          Check(bits, q + 4, 2, 0, UnusedBitsSet))))
  }

  /** The header from table_id at s: its fields and where the table's own data start. */
  function HeaderAt(bits: seq<bool>, s: nat): Result<Step<SectionHeader>, SectionError>
  {
    match IndicatorsAt(bits, s)
    case Err(e) => Err(e)
    case Ok(_) =>
      if s + 40 > |bits| then Err(SectionTruncated)
      else
        match Check(bits, s + 40, 2, 3, ReservedBitsNotSet)
        case Err(e) => Err(e)
        case Ok(_) =>
          if s + 64 > |bits| then Err(SectionTruncated)
          else Ok(Step(SectionHeader(Field(bits, s, 8), Field(bits, s + 14, 10), Field(bits, s + 24, 16),
            Field(bits, s + 42, 5), bits[s + 47]), s + 64))
  }

  /** The whole header of a buffer that starts with the pointer field. */
  function SectionHeaderOf(bits: seq<bool>): Result<Step<SectionHeader>, SectionError>
  {
    match TableStart(bits)
    case Err(e) => Err(e)
    case Ok(s) => HeaderAt(bits, s)
  }

  /** The n bits read and compared with want. */
  method Expect(rd: BsReader, n: nat, want: int, e: SectionError) returns (r: Result<nat, SectionError>)
    requires rd.Valid()
    modifies rd
    ensures rd.Valid()
    ensures r == Check(rd.Bits(), old(rd.BitPos()), n, want, e)
    ensures r.Ok? ==> rd.BitPos() == r.value
  {
    ghost var p := rd.BitPos();
    if rd.Remaining() < n {
      return Err(SectionTruncated);
    }
    var v := rd.ReadBits(n);
    if n == 0 {
      FieldOfNone(rd.Bits(), p);
    }
    if v != want {
      return Err(e);
    }
    r := Ok(rd.BitPos());
  }

  /**
   * The header as ParsePAT and ParsePMT read it: the pointer and its filler,
   * table_id, the four indicator checks, section_length, the table id
   * extension, the second reserved check, version_number,
   * current_next_indicator, and the skipped section numbers.
   */
  method ReadSectionHeader(rd: BsReader) returns (r: Result<SectionHeader, SectionError>)
    requires rd.Valid() && rd.BitPos() == 0
    modifies rd
    ensures rd.Valid()
    ensures var h := SectionHeaderOf(rd.Bits());
      (r.Ok? <==> h.Ok?) && (r.Ok? ==> r.value == h.value.value && rd.BitPos() == h.value.next)
      && (r.Err? ==> r.error == h.error)
  {
    ghost var bits := rd.Bits();
    if rd.Remaining() < 8 {
      return Err(SectionTruncated);
    }
    var pFieldLen := rd.ReadBits(8);
    assert rd.BitPos() == 8 && pFieldLen == Field(bits, 0, 8);
    if rd.Remaining() < pFieldLen * 8 {
      assert TableStart(bits) == Err(SectionTruncated);
      return Err(SectionTruncated);
    }
    var _ := rd.ReadBits(pFieldLen * 8);
    ghost var s := 8 + 8 * pFieldLen;
    assert rd.BitPos() == s;
    assert TableStart(bits) == Ok(s);
    r := ReadHeaderAt(rd);
  }

  /** The header from table_id on. */
  method ReadHeaderAt(rd: BsReader) returns (r: Result<SectionHeader, SectionError>)
    requires rd.Valid() && rd.BitPos() >= 0
    modifies rd
    ensures rd.Valid()
    ensures var h := HeaderAt(rd.Bits(), old(rd.BitPos()));
      (r.Ok? <==> h.Ok?) && (r.Ok? ==> r.value == h.value.value && rd.BitPos() == h.value.next)
      && (r.Err? ==> r.error == h.error)
  {
    ghost var bits, s := rd.Bits(), rd.BitPos();
    var tableId, ind := ReadIndicators(rd);
    if ind.Err? {
      r := Err(ind.error);
    } else if rd.Remaining() < 26 {
      r := Err(SectionTruncated);
    } else {
      var sectionLen := rd.ReadBits(10);
      var tableIdExt := rd.ReadBits(16);
      var reserved := Expect(rd, 2, 3, ReservedBitsNotSet);
      if reserved.Err? {
        r := Err(reserved.error);
      } else if rd.Remaining() < 22 {
        r := Err(SectionTruncated);
      } else {
        var version := rd.ReadBits(5);
        var curNextIdr := ReadFlag(rd);
        var _ := rd.ReadBits(16);
        r := Ok(SectionHeader(tableId, sectionLen, tableIdExt, version, curNextIdr));
      }
    }
    HeaderRead(bits, s, r, rd.BitPos());
  }

  /** What ReadHeaderAt has read, case by case, is HeaderAt. */
  lemma HeaderRead(bits: seq<bool>, s: nat, r: Result<SectionHeader, SectionError>, pos: int)
    requires IndicatorsAt(bits, s).Err? ==> r == Err(IndicatorsAt(bits, s).error)
    requires IndicatorsAt(bits, s).Ok? && s + 40 > |bits| ==> r == Err(SectionTruncated)
    requires IndicatorsAt(bits, s).Ok? && s + 40 <= |bits| && Check(bits, s + 40, 2, 3, ReservedBitsNotSet).Err? ==>
      r == Err(Check(bits, s + 40, 2, 3, ReservedBitsNotSet).error)
    requires IndicatorsAt(bits, s).Ok? && s + 40 <= |bits| && Check(bits, s + 40, 2, 3, ReservedBitsNotSet).Ok? ==>
      if s + 64 > |bits| then r == Err(SectionTruncated)
      else r == Ok(SectionHeader(Field(bits, s, 8), Field(bits, s + 14, 10), Field(bits, s + 24, 16),
        Field(bits, s + 42, 5), bits[s + 47])) && pos == s + 64
    ensures var h := HeaderAt(bits, s);
      (r.Ok? <==> h.Ok?) && (r.Ok? ==> r.value == h.value.value && pos == h.value.next)
      && (r.Err? ==> r.error == h.error)
  {
  }

  lemma HeaderAtStops(bits: seq<bool>, s: nat)
    ensures IndicatorsAt(bits, s).Err? ==> HeaderAt(bits, s) == Err(IndicatorsAt(bits, s).error)
    ensures IndicatorsAt(bits, s).Ok? && s + 40 > |bits| ==> HeaderAt(bits, s) == Err(SectionTruncated)
    ensures IndicatorsAt(bits, s).Ok? && s + 40 <= |bits| && Check(bits, s + 40, 2, 3, ReservedBitsNotSet).Err? ==>
      HeaderAt(bits, s) == Err(Check(bits, s + 40, 2, 3, ReservedBitsNotSet).error)
    ensures IndicatorsAt(bits, s).Ok? && Check(bits, s + 40, 2, 3, ReservedBitsNotSet).Ok? && s + 64 > |bits| ==>
      HeaderAt(bits, s) == Err(SectionTruncated)
  {
  }

  /** A header with its 64 bits in the buffer is never cut short. */
  lemma HeaderAtFits(bits: seq<bool>, s: nat)
    requires s + 64 <= |bits|
    ensures HeaderAt(bits, s) != Err(SectionTruncated)
    ensures HeaderAt(bits, s).Ok? ==>
      HeaderAt(bits, s).value.next == s + 64 && HeaderAt(bits, s).value.value.sectionLen == Field(bits, s + 14, 10)
  {
  }

  lemma HeaderAtOk(bits: seq<bool>, s: nat, h: SectionHeader)
    requires IndicatorsAt(bits, s).Ok? && s + 64 <= |bits| && Check(bits, s + 40, 2, 3, ReservedBitsNotSet).Ok?
    requires h == SectionHeader(Field(bits, s, 8), Field(bits, s + 14, 10), Field(bits, s + 24, 16), Field(bits, s + 42, 5), bits[s + 47])
    ensures HeaderAt(bits, s) == Ok(Step(h, s + 64))
  {
  }

  /** table_id, then the four indicator checks; the reader ends before section_length. */
  method ReadIndicators(rd: BsReader) returns (tableId: int, r: Result<nat, SectionError>)
    requires rd.Valid() && rd.BitPos() >= 0
    modifies rd
    ensures rd.Valid()
    ensures r == IndicatorsAt(rd.Bits(), old(rd.BitPos()))
    ensures r.Ok? ==> rd.BitPos() == old(rd.BitPos()) + 14 && tableId == Field(rd.Bits(), old(rd.BitPos()), 8)
  {
    tableId := 0;
    if rd.Remaining() < 9 {
      return tableId, Err(SectionTruncated);
    }
    tableId := rd.ReadBits(8);
    r := ReadFlagChecks(rd);
  }

  method ReadFlagChecks(rd: BsReader) returns (r: Result<nat, SectionError>)
    requires rd.Valid() && rd.BitPos() >= 0
    modifies rd
    ensures rd.Valid()
    ensures r == FlagChecks(rd.Bits(), old(rd.BitPos()))
    ensures r.Ok? ==> rd.BitPos() == old(rd.BitPos()) + 6
  {
    ghost var q := rd.BitPos();
    r := Expect(rd, 1, 1, SyntaxIndicatorNotSet);
    if r.Ok? {
      assert rd.BitPos() == q + 1;
      r := Expect(rd, 1, 0, PrivateBitsSet);
      if r.Ok? {
        assert rd.BitPos() == q + 2;
        r := Expect(rd, 2, 3, ReservedBitsNotSet);
        if r.Ok? {
          assert rd.BitPos() == q + 4;
          r := Expect(rd, 2, 0, UnusedBitsSet);
        }
      }
    }
  }

  // ----- readiness: is the whole section buffered? -----

  /**
   * PATReadyForParse and PMTReadyForParse: whether the buffer holds
   * pointer_field + 3 + section_length bytes. Fewer than three bytes is simply
   * not ready; an empty buffer, or one that ends before section_length, is an
   * error (the Go reader panics).
   */
  function ReadyOf(bs: seq<byte>): Result<bool, SectionError>
  {
    if |bs| == 0 then Err(SectionTruncated)
    else if |bs| - 1 < 2 then Ok(false)
    else if 8 * bs[0] as int + 32 > 8 * |bs| then Err(SectionTruncated)
    else Ok(bs[0] as int + 3 + Field(BitsOf(bs), 8 * bs[0] as int + 22, 10) <= |bs|)
  }

  /**
   * The readiness the test means: the section occupies the pointer byte, the
   * pointer_field filler, the three bytes up to and including section_length
   * and then section_length bytes.
   */
  function ReadyIntended(bs: seq<byte>): Result<bool, SectionError>
  {
    if |bs| == 0 then Err(SectionTruncated)
    else if |bs| - 1 < 2 then Ok(false)
    else if 8 * bs[0] as int + 32 > 8 * |bs| then Err(SectionTruncated)
    else Ok(1 + bs[0] as int + 3 + Field(BitsOf(bs), 8 * bs[0] as int + 22, 10) <= |bs|)
  }

  /** The two readiness tests differ exactly on a buffer one byte short of the whole section. */
  lemma ReadyOneByteShort(bs: seq<byte>)
    ensures ReadyOf(bs).Ok? <==> ReadyIntended(bs).Ok?
    ensures ReadyIntended(bs) == Ok(true) ==> ReadyOf(bs) == Ok(true)
    ensures ReadyOf(bs) == Ok(true) && ReadyIntended(bs) == Ok(false) <==>
      |bs| >= 3 && 8 * bs[0] as int + 32 <= 8 * |bs|
      && 1 + bs[0] as int + 3 + Field(BitsOf(bs), 8 * bs[0] as int + 22, 10) == |bs| + 1
  {
  }

  /** The method: read the pointer field, skip to section_length and compare with the buffer size. */
  method ReadyForParse(buf: seq<byte>) returns (r: Result<bool, SectionError>)
    ensures r == ReadyOf(buf)
  {
    if |buf| == 0 {
      return Err(SectionTruncated);
    }
    var rd := new BsReader(buf);
    ghost var bits := rd.Bits();
    var pFieldLen := rd.ReadBits(8);
    FieldByte(buf, 0);
    assert pFieldLen == buf[0] as int && rd.BitPos() == 8;
    var remained := |rd.GetRemainedBuffer()|;
    assert remained == |buf| - 1;
    if remained < 2 {
      assert |buf| - 1 < 2;
      return Ok(false);
    }
    if rd.Remaining() < pFieldLen * 8 + 24 {
      assert 8 * buf[0] as int + 32 > 8 * |buf|;
      return Err(SectionTruncated);
    }
    var _ := rd.ReadBits(pFieldLen * 8 + 8 + 6);
    assert rd.BitPos() == 8 * buf[0] as int + 22;
    var pktLen := pFieldLen + 3;
    var sectionLen := rd.ReadBits(10);
    assert sectionLen == Field(bits, 8 * buf[0] as int + 22, 10);
    pktLen := pktLen + sectionLen;
    ReadyAt(buf, sectionLen);
    r := Ok(pktLen <= |rd.rawBs|);
  }

  lemma ReadyAt(bs: seq<byte>, sectionLen: int)
    requires |bs| >= 3 && 8 * bs[0] as int + 32 <= 8 * |bs|
    requires sectionLen == Field(BitsOf(bs), 8 * bs[0] as int + 22, 10)
    ensures ReadyOf(bs) == Ok(bs[0] as int + 3 + sectionLen <= |bs|)
  {
  }
}
