/**
 * The program association table (ISO/IEC 13818-1 section 2.4.4.3): after the
 * shared section header, section_length - 9 bytes of four-byte entries, each a
 * 16-bit program_number, three reserved bits and a 13-bit PID, and then the
 * CRC_32. The map it builds goes from PID to program number, later entries
 * overwriting earlier ones.
 */
module PatTables {
  import opened Bits
  import opened Wrappers
  import opened BitReader
  import opened PsiSections

  datatype Pat = Pat(pktCnt: int, tableId: int, tableIdExt: int, version: int, curNextIdr: bool,
    programMap: map<int, int>, crc32: int)

  /** CreatePAT: a table built by hand, with packet count 0. */
  function CreatePat(tableId: int, tableIdExt: int, version: int, curNextIdr: bool, programMap: map<int, int>, crc32: int): Pat
  {
    Pat(0, tableId, tableIdExt, version, curNextIdr, programMap, crc32)
  }

  /** The program number and the PID of entry j of the entries that start at bit q. */
  function ProgAt(bits: seq<bool>, q: nat, j: nat): int
  {
    if q + 32 * j + 16 <= |bits| then Field(bits, q + 32 * j, 16) else 0
  }

  function PidAt(bits: seq<bool>, q: nat, j: nat): int
  {
    if q + 32 * j + 32 <= |bits| then Field(bits, q + 32 * j + 19, 13) else 0
  }

  /** Entry j fits in the bits and its reserved bits are 111. */
  predicate EntryOk(bits: seq<bool>, q: nat, j: nat)
  {
    q + 32 * j + 32 <= |bits| && Field(bits, q + 32 * j + 16, 3) == 7
  }

  datatype Entry = Entry(programNumber: int, pid: int)

  /** One entry at bit q: program_number, three reserved bits that must be 111, the PID. */
  function EntryAt(bits: seq<bool>, q: nat): Result<Step<Entry>, SectionError>
  {
    if q + 19 > |bits| then Err(SectionTruncated)
    else if Field(bits, q + 16, 3) != 7 then Err(ReservedBitsNotSet)
    else if q + 32 > |bits| then Err(SectionTruncated)
    else Ok(Step(Entry(Field(bits, q, 16), Field(bits, q + 19, 13)), q + 32))
  }

  /**
   * The entry loop with n section bytes left and the map m built so far: it
   * stops when n is not positive, and a negative n is the length mismatch the
   * Go code panics on.
   */
  function EntriesFrom(bits: seq<bool>, q: nat, n: int, m: map<int, int>): Result<Step<map<int, int>>, SectionError>
    decreases n
  {
    if n <= 0 then
      if n < 0 then Err(SectionLengthMismatch) else Ok(Step(m, q))
    else
      match EntryAt(bits, q)
      case Err(e) => Err(e)
      case Ok(s) => EntriesFrom(bits, s.next, n - 4, m[s.value.pid := s.value.programNumber])
  }

  /**
   * The table a buffer holds, reading crcWidth bits for the CRC: 4 as the
   * code reads it, 32 as the standard lays it out.
   */
  function PatAt(bits: seq<bool>, cnt: int, crcWidth: nat): Result<Pat, SectionError>
  {
    match SectionHeaderOf(bits)
    case Err(e) => Err(e)
    case Ok(h) =>
      match EntriesFrom(bits, h.next, h.value.sectionLen - 9, map[])
      case Err(e) => Err(e)
      case Ok(es) =>
        if es.next + crcWidth > |bits| then Err(SectionTruncated)
        else Ok(Pat(cnt, h.value.tableId, h.value.tableIdExt, h.value.version, h.value.curNextIdr,
          es.value, Field(bits, es.next, crcWidth)))
  }

  /** ParsePAT as written: the CRC_32 field read with ReadBits(4). */
  method ParsePat(buf: seq<byte>, cnt: int) returns (r: Result<Pat, SectionError>)
    ensures r == PatAt(BitsOf(buf), cnt, 4)
  {
    r := ParseWithCrc(buf, cnt, 4);
  }

  /** ParsePAT reading the whole 32-bit CRC_32. */
  method ParsePatIntended(buf: seq<byte>, cnt: int) returns (r: Result<Pat, SectionError>)
    ensures r == PatAt(BitsOf(buf), cnt, 32)
  {
    r := ParseWithCrc(buf, cnt, 32);
  }

  method ParseWithCrc(buf: seq<byte>, cnt: int, crcWidth: nat) returns (r: Result<Pat, SectionError>)
    ensures r == PatAt(BitsOf(buf), cnt, crcWidth)
  {
    var rd := new BsReader(buf);
    ghost var bits := rd.Bits();
    var h := ReadSectionHeader(rd);
    if h.Err? {
      return Err(h.error);
    }
    ghost var q := rd.BitPos();
    var programMap := ReadEntries(rd, h.value.sectionLen - 9);
    if programMap.Err? {
      return Err(programMap.error);
    }
    if rd.Remaining() < crcWidth {
      return Err(SectionTruncated);
    }
    ghost var c := rd.BitPos();
    var crc32 := rd.ReadBits(crcWidth);
    if crcWidth == 0 {
      FieldOfNone(bits, c);
    }
    r := Ok(Pat(cnt, h.value.tableId, h.value.tableIdExt, h.value.version, h.value.curNextIdr, programMap.value, crc32));
  }

  /** The entry loop: one entry after another until section_length is used up. */
  method ReadEntries(rd: BsReader, n: int) returns (r: Result<map<int, int>, SectionError>)
    requires rd.Valid() && rd.BitPos() >= 0
    modifies rd
    ensures rd.Valid()
    ensures ReadAs(r, rd.BitPos(), EntriesFrom(rd.Bits(), old(rd.BitPos()), n, map[]))
  {
    ghost var bits, p := rd.Bits(), rd.BitPos();
    var sectionLen := n;
    var programMap: map<int, int> := map[];
    while sectionLen > 0
      invariant rd.Valid() && rd.Bits() == bits && rd.BitPos() >= 0
      invariant EntriesFrom(bits, p, n, map[]) == EntriesFrom(bits, rd.BitPos(), sectionLen, programMap)
      decreases sectionLen
    {
      ghost var q := rd.BitPos();
      var entry := ReadEntry(rd);
      if entry.Err? {
        EntriesStops(bits, q, sectionLen, programMap);
        return Err(entry.error);
      }
      EntriesStep(bits, q, sectionLen, programMap);
      programMap := programMap[entry.value.pid := entry.value.programNumber];
      sectionLen := sectionLen - 4;
    }
    if sectionLen < 0 {
      return Err(SectionLengthMismatch);
    }
    r := Ok(programMap);
  }

  method ReadEntry(rd: BsReader) returns (r: Result<Entry, SectionError>)
    requires rd.Valid() && rd.BitPos() >= 0
    modifies rd
    ensures rd.Valid() && rd.BitPos() >= 0
    ensures ReadAs(r, rd.BitPos(), EntryAt(rd.Bits(), old(rd.BitPos())))
  {
    ghost var bits, q := rd.Bits(), rd.BitPos();
    if rd.Remaining() < 19 {
      return Err(SectionTruncated);
    }
    var progNum := rd.ReadBits(16);
    assert progNum == Field(bits, q, 16) && rd.BitPos() == q + 16;
    var reserved := rd.ReadBits(3);
    assert reserved == Field(bits, q + 16, 3);
    if reserved != 7 {
      return Err(ReservedBitsNotSet);
    }
    if rd.Remaining() < 13 {
      return Err(SectionTruncated);
    }
    var pid := rd.ReadBits(13);
    assert pid == Field(bits, q + 19, 13) && rd.BitPos() == q + 32;
    r := Ok(Entry(progNum, pid));
  }

  lemma EntriesStops(bits: seq<bool>, q: nat, k: int, m: map<int, int>)
    requires k > 0 && EntryAt(bits, q).Err?
    ensures EntriesFrom(bits, q, k, m) == Err(EntryAt(bits, q).error)
  {
  }

  lemma EntriesStep(bits: seq<bool>, q: nat, k: int, m: map<int, int>)
    requires k > 0 && EntryAt(bits, q).Ok?
    ensures var e := EntryAt(bits, q).value;
      EntriesFrom(bits, q, k, m) == EntriesFrom(bits, e.next, k - 4, m[e.value.pid := e.value.programNumber])
  {
  }

  // ----- what the entry loop builds -----

  /** The programs of entries 0..c-1 at q, each later entry overriding an earlier one with the same PID. */
  function ProgramsOf(bits: seq<bool>, q: nat, c: nat): map<int, int>
  {
    if c == 0 then map[] else ProgramsOf(bits, q, c - 1)[PidAt(bits, q, c - 1) := ProgAt(bits, q, c - 1)]
  }

  /** No entry after entry j, among the first c, has j's PID. */
  predicate LastWith(bits: seq<bool>, q: nat, c: nat, j: nat)
  {
    forall k | j < k < c :: PidAt(bits, q, k) != PidAt(bits, q, j)
  }

  /** The loop succeeds exactly when the remaining length is a whole number of entries, all well formed. */
  lemma {:induction false} EntriesFromOk(bits: seq<bool>, q: nat, n: int, m: map<int, int>)
    ensures EntriesFrom(bits, q, n, m).Ok? <==>
      n >= 0 && n % 4 == 0 && forall j | 0 <= j < n / 4 :: EntryOk(bits, q, j)
    ensures EntriesFrom(bits, q, n, m).Ok? ==> EntriesFrom(bits, q, n, m).value.next == q + 8 * n
    decreases n
  {
    if n > 0 {
      if EntryAt(bits, q).Err? {
        if n % 4 == 0 {
          assert !EntryOk(bits, q, 0);
        }
      } else {
        var e := EntryAt(bits, q).value;
        var m' := m[e.value.pid := e.value.programNumber];
        EntriesFromOk(bits, e.next, n - 4, m');
        assert e.next == q + 32;
        if n >= 4 && n % 4 == 0 && (forall j | 0 <= j < n / 4 :: EntryOk(bits, q, j)) {
          var q' := q + 32;
          forall j | 0 <= j < (n - 4) / 4
            ensures EntryOk(bits, q', j)
          {
            EntryOkShift(bits, q, j);
          }
        }
        if EntriesFrom(bits, q, n, m).Ok? {
          forall j | 0 <= j < n / 4
            ensures EntryOk(bits, q, j)
          {
            if j > 0 {
              EntryOkShift(bits, q, j - 1);
            }
          }
        }
      }
    }
  }

  lemma EntryOkShift(bits: seq<bool>, q: nat, j: nat)
    ensures EntryOk(bits, q + 32, j) <==> EntryOk(bits, q, j + 1)
  {
    assert q + 32 + 32 * j == q + 32 * (j + 1);
  }

  /** The map the loop builds is the accumulator overridden by the entries' programs. */
  lemma {:induction false} EntriesFromMap(bits: seq<bool>, q: nat, n: int, m: map<int, int>)
    ensures EntriesFrom(bits, q, n, m).Ok? ==> EntriesFrom(bits, q, n, m).value.value == m + ProgramsOf(bits, q, n / 4)
    decreases n
  {
    if n > 0 && EntryAt(bits, q).Ok? && EntriesFrom(bits, q, n, m).Ok? {
      var e := EntryAt(bits, q).value;
      var m' := m[e.value.pid := e.value.programNumber];
      EntriesFromMap(bits, e.next, n - 4, m');
      EntriesFromOk(bits, e.next, n - 4, m');
      assert e.value == Entry(ProgAt(bits, q, 0), PidAt(bits, q, 0));
      ProgramsShift(bits, q, n / 4, m);
    } else if n == 0 {
      assert m + map[] == m;
    }
  }

  /** Taking the first entry into the accumulator leaves the rest to the entries after it. */
  lemma {:induction false} ProgramsShift(bits: seq<bool>, q: nat, c: nat, m: map<int, int>)
    requires c >= 1
    ensures m[PidAt(bits, q, 0) := ProgAt(bits, q, 0)] + ProgramsOf(bits, q + 32, c - 1) == m + ProgramsOf(bits, q, c)
  {
    var k, v := PidAt(bits, q, 0), ProgAt(bits, q, 0);
    if c == 1 {
      assert ProgramsOf(bits, q, 1) == map[k := v];
      assert ProgramsOf(bits, q + 32, 0) == map[];
      assert m[k := v] + map[] == m + map[k := v];
    } else {
      ProgramsShift(bits, q, c - 1, m);
      assert q + 32 + 32 * (c - 2) == q + 32 * (c - 1);
      var k', v' := PidAt(bits, q, c - 1), ProgAt(bits, q, c - 1);
      assert PidAt(bits, q + 32, c - 2) == k';
      assert ProgAt(bits, q + 32, c - 2) == v';
      MergeUpdate(m[k := v], ProgramsOf(bits, q + 32, c - 2), k', v');
      MergeUpdate(m, ProgramsOf(bits, q, c - 1), k', v');
    }
  }

  lemma MergeUpdate(a: map<int, int>, b: map<int, int>, k: int, v: int)
    ensures (a + b)[k := v] == a + b[k := v]
  {
  }

  /** The keys are exactly the entries' PIDs. */
  lemma {:induction false} ProgramsOfKeys(bits: seq<bool>, q: nat, c: nat)
    ensures ProgramsOf(bits, q, c).Keys == set j | 0 <= j < c :: PidAt(bits, q, j)
  {
    if c > 0 {
      ProgramsOfKeys(bits, q, c - 1);
      assert (set j | 0 <= j < c :: PidAt(bits, q, j))
        == (set j | 0 <= j < c - 1 :: PidAt(bits, q, j)) + {PidAt(bits, q, c - 1)};
    }
  }

  /** A PID maps to the program number of its last entry. */
  lemma {:induction false} ProgramsOfLast(bits: seq<bool>, q: nat, c: nat, j: nat)
    requires j < c && LastWith(bits, q, c, j)
    ensures PidAt(bits, q, j) in ProgramsOf(bits, q, c)
    ensures ProgramsOf(bits, q, c)[PidAt(bits, q, j)] == ProgAt(bits, q, j)
  {
    if j < c - 1 {
      ProgramsOfLast(bits, q, c - 1, j);
      assert PidAt(bits, q, c - 1) != PidAt(bits, q, j);
    }
  }

  /**
   * What ParsePAT gives back: a section_length of 9 plus a whole number of
   * entries, and a map holding exactly the entries' PIDs, each with the
   * program number of its last entry.
   */
  lemma PatPrograms(bits: seq<bool>, cnt: int, crcWidth: nat)
    requires PatAt(bits, cnt, crcWidth).Ok?
    ensures var h := SectionHeaderOf(bits).value;
      var n := h.value.sectionLen - 9;
      var pm := PatAt(bits, cnt, crcWidth).value.programMap;
      n >= 0 && n % 4 == 0
      && pm.Keys == (set j | 0 <= j < n / 4 :: PidAt(bits, h.next, j))
      && forall j | 0 <= j < n / 4 && LastWith(bits, h.next, n / 4, j) :: pm[PidAt(bits, h.next, j)] == ProgAt(bits, h.next, j)
  {
    var h := SectionHeaderOf(bits).value;
    var n := h.value.sectionLen - 9;
    EntriesFromOk(bits, h.next, n, map[]);
    EntriesFromMap(bits, h.next, n, map[]);
    assert map[] + ProgramsOf(bits, h.next, n / 4) == ProgramsOf(bits, h.next, n / 4);
    ProgramsOfKeys(bits, h.next, n / 4);
    forall j | 0 <= j < n / 4 && LastWith(bits, h.next, n / 4, j)
      ensures PatAt(bits, cnt, crcWidth).value.programMap[PidAt(bits, h.next, j)] == ProgAt(bits, h.next, j)
    {
      ProgramsOfLast(bits, h.next, n / 4, j);
    }
  }

  // ----- readiness and the CRC -----

  /** With 24 spare bits after section_length's bytes the entry loop never runs out of bits. */
  lemma {:induction false} EntriesFromRoom(bits: seq<bool>, q: nat, n: int, m: map<int, int>)
    requires q + 8 * n + 24 <= |bits|
    ensures EntriesFrom(bits, q, n, m) != Err(SectionTruncated)
    decreases n
  {
    if n > 0 && EntryAt(bits, q).Ok? {
      var e := EntryAt(bits, q).value;
      EntriesFromRoom(bits, e.next, n - 4, m[e.value.pid := e.value.programNumber]);
    }
  }

  /**
   * A section whose header and section_length bytes lie in the buffer, with
   * room for the CRC read after them, is never cut short.
   */
  lemma PatFits(bits: seq<bool>, cnt: int, crcWidth: nat, s: nat)
    requires TableStart(bits) == Ok(s) && s + 64 <= |bits|
    requires Field(bits, s + 14, 10) >= 9
    requires s + 64 + 8 * (Field(bits, s + 14, 10) - 9) + 24 <= |bits|
    requires s + 64 + 8 * (Field(bits, s + 14, 10) - 9) + crcWidth <= |bits|
    ensures PatAt(bits, cnt, crcWidth) != Err(SectionTruncated)
  {
    HeaderAtFits(bits, s);
    if HeaderAt(bits, s).Ok? {
      var q, n := s + 64, Field(bits, s + 14, 10) - 9;
      EntriesFromRoom(bits, q, n, map[]);
      EntriesFromOk(bits, q, n, map[]);
    }
  }

  /** The pointer byte and the section_length read as the readiness test reads them. */
  lemma ReadyLayout(bs: seq<byte>)
    requires ReadyOf(bs) == Ok(true)
    ensures var s := 8 + 8 * bs[0] as int;
      TableStart(BitsOf(bs)) == Ok(s) && s + 14 + 10 <= |BitsOf(bs)|
      && Field(BitsOf(bs), s + 14, 10) == Field(BitsOf(bs), 8 * bs[0] as int + 22, 10)
  {
    FieldByte(bs, 0);
  }

  /** As written, a ready buffer holds enough for ParsePAT's 4-bit CRC read. */
  lemma ReadySuffices(bs: seq<byte>, cnt: int)
    requires ReadyOf(bs) == Ok(true) && Field(BitsOf(bs), 8 * bs[0] as int + 22, 10) >= 9
    ensures PatAt(BitsOf(bs), cnt, 4) != Err(SectionTruncated)
  {
    ReadyLayout(bs);
    PatFits(BitsOf(bs), cnt, 4, 8 + 8 * bs[0] as int);
  }

  /** The corrected readiness test is enough for the whole 32-bit CRC. */
  lemma ReadyIntendedSuffices(bs: seq<byte>, cnt: int)
    requires ReadyIntended(bs) == Ok(true) && Field(BitsOf(bs), 8 * bs[0] as int + 22, 10) >= 9
    ensures PatAt(BitsOf(bs), cnt, 32) != Err(SectionTruncated)
  {
    ReadyOneByteShort(bs);
    ReadyLayout(bs);
    PatFits(BitsOf(bs), cnt, 32, 8 + 8 * bs[0] as int);
  }

  // ----- the table of the program's own test -----

  const PatExample: seq<byte> := [0x00, 0x00, 0xB0, 0x0D, 0x11, 0x11, 0xC1, 0x00, 0x00,
    0x00, 0x0A, 0xE1, 0x02, 0xAA, 0x4A, 0xE2, 0xD2]

  /**
   * The test's table: program 10 on PID 258, table id extension 4369, version
   * 0, current. As written the "CRC" is the first four bits of the field, 10;
   * read whole it is 0xAA4AE2D2.
   */
  lemma PatExampleParsed()
    ensures PatAt(BitsOf(PatExample), 0, 4) == Ok(CreatePat(0, 4369, 0, true, map[258 := 10], 10))
    ensures PatAt(BitsOf(PatExample), 0, 32) == Ok(CreatePat(0, 4369, 0, true, map[258 := 10], 0xAA4AE2D2))
  {
    var bs := PatExample;
    var bits := BitsOf(bs);
    ExampleFields(bs, bits);
    ExampleTable(bits, 136);
  }

  /**
   * The test's table without its last byte: the readiness test as written
   * says it is ready, the corrected one does not, and reading the whole CRC
   * runs past its end.
   */
  lemma ExampleOneByteShort()
    ensures ReadyOf(PatExample[..16]) == Ok(true)
    ensures ReadyIntended(PatExample[..16]) == Ok(false)
    ensures PatAt(BitsOf(PatExample[..16]), 0, 4).Ok?
    ensures PatAt(BitsOf(PatExample[..16]), 0, 32) == Err(SectionTruncated)
  {
    var bs := PatExample;
    var short := bs[..16];
    var bits := BitsOf(short);
    ExampleFields(bs, BitsOf(bs));
    ShortFields(bs, short);
    assert short[0] == 0;
    ExampleTable(bits, 128);
  }

  /** The table from the fields the example's bits hold, for a buffer of n bits. */
  lemma ExampleTable(bits: seq<bool>, n: nat)
    requires |bits| == n && 128 <= n <= 136
    requires ExampleFieldValues(bits)
    ensures n == 136 ==> PatAt(bits, 0, 4) == Ok(CreatePat(0, 4369, 0, true, map[258 := 10], 10))
    ensures n == 136 ==> PatAt(bits, 0, 32) == Ok(CreatePat(0, 4369, 0, true, map[258 := 10], Field(bits, 104, 32)))
    ensures PatAt(bits, 0, 4).Ok?
    ensures n < 136 ==> PatAt(bits, 0, 32) == Err(SectionTruncated)
  {
    assert TableStart(bits) == Ok(8);
    assert FlagChecks(bits, 16) == Ok(22);
    var h := SectionHeader(0, 13, 4369, 0, true);
    HeaderAtOk(bits, 8, h);
    assert EntryAt(bits, 72) == Ok(Step(Entry(10, 258), 104));
    assert EntriesFrom(bits, 104, 0, map[258 := 10]) == Ok(Step(map[258 := 10], 104));
    assert EntriesFrom(bits, 72, 4, map[]) == Ok(Step(map[258 := 10], 104));
  }

  /** The field values of the example, up to the first four bits of its CRC. */
  predicate ExampleFieldValues(bits: seq<bool>)
  {
    |bits| >= 108 && ExampleHeaderValues(bits) && ExampleEntryValues(bits)
  }

  predicate ExampleHeaderValues(bits: seq<bool>)
  {
    |bits| >= 56
    && Field(bits, 0, 8) == 0 && Field(bits, 8, 8) == 0
    && Field(bits, 16, 1) == 1 && Field(bits, 17, 1) == 0 && Field(bits, 18, 2) == 3 && Field(bits, 20, 2) == 0
    && Field(bits, 22, 10) == 13 && Field(bits, 32, 16) == 4369
    && Field(bits, 48, 2) == 3 && Field(bits, 50, 5) == 0 && bits[55]
  }

  predicate ExampleEntryValues(bits: seq<bool>)
  {
    |bits| >= 108
    && Field(bits, 72, 16) == 10 && Field(bits, 88, 3) == 7 && Field(bits, 91, 13) == 258
    && Field(bits, 104, 4) == 10
  }

  lemma ExampleFields(bs: seq<byte>, bits: seq<bool>)
    requires bs == PatExample && bits == BitsOf(bs)
    ensures |bits| == 136 && ExampleFieldValues(bits) && Field(bits, 104, 32) == 0xAA4AE2D2
  {
    ExampleHeaderFields(bs, bits);
    ExampleEntry(bs);
    ExampleCrc(bs);
  }

  lemma ExampleHeaderFields(bs: seq<byte>, bits: seq<bool>)
    requires bs == PatExample && bits == BitsOf(bs)
    ensures |bits| == 136 && ExampleHeaderValues(bits)
  {
    FieldByte(bs, 0);
    FieldByte(bs, 1);
    ExampleFlags(bs);
    ExampleExtension(bs);
    ExampleVersion(bs);
    FieldOfOne(bits, 55);
  }

  /** The first 16 bytes hold the same fields. */
  lemma ShortFields(bs: seq<byte>, short: seq<byte>)
    requires bs == PatExample && short == bs[..16] && ExampleFieldValues(BitsOf(bs))
    ensures |BitsOf(short)| == 128 && ExampleFieldValues(BitsOf(short))
  {
    assert bs[0..16] == short;
    BitsOfConcat(short, bs[16..]);
    assert bs == short + bs[16..];
    var bits, sb := BitsOf(bs), BitsOf(short);
    assert sb == bits[..128];
    ShortHeader(bits, sb);
    ShortEntry(bits, sb);
  }

  lemma ShortHeader(bits: seq<bool>, sb: seq<bool>)
    requires |bits| >= 128 && sb == bits[..128] && ExampleHeaderValues(bits)
    ensures ExampleHeaderValues(sb)
  {
    FieldOfPrefix(bits, sb, 0, 8);
    FieldOfPrefix(bits, sb, 8, 8);
    FieldOfPrefix(bits, sb, 16, 1);
    FieldOfPrefix(bits, sb, 17, 1);
    FieldOfPrefix(bits, sb, 18, 2);
    FieldOfPrefix(bits, sb, 20, 2);
    FieldOfPrefix(bits, sb, 22, 10);
    FieldOfPrefix(bits, sb, 32, 16);
    FieldOfPrefix(bits, sb, 48, 2);
    FieldOfPrefix(bits, sb, 50, 5);
  }

  lemma ShortEntry(bits: seq<bool>, sb: seq<bool>)
    requires |bits| >= 128 && sb == bits[..128] && ExampleEntryValues(bits)
    ensures ExampleEntryValues(sb)
  {
    FieldOfPrefix(bits, sb, 72, 16);
    FieldOfPrefix(bits, sb, 88, 3);
    FieldOfPrefix(bits, sb, 91, 13);
    FieldOfPrefix(bits, sb, 104, 4);
  }

  /** A field inside a prefix is the same field of the whole. */
  lemma FieldOfPrefix(bits: seq<bool>, sb: seq<bool>, p: nat, k: nat)
    requires p + k <= |sb| <= |bits| && sb == bits[..|sb|]
    ensures Field(sb, p, k) == Field(bits, p, k)
  {
    assert sb[p..p + k] == bits[p..p + k];
    FieldOfSameSlice(sb, bits, p, p, k);
  }

  /** Bytes b0 0d: the indicator bits 1, 0, 11, 00 and section_length 13. */
  lemma ExampleFlags(bs: seq<byte>)
    requires bs == PatExample
    ensures Field(BitsOf(bs), 16, 1) == 1 && Field(BitsOf(bs), 17, 1) == 0 && Field(BitsOf(bs), 18, 2) == 3
    ensures Field(BitsOf(bs), 20, 2) == 0 && Field(BitsOf(bs), 22, 10) == 13
  {
    var part := bs[2..4];
    FieldOfSub(bs, 2, 4, 16, 1);
    FieldOfSub(bs, 2, 4, 17, 1);
    FieldOfSub(bs, 2, 4, 18, 2);
    FieldOfSub(bs, 2, 4, 20, 2);
    FieldOfSub(bs, 2, 4, 22, 10);
    BigEndianOfTwo(part);
    FlagBytes(part);
  }

  lemma FlagBytes(part: seq<byte>)
    requires |part| == 2 && BigEndian(part) == 0xB00D
    ensures Field(BitsOf(part), 0, 1) == 1 && Field(BitsOf(part), 1, 1) == 0 && Field(BitsOf(part), 2, 2) == 3
    ensures Field(BitsOf(part), 4, 2) == 0 && Field(BitsOf(part), 6, 10) == 13
  {
    IndicatorBytes(part);
    LengthBytes(part);
  }

  lemma IndicatorBytes(part: seq<byte>)
    requires |part| == 2 && BigEndian(part) == 0xB00D
    ensures Field(BitsOf(part), 0, 1) == 1 && Field(BitsOf(part), 1, 1) == 0 && Field(BitsOf(part), 2, 2) == 3
  {
    Pow2Add(8, 7);
    Pow2Add(8, 6);
    Pow2Add(8, 4);
    FieldOfValue(part, 0, 1, 0xB00D, 0x8000, 2);
    FieldOfValue(part, 1, 1, 0xB00D, 0x4000, 2);
    FieldOfValue(part, 2, 2, 0xB00D, 0x1000, 4);
  }

  lemma LengthBytes(part: seq<byte>)
    requires |part| == 2 && BigEndian(part) == 0xB00D
    ensures Field(BitsOf(part), 4, 2) == 0 && Field(BitsOf(part), 6, 10) == 13
  {
    Pow2Add(8, 2);
    assert Pow2(0) == 1;
    FieldOfValue(part, 4, 2, 0xB00D, 0x400, 4);
    FieldOfValue(part, 6, 10, 0xB00D, 1, 0x400);
  }

  /** Bytes 11 11: transport_stream_id 4369. */
  lemma ExampleExtension(bs: seq<byte>)
    requires bs == PatExample
    ensures Field(BitsOf(bs), 32, 16) == 4369
  {
    var part := bs[4..6];
    Pow2Widths();
    FieldOfSub(bs, 4, 6, 32, 16);
    BigEndianOfTwo(part);
    assert |part| == 2 && BigEndian(part) == 0x1111;
    assert Pow2(0) == 1;
    FieldOfValue(part, 0, 16, 0x1111, 1, 0x1_0000);
  }

  /** Byte c1: reserved 11, version 0, current_next_indicator 1. */
  lemma ExampleVersion(bs: seq<byte>)
    requires bs == PatExample
    ensures Field(BitsOf(bs), 48, 2) == 3 && Field(BitsOf(bs), 50, 5) == 0 && Field(BitsOf(bs), 55, 1) == 1
  {
    var part := bs[6..8];
    FieldOfSub(bs, 6, 8, 48, 2);
    FieldOfSub(bs, 6, 8, 50, 5);
    FieldOfSub(bs, 6, 8, 55, 1);
    BigEndianOfTwo(part);
    VersionBytes(part);
  }

  lemma VersionBytes(part: seq<byte>)
    requires |part| == 2 && BigEndian(part) == 0xC100
    ensures Field(BitsOf(part), 0, 2) == 3 && Field(BitsOf(part), 2, 5) == 0 && Field(BitsOf(part), 7, 1) == 1
  {
    ReservedByte(part);
    Pow2Add(8, 1);
    FieldOfValue(part, 2, 5, 0xC100, 0x200, 32);
    FieldOfValue(part, 7, 1, 0xC100, 0x100, 2);
  }

  lemma ReservedByte(part: seq<byte>)
    requires |part| == 2 && BigEndian(part) == 0xC100
    ensures Field(BitsOf(part), 0, 2) == 3
  {
    Pow2Add(8, 6);
    FieldOfValue(part, 0, 2, 0xC100, 0x4000, 4);
  }

  /** Bytes 00 0a e1 02: program 10, reserved 111, PID 258. */
  lemma ExampleEntry(bs: seq<byte>)
    requires bs == PatExample
    ensures Field(BitsOf(bs), 72, 16) == 10 && Field(BitsOf(bs), 88, 3) == 7 && Field(BitsOf(bs), 91, 13) == 258
  {
    var part := bs[9..13];
    FieldOfSub(bs, 9, 13, 72, 16);
    FieldOfSub(bs, 9, 13, 88, 3);
    FieldOfSub(bs, 9, 13, 91, 13);
    BigEndianOfFour(part);
    EntryBytes(part);
  }

  lemma EntryBytes(part: seq<byte>)
    requires |part| == 4 && BigEndian(part) == 0xAE102
    ensures Field(BitsOf(part), 0, 16) == 10 && Field(BitsOf(part), 16, 3) == 7 && Field(BitsOf(part), 19, 13) == 258
  {
    EntryProgram(part);
    EntryPid(part);
  }

  lemma EntryProgram(part: seq<byte>)
    requires |part| == 4 && BigEndian(part) == 0xAE102
    ensures Field(BitsOf(part), 0, 16) == 10
  {
    Pow2Widths();
    FieldOfValue(part, 0, 16, 0xAE102, 0x1_0000, 0x1_0000);
  }

  lemma EntryPid(part: seq<byte>)
    requires |part| == 4 && BigEndian(part) == 0xAE102
    ensures Field(BitsOf(part), 16, 3) == 7 && Field(BitsOf(part), 19, 13) == 258
  {
    SmallPowers();
    FieldOfValue(part, 16, 3, 0xAE102, 0x2000, 8);
    FieldOfValue(part, 19, 13, 0xAE102, 1, 0x2000);
  }

  /** Bytes aa 4a e2 d2: the CRC_32 field. */
  lemma ExampleCrc(bs: seq<byte>)
    requires bs == PatExample
    ensures Field(BitsOf(bs), 104, 4) == 10 && Field(BitsOf(bs), 104, 32) == 0xAA4AE2D2
  {
    var part := bs[13..17];
    FieldOfSub(bs, 13, 17, 104, 4);
    FieldOfSub(bs, 13, 17, 104, 32);
    BigEndianOfFour(part);
    CrcBytes(part);
  }

  lemma CrcBytes(part: seq<byte>)
    requires |part| == 4 && BigEndian(part) == 0xAA4AE2D2
    ensures Field(BitsOf(part), 0, 4) == 10 && Field(BitsOf(part), 0, 32) == 0xAA4AE2D2
  {
    CrcHighBits(part);
    CrcWhole(part);
  }

  lemma CrcHighBits(part: seq<byte>)
    requires |part| == 4 && BigEndian(part) == 0xAA4AE2D2
    ensures Field(BitsOf(part), 0, 4) == 10
  {
    Pow2Widths();
    Pow2Add(16, 12);
    FieldOfValue(part, 0, 4, 0xAA4AE2D2, 0x1000_0000, 16);
  }

  lemma CrcWhole(part: seq<byte>)
    requires |part| == 4 && BigEndian(part) == 0xAA4AE2D2
    ensures Field(BitsOf(part), 0, 32) == 0xAA4AE2D2
  {
    Pow2Widths();
    assert Pow2(0) == 1;
    FieldOfValue(part, 0, 32, 0xAA4AE2D2, 1, 0x1_0000_0000);
  }
}
