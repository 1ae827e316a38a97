/**
 * The adaptation field of a transport stream packet (sections 2.4.3.4 and 2.4.3.5
 * of ISO/IEC 13818-1): a length byte and eight flag bits, then the PCR and OPCR
 * (a 33-bit base times 300 plus a 9-bit extension), the splice countdown, the
 * transport private data and the stuffing, each there when its flag says so.
 */
module AdaptationFields {
  import opened Bits
  import opened Wrappers
  import opened GoInt
  import opened BitReader
  import opened BitWriter
  import opened Packing

  /** A Unicode code point: one character of a Go string. */
  type Rune = r: int | 0 <= r < 0xD800 || 0xE000 <= r < 0x11_0000

  /**
   * AfLen is the length byte; the three indicators are kept as read (0 or 1);
   * a clock, or the splice point, is -1 when absent; StuffSize is what is left
   * of the length once every field is counted, and may be negative.
   */
  datatype AdaptationField = AdaptationField(
    afLen: int, disCnt: int, randomAccess: int, esIdr: int,
    pcr: int, opcr: int, splicePoint: int, privateData: seq<Rune>, stuffSize: int)

  /** AdaptationField{AfLen: 0}: every field zero. */
  const Empty := AdaptationField(0, 0, 0, 0, 0, 0, 0, [], 0)

  // ----- parsing -----

  /** A clock reference at bit p: a 33-bit base, 6 reserved bits, a 9-bit extension; base * 300 + extension. */
  function ClockAt(bits: seq<bool>, p: nat): int
    requires p + 48 <= |bits|
  {
    Field(bits, p, 33) * 300 + Field(bits, p + 39, 9)
  }

  /** n bytes from bit p, each taken as a character. */
  function RunesAt(bits: seq<bool>, p: nat, n: nat): (s: seq<Rune>)
    requires p + 8 * n <= |bits|
    ensures |s| == n
    ensures forall i :: 0 <= i < n ==> s[i] < 0x100
  {
    if n == 0 then []
    else
      FieldBound(bits, p + 8 * (n - 1), 8);
      Pow2Widths();
      RunesAt(bits, p, n - 1) + [Field(bits, p + 8 * (n - 1), 8)]
  }

  /** The PCR or OPCR when its flag is set, -1 when it is not. */
  function OptClock(bits: seq<bool>, p: nat, present: bool): (r: Result<Step<int>, ReadError>)
    ensures r.Ok? ==> r.value.next == p + (if present then 48 else 0) <= |bits| || !present
  {
    if !present then Ok(Step(-1, p))
    else if p + 48 > |bits| then Err(Truncated)
    else Ok(Step(ClockAt(bits, p), p + 48))
  }

  /** The splice countdown byte when its flag is set, -1 when it is not. */
  function OptSplice(bits: seq<bool>, p: nat, present: bool): (r: Result<Step<int>, ReadError>)
    ensures r.Ok? ==> r.value.next == p + (if present then 8 else 0) <= |bits| || !present
  {
    if !present then Ok(Step(-1, p))
    else if p + 8 > |bits| then Err(Truncated)
    else Ok(Step(Field(bits, p, 8), p + 8))
  }

  /** The private data when its flag is set: a length byte, then that many bytes. */
  function OptPrivate(bits: seq<bool>, p: nat, present: bool): (r: Result<Step<seq<Rune>>, ReadError>)
    ensures r.Ok? ==> r.value.next == p + (if present then 8 + 8 * |r.value.value| else 0) <= |bits| || !present
    ensures r.Ok? && !present ==> r.value == Step([], p)
  {
    if !present then Ok(Step([], p))
    else if p + 8 > |bits| then Err(Truncated)
    else if p + 8 + 8 * Field(bits, p, 8) > |bits| then Err(Truncated)
    else Ok(Step(RunesAt(bits, p + 8, Field(bits, p, 8)), p + 8 + 8 * Field(bits, p, 8)))
  }

  /** The bytes the flags announce, in the order they are subtracted from the length. */
  function Announced(pcr: bool, opcr: bool, splice: bool, private: bool, dataLen: int): int
  {
    (if pcr then 6 else 0) + (if opcr then 6 else 0) + (if splice then 1 else 0) + (if private then dataLen + 1 else 0)
  }

  /**
   * The field ParseAdaptationField reads from bits. Reading past the end, where
   * the Go code panics, is Truncated; the stuffing is skipped as that many bits.
   */
  function DecodeAf(bits: seq<bool>): Result<AdaptationField, ReadError>
  {
    if |bits| < 8 then Err(Truncated)
    else if Field(bits, 0, 8) == 0 then Ok(Empty)
    else if |bits| < 16 then Err(Truncated)
    else DecodeAfFields(bits, Field(bits, 0, 8))
  }

  /** The optional fields after the flag byte, in order, and the bit position after them. */
  datatype Optional = Optional(pcr: int, opcr: int, splicePoint: int, privateData: seq<Rune>, next: nat)

  function DecodeOptional(bits: seq<bool>, p: nat, pcrFlag: bool, opcrFlag: bool, spliceFlag: bool, privateFlag: bool): Result<Optional, ReadError>
  {
    match OptClock(bits, p, pcrFlag)
    case Err(e) => Err(e)
    case Ok(pcr) =>
      match OptClock(bits, pcr.next, opcrFlag)
      case Err(e) => Err(e)
      case Ok(opcr) =>
        match OptSplice(bits, opcr.next, spliceFlag)
        case Err(e) => Err(e)
        case Ok(splice) =>
          match OptPrivate(bits, splice.next, privateFlag)
          case Err(e) => Err(e)
          case Ok(priv) => Ok(Optional(pcr.value, opcr.value, splice.value, priv.value, priv.next))
  }


  /** The flag byte after the length: three indicators kept as read, four presence flags. */
  datatype AfFlags = AfFlags(disCnt: int, randomAccess: int, esIdr: int, pcr: bool, opcr: bool, splice: bool, private: bool)

  function FlagsAt(bits: seq<bool>): AfFlags
    requires 16 <= |bits|
  {
    AfFlags(Field(bits, 8, 1), Field(bits, 9, 1), Field(bits, 10, 1), bits[11], bits[12], bits[13], bits[14])
  }

  /** The field once the optional parts are read: what is left of the length is the stuffing, skipped as bits. */
  function Assemble(bits: seq<bool>, afLen: int, f: AfFlags, o: Optional): Result<AdaptationField, ReadError>
  {
    var stuff := afLen - 1 - Announced(f.pcr, f.opcr, f.splice, f.private, |o.privateData|);
    if stuff > |bits| - o.next then Err(Truncated)
    else Ok(AdaptationField(afLen, f.disCnt, f.randomAccess, f.esIdr, o.pcr, o.opcr, o.splicePoint, o.privateData, stuff))
  }

  function DecodeAfFields(bits: seq<bool>, afLen: int): Result<AdaptationField, ReadError>
    requires 16 <= |bits|
  {
    var f := FlagsAt(bits);
    match DecodeOptional(bits, 16, f.pcr, f.opcr, f.splice, f.private)
    case Err(e) => Err(e)
    case Ok(o) => Assemble(bits, afLen, f, o)
  }

  /** ParseAdaptationField, with Truncated where the Go code reads past the end of buf. */
  method ParseAdaptationField(buf: seq<byte>) returns (r: Result<AdaptationField, ReadError>)
    ensures r == DecodeAf(BitsOf(buf))
  {
    var rd := new BsReader(buf);
    if rd.Remaining() < 8 {
      return Err(Truncated);
    }
    var afLen := rd.ReadBits(8);
    if afLen == 0 {
      return Ok(Empty);
    }
    if rd.Remaining() < 8 {
      return Err(Truncated);
    }
    r := ParseAfFields(rd, afLen);
  }

  /** Everything after the length byte. */
  method ParseAfFields(rd: BsReader, afLen: int) returns (r: Result<AdaptationField, ReadError>)
    requires rd.Valid() && rd.BitPos() == 8 && 16 <= |rd.Bits()|
    modifies rd
    ensures r == DecodeAfFields(rd.Bits(), afLen)
  {
    var f := ReadAfFlags(rd);
    var o := ReadOptional(rd, f.pcr, f.opcr, f.splice, f.private);
    if o.Err? {
      return Err(Truncated);
    }
    r := FinishAf(rd, afLen, f, o.value);
  }

  /** Skips the stuffing: afLen less the announced fields, read as bits. */
  method FinishAf(rd: BsReader, afLen: int, f: AfFlags, o: Optional) returns (r: Result<AdaptationField, ReadError>)
    requires rd.Valid() && rd.BitPos() == o.next
    modifies rd
    ensures r == Assemble(rd.Bits(), afLen, f, o)
  {
    var stuff := afLen - 1 - Announced(f.pcr, f.opcr, f.splice, f.private, |o.privateData|);
    if stuff > rd.Remaining() {
      return Err(Truncated);
    }
    var _ := rd.ReadBits(stuff);
    r := Ok(AdaptationField(afLen, f.disCnt, f.randomAccess, f.esIdr, o.pcr, o.opcr, o.splicePoint, o.privateData, stuff));
  }

  /**
   * The clocks, the splice point and the private data, each read when its flag is
   * set; the length is reduced by the caller with Announced, the same amounts in one sum.
   */
  method ReadOptional(rd: BsReader, pcrFlag: bool, opcrFlag: bool, spliceFlag: bool, privateFlag: bool) returns (r: Result<Optional, ReadError>)
    requires rd.Valid()
    modifies rd
    ensures rd.Valid()
    ensures r == DecodeOptional(rd.Bits(), old(rd.BitPos()), pcrFlag, opcrFlag, spliceFlag, privateFlag)
    ensures r.Ok? ==> rd.BitPos() == r.value.next
  {
    var pcr, ok := ReadOptClock(rd, pcrFlag);
    if !ok {
      return Err(Truncated);
    }
    var opcr, ok2 := ReadOptClock(rd, opcrFlag);
    if !ok2 {
      return Err(Truncated);
    }
    var splicePoint, ok3 := ReadOptSplice(rd, spliceFlag);
    if !ok3 {
      return Err(Truncated);
    }
    var privateData, ok4 := ReadPrivate(rd, privateFlag);
    if !ok4 {
      return Err(Truncated);
    }
    r := Ok(Optional(pcr, opcr, splicePoint, privateData, rd.BitPos()));
  }

  /** A clock when its flag is set, -1 when not; ok is false where the Go code reads past the end. */
  method ReadOptClock(rd: BsReader, present: bool) returns (c: int, ok: bool)
    requires rd.Valid()
    modifies rd
    ensures rd.Valid()
    ensures var r := OptClock(rd.Bits(), old(rd.BitPos()), present);
      ok == r.Ok? && (ok ==> c == r.value.value && rd.BitPos() == r.value.next)
  {
    if !present {
      return -1, true;
    }
    if rd.Remaining() < 48 {
      return -1, false;
    }
    c := ReadClock(rd);
    ok := true;
  }

  /** The splice countdown when its flag is set, -1 when not. */
  method ReadOptSplice(rd: BsReader, present: bool) returns (c: int, ok: bool)
    requires rd.Valid()
    modifies rd
    ensures rd.Valid()
    ensures var r := OptSplice(rd.Bits(), old(rd.BitPos()), present);
      ok == r.Ok? && (ok ==> c == r.value.value && rd.BitPos() == r.value.next)
  {
    if !present {
      return -1, true;
    }
    if rd.Remaining() < 8 {
      return -1, false;
    }
    c := rd.ReadBits(8);
    ok := true;
  }

  /** The flag byte; the extension flag is read and dropped. */
  method ReadAfFlags(rd: BsReader) returns (f: AfFlags)
    requires rd.Valid() && rd.BitPos() == 8 && 16 <= |rd.Bits()|
    modifies rd
    ensures rd.Valid() && rd.BitPos() == 16
    ensures f == FlagsAt(rd.Bits())
  {
    ghost var bits := rd.Bits();
    var one := 1;
    var disCnt := rd.ReadBits(one);
    var randomAccess := rd.ReadBits(one);
    var esIdr := rd.ReadBits(one);
    var pcr := rd.ReadBits(one);
    var opcr := rd.ReadBits(one);
    var splice := rd.ReadBits(one);
    var private := rd.ReadBits(one);
    var _ := rd.ReadBits(one);
    FieldOfOne(bits, 11);
    FieldOfOne(bits, 12);
    FieldOfOne(bits, 13);
    FieldOfOne(bits, 14);
    f := AfFlags(disCnt, randomAccess, esIdr, pcr != 0, opcr != 0, splice != 0, private != 0);
  }

  /** A clock reference: pcr = base * 300 + extension, with the 6 reserved bits between them skipped. */
  method ReadClock(rd: BsReader) returns (c: int)
    requires rd.Valid() && 48 <= rd.Remaining()
    modifies rd
    ensures rd.Valid() && rd.BitPos() == old(rd.BitPos()) + 48
    ensures c == ClockAt(rd.Bits(), old(rd.BitPos()))
  {
    c := rd.ReadBits(33);
    var _ := rd.ReadBits(6);
    var ext := rd.ReadBits(9);
    c := c * 300 + ext;
  }

  /** The private data when its flag is set; ok is false where the Go code reads past the end. */
  method ReadPrivate(rd: BsReader, present: bool) returns (s: seq<Rune>, ok: bool)
    requires rd.Valid()
    modifies rd
    ensures rd.Valid()
    ensures var r := OptPrivate(rd.Bits(), old(rd.BitPos()), present);
      ok == r.Ok? && (ok ==> s == r.value.value && rd.BitPos() == r.value.next)
  {
    s := [];
    if !present {
      return s, true;
    }
    if rd.Remaining() < 8 {
      return s, false;
    }
    var dataLen := rd.ReadBits(8);
    if rd.Remaining() < 8 * dataLen {
      return s, false;
    }
    s := ReadRunes(rd, dataLen);
    ok := true;
  }

  /** n bytes, one character each. */
  method ReadRunes(rd: BsReader, n: int) returns (s: seq<Rune>)
    requires rd.Valid() && 0 <= n && 8 * n <= rd.Remaining()
    modifies rd
    ensures rd.Valid() && rd.BitPos() == old(rd.BitPos()) + 8 * n
    ensures s == RunesAt(rd.Bits(), old(rd.BitPos()), n)
  {
    ghost var bits, p := rd.Bits(), rd.BitPos();
    s := [];
    var i := 0;
    while i < n
      invariant 0 <= i <= n && rd.Valid() && rd.Bits() == bits
      invariant rd.BitPos() == p + 8 * i
      invariant s == RunesAt(bits, p, i)
    {
      var b := rd.ReadBits(8);
      var j := i + 1;
      RunesAtStep(bits, p, i, j, b);
      s := s + [b];
      i := j;
    }
  }

  /** One more character, read at p + 8 * i. */
  lemma RunesAtStep(bits: seq<bool>, p: nat, i: nat, j: nat, b: int)
    requires j == i + 1 && p + 8 * j <= |bits| && b == Field(bits, p + 8 * i, 8)
    ensures 0 <= b < 0x100
    ensures RunesAt(bits, p, j) == RunesAt(bits, p, i) + [b]
  {
    FieldBound(bits, p + 8 * i, 8);
    Pow2Widths();
  }

  // ----- serialising -----

  /** The number of bytes UTF-8 takes for one character. */
  function RuneLen(r: Rune): nat
  {
    if r < 0x80 then 1 else if r < 0x800 then 2 else if r < 0x1_0000 then 3 else 4
  }

  /** len of a Go string: the bytes of its UTF-8 encoding. */
  function Utf8Len(s: seq<Rune>): (n: nat)
    ensures n >= |s|
    ensures (forall i :: 0 <= i < |s| ==> s[i] < 0x80) ==> n == |s|
  {
    if s == [] then 0 else Utf8Len(s[..|s| - 1]) + RuneLen(s[|s| - 1])
  }

  /**
   * The length Serialize gives the private data: its UTF-8 length as written,
   * or the number of characters, one byte each, the length a parse reads back.
   */
  function PrivateLen(s: seq<Rune>, asWritten: bool): nat
  {
    if asWritten then Utf8Len(s) else |s|
  }

  /** actualAfLen: two bytes of length and flags, then each field present, then the stuffing. */
  function AfSize(af: AdaptationField, asWritten: bool): int
  {
    2 + (if af.pcr != -1 then 6 else 0) + (if af.opcr != -1 then 6 else 0) + (if af.splicePoint != -1 then 1 else 0)
    + (if af.privateData != [] then PrivateLen(af.privateData, asWritten) + 1 else 0) + af.stuffSize
  }

  /** The length byte (size - 1) and the flag byte: a flag is set exactly when its field is present. */
  function HeadSlots(af: AdaptationField, size: int): seq<Slot>
  {
    [Slot(size - 1, 8), Slot(0, 1), Slot(af.randomAccess, 1), Slot(0, 1),
     Slot(BoolBit(af.pcr != -1), 1), Slot(BoolBit(af.opcr != -1), 1),
     Slot(BoolBit(af.splicePoint != -1), 1), Slot(BoolBit(af.privateData != []), 1), Slot(0, 1)]
  }

  /** A present clock: clock / 300 in 33 bits, six reserved ones, clock % 300 in 9 bits. */
  function ClockSlots(c: int): seq<Slot>
  {
    if c == -1 then [] else [Slot(GoDiv(c, 300), 33), Slot(0x3f, 6), Slot(GoRem(c, 300), 9)]
  }

  function SpliceSlots(sp: int): seq<Slot>
  {
    if sp == -1 then [] else [Slot(sp, 8)]
  }

  /** One byte per character. */
  function RuneSlots(s: seq<Rune>): (r: seq<Slot>)
    ensures |r| == |s|
  {
    if s == [] then [] else RuneSlots(s[..|s| - 1]) + [Slot(s[|s| - 1], 8)]
  }

  function PrivateSlots(s: seq<Rune>, asWritten: bool): seq<Slot>
  {
    if s == [] then [] else [Slot(PrivateLen(s, asWritten), 8)] + RuneSlots(s)
  }

  /** n stuffing bytes 0xff. */
  function StuffSlots(n: int): seq<Slot>
    decreases n
  {
    if n <= 0 then [] else StuffSlots(n - 1) + [Slot(0xff, 8)]
  }

  /** Everything Serialize writes, in order. */
  function AfSlots(af: AdaptationField, asWritten: bool): seq<Slot>
  {
    HeadSlots(af, AfSize(af, asWritten)) + ClockSlots(af.pcr) + ClockSlots(af.opcr)
    + SpliceSlots(af.splicePoint) + PrivateSlots(af.privateData, asWritten) + StuffSlots(af.stuffSize)
  }

  /** The fields the writer puts in bits narrower than a byte hold values that fit them. */
  predicate Writable(af: AdaptationField)
  {
    0 <= af.randomAccess <= 1 && af.pcr >= -1 && af.opcr >= -1
  }

  /** Each slot fits its width or starts on a byte boundary: either way the writer puts down exactly its bits. */
  predicate Placeable(s: seq<Slot>, start: nat)
  {
    forall i :: 0 <= i < |s| ==> 0 <= s[i].value < Pow2(s[i].width) || (start + Offset(s, i)) % 8 == 0
  }

  /**
   * AdaptationField.Serialize: [0] for an empty field; otherwise a buffer of
   * AfSize bytes whose written part is AfSlots and whose rest stays zero.
   */
  method Serialize(af: AdaptationField) returns (out: seq<byte>)
    requires af.stuffSize >= 0
    ensures af.afLen == 0 ==> out == [0]
    ensures af.afLen != 0 ==> |out| == AfSize(af, true) >= AfSize(af, false)
    ensures af.afLen != 0 && Writable(af) ==> BitsOf(out)[..8 * AfSize(af, false)] == PackAll(AfSlots(af, true))
    ensures af.afLen != 0 ==> forall i | AfSize(af, false) <= i < |out| :: out[i] == 0
  {
    if af.afLen == 0 {
      return [0];
    }
    var size := ComputeSize(af);
    var w := new BsWriter(size);
    WriteFields(w, af, size);
    out := w.buf[..];
    TailZero(out, w.pos);
  }

  /** Every field after an empty writer of the computed size: AfSize(af, false) bytes written. */
  method WriteFields(w: BsWriter, af: AdaptationField, size: int)
    requires w.Clean() && w.BitPos() == 0 && size == w.buf.Length == AfSize(af, true) && af.stuffSize >= 0
    modifies w, w.buf
    ensures w.Clean() && w.offset == 8 && w.pos == AfSize(af, false)
    ensures Writable(af) ==> w.Written() == PackAll(AfSlots(af, true))
  {
    ghost var c1, c2, sp, pr, st := if af.pcr != -1 then 48 else 0, if af.opcr != -1 then 48 else 0,
      if af.splicePoint != -1 then 8 else 0, if af.privateData != [] then 8 * (|af.privateData| + 1) else 0, 8 * af.stuffSize;
    assert 16 + c1 + c2 + sp + pr + st == 8 * AfSize(af, false) <= 8 * size;
    WriteFront(w, af, size);
    ghost var g := HeadSlots(af, size) + ClockSlots(af.pcr) + ClockSlots(af.opcr) + SpliceSlots(af.splicePoint);
    assert w.BitPos() == 16 + c1 + c2 + sp;
    WritePrivate(w, af.privateData, g);
    g := g + PrivateSlots(af.privateData, true);
    assert w.BitPos() == 16 + c1 + c2 + sp + pr;
    WriteStuffing(w, af.stuffSize, g);
    g := g + StuffSlots(af.stuffSize);
    assert g == AfSlots(af, true);
  }

  /** The head, the clocks and the splice countdown. */
  method WriteFront(w: BsWriter, af: AdaptationField, size: int)
    requires w.Clean() && w.BitPos() == 0
    requires 16 + (if af.pcr != -1 then 48 else 0) + (if af.opcr != -1 then 48 else 0) + (if af.splicePoint != -1 then 8 else 0) <= 8 * w.buf.Length
    modifies w, w.buf
    ensures w.Clean() && w.offset == 8
    ensures w.BitPos() == 16 + (if af.pcr != -1 then 48 else 0) + (if af.opcr != -1 then 48 else 0) + (if af.splicePoint != -1 then 8 else 0)
    ensures Writable(af) ==> w.Written() == PackAll(HeadSlots(af, size) + ClockSlots(af.pcr) + ClockSlots(af.opcr) + SpliceSlots(af.splicePoint))
  {
    WriteAfHead(w, af, size);
    ghost var g := HeadSlots(af, size);
    WriteOptClock(w, af.pcr, g);
    g := g + ClockSlots(af.pcr);
    WriteOptClock(w, af.opcr, g);
    g := g + ClockSlots(af.opcr);
    WriteOptSplice(w, af.splicePoint, g);
  }

  /** The length byte, size - 1, and the flag byte. */
  method WriteAfHead(w: BsWriter, af: AdaptationField, size: int)
    requires w.Clean() && w.BitPos() == 0 && 16 <= 8 * w.buf.Length
    modifies w, w.buf
    ensures w.Clean() && w.offset == 8 && w.BitPos() == 16
    ensures 0 <= af.randomAccess <= 1 ==> w.Written() == PackAll(HeadSlots(af, size))
  {
    HeadLayout(af, size);
    assert w.Written() == PackAll([]);
    WriteSlots(w, HeadSlots(af, size), []);
    assert [] + HeadSlots(af, size) == HeadSlots(af, size);
    Aligned(w.pos, w.offset);
  }

  /** A clock when present: clock / 300, 0x3f, clock % 300. */
  method WriteOptClock(w: BsWriter, c: int, ghost pre: seq<Slot>)
    requires w.Clean() && w.offset == 8 && w.BitPos() + (if c != -1 then 48 else 0) <= 8 * w.buf.Length
    modifies w, w.buf
    ensures w.Clean() && w.offset == 8 && w.BitPos() == old(w.BitPos()) + (if c != -1 then 48 else 0)
    ensures c >= -1 && old(w.Written()) == PackAll(pre) ==> w.Written() == PackAll(pre + ClockSlots(c))
  {
    ClockLayout(c, w.BitPos());
    WriteSlots(w, ClockSlots(c), pre);
    Aligned(w.pos, w.offset);
  }

  /** The splice countdown when present. */
  method WriteOptSplice(w: BsWriter, sp: int, ghost pre: seq<Slot>)
    requires w.Clean() && w.offset == 8 && w.BitPos() + (if sp != -1 then 8 else 0) <= 8 * w.buf.Length
    modifies w, w.buf
    ensures w.Clean() && w.offset == 8 && w.BitPos() == old(w.BitPos()) + (if sp != -1 then 8 else 0)
    ensures old(w.Written()) == PackAll(pre) ==> w.Written() == PackAll(pre + SpliceSlots(sp))
  {
    SpliceLayout(sp, w.BitPos());
    WriteSlots(w, SpliceSlots(sp), pre);
    Aligned(w.pos, w.offset);
  }

  /** The buffer size Serialize computes before writing: actualAfLen. */
  method ComputeSize(af: AdaptationField) returns (size: int)
    ensures size == AfSize(af, true)
  {
    size := 2;
    if af.pcr != -1 {
      size := size + 6;
    }
    if af.opcr != -1 {
      size := size + 6;
    }
    if af.splicePoint != -1 {
      size := size + 1;
    }
    if |af.privateData| != 0 {
      size := size + Utf8Len(af.privateData) + 1;
    }
    if af.stuffSize != 0 {
      size := size + af.stuffSize;
    }
  }

  /** A cursor on a byte boundary has no bits of its byte used. */
  lemma Aligned(pos: int, offset: int)
    requires 1 <= offset <= 8 && (8 * pos + 8 - offset) % 8 == 0
    ensures offset == 8
  {
    var k := 8 * pos + 8 - offset;
    assert k == 8 * (k / 8);
    assert offset == 8 * (pos + 1 - k / 8);
  }

  /** A blank buffer after the cursor holds zero bytes from the cursor on. */
  lemma TailZero(bs: seq<byte>, pos: nat)
    requires pos <= |bs| && Blank(bs, pos, 8)
    ensures forall i | pos <= i < |bs| :: bs[i] == 0
  {
    Pow2Widths();
    if pos < |bs| {
      assert bs[pos] % 256 == 0;
    }
  }

  /** The two head bytes: 16 bits, the length byte on a boundary and the flags one bit each. */
  lemma HeadLayout(af: AdaptationField, size: int)
    ensures var s := HeadSlots(af, size);
      Offset(s, |s|) == 16 && (forall i :: 0 <= i < |s| ==> s[i].width > 0)
      && (0 <= af.randomAccess <= 1 ==> Placeable(s, 0))
  {
    var s := HeadSlots(af, size);
    assert Offset(s, 0) == 0 && Offset(s, 1) == 8 && Offset(s, 2) == 9 && Offset(s, 3) == 10;
    assert Offset(s, 4) == 11 && Offset(s, 5) == 12 && Offset(s, 6) == 13;
    assert Offset(s, 7) == 14 && Offset(s, 8) == 15 && Offset(s, 9) == 16;
    assert Pow2(1) == 2;
    if 0 <= af.randomAccess <= 1 {
      forall i | 0 <= i < |s|
        ensures 0 <= s[i].value < Pow2(s[i].width) || Offset(s, i) % 8 == 0
      {
        if i > 0 {
          assert s[i].width == 1 && 0 <= s[i].value <= 1;
        }
      }
    }
  }

  /** A clock: 48 bits from a byte boundary; the quotient starts on it and the rest fit. */
  lemma ClockLayout(c: int, start: nat)
    requires start % 8 == 0
    ensures var s := ClockSlots(c);
      Offset(s, |s|) == (if c != -1 then 48 else 0) && (forall i :: 0 <= i < |s| ==> s[i].width > 0)
      && (c >= -1 ==> Placeable(s, start))
  {
    var s := ClockSlots(c);
    if c != -1 {
      assert s == [Slot(GoDiv(c, 300), 33), Slot(0x3f, 6), Slot(GoRem(c, 300), 9)];
      assert Offset(s, 1) == 33;
      assert Offset(s, 2) == 39;
      assert Offset(s, 3) == 48;
      if c >= 0 {
        GoDivRem(c, 300);
        assert Pow2(6) == 64 && Pow2(9) == 512;
        assert s[1].value < Pow2(s[1].width) && 0 <= s[2].value < Pow2(s[2].width);
        PlaceableThree(s, start);
      }
    }
  }

  /** Three slots from a byte boundary, the last two fitting their widths, can be placed. */
  lemma PlaceableThree(s: seq<Slot>, start: nat)
    requires |s| == 3 && start % 8 == 0
    requires 0 <= s[1].value < Pow2(s[1].width) && 0 <= s[2].value < Pow2(s[2].width)
    ensures Placeable(s, start)
  {
    forall i | 0 <= i < |s|
      ensures 0 <= s[i].value < Pow2(s[i].width) || (start + Offset(s, i)) % 8 == 0
    {
      if i == 0 {
        assert Offset(s, 0) == 0;
      }
    }
  }

  lemma SpliceLayout(sp: int, start: nat)
    requires start % 8 == 0
    ensures var s := SpliceSlots(sp);
      Offset(s, |s|) == (if sp != -1 then 8 else 0) && (forall i :: 0 <= i < |s| ==> s[i].width > 0) && Placeable(s, start)
  {
  }

  /** w.Write(value, width) for each slot in turn, after the slots pre already written. */
  method WriteSlots(w: BsWriter, s: seq<Slot>, ghost pre: seq<Slot>)
    requires w.Clean() && w.BitPos() + Offset(s, |s|) <= 8 * w.buf.Length
    requires forall i :: 0 <= i < |s| ==> s[i].width > 0
    modifies w, w.buf
    ensures w.Clean() && w.BitPos() == old(w.BitPos()) + Offset(s, |s|)
    ensures Placeable(s, old(w.BitPos())) && old(w.Written()) == PackAll(pre) ==> w.Written() == PackAll(pre + s)
  {
    ghost var b0 := w.BitPos();
    ghost var ok := Placeable(s, b0) && w.Written() == PackAll(pre);
    assert pre + s[..0] == pre;
    var i := 0;
    while i < |s|
      invariant 0 <= i <= |s| && w.Clean() && w.BitPos() == b0 + Offset(s, i)
      invariant ok ==> w.Written() == PackAll(pre + s[..i])
    {
      var j := i + 1;
      WriteSlotAt(w, s, i, j, pre, b0, ok);
      i := j;
    }
    assert s[..i] == s;
  }

  /** Slot i, written where slots 0 to i - 1 end. */
  method WriteSlotAt(w: BsWriter, s: seq<Slot>, i: nat, j: nat, ghost pre: seq<Slot>, ghost b0: nat, ghost ok: bool)
    requires i < |s| && j == i + 1 && s[i].width > 0 && b0 + Offset(s, |s|) <= 8 * w.buf.Length
    requires w.Clean() && w.BitPos() == b0 + Offset(s, i)
    requires ok ==> Placeable(s, b0) && w.Written() == PackAll(pre + s[..i])
    modifies w, w.buf
    ensures w.Clean() && w.BitPos() == b0 + Offset(s, j)
    ensures ok ==> w.Written() == PackAll(pre + s[..j])
  {
    OffsetMonotone(s, i, |s|);
    if w.BitPos() % 8 == 0 {
      Aligned(w.pos, w.offset);
    }
    w.Write(s[i].value, s[i].width);
    OffsetStep(s, i, j);
    SlotsStep(pre, s, i, j);
  }

  /** One more slot of s after pre adds its bits. */
  lemma SlotsStep(pre: seq<Slot>, s: seq<Slot>, i: nat, j: nat)
    requires i < |s| && j == i + 1
    ensures PackAll(pre + s[..j]) == PackAll(pre + s[..i]) + ToBits(s[i].value, s[i].width)
  {
    assert pre + s[..j] == (pre + s[..i]) + [s[i]];
    PackAllSnoc(pre + s[..i], s[i]);
  }

  /** The private data when there is any: its length byte, then one byte per character. */
  method WritePrivate(w: BsWriter, s: seq<Rune>, ghost pre: seq<Slot>)
    requires w.Clean() && w.offset == 8 && w.BitPos() + (if s != [] then 8 * (|s| + 1) else 0) <= 8 * w.buf.Length
    modifies w, w.buf
    ensures w.Clean() && w.offset == 8 && w.BitPos() == old(w.BitPos()) + (if s != [] then 8 * (|s| + 1) else 0)
    ensures old(w.Written()) == PackAll(pre) ==> w.Written() == PackAll(pre + PrivateSlots(s, true))
  {
    if |s| == 0 {
      assert pre + [] == pre;
      return;
    }
    ghost var ok := w.Written() == PackAll(pre);
    var n := Utf8Len(s);
    w.WriteByte(n);
    PackAllSnoc(pre, Slot(n, 8));
    WriteRunes(w, s, pre + [Slot(n, 8)]);
    assert pre + [Slot(n, 8)] + RuneSlots(s) == pre + PrivateSlots(s, true);
  }

  /** for _, data := range s: w.WriteByte(int(data)). */
  method WriteRunes(w: BsWriter, s: seq<Rune>, ghost pre: seq<Slot>)
    requires w.Clean() && w.offset == 8 && w.BitPos() + 8 * |s| <= 8 * w.buf.Length
    modifies w, w.buf
    ensures w.Clean() && w.offset == 8 && w.BitPos() == old(w.BitPos()) + 8 * |s|
    ensures old(w.Written()) == PackAll(pre) ==> w.Written() == PackAll(pre + RuneSlots(s))
  {
    ghost var b0 := w.BitPos();
    ghost var ok := w.Written() == PackAll(pre);
    assert pre + RuneSlots(s[..0]) == pre;
    var i := 0;
    while i < |s|
      invariant 0 <= i <= |s| && w.Clean() && w.offset == 8 && w.BitPos() == b0 + 8 * i
      invariant ok ==> w.Written() == PackAll(pre + RuneSlots(s[..i]))
    {
      w.WriteByte(s[i]);
      var j := i + 1;
      RunesStep(pre, s, i, j);
      i := j;
    }
    assert s[..i] == s;
  }

  lemma RunesStep(pre: seq<Slot>, s: seq<Rune>, i: nat, j: nat)
    requires i < |s| && j == i + 1
    ensures PackAll(pre + RuneSlots(s[..j])) == PackAll(pre + RuneSlots(s[..i])) + ToBits(s[i], 8)
  {
    assert s[..j][..i] == s[..i];
    assert pre + RuneSlots(s[..j]) == (pre + RuneSlots(s[..i])) + [Slot(s[i], 8)];
    PackAllSnoc(pre + RuneSlots(s[..i]), Slot(s[i], 8));
  }

  /** for i := 0; i < n; i++: w.WriteByte(0xff). */
  method WriteStuffing(w: BsWriter, n: int, ghost pre: seq<Slot>)
    requires w.Clean() && w.offset == 8 && 0 <= n && w.BitPos() + 8 * n <= 8 * w.buf.Length
    modifies w, w.buf
    ensures w.Clean() && w.offset == 8 && w.BitPos() == old(w.BitPos()) + 8 * n
    ensures old(w.Written()) == PackAll(pre) ==> w.Written() == PackAll(pre + StuffSlots(n))
  {
    ghost var b0 := w.BitPos();
    ghost var ok := w.Written() == PackAll(pre);
    assert pre + StuffSlots(0) == pre;
    var i := 0;
    while i < n
      invariant 0 <= i <= n && w.Clean() && w.offset == 8 && w.BitPos() == b0 + 8 * i
      invariant ok ==> w.Written() == PackAll(pre + StuffSlots(i))
    {
      w.WriteByte(0xff);
      StuffStep(pre, i);
      i := i + 1;
    }
  }

  lemma StuffStep(pre: seq<Slot>, i: nat)
    ensures PackAll(pre + StuffSlots(i + 1)) == PackAll(pre + StuffSlots(i)) + ToBits(0xff, 8)
  {
    assert pre + StuffSlots(i + 1) == (pre + StuffSlots(i)) + [Slot(0xff, 8)];
    PackAllSnoc(pre + StuffSlots(i), Slot(0xff, 8));
  }

  // ----- reading back what is written -----

  /**
   * A field the corrected serializer writes and the parser reads back unchanged:
   * the length byte is the size less one and below 256, the two indicators the
   * writer does not keep are zero, clocks fit 33 + 9 bits, the splice point and
   * every character of the private data fit a byte.
   */
  predicate Canonical(af: AdaptationField)
  {
    af.afLen == AfSize(af, false) - 1 < 256 && af.stuffSize >= 0
    && af.disCnt == 0 && af.esIdr == 0 && 0 <= af.randomAccess <= 1
    && (af.pcr == -1 || 0 <= af.pcr < 300 * Pow2(33))
    && (af.opcr == -1 || 0 <= af.opcr < 300 * Pow2(33))
    && -1 <= af.splicePoint < 0x100
    && forall i :: 0 <= i < |af.privateData| ==> af.privateData[i] < 0x100
  }

  /** A canonical field's private data fits its one-byte length. */
  lemma AfSizeBound(af: AdaptationField)
    requires Canonical(af)
    ensures |af.privateData| < 0x100
  {
  }

  /** The number of bits each optional group takes in the corrected layout. */
  function ClockBits(c: int): nat { if c != -1 then 48 else 0 }

  function SpliceBits(sp: int): nat { if sp != -1 then 8 else 0 }

  function PrivateBits(s: seq<Rune>): nat { if s != [] then 8 * (|s| + 1) else 0 }

  /** The bit position after the optional groups. */
  function OptionalEnd(af: AdaptationField): nat
  {
    16 + ClockBits(af.pcr) + ClockBits(af.opcr) + SpliceBits(af.splicePoint) + PrivateBits(af.privateData)
  }

  /** Parsing what the corrected serializer writes gives the field back. */
  lemma RoundTrip(af: AdaptationField)
    requires Canonical(af)
    ensures DecodeAf(PackAll(AfSlots(af, false))) == Ok(af)
  {
    var H, C1, C2, S, P, T := HeadSlots(af, AfSize(af, false)), ClockSlots(af.pcr), ClockSlots(af.opcr),
      SpliceSlots(af.splicePoint), PrivateSlots(af.privateData, false), StuffSlots(af.stuffSize);
    SixGroups(H, C1, C2, S, P, T);
    ReadStages(af, PackAll(H), PackAll(C1), PackAll(C2), PackAll(S), PackAll(P), PackAll(T));
  }

  /** The six groups, read back one after the other. */
  lemma ReadStages(af: AdaptationField, h: seq<bool>, c1: seq<bool>, c2: seq<bool>, sp: seq<bool>, pr: seq<bool>, st: seq<bool>)
    requires Canonical(af) && h == PackAll(HeadSlots(af, AfSize(af, false)))
    requires c1 == PackAll(ClockSlots(af.pcr)) && c2 == PackAll(ClockSlots(af.opcr))
    requires sp == PackAll(SpliceSlots(af.splicePoint)) && pr == PackAll(PrivateSlots(af.privateData, false))
    requires st == PackAll(StuffSlots(af.stuffSize))
    ensures DecodeAf(h + (c1 + (c2 + (sp + (pr + st))))) == Ok(af)
  {
    var r1 := c1 + (c2 + (sp + (pr + st)));
    var bits := h + r1;
    HeadBack(bits, af, AfSize(af, false), r1);
    assert bits[16..] == r1;
    AfSizeBound(af);
    OptionalStages(bits, af.pcr, af.opcr, af.splicePoint, af.privateData, af.stuffSize, OptionalEnd(af));
    DecodeBack(bits, af);
  }

  /** The four optional groups after the head, read back in turn; q4 is where they end. */
  lemma OptionalStages(bits: seq<bool>, pcr: int, opcr: int, splice: int, priv: seq<Rune>, stuff: int, q4: nat)
    requires (pcr == -1 || 0 <= pcr < 300 * Pow2(33)) && (opcr == -1 || 0 <= opcr < 300 * Pow2(33))
    requires -1 <= splice < 0x100 && |priv| < 0x100 && forall i :: 0 <= i < |priv| ==> priv[i] < 0x100
    requires 16 <= |bits| && bits[16..] == PackAll(ClockSlots(pcr)) + (PackAll(ClockSlots(opcr))
      + (PackAll(SpliceSlots(splice)) + (PackAll(PrivateSlots(priv, false)) + PackAll(StuffSlots(stuff)))))
    requires q4 == 16 + ClockBits(pcr) + ClockBits(opcr) + SpliceBits(splice) + PrivateBits(priv)
    ensures DecodeOptional(bits, 16, pcr != -1, opcr != -1, splice != -1, priv != []) == Ok(Optional(pcr, opcr, splice, priv, q4))
    ensures |bits| == q4 + (if stuff > 0 then 8 * stuff else 0)
  {
    var c2, sp, pr, st := PackAll(ClockSlots(opcr)), PackAll(SpliceSlots(splice)), PackAll(PrivateSlots(priv, false)), PackAll(StuffSlots(stuff));
    var q1 := 16 + ClockBits(pcr);
    ClockStage(bits, 16, pcr, c2 + (sp + (pr + st)), q1);
    var q2 := q1 + ClockBits(opcr);
    ClockStage(bits, q1, opcr, sp + (pr + st), q2);
    var q3 := q2 + SpliceBits(splice);
    SpliceStage(bits, q2, splice, pr + st, q3);
    PrivateStage(bits, q3, priv, st, q4);
    StuffLength(stuff);
    OptionalFrom(bits, pcr, opcr, splice, priv, 16, q1, q2, q3, q4);
  }

  /** The four reads of DecodeOptional, one after the other. */
  lemma OptionalFrom(bits: seq<bool>, pcr: int, opcr: int, splice: int, priv: seq<Rune>, q0: nat, q1: nat, q2: nat, q3: nat, q4: nat)
    requires OptClock(bits, q0, pcr != -1) == Ok(Step(pcr, q1))
    requires OptClock(bits, q1, opcr != -1) == Ok(Step(opcr, q2))
    requires OptSplice(bits, q2, splice != -1) == Ok(Step(splice, q3))
    requires OptPrivate(bits, q3, priv != []) == Ok(Step(priv, q4))
    ensures DecodeOptional(bits, q0, pcr != -1, opcr != -1, splice != -1, priv != []) == Ok(Optional(pcr, opcr, splice, priv, q4))
  {
  }

  /** Each optional group, found where the previous one ended, reads back and leaves the rest. */
  lemma ClockStage(bits: seq<bool>, p: nat, c: int, rest: seq<bool>, q: nat)
    requires c == -1 || 0 <= c < 300 * Pow2(33)
    requires p <= |bits| && bits[p..] == PackAll(ClockSlots(c)) + rest && q == p + ClockBits(c)
    ensures OptClock(bits, p, c != -1) == Ok(Step(c, q))
    ensures q <= |bits| && bits[q..] == rest
  {
    Peel(bits, p, PackAll(ClockSlots(c)), rest);
    ClockBack(bits, bits[..p], c, rest, p, q);
    DropAfter(bits, p, PackAll(ClockSlots(c)), rest, q);
  }

  lemma SpliceStage(bits: seq<bool>, p: nat, sp: int, rest: seq<bool>, q: nat)
    requires -1 <= sp < 0x100
    requires p <= |bits| && bits[p..] == PackAll(SpliceSlots(sp)) + rest && q == p + SpliceBits(sp)
    ensures OptSplice(bits, p, sp != -1) == Ok(Step(sp, q))
    ensures q <= |bits| && bits[q..] == rest
  {
    Peel(bits, p, PackAll(SpliceSlots(sp)), rest);
    SpliceBack(bits, bits[..p], sp, rest, p, q);
    DropAfter(bits, p, PackAll(SpliceSlots(sp)), rest, q);
  }

  lemma PrivateStage(bits: seq<bool>, p: nat, s: seq<Rune>, rest: seq<bool>, q: nat)
    requires |s| < 0x100 && forall i :: 0 <= i < |s| ==> s[i] < 0x100
    requires p <= |bits| && bits[p..] == PackAll(PrivateSlots(s, false)) + rest && q == p + PrivateBits(s)
    ensures OptPrivate(bits, p, s != []) == Ok(Step(s, q))
    ensures q <= |bits| && bits[q..] == rest
  {
    Peel(bits, p, PackAll(PrivateSlots(s, false)), rest);
    PrivateBack(bits, bits[..p], s, rest, p, q);
    DropAfter(bits, p, PackAll(PrivateSlots(s, false)), rest, q);
  }

  /** The parse, given what each of its steps reads. */
  lemma DecodeBack(bits: seq<bool>, af: AdaptationField)
    requires 16 <= |bits| && Field(bits, 0, 8) == af.afLen
    requires FlagsAt(bits) == AfFlags(0, af.randomAccess, 0, af.pcr != -1, af.opcr != -1, af.splicePoint != -1, af.privateData != [])
    requires DecodeOptional(bits, 16, af.pcr != -1, af.opcr != -1, af.splicePoint != -1, af.privateData != [])
      == Ok(Optional(af.pcr, af.opcr, af.splicePoint, af.privateData, OptionalEnd(af)))
    requires |bits| == OptionalEnd(af) + (if af.stuffSize > 0 then 8 * af.stuffSize else 0)
    ensures Canonical(af) ==> DecodeAf(bits) == Ok(af)
  {
  }

  /** The six groups written together are the six written one after the other. */
  lemma SixGroups(a: seq<Slot>, b: seq<Slot>, c: seq<Slot>, d: seq<Slot>, e: seq<Slot>, f: seq<Slot>)
    ensures PackAll(a + b + c + d + e + f) == PackAll(a) + (PackAll(b) + (PackAll(c) + (PackAll(d) + (PackAll(e) + PackAll(f)))))
  {
    assert a + b + c + d + e + f == a + (b + (c + (d + (e + f))));
    PackAllConcat(e, f);
    PackAllConcat(d, e + f);
    PackAllConcat(c, d + (e + f));
    PackAllConcat(b, c + (d + (e + f)));
    PackAllConcat(a, b + (c + (d + (e + f))));
  }

  /** One-bit slots, one per flag. */
  function BitSlots(bs: seq<bool>): seq<Slot>
  {
    seq(|bs|, i requires 0 <= i < |bs| => Slot(BoolBit(bs[i]), 1))
  }

  lemma {:induction false} BitSlotsBits(bs: seq<bool>, i: nat)
    requires i <= |bs|
    ensures PackTo(BitSlots(bs), i) == bs[..i]
  {
    if i > 0 {
      BitSlotsBits(bs, i - 1);
      assert ToBits(BoolBit(bs[i - 1]), 1) == [bs[i - 1]];
      assert bs[..i] == bs[..i - 1] + [bs[i - 1]];
    }
  }

  /** The eight flag bits of the second head byte, most significant first. */
  function HeadFlags(af: AdaptationField): (r: seq<bool>)
    ensures |r| == 8
  {
    [false, af.randomAccess == 1, false, af.pcr != -1, af.opcr != -1, af.splicePoint != -1, af.privateData != [], false]
  }

  lemma HeadAsBits(af: AdaptationField, size: int)
    requires 0 <= af.randomAccess <= 1
    ensures HeadSlots(af, size) == [Slot(size - 1, 8)] + BitSlots(HeadFlags(af))
  {
    var flags := HeadFlags(af);
    assert BoolBit(flags[1]) == af.randomAccess;
    assert forall i | 0 <= i < 8 :: HeadSlots(af, size)[i + 1] == BitSlots(flags)[i];
  }

  /** The two head bytes: the length byte, then the eight flag bits. */
  lemma HeadBits(af: AdaptationField, size: int, len: int)
    requires 0 <= af.randomAccess <= 1 && len == size - 1
    ensures PackAll(HeadSlots(af, size)) == ToBits(len, 8) + HeadFlags(af)
  {
    var flags := HeadFlags(af);
    HeadAsBits(af, size);
    PackAllConcat([Slot(size - 1, 8)], BitSlots(flags));
    BitSlotsBits(flags, 8);
    assert flags[..8] == flags;
    assert PackAll([Slot(size - 1, 8)]) == ToBits(size - 1, 8);
  }

  /** The head reads back: the length byte and the flags. */
  lemma HeadBack(bits: seq<bool>, af: AdaptationField, size: int, rest: seq<bool>)
    requires Canonical(af) && size == AfSize(af, false)
    requires bits == PackAll(HeadSlots(af, size)) + rest
    ensures |PackAll(HeadSlots(af, size))| == 16 && 16 <= |bits| && Field(bits, 0, 8) == af.afLen
    ensures FlagsAt(bits) == AfFlags(0, af.randomAccess, 0, af.pcr != -1, af.opcr != -1, af.splicePoint != -1, af.privateData != [])
  {
    var len := size - 1;
    HeadBits(af, size, len);
    var flags := HeadFlags(af);
    Pow2Widths();
    GroupSplit(ToBits(len, 8), flags, rest);
    FieldOfFront(len, 8, flags + rest);
    Peel(bits, 8, flags, rest);
    assert bits[8..16] == flags;
    FlagsBack(bits, af, flags);
  }

  /** The flag byte, found at bits 8 to 15, reads back as the field's flags. */
  lemma FlagsBack(bits: seq<bool>, af: AdaptationField, flags: seq<bool>)
    requires 0 <= af.randomAccess <= 1 && 16 <= |bits| && flags == HeadFlags(af) && bits[8..16] == flags
    ensures FlagsAt(bits) == AfFlags(0, af.randomAccess, 0, af.pcr != -1, af.opcr != -1, af.splicePoint != -1, af.privateData != [])
  {
    assert bits[8] == flags[0] && bits[9] == flags[1] && bits[10] == flags[2];
    FieldOfOne(bits, 8);
    FieldOfOne(bits, 9);
    FieldOfOne(bits, 10);
  }

  /** A clock reads back where it was written. */
  lemma ClockBack(bits: seq<bool>, pre: seq<bool>, c: int, rest: seq<bool>, p: nat, q: nat)
    requires c == -1 || 0 <= c < 300 * Pow2(33)
    requires bits == pre + PackAll(ClockSlots(c)) + rest && p == |pre| && q == p + ClockBits(c)
    ensures |PackAll(ClockSlots(c))| == ClockBits(c)
    ensures OptClock(bits, p, c != -1) == Ok(Step(c, q))
  {
    var g := ClockSlots(c);
    ClockLayout(c, 0);
    if c != -1 {
      ClockFits(c);
      assert Offset(g, 1) == 33 && Offset(g, 2) == 39;
      var lowAt := p + 39;
      FieldInGroup(bits, pre, g, 0, rest, p, 33);
      FieldInGroup(bits, pre, g, 2, rest, lowAt, 9);
      GoDivRem(c, 300);
      ClockFromFields(bits, p, lowAt, q, GoDiv(c, 300), GoRem(c, 300), c);
    }
  }

  /** The clock at p, from its two fields: the quotient at p and the remainder at p + 39. */
  lemma ClockFromFields(bits: seq<bool>, p: nat, lowAt: nat, q: nat, hi: int, lo: int, c: int)
    requires p + 48 <= |bits| && lowAt == p + 39 && q == p + 48
    requires Field(bits, p, 33) == hi && Field(bits, lowAt, 9) == lo && c == hi * 300 + lo
    ensures OptClock(bits, p, true) == Ok(Step(c, q))
  {
  }

  /** A clock in range splits into a 33-bit base and a 9-bit extension that fit. */
  lemma ClockFits(c: int)
    requires 0 <= c < 300 * Pow2(33)
    ensures AllFit(ClockSlots(c))
  {
    var q, r := GoDiv(c, 300), GoRem(c, 300);
    GoDivRem(c, 300);
    GoDivNonNegative(c, 300);
    assert q < Pow2(33);
    assert Pow2(6) == 64 && Pow2(9) == 512;
    FitsThree(Slot(q, 33), Slot(0x3f, 6), Slot(r, 9));
  }

  lemma SpliceBack(bits: seq<bool>, pre: seq<bool>, sp: int, rest: seq<bool>, p: nat, q: nat)
    requires -1 <= sp < 0x100
    requires bits == pre + PackAll(SpliceSlots(sp)) + rest && p == |pre| && q == p + SpliceBits(sp)
    ensures |PackAll(SpliceSlots(sp))| == SpliceBits(sp)
    ensures OptSplice(bits, p, sp != -1) == Ok(Step(sp, q))
  {
    if sp != -1 {
      Pow2Widths();
      FieldInGroup(bits, pre, SpliceSlots(sp), 0, rest, p, 8);
    }
  }

  lemma PrivateBack(bits: seq<bool>, pre: seq<bool>, s: seq<Rune>, rest: seq<bool>, p: nat, q: nat)
    requires |s| < 0x100 && forall i :: 0 <= i < |s| ==> s[i] < 0x100
    requires bits == pre + PackAll(PrivateSlots(s, false)) + rest && p == |pre| && q == p + PrivateBits(s)
    ensures |PackAll(PrivateSlots(s, false))| == PrivateBits(s)
    ensures OptPrivate(bits, p, s != []) == Ok(Step(s, q))
  {
    if s != [] {
      var n := |s|;
      var r := RuneSlots(s);
      var len := ToBits(n, 8);
      var body := PackAll(r);
      PackAllConcat([Slot(n, 8)], r);
      assert PackAll([Slot(n, 8)]) == len;
      Pow2Widths();
      var mid := pre + len;
      PrivateParts(bits, pre, len, body, rest, mid);
      FieldOfPart(pre, n, 8, body + rest);
      RunesBack(mid, s, rest);
      PrivateFrom(bits, p, n, s, q);
    }
  }

  /** The private group as the length byte, then the character bytes. */
  lemma PrivateParts(bits: seq<bool>, pre: seq<bool>, len: seq<bool>, body: seq<bool>, rest: seq<bool>, mid: seq<bool>)
    requires bits == pre + (len + body) + rest && mid == pre + len
    ensures bits == pre + len + (body + rest) && bits == mid + body + rest
  {
  }

  /** OptPrivate, given the length byte at p and the characters after it. */
  lemma PrivateFrom(bits: seq<bool>, p: nat, n: nat, s: seq<Rune>, q: nat)
    requires p + 8 <= |bits| && Field(bits, p, 8) == n && n == |s| > 0
    requires p + 8 + 8 * n <= |bits| && RunesAt(bits, p + 8, n) == s && q == p + 8 * (n + 1)
    ensures OptPrivate(bits, p, true) == Ok(Step(s, q))
  {
  }

  /** One byte per character reads back as the characters. */
  lemma {:induction false} RunesBack(pre: seq<bool>, s: seq<Rune>, rest: seq<bool>)
    requires forall i :: 0 <= i < |s| ==> s[i] < 0x100
    ensures |PackAll(RuneSlots(s))| == 8 * |s|
    ensures |pre| + 8 * |s| <= |pre + PackAll(RuneSlots(s)) + rest|
    ensures RunesAt(pre + PackAll(RuneSlots(s)) + rest, |pre|, |s|) == s
    decreases |s|
  {
    if s != [] {
      var n := |s| - 1;
      var t := s[..|s| - 1];
      var last := ToBits(s[n], 8);
      var head := pre + PackAll(RuneSlots(t));
      PackAllSnoc(RuneSlots(t), Slot(s[n], 8));
      RunesBack(pre, t, last + rest);
      var bits := pre + PackAll(RuneSlots(s)) + rest;
      assert bits == pre + PackAll(RuneSlots(t)) + (last + rest);
      assert bits == head + last + rest;
      Pow2Widths();
      FieldOfPart(head, s[n], 8, rest);
      RunesAtNext(bits, |pre|, |t|, |s|, |head|);
      assert s == t + [s[n]];
    }
  }

  /** RunesAt of m = n + 1 characters: the first n, then the byte at q = p + 8 * n. */
  lemma RunesAtNext(bits: seq<bool>, p: nat, n: nat, m: nat, q: nat)
    requires m == n + 1 && q == p + 8 * n && p + 8 * m <= |bits|
    ensures RunesAt(bits, p, m) == RunesAt(bits, p, n) + [Field(bits, q, 8)]
  {
  }

  lemma StuffLength(n: int)
    ensures |PackAll(StuffSlots(n))| == (if n > 0 then 8 * n else 0)
    decreases n
  {
    if n > 0 {
      StuffLength(n - 1);
      PackAllSnoc(StuffSlots(n - 1), Slot(0xff, 8));
    }
  }
  // ----- the private-data length as written -----

  /** The length byte a successful parse reports is the first byte of the input. */
  lemma DecodedLength(bits: seq<bool>, af: AdaptationField)
    ensures DecodeAf(bits) == Ok(af) ==> 8 <= |bits| && af.afLen == Field(bits, 0, 8)
  {
  }

  /** A field whose private data is the single character U+0080, which UTF-8 writes in two bytes. */
  const WideExample := AdaptationField(3, 0, 0, 0, -1, -1, -1, [0x80], 0)

  /**
   * Serialize as written counts the private data in UTF-8 bytes, so its length
   * byte says 4 for WideExample, where the three bytes written make 3: the
   * parser then reads back a different field, whatever follows.
   */
  lemma WideDataNotRead(rest: seq<bool>)
    ensures Canonical(WideExample) && Writable(WideExample)
    ensures DecodeAf(PackAll(AfSlots(WideExample, true)) + rest) != Ok(WideExample)
  {
    var ex := WideExample;
    assert ex.privateData[..0] == [];
    assert Utf8Len(ex.privateData) == 2;
    var g, len := AfSlots(ex, true), Slot(4, 8);
    var t := g[1..];
    assert g == [len] + t;
    PackAllConcat([len], t);
    PackAllSnoc([], len);
    Pow2Widths();
    var bits, front, tail := PackAll(g) + rest, ToBits(4, 8), PackAll(t) + rest;
    assert PackAll(g) == front + PackAll(t);
    assert bits == front + tail;
    FieldOfFront(4, 8, tail);
    assert Field(bits, 0, 8) == 4;
    DecodedLength(bits, ex);
  }

  /** For private data of ASCII characters alone, the written layout is the corrected one. */
  lemma AsciiSlots(af: AdaptationField)
    requires forall i :: 0 <= i < |af.privateData| ==> af.privateData[i] < 0x80
    ensures AfSize(af, true) == AfSize(af, false)
    ensures AfSlots(af, true) == AfSlots(af, false)
  {
  }

  /** So Serialize as written round-trips every canonical field whose private data is ASCII. */
  lemma RoundTripAscii(af: AdaptationField)
    requires Canonical(af)
    requires forall i :: 0 <= i < |af.privateData| ==> af.privateData[i] < 0x80
    ensures DecodeAf(PackAll(AfSlots(af, true))) == Ok(af)
  {
    AsciiSlots(af);
    RoundTrip(af);
  }
}
