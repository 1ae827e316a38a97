/**
 * The bit stream reader's and writer's unit-test vectors: a 33-bit PCR base
 * read across five bytes, three Exp-Golomb codes packed in two bytes, and a
 * TS-header-like sequence of writes into a nine-byte buffer.
 */
module StreamExamples {
  import opened Wrappers
  import opened Bits
  import opened BitReader
  import opened BitWriter

  const PcrBytes: seq<byte> := [0x0e, 0x26, 0xe0, 0x33, 0x7e, 0x11]
  const GolombBytes: seq<byte> := [0x10, 0xca]
  const GolombBits: seq<bool> := [false, false, false, true, false, false, false, false,
                                  true, true, false, false, true, false, true, false]

  lemma PcrValue()
    ensures BigEndian(PcrBytes) == 0x0e26_e033_7e11
  {
    var bs := PcrBytes;
    assert bs[..0] == [];
    BigEndianStep(bs, 0);
    BigEndianStep(bs, 1);
    BigEndianStep(bs, 2);
    BigEndianStep(bs, 3);
    BigEndianStep(bs, 4);
    BigEndianStep(bs, 5);
    assert bs[..6] == bs;
  }

  lemma PcrFields()
    ensures Field(BitsOf(PcrBytes), 0, 33) == 474857574
    ensures Field(BitsOf(PcrBytes), 33, 6) == 63
    ensures Field(BitsOf(PcrBytes), 39, 9) == 17
  {
    PcrValue();
    PowersOfTwo();
    FieldOfValue(PcrBytes, 0, 33, 0x0e26_e033_7e11, 0x8000, 0x2_0000_0000);
    FieldOfValue(PcrBytes, 33, 6, 0x0e26_e033_7e11, 512, 64);
    FieldOfValue(PcrBytes, 39, 9, 0x0e26_e033_7e11, 1, 512);
  }

  lemma PowersOfTwo()
    ensures Pow2(0) == 1 && Pow2(6) == 64 && Pow2(9) == 512 && Pow2(15) == 0x8000 && Pow2(33) == 0x2_0000_0000
  {
    assert Pow2(6) == 64;
    assert Pow2(9) == 512;
    assert Pow2(15) == 0x8000 by { Pow2Add(8, 7); assert Pow2(7) == 128; Pow2Widths(); }
    assert Pow2(33) == 0x2_0000_0000 by { Pow2Add(32, 1); Pow2Widths(); }
  }

  /**
   * The PCR test: 33 bits give the base 474857574 and leave the cursor at byte 4
   * with 7 bits of it unread and two bytes remaining; then 6 bits give 63 and 9 bits 17.
   */
  method ReadPcrExample() returns (base: int, pos: int, offset: int, remained: int, ones: int, ext: int)
    ensures base == 474857574 && pos == 4 && offset == 7 && remained == 2
    ensures ones == 63 && ext == 17
  {
    PcrFields();
    var r := new BsReader(PcrBytes);
    base := r.ReadBits(33);
    pos, offset := r.pos, r.offset;
    remained := |r.GetRemainedBuffer()|;
    ones := r.ReadBits(6);
    ext := r.ReadBits(9);
  }

  lemma GolombBitsAre()
    ensures BitsOf(GolombBytes) == GolombBits
  {
    var bits := BitsOf(GolombBytes);
    GolombHighBits();
    GolombLowBits();
    assert bits == bits[..8] + bits[8..];
  }

  /** Bit i of 0x10ca, read as a one-bit field. */
  lemma GolombBit(i: nat, d: nat)
    requires i < 16 && Pow2(15 - i) == d
    ensures BitsOf(GolombBytes)[i] == ((0x10ca / d) % 2 == 1)
  {
    var bits := BitsOf(GolombBytes);
    BigEndianStep(GolombBytes, 0);
    BigEndianStep(GolombBytes, 1);
    assert GolombBytes[..2] == GolombBytes && GolombBytes[..0] == [];
    assert Pow2(1) == 2;
    FieldOfValue(GolombBytes, i, 1, 0x10ca, d, 2);
    assert Field(bits, i, 1) == BoolBit(bits[i]);
  }

  lemma GolombHighBits()
    ensures BitsOf(GolombBytes)[..8] == GolombBits[..8]
  {
    SmallPowers();
    GolombBit(0, 32768);
    GolombBit(1, 16384);
    GolombBit(2, 8192);
    GolombBit(3, 4096);
    GolombBit(4, 2048);
    GolombBit(5, 1024);
    GolombBit(6, 512);
    GolombBit(7, 256);
  }

  lemma GolombLowBits()
    ensures BitsOf(GolombBytes)[8..] == GolombBits[8..]
  {
    SmallPowers();
    GolombBit(8, 128);
    GolombBit(9, 64);
    GolombBit(10, 32);
    GolombBit(11, 16);
    GolombBit(12, 8);
    GolombBit(13, 4);
    GolombBit(14, 2);
    GolombBit(15, 1);
  }

  /** 0001 000: three zeros, the one, then 000 give 2^3 - 1 = 7. */
  lemma FirstCode()
    ensures ExpGolombAt(GolombBits, 0) == Ok((7, 7))
  {
    var g := GolombBits;
    assert LeadingZeros(g, 3) == 0;
    assert LeadingZeros(g, 0) == 3 by { assert LeadingZeros(g, 2) == 1; assert LeadingZeros(g, 1) == 2; }
    assert Field(g, 4, 3) == 0 by { assert Field(g, 4, 1) == 0; assert Field(g, 4, 2) == 0; }
    assert Pow2(3) == 8;
  }

  /** 0 1 1: one zero, the one, then 1 give 2 + 1 - 1 = 2. */
  lemma SecondCode()
    ensures ExpGolombAt(GolombBits, 7) == Ok((2, 10))
  {
    var g := GolombBits;
    assert LeadingZeros(g, 8) == 0;
    assert LeadingZeros(g, 7) == 1;
    assert Field(g, 9, 1) == 1;
    assert Pow2(1) == 2;
  }

  /** 00 1 01: two zeros, the one, then 01 give 4 + 1 - 1 = 4. */
  lemma ThirdCode()
    ensures ExpGolombAt(GolombBits, 10) == Ok((4, 15))
  {
    var g := GolombBits;
    assert LeadingZeros(g, 12) == 0;
    assert LeadingZeros(g, 10) == 2 by { assert LeadingZeros(g, 11) == 1; }
    assert Field(g, 13, 2) == 1 by { assert Field(g, 13, 1) == 0; }
    assert Pow2(2) == 4;
  }

  /** The Exp-Golomb test: the codes in 00010000 11001010 are 7, 2 and 4. */
  method ReadExpGolombExample() returns (a: Result<int, ReadError>, b: Result<int, ReadError>, c: Result<int, ReadError>)
    ensures a == Ok(7) && b == Ok(2) && c == Ok(4)
  {
    GolombBitsAre();
    FirstCode();
    SecondCode();
    ThirdCode();
    var r := new BsReader(GolombBytes);
    a := r.ReadExpGolomb();
    b := r.ReadExpGolomb();
    c := r.ReadExpGolomb();
  }

  const WriterBytes: seq<byte> := [0x47, 0x00, 0x21, 0x01, 0xf4, 0x00, 0x01, 0x86, 0xa0]

  /** Two bit strings side by side are the bits of the first value shifted past the second. */
  lemma ToBitsJoin(a: int, m: nat, b: int, n: nat, v: int)
    requires 0 <= b < Pow2(n) && v == a * Pow2(n) + b
    ensures ToBits(a, m) + ToBits(b, n) == ToBits(v, m + n)
  {
    ToBitsSplit(v, m, n);
    DivModUnique(v, Pow2(n), a, b);
  }

  lemma WriterValue()
    ensures BigEndian(WriterBytes) == 0x47_0021_01f4_0001_86a0
  {
    var bs := WriterBytes;
    assert bs[..0] == [];
    BigEndianStep(bs, 0);
    BigEndianStep(bs, 1);
    BigEndianStep(bs, 2);
    BigEndianStep(bs, 3);
    BigEndianStep(bs, 4);
    BigEndianStep(bs, 5);
    BigEndianStep(bs, 6);
    BigEndianStep(bs, 7);
    BigEndianStep(bs, 8);
    assert bs[..9] == bs;
  }

  /** The fields the writer test writes, joined, are the bits of the nine expected bytes. */
  lemma WriterBits()
    ensures BitsOf(WriterBytes) == ToBits(0x47, 8) + ToBits(0, 1) + ToBits(0, 1) + ToBits(0, 1)
                                   + ToBits(33, 13) + ToBits(500, 16) + ToBits(100000, 32)
  {
    SmallPowers();
    Pow2Widths();
    Pow2Add(8, 5);
    ToBitsJoin(0x47, 8, 0, 1, 0x8e);
    ToBitsJoin(0x8e, 9, 0, 1, 0x11c);
    ToBitsJoin(0x11c, 10, 0, 1, 0x238);
    ToBitsJoin(0x238, 11, 33, 13, 0x47_0021);
    ToBitsJoin(0x47_0021, 24, 500, 16, 0x47_0021_01f4);
    ToBitsJoin(0x47_0021_01f4, 40, 100000, 32, 0x47_0021_01f4_0001_86a0);
    WriterValue();
    BitsOfBigEndian(WriterBytes);
  }

  /**
   * The writer test: into nine zero bytes go the byte 0x47, three single zero bits,
   * 33 in 13 bits, the short 500 and the int 100000, giving 47 00 21 01 f4 00 01 86 a0.
   */
  method WriteExample() returns (written: seq<byte>)
    ensures written == WriterBytes
  {
    assert Pow2(1) == 2 && Pow2(13) == 8192 by { SmallPowers(); }
    var w := new BsWriter(9);
    assert w.Written() == [];
    w.WriteByte(0x47);
    ghost var s1 := w.Written();
    assert s1 == ToBits(0x47, 8);
    w.Write(0, 1);
    w.Write(0, 1);
    w.Write(0, 1);
    ghost var s2 := w.Written();
    assert s2 == s1 + ToBits(0, 1) + ToBits(0, 1) + ToBits(0, 1);
    w.Write(33, 13);
    ghost var s3 := w.Written();
    assert s3 == s2 + ToBits(33, 13);
    w.WriteShort(500);
    w.WriteInt(100000);
    written := w.buf[..];
    ghost var s4 := w.Written();
    assert s4 == s3 + ToBits(500, 16) + ToBits(100000, 32);
    WrittenBytes(written, s4);
  }

  /** A nine-byte buffer all of whose bits are the writer test's fields is the expected buffer. */
  lemma WrittenBytes(buf: seq<byte>, written: seq<bool>)
    requires |buf| == 9 && written == BitsOf(buf)[..72]
    requires written == ToBits(0x47, 8) + ToBits(0, 1) + ToBits(0, 1) + ToBits(0, 1)
                        + ToBits(33, 13) + ToBits(500, 16) + ToBits(100000, 32)
    ensures buf == WriterBytes
  {
    WriterBits();
    assert BitsOf(buf)[..72] == BitsOf(buf);
    BitsOfInjective(buf, WriterBytes);
  }
}
