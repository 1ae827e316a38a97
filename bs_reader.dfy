/**
 * The bit stream reader (BsReader): a cursor over a byte buffer made of a byte
 * index `pos` and `offset`, the number of bits of rawBs[pos] not yet read.
 */
module BitReader {
  import opened Wrappers
  import opened Bits
  import opened Text

  /** getMask: 0 gives -1 (the empty case leaves the initial value), 8 gives 0xff, others (1 << n) - 1. */
  function GetMask(n: nat): (m: int)
    ensures n == 0 ==> m == -1
    ensures 1 <= n <= 8 ==> m + 1 == Pow2(n)
  {
    if n == 0 then -1
    else if n == 8 then 0xff
    else Pow2(n) - 1
  }

  /** The reader running out of bits, where the Go code indexes past the slice and panics. */
  datatype ReadError = Truncated

  /** A value read and the bit position after it. */
  datatype Step<T> = Step(value: T, next: nat)

  /** A reader's result r and its position pos agree with the step s the bits give, error for error. */
  predicate ReadAs<T(==), E(==)>(r: Result<T, E>, pos: int, s: Result<Step<T>, E>)
  {
    (r.Ok? <==> s.Ok?) && (r.Ok? ==> r.value == s.value.value && pos == s.value.next)
    && (r.Err? ==> r.error == s.error)
  }

  /**
   * The Exp-Golomb code starting at bit p: the number z of zero bits before the
   * first one bit, then 2^z + (the next z bits) - 1, and the position after it.
   */
  function LeadingZeros(bits: seq<bool>, p: nat): (z: nat)
    requires p <= |bits|
    ensures p + z <= |bits|
    ensures forall i :: p <= i < p + z ==> !bits[i]
    ensures p + z < |bits| ==> bits[p + z]
    decreases |bits| - p
  {
    if p == |bits| || bits[p] then 0 else 1 + LeadingZeros(bits, p + 1)
  }

  function ExpGolombAt(bits: seq<bool>, p: nat): (r: Result<(int, nat), ReadError>)
    requires p <= |bits|
    ensures r.Ok? ==> p < r.value.1 <= |bits|
    ensures r.Ok? ==> 0 <= r.value.0
  {
    var z := LeadingZeros(bits, p);
    if p + 2 * z + 1 > |bits| then Err(Truncated)
    else Ok((Pow2(z) + Field(bits, p + z + 1, z) - 1, p + 2 * z + 1))
  }

  /** The little-endian value of the n bytes that start at bit p (need not be byte aligned). */
  function LittleEndianAt(bits: seq<bool>, p: nat, n: nat): nat
    requires p + 8 * n <= |bits|
    decreases n
  {
    if n == 0 then 0 else Field(bits, p, 8) + 256 * LittleEndianAt(bits, p + 8, n - 1)
  }

  /**
   * bits are the bits of bs, stated through three predicates that call one
   * another, so that a proof that only needs a reader's validity unfolds them
   * a level or two and never reaches BitsOf; k, which the reader keeps in a
   * ghost field rather than as a constant, is how many rounds of the three
   * lie above it.
   */
  ghost predicate BufferBits(bits: seq<bool>, bs: seq<byte>, k: nat)
    decreases k, 2
  {
    BufferBitsMid(bits, bs, k)
  }

  ghost predicate BufferBitsMid(bits: seq<bool>, bs: seq<byte>, k: nat)
    decreases k, 1
  {
    BufferBitsBase(bits, bs, k)
  }

  ghost predicate BufferBitsBase(bits: seq<bool>, bs: seq<byte>, k: nat)
    decreases k, 0
  {
    if k == 0 then bits == BitsOf(bs) else BufferBits(bits, bs, k - 1)
  }

  lemma BufferBitsAre(bits: seq<bool>, bs: seq<byte>, k: nat)
    requires BufferBits(bits, bs, k)
    ensures bits == BitsOf(bs)
    decreases k
  {
    assert BufferBitsMid(bits, bs, k);
    assert BufferBitsBase(bits, bs, k);
    if k > 0 {
      BufferBitsAre(bits, bs, k - 1);
    }
  }

  class BsReader {
    const rawBs: seq<byte>
    /** The bits of rawBs. */
    ghost const view: seq<bool>
    ghost const depth: nat
    var pos: int
    var offset: int

    ghost predicate Valid()
      reads this
    {
      0 <= pos <= |rawBs| && 1 <= offset <= 8 && (pos == |rawBs| ==> offset == 8)
      && |view| == 8 * |rawBs| && BufferBits(view, rawBs, depth)
    }

    /** The bits of the whole buffer. */
    ghost function Bits(): seq<bool>
    {
      view
    }

    lemma BitsAreBuffer()
      requires Valid()
      ensures Bits() == BitsOf(rawBs)
    {
      BufferBitsAre(view, rawBs, depth);
    }

    /** The absolute bit position: bits consumed so far. */
    function BitPos(): int
      reads this
    {
      8 * pos + 8 - offset
    }

    function Remaining(): int
      reads this
    {
      8 * |rawBs| - BitPos()
    }

    /** GetBufferReader */
    constructor (rawBs: seq<byte>)
      ensures Valid()
      ensures this.rawBs == rawBs && pos == 0 && offset == 8 && BitPos() == 0
      ensures Bits() == BitsOf(rawBs)
    {
      this.rawBs := rawBs;
      view := BitsOf(rawBs);
      depth := 0;
      pos := 0;
      offset := 8;
      new;
      assert BufferBitsBase(view, rawBs, 0);
    }

    /** The bytes from the current byte on. */
    function GetRemainedBuffer(): (r: seq<byte>)
      reads this
      requires Valid()
      ensures |r| == |rawBs| - pos
    {
      rawBs[pos..]
    }

    lemma RemainedBits()
      requires Valid() && offset == 8
      ensures BitsOf(GetRemainedBuffer()) == Bits()[BitPos()..]
    {
      BitsAreBuffer();
      BitsOfSuffix(rawBs, pos);
    }

    /**
     * Whole bytes are taken from the low `offset` bits of the current byte on; a read
     * that stays inside the current byte masks and shifts out its bits.
     */
    method ReadBits(n: int) returns (rv: int)
      requires Valid()
      requires n <= Remaining()
      modifies this
      ensures Valid()
      ensures n <= 0 ==> rv == 0 && pos == old(pos) && offset == old(offset)
      ensures n > 0 ==> BitPos() == old(BitPos()) + n
      ensures n > 0 ==> rv == Field(Bits(), old(BitPos()), n)
      decreases n
    {
      BitsAreBuffer();
      ghost var p := BitPos();
      rv := 0;
      var m := n;
      if m >= offset {
        ghost var p0, o0 := pos, offset;
        var mask := GetMask(offset);
        rv := And(rawBs[pos], mask);
        pos := pos + 1;
        m := m - offset;
        offset := 8;
        if m > 0 {
          ghost var p1 := BitPos();
          var rest := ReadBits(m);
          ReadAcross(rawBs, Bits(), p0, o0, n, m, p, p1, rv, rest);
          rv := Shl(rv, m) + rest;
        } else {
          ReadLowBits(rawBs, Bits(), p0, o0, p);
        }
      } else if m > 0 {
        var j := offset - m;
        var mask := GetMask(offset) - GetMask(j);
        ReadMiddleBits(rawBs, Bits(), pos, offset, m, j, mask, p);
        rv := Shr(And(rawBs[pos], mask), j);
        offset := j;
      }
    }

    /** ReadBits, then the cursor moves back to where it was. */
    method PeekBits(n: int) returns (rv: int)
      requires Valid()
      requires 0 <= n <= Remaining()
      modifies this
      ensures Valid() && pos == old(pos) && offset == old(offset)
      ensures n > 0 ==> rv == Field(Bits(), BitPos(), n)
      ensures n == 0 ==> rv == 0
    {
      ghost var p := BitPos();
      rv := ReadBits(n);
      offset := offset + n;
      while offset > 8
        invariant 8 * pos + 8 - offset == p
        invariant offset >= 1
        decreases offset
      {
        offset := offset - 8;
        pos := pos - 1;
      }
      assert 8 * (pos - old(pos)) == offset - old(offset);
    }

    /** The little-endian value of the next n bytes. */
    method ReadLIBytes(n: int) returns (s: int)
      requires Valid()
      requires 8 * n <= Remaining()
      modifies this
      ensures Valid()
      ensures n > 0 ==> BitPos() == old(BitPos()) + 8 * n
      ensures n <= 0 ==> pos == old(pos) && offset == old(offset)
      ensures s == if n <= 0 then 0 else LittleEndianAt(Bits(), old(BitPos()), n)
    {
      s := 0;
      var i := 0;
      ghost var p := BitPos();
      while i < n
        invariant Valid()
        invariant 0 <= i && (n > 0 ==> i <= n) && (n <= 0 ==> i == 0)
        invariant BitPos() == p + 8 * i
        invariant i == 0 ==> pos == old(pos) && offset == old(offset)
        invariant s == LittleEndianAt(Bits(), p, i)
      {
        ghost var q := BitPos();
        var b := ReadBits(8);
        var k, j := i * 8, i + 1;
        LittleEndianStep(Bits(), p, i, j, q, k);
        s := s + Shl(b, k);
        i := j;
      }
    }

    /** Counts zero bits up to the first one bit, then reads that many bits. */
    method ReadExpGolomb() returns (r: Result<int, ReadError>)
      requires Valid()
      modifies this
      ensures Valid()
      ensures ExpGolombAt(Bits(), old(BitPos())).Ok? <==> r.Ok?
      ensures r.Ok? ==> r.value == ExpGolombAt(Bits(), old(BitPos())).value.0
      ensures r.Ok? ==> BitPos() == ExpGolombAt(Bits(), old(BitPos())).value.1
    {
      ghost var p, bits := BitPos(), Bits();
      var leadingZeroBits, found := ReadZeroRun();
      if !found || Remaining() < leadingZeroBits {
        return Err(Truncated);
      }
      ghost var q := BitPos();
      var rest := ReadBits(leadingZeroBits);
      ExpGolombRead(bits, p, leadingZeroBits, q, rest);
      r := Ok(Pow2(leadingZeroBits) + rest - 1);
    }

    /** The loop of ReadExpGolomb that reads one bit at a time until it reads a one bit or runs out of bits. */
    method ReadZeroRun() returns (leadingZeroBits: nat, found: bool)
      requires Valid()
      modifies this
      ensures Valid() && leadingZeroBits == LeadingZeros(Bits(), old(BitPos()))
      ensures found <==> old(BitPos()) + leadingZeroBits < |Bits()|
      ensures found ==> BitPos() == old(BitPos()) + leadingZeroBits + 1
    {
      ghost var p, bits := BitPos(), Bits();
      leadingZeroBits := 0;
      var one := 1;
      while true
        invariant Valid()
        invariant BitPos() == p + leadingZeroBits
        invariant forall i :: p <= i < p + leadingZeroBits ==> !bits[i]
        decreases Remaining()
      {
        if Remaining() < one {
          LeadingZerosExact(bits, p, leadingZeroBits);
          return leadingZeroBits, false;
        }
        ghost var q := BitPos();
        var b := ReadBits(one);
        FieldOfOneBit(bits, q, one);
        if b != 0 {
          break;
        }
        leadingZeroBits := leadingZeroBits + 1;
      }
      LeadingZerosExact(bits, p, leadingZeroBits);
      found := true;
    }
  }

  /** The byte held by the eight bits from bit q. */
  function ByteAt(bits: seq<bool>, q: nat): (v: nat)
    requires q + 8 <= |bits|
    ensures v == Field(bits, q, 8) && v < 256
  {
    FieldBound(bits, q, 8);
    Pow2Widths();
    Field(bits, q, 8)
  }

  /** The "%02x" texts of n bytes from bit p. */
  function HexBytes(bits: seq<bool>, p: nat, n: nat): (r: seq<string>)
    requires p + 8 * n <= |bits|
    ensures |r| == n
  {
    if n == 0 then [] else HexBytes(bits, p, n - 1) + [Hex2(ByteAt(bits, p + 8 * (n - 1)))]
  }

  /** One more byte of text, for the byte at bit q. */
  lemma HexBytesStep(bits: seq<bool>, p: nat, n: nat, q: nat)
    requires q == p + 8 * n && q + 8 <= |bits|
    ensures HexBytes(bits, p, n + 1) == HexBytes(bits, p, n) + [Hex2(ByteAt(bits, q))]
  {
  }

  /** ReadHex: n bytes, each as two hex digits, separated by spaces. */
  method ReadHex(rd: BsReader, n: int) returns (s: string)
    requires rd.Valid() && 8 * n <= rd.Remaining()
    modifies rd
    ensures rd.Valid() && rd.BitPos() == old(rd.BitPos()) + 8 * (if n < 0 then 0 else n)
    ensures s == Join(HexBytes(rd.Bits(), old(rd.BitPos()), if n < 0 then 0 else n), " ")
  {
    ghost var p := rd.BitPos();
    var hexArr: seq<string> := [];
    var i := 0;
    while i < n
      invariant rd.Valid() && 0 <= i && (n >= 0 ==> i <= n) && (n < 0 ==> i == 0)
      invariant rd.BitPos() == p + 8 * i
      invariant hexArr == HexBytes(rd.Bits(), p, i)
      decreases n - i
    {
      ghost var q := rd.BitPos();
      var b := rd.ReadBits(8);
      assert b == ByteAt(rd.Bits(), q);
      HexBytesStep(rd.Bits(), p, i, q);
      hexArr := hexArr + [Hex2(b)];
      i := i + 1;
    }
    s := Join(hexArr, " ");
  }

  /** A one-bit flag. */
  method ReadFlag(rd: BsReader) returns (b: bool)
    requires rd.Valid() && 1 <= rd.Remaining()
    modifies rd
    ensures rd.Valid() && rd.BitPos() == old(rd.BitPos()) + 1
    ensures b == rd.Bits()[old(rd.BitPos())]
  {
    ghost var p := rd.BitPos();
    var one := 1;
    var v := rd.ReadBits(one);
    FieldOfOne(rd.Bits(), p);
    b := v != 0;
  }

  lemma ExpGolombRead(bits: seq<bool>, p: nat, z: nat, q: nat, rest: int)
    requires p + 2 * z + 1 <= |bits| && LeadingZeros(bits, p) == z && q == p + z + 1
    requires z > 0 ==> rest == Field(bits, q, z)
    requires z <= 0 ==> rest == 0
    ensures ExpGolombAt(bits, p).Ok?
    ensures ExpGolombAt(bits, p).value.0 == Pow2(z) + rest - 1
    ensures ExpGolombAt(bits, p).value.1 == p + 2 * z + 1
  {
    if z == 0 {
      FieldOfNone(bits, p + 1);
    }
  }

  /** A read past the current byte: its low bits shifted up past the rest, which the next bytes hold. */
  lemma ReadAcross(bs: seq<byte>, bits: seq<bool>, pos: nat, offset: nat, n: nat, m: nat, p: nat, p1: nat, v: int, rest: int)
    requires bits == BitsOf(bs) && pos < |bs| && 1 <= offset <= 8 && m == n - offset > 0
    requires p == 8 * pos + 8 - offset && p1 == p + offset && p + n <= |bits|
    requires v == And(bs[pos], GetMask(offset)) && rest == Field(bits, p1, m)
    ensures Shl(v, m) + rest == Field(bits, p, n)
  {
    ReadLowBits(bs, bits, pos, offset, p);
    FieldShl(bits, p, offset, m, n, p1);
  }

  /** The low k bits of byte i are the last k bits of that byte in the buffer's bit string. */
  lemma ReadLowBits(bs: seq<byte>, bits: seq<bool>, i: nat, k: nat, q: nat)
    requires bits == BitsOf(bs) && i < |bs| && 1 <= k <= 8 && q == 8 * i + 8 - k
    ensures q + k <= |bits|
    ensures GetMask(k) >= 0
    ensures And(bs[i], GetMask(k)) == Field(bits, q, k)
  {
    FieldInByte(bs, i, 8 - k, k);
    FieldLowBits(bs[i], 8, k);
    AndLowMask(bs[i], k);
  }

  /** The m bits of byte i that follow its first 8 - o bits, taken out by mask and shift. */
  lemma ReadMiddleBits(bs: seq<byte>, bits: seq<bool>, i: nat, o: nat, m: nat, j: nat, mask: int, q: nat)
    requires bits == BitsOf(bs) && i < |bs| && 0 < m < o <= 8 && j == o - m && q == 8 * i + 8 - o
    requires mask == GetMask(o) - GetMask(j)
    ensures q + m <= |bits|
    ensures mask >= 0
    ensures Shr(And(bs[i], mask), j) == Field(bits, q, m)
  {
    var b, s := bs[i], 8 - o;
    MidMaskOfGetMask(o, j, m, mask);
    AndMidMask(b, j, m);
    var y := Shr(b, j);
    AndLowMask(y, m);
    ShrDiv(b, j);
    FieldInByte(bs, i, s, m);
    FieldOfToBits(b, 8, s, m);
    MiddleField(Field(ToBits(b, 8), s, m), b, s, m, j);
  }

  lemma MiddleField(f: int, b: int, s: nat, m: nat, j: nat)
    requires 8 - s - m == j && f == (b / Pow2(8 - s - m)) % Pow2(m)
    ensures f == (b / Pow2(j)) % Pow2(m)
  {
  }

  /** The mask GetMask(o) - GetMask(j) keeps bits j to o - 1 of a byte. */
  lemma MidMaskOfGetMask(o: nat, j: nat, m: nat, mask: int)
    requires 0 < j < o <= 8 && o == j + m && mask == GetMask(o) - GetMask(j)
    ensures mask == Pow2(j + m) - Pow2(j) && mask >= 0
  {
    Pow2Monotone(j, o);
  }

  /** A field of a + b bits is the first a bits shifted left by b plus the next b bits. */
  lemma FieldShl(bits: seq<bool>, p: nat, a: nat, b: nat, n: nat, q: nat)
    requires n == a + b && q == p + a && p + n <= |bits|
    ensures Field(bits, p, n) == Shl(Field(bits, p, a), b) + Field(bits, q, b)
  {
    var hi := Field(bits, p, a);
    FieldSplitAt(bits, p, a, b, n, q);
    ShlMul(hi, b);
  }

  lemma FieldSplitAt(bits: seq<bool>, p: nat, a: nat, b: nat, n: nat, q: nat)
    requires n == a + b && q == p + a && p + n <= |bits|
    ensures Field(bits, p, n) == Field(bits, p, a) * Pow2(b) + Field(bits, q, b)
  {
    FieldSplit(bits, p, a, b);
    Rename(Field(bits, p, n), Field(bits, p, a), Field(bits, q, b), Field(bits, p, a + b), Field(bits, p, a), Field(bits, p + a, b), Pow2(b));
  }

  /** Appending one more byte (at q, the j = i + 1st) to a little-endian value adds it shifted past the k = 8 * i bits before it. */
  lemma {:induction false} LittleEndianStep(bits: seq<bool>, p: nat, i: nat, j: nat, q: nat, k: nat)
    requires j == i + 1 && q == p + 8 * i && k == 8 * i && p + 8 * j <= |bits|
    ensures LittleEndianAt(bits, p, j) == LittleEndianAt(bits, p, i) + Shl(Field(bits, q, 8), k)
    decreases i
  {
    if i > 0 {
      var p8, i1, k1 := p + 8, i - 1, k - 8;
      LittleEndianStep(bits, p8, i1, i, q, k1);
      var x := Field(bits, q, 8);
      var y := Shl(x, k1);
      ShlSum(x, k1, k, y);
      LittleEndianUnfold(bits, p, j, p8, i);
      LittleEndianUnfold(bits, p, i, p8, i1);
    }
  }

  lemma LittleEndianUnfold(bits: seq<bool>, p: nat, n: nat, p8: nat, n1: nat)
    requires n == n1 + 1 && p8 == p + 8 && p + 8 * n <= |bits|
    ensures LittleEndianAt(bits, p, n) == Field(bits, p, 8) + 256 * LittleEndianAt(bits, p8, n1)
  {
  }

  lemma ShlSum(x: int, k1: nat, k: nat, y: int)
    requires k == k1 + 8 && y == Shl(x, k1)
    ensures Shl(x, k) == 256 * y
  {
    ShlAdd(x, k1, 8);
    Shl8(y);
  }

  /** A run of k zero bits ended by a one bit or by the end of the bits is the leading-zero count. */
  lemma {:induction false} LeadingZerosExact(bits: seq<bool>, p: nat, k: nat)
    requires p + k <= |bits|
    requires forall i :: p <= i < p + k ==> !bits[i]
    requires p + k == |bits| || bits[p + k]
    ensures LeadingZeros(bits, p) == k
    decreases k
  {
    if k > 0 {
      LeadingZerosExact(bits, p + 1, k - 1);
    }
  }
}
