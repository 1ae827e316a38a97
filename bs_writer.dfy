/**
 * The bit stream writer (BsWriter): a byte buffer and a cursor made of a byte
 * index `pos` and `offset`, the number of bits of buf[pos] still free. Bits are
 * added most significant first and the buffer fills from the front.
 */
module BitWriter {
  import opened Bits

  /** Nothing is written at or after the cursor: the free low bits of buf[pos] and every later byte are zero. */
  ghost predicate Blank(bs: seq<byte>, pos: int, offset: int)
    requires 0 <= pos <= |bs| && 1 <= offset <= 8
  {
    (pos < |bs| ==> bs[pos] % Pow2(offset) == 0) &&
    forall i :: pos < i < |bs| ==> bs[i] == 0
  }

  /** The byte written into buf[pos] when x's n bits go into its `offset` free bits: buf[pos] += byte(x << (offset - n)). */
  function AddShifted(b: byte, x: int, offset: nat, n: nat): byte
    requires n <= offset
  {
    (b + Shl(x, offset - n) % 256) % 256
  }

  /**
   * writeBits on the cursor (pos, offset) of bs, as a value: the new buffer and cursor.
   * Bits that fit the current byte are added into it; otherwise x >> (n - offset)
   * fills the current byte and x & (1 << (n - offset + 1) - 1) goes on in the next.
   */
  function WriteBitsTo(bs: seq<byte>, pos: int, offset: int, x: int, n: int): (r: (seq<byte>, int, int))
    requires 0 <= pos < |bs| && 1 <= offset <= 8
    requires 0 <= n <= 8 * |bs| - (8 * pos + 8 - offset)
    ensures |r.0| == |bs|
    ensures 0 <= r.1 <= |bs| && 1 <= r.2 <= 8 && (r.1 == |bs| ==> r.2 == 8)
    ensures 8 * r.1 + 8 - r.2 == 8 * pos + 8 - offset + n
    decreases n
  {
    if n <= offset then
      var b := AddShifted(bs[pos], x, offset, n);
      if offset - n == 0 then (bs[pos := b], pos + 1, 8) else (bs[pos := b], pos, offset - n)
    else
      var consumedLen := n - offset;
      var mask := Shl(1, consumedLen + 1) - 1;
      var r := WriteBitsTo(bs, pos, offset, Shr(x, consumedLen), offset);
      WriteBitsTo(r.0, r.1, r.2, And(mask, x), consumedLen)
  }

  class BsWriter {
    const buf: array<byte>
    var offset: int
    var pos: int

    ghost predicate Valid()
      reads this, buf
    {
      0 <= pos <= buf.Length && 1 <= offset <= 8 && (pos == buf.Length ==> offset == 8)
    }

    /** Nothing has been written at or after the cursor: true of a new writer and kept by every write. */
    ghost predicate Clean()
      reads this, buf
    {
      Valid() && Blank(buf[..], pos, offset)
    }

    /** The bits of the whole buffer. */
    function Bits(): seq<bool>
      reads buf
    {
      BitsOf(buf[..])
    }

    /** The absolute bit position: bits written so far. */
    function BitPos(): int
      reads this
    {
      8 * pos + 8 - offset
    }

    /** The bits written so far. */
    ghost function Written(): seq<bool>
      reads this, buf
      requires Valid()
    {
      Bits()[..BitPos()]
    }

    function Remaining(): int
      reads this
    {
      8 * buf.Length - BitPos()
    }

    /** GetBufferWriter: size zero bytes, the cursor on the first bit. */
    constructor (size: nat)
      ensures Valid() && Clean() && fresh(buf)
      ensures buf[..] == seq(size, _ => 0) && pos == 0 && offset == 8
    {
      buf := new byte[size](_ => 0);
      pos := 0;
      offset := 8;
    }

    /** writeBits */
    method WriteBits(x: int, n: int)
      requires Valid()
      requires pos < buf.Length && 0 <= n <= Remaining()
      modifies this, buf
      ensures Valid()
      ensures var r := WriteBitsTo(old(buf[..]), old(pos), old(offset), x, n); buf[..] == r.0 && pos == r.1 && offset == r.2
      ensures BitPos() == old(BitPos()) + n
      ensures forall i | 0 <= i < old(pos) :: buf[i] == old(buf[i])
      decreases n
    {
      ghost var bs := buf[..];
      if n <= offset {
        var b := AddShifted(buf[pos], x, offset, n);
        buf[pos] := b;
        assert buf[..] == bs[pos := b];
        offset := offset - n;
      } else {
        var consumedLen := n - offset;
        var mask := Shl(1, consumedLen + 1) - 1;
        WriteBits(Shr(x, consumedLen), offset);
        WriteBits(And(mask, x), consumedLen);
      }
      if offset == 0 {
        offset := 8;
        pos := pos + 1;
      }
    }

    /**
     * Write: writeBits under its public name. From a clean writer, a value that fits
     * its n bits, or any value at a byte boundary, lands as its n bits, most
     * significant first, right after what was written before.
     */
    method Write(x: int, n: int)
      requires Valid()
      requires pos < buf.Length && 0 <= n <= Remaining()
      modifies this, buf
      ensures Valid()
      ensures !(old(Clean()) && (0 <= x < Pow2(n) || old(offset) == 8)) ==> var r := WriteBitsTo(old(buf[..]), old(pos), old(offset), x, n); buf[..] == r.0 && pos == r.1 && offset == r.2
      ensures BitPos() == old(BitPos()) + n
      ensures forall i | 0 <= i < old(pos) :: buf[i] == old(buf[i])
      ensures old(Clean()) ==> Clean()
      ensures old(Clean()) && (0 <= x < Pow2(n) || old(offset) == 8) ==> Written() == old(Written()) + ToBits(x, n)
    {
      ghost var bits, p := Bits(), BitPos();
      if Clean() {
        WriteBitsToBlank(buf[..], pos, offset, x, n);
        if 0 <= x < Pow2(n) || offset == 8 {
          WriteBitsToBits(buf[..], pos, offset, x, n);
          SplicePrefix(bits, p, ToBits(x, n));
        }
      }
      WriteBits(x, n);
    }

    /** WriteByte: x in the next 8 bits. */
    method WriteByte(x: int)
      requires Valid()
      requires pos < buf.Length && 8 <= Remaining()
      modifies this, buf
      ensures Valid()
      ensures !(old(Clean()) && (0 <= x < 0x100 || old(offset) == 8)) ==> var r := WriteBitsTo(old(buf[..]), old(pos), old(offset), x, 8); buf[..] == r.0 && pos == r.1 && offset == r.2
      ensures BitPos() == old(BitPos()) + 8
      ensures old(offset) == 8 ==> offset == 8 && pos == old(pos) + 1
      ensures forall i | 0 <= i < old(pos) :: buf[i] == old(buf[i])
      ensures old(Clean()) ==> Clean()
      ensures old(Clean()) && (0 <= x < 0x100 || old(offset) == 8) ==> Written() == old(Written()) + ToBits(x, 8)
    {
      Pow2Widths();
      Write(x, 8);
    }

    /** WriteShort: x in the next 16 bits. */
    method WriteShort(x: int)
      requires Valid()
      requires pos < buf.Length && 16 <= Remaining()
      modifies this, buf
      ensures Valid()
      ensures !(old(Clean()) && (0 <= x < 0x1_0000 || old(offset) == 8)) ==> var r := WriteBitsTo(old(buf[..]), old(pos), old(offset), x, 16); buf[..] == r.0 && pos == r.1 && offset == r.2
      ensures BitPos() == old(BitPos()) + 16
      ensures forall i | 0 <= i < old(pos) :: buf[i] == old(buf[i])
      ensures old(Clean()) ==> Clean()
      ensures old(Clean()) && (0 <= x < 0x1_0000 || old(offset) == 8) ==> Written() == old(Written()) + ToBits(x, 16)
    {
      Pow2Widths();
      Write(x, 16);
    }

    /** WriteInt: x in the next 32 bits. */
    method WriteInt(x: int)
      requires Valid()
      requires pos < buf.Length && 32 <= Remaining()
      modifies this, buf
      ensures Valid()
      ensures !(old(Clean()) && (0 <= x < 0x1_0000_0000 || old(offset) == 8)) ==> var r := WriteBitsTo(old(buf[..]), old(pos), old(offset), x, 32); buf[..] == r.0 && pos == r.1 && offset == r.2
      ensures BitPos() == old(BitPos()) + 32
      ensures forall i | 0 <= i < old(pos) :: buf[i] == old(buf[i])
      ensures old(Clean()) ==> Clean()
      ensures old(Clean()) && (0 <= x < 0x1_0000_0000 || old(offset) == 8) ==> Written() == old(Written()) + ToBits(x, 32)
    {
      Pow2Widths();
      Write(x, 32);
    }
  }

  /** Writing keeps everything after the cursor blank, whatever x is. */
  /** Two cursors at the same bit position are the same cursor. */
  lemma CursorOf(pos: int, offset: int, p: int, o: int)
    requires 1 <= offset <= 8 && 1 <= o <= 8 && 8 * pos + 8 - offset == 8 * p + 8 - o
    ensures pos == p && offset == o
  {
  }

  lemma {:induction false} WriteBitsToBlank(bs: seq<byte>, pos: int, offset: int, x: int, n: int)
    requires 0 <= pos < |bs| && 1 <= offset <= 8
    requires 0 <= n <= 8 * |bs| - (8 * pos + 8 - offset)
    requires Blank(bs, pos, offset)
    ensures var r := WriteBitsTo(bs, pos, offset, x, n); Blank(r.0, r.1, r.2)
    decreases n
  {
    if n <= offset {
      AddShiftedLow(bs[pos], x, offset, n);
      if offset - n == 0 && pos + 1 < |bs| {
        BlankAfterByte(bs, pos, offset, AddShifted(bs[pos], x, offset, n));
      }
    } else {
      var c := n - offset;
      var c1 := c + 1;
      ShlMul(1, c1);
      var hi, lo := Shr(x, c), And(Shl(1, c1) - 1, x);
      var b := AddShifted(bs[pos], hi, offset, offset);
      var mid, next := bs[pos := b], pos + 1;
      WriteBitsToUnfold(bs, pos, offset, x, n, c, hi, lo, mid, next);
      BlankAfterByte(bs, pos, offset, b);
      WriteBitsToBlank(mid, next, 8, lo, c);
    }
  }

  /** Once the byte at the cursor is done, the cursor moves to a blank byte. */
  lemma BlankAfterByte(bs: seq<byte>, pos: int, offset: int, b: byte)
    requires 0 <= pos && pos + 1 < |bs| && 1 <= offset <= 8
    requires Blank(bs, pos, offset)
    ensures Blank(bs[pos := b], pos + 1, 8)
  {
    assert bs[pos + 1] == 0;
  }

  /**
   * Writing a value that fits its n bits, or any value from a byte boundary, into a
   * blank tail overwrites exactly the next n bits with x's n bits, most significant first.
   */
  lemma {:induction false} WriteBitsToBits(bs: seq<byte>, pos: int, offset: int, x: int, n: int)
    requires 0 <= pos < |bs| && 1 <= offset <= 8
    requires 0 <= n <= 8 * |bs| - (8 * pos + 8 - offset)
    requires Blank(bs, pos, offset)
    requires 0 <= x < Pow2(n) || offset == 8
    ensures BitsOf(WriteBitsTo(bs, pos, offset, x, n).0) == Splice(BitsOf(bs), 8 * pos + 8 - offset, ToBits(x, n))
    decreases n, 1
  {
    if n <= offset {
      WriteWithinBits(bs, pos, offset, x, n);
    } else {
      var c := n - offset;
      var c1 := c + 1;
      ShlMul(1, c1);
      var hi, lo := Shr(x, c), And(Shl(1, c1) - 1, x);
      var b := AddShifted(bs[pos], hi, offset, offset);
      var mid, q, next := bs[pos := b], 8 * pos + 8 - offset, pos + 1;
      WriteBitsToUnfold(bs, pos, offset, x, n, c, hi, lo, mid, next);
      HighPartOfValue(x, n, offset, c, hi);
      AcrossChain(bs, pos, offset, x, n, c, hi, lo, mid, q, next);
    }
  }

  /** A write that fits the byte at the cursor changes only that byte. */
  lemma WriteWithinBits(bs: seq<byte>, pos: int, offset: int, x: int, n: int)
    requires 0 <= pos < |bs| && 1 <= offset <= 8
    requires 0 <= n <= offset
    requires Blank(bs, pos, offset)
    requires 0 <= x < Pow2(n) || offset == 8
    ensures BitsOf(WriteBitsTo(bs, pos, offset, x, n).0) == Splice(BitsOf(bs), 8 * pos + 8 - offset, ToBits(x, n))
  {
    assert WriteBitsTo(bs, pos, offset, x, n).0 == bs[pos := AddShifted(bs[pos], x, offset, n)];
    WriteInByte(bs, pos, offset, x, n);
  }

  /** The high part x >> c of a value that fits n = offset + c bits fits offset bits. */
  lemma HighPartOfValue(x: int, n: int, offset: int, c: nat, hi: int)
    requires 1 <= offset <= 8 && c == n - offset && hi == Shr(x, c)
    requires 0 <= x < Pow2(n) || offset == 8
    ensures 0 <= hi < Pow2(offset) || offset == 8
  {
    if 0 <= x < Pow2(n) && offset != 8 {
      ShrDiv(x, c);
      HighPartFits(x, offset, c);
    }
  }

  /** The two steps of a write across the byte boundary compose to one splice of all n bits. */
  lemma AcrossChain(bs: seq<byte>, pos: int, offset: int, x: int, n: int, c: nat, hi: int, lo: int, mid: seq<byte>, q: nat, next: nat)
    requires 0 <= pos < |bs| && 1 <= offset <= 8
    requires offset < n <= 8 * |bs| - (8 * pos + 8 - offset) && c == n - offset
    requires hi == Shr(x, c) && Shl(1, c + 1) - 1 >= 0 && lo == And(Shl(1, c + 1) - 1, x)
    requires Blank(bs, pos, offset)
    requires 0 <= hi < Pow2(offset) || offset == 8
    requires mid == bs[pos := AddShifted(bs[pos], hi, offset, offset)] && q == 8 * pos + 8 - offset && next == pos + 1
    ensures next < |mid| && 0 <= c <= 8 * |mid| - (8 * next + 8 - 8)
    ensures BitsOf(WriteBitsTo(mid, next, 8, lo, c).0) == Splice(BitsOf(bs), 8 * pos + 8 - offset, ToBits(x, n))
    decreases n, 0
  {
    BlankAfterByte(bs, pos, offset, AddShifted(bs[pos], hi, offset, offset));
    WriteInByteAt(bs, pos, offset, hi, offset, mid, q);
    var q2 := 8 * next + 8 - 8;
    WriteBitsToBitsAt(mid, next, 8, lo, c, q2);
    SplitBits(x, offset, c, n, hi, lo);
    ChainSplices(BitsOf(bs), BitsOf(mid), BitsOf(WriteBitsTo(mid, next, 8, lo, c).0), q, q2,
      ToBits(hi, offset), ToBits(lo, c), ToBits(x, n));
  }

  /** WriteBitsToBits with the bit position named. */
  lemma WriteBitsToBitsAt(bs: seq<byte>, pos: int, offset: int, x: int, n: int, q: nat)
    requires 0 <= pos < |bs| && 1 <= offset <= 8
    requires 0 <= n <= 8 * |bs| - (8 * pos + 8 - offset)
    requires Blank(bs, pos, offset)
    requires 0 <= x < Pow2(n) || offset == 8
    requires q == 8 * pos + 8 - offset
    ensures q + n <= 8 * |bs| && BitsOf(WriteBitsTo(bs, pos, offset, x, n).0) == Splice(BitsOf(bs), q, ToBits(x, n))
    decreases n, 2
  {
    WriteBitsToBits(bs, pos, offset, x, n);
  }

  /** WriteInByte with the updated bytes and the bit position named. */
  lemma WriteInByteAt(bs: seq<byte>, pos: nat, offset: nat, x: int, n: nat, mid: seq<byte>, q: nat)
    requires pos < |bs| && 1 <= offset <= 8 && n <= offset && bs[pos] % Pow2(offset) == 0
    requires 0 <= x < Pow2(n) || offset == 8
    requires mid == bs[pos := AddShifted(bs[pos], x, offset, n)] && q == 8 * pos + 8 - offset
    ensures q + n <= 8 * |bs| && BitsOf(mid) == Splice(BitsOf(bs), q, ToBits(x, n))
  {
    WriteInByte(bs, pos, offset, x, n);
  }

  /** Splicing v at q and then w right after it splices v + w at q. */
  lemma ChainSplices(bits: seq<bool>, first: seq<bool>, result: seq<bool>, q: nat, q2: nat, v: seq<bool>, w: seq<bool>, whole: seq<bool>)
    requires q + |v| + |w| <= |bits|
    requires q2 == q + |v|
    requires v + w == whole
    requires |first| == |bits|
    requires first == Splice(bits, q, v)
    requires result == Splice(first, q2, w)
    ensures result == Splice(bits, q, whole)
  {
    SpliceTwice(bits, q, v, w);
  }

  /** One step of WriteBitsTo across a byte boundary: the first byte is finished with the high part, then the masked low part follows. */
  lemma WriteBitsToUnfold(bs: seq<byte>, pos: int, offset: int, x: int, n: int, c: nat, hi: int, lo: int, mid: seq<byte>, next: nat)
    requires 0 <= pos < |bs| && 1 <= offset <= 8
    requires offset < n <= 8 * |bs| - (8 * pos + 8 - offset) && c == n - offset
    requires hi == Shr(x, c) && Shl(1, c + 1) - 1 >= 0 && lo == And(Shl(1, c + 1) - 1, x)
    requires mid == bs[pos := AddShifted(bs[pos], hi, offset, offset)] && next == pos + 1
    ensures next < |mid| && 0 <= c <= 8 * |mid| - 8 * next
    ensures WriteBitsTo(bs, pos, offset, x, n) == WriteBitsTo(mid, next, 8, lo, c)
  {
  }

  /** The k bits of x >> c and then the c bits of x & (1 << (c + 1) - 1) are the k + c bits of x. */
  lemma SplitBits(x: int, k: nat, c: nat, n: nat, hi: int, lo: int)
    requires n == k + c
    requires hi == Shr(x, c) && Shl(1, c + 1) - 1 >= 0 && lo == And(Shl(1, c + 1) - 1, x)
    ensures ToBits(hi, k) + ToBits(lo, c) == ToBits(x, n)
  {
    ShrDiv(x, c);
    ShlMul(1, c + 1);
    LowMaskAnd(x, c + 1);
    ToBitsSplit(x, k, c);
    forall j | 0 <= j < c
      ensures ToBits(x % Pow2(c + 1), c)[j] == ToBits(x % Pow2(c), c)[j]
    {
      BitOfMod(x, c + 1, c - 1 - j);
      BitOfMod(x, c, c - 1 - j);
    }
  }

  /** A value below 2^(k + c) shifted right by c is below 2^k. */
  lemma HighPartFits(x: int, k: nat, c: nat)
    requires 0 <= x < Pow2(k + c)
    ensures 0 <= x / Pow2(c) < Pow2(k)
  {
    Pow2Add(k, c);
    DivBelow(x, Pow2(k), Pow2(c));
  }

  /** The free bits of the byte after a write inside it: the low offset - n bits stay clear. */
  lemma AddShiftedLow(b: byte, x: int, offset: nat, n: nat)
    requires 1 <= offset <= 8 && n <= offset && b % Pow2(offset) == 0
    ensures AddShifted(b, x, offset, n) % Pow2(offset - n) == 0
  {
    var s := offset - n;
    var p, h := Pow2(s), Pow2(8 - s);
    assert h * p == 256 by {
      Pow2Add(8 - s, s);
      assert Pow2(8) == 256;
    }
    var w := Shl(x, s) % 256;
    assert w == (x % h) * p by {
      ShlMul(x, s);
      ModMul(x, p, h);
    }
    assert b % p == 0 && b == (b / (Pow2(n) * p) * Pow2(n)) * p by {
      Pow2Add(n, s);
      MultipleOfFactor(b, Pow2(n), p);
    }
    var m := b / (Pow2(n) * p) * Pow2(n) + x % h;
    assert b + w == m * p by {
      MulAddRight(b / (Pow2(n) * p) * Pow2(n), x % h, p);
    }
    ModMul(m, p, h);
    MultipleDiv(m % h, p);
  }

  /** Bit k of the byte after a write inside it: x's bits at [offset - n, offset), the old bits elsewhere. */
  lemma AddShiftedBit(b: byte, x: int, offset: nat, n: nat, k: nat)
    requires 1 <= offset <= 8 && n <= offset && b % Pow2(offset) == 0 && k < 8
    requires 0 <= x < Pow2(n) || offset == 8
    ensures Bit(AddShifted(b, x, offset, n), k) == if offset - n <= k < offset then Bit(x, k - (offset - n)) else Bit(b, k)
  {
    var s := offset - n;
    var w := Shl(x, s) % 256;
    AddShiftedSum(b, x, offset, n, k, w);
    ShiftedByteBit(x, s, k, w);
    if offset == 8 {
      AddToEmptyByte(b, w, k);
    } else {
      AddBelowOffset(b, x, offset, n, k);
    }
  }

  /** The byte AddShifted computes is b plus the shifted addend, with no carry out of the byte. */
  lemma AddShiftedSum(b: byte, x: int, offset: nat, n: nat, k: nat, w: int)
    requires n <= offset && k < 8 && w == Shl(x, offset - n) % 256
    ensures Bit(AddShifted(b, x, offset, n), k) == Bit(b + w, k)
  {
    Pow2Widths();
    assert AddShifted(b, x, offset, n) == (b + w) % Pow2(8);
    BitOfMod(b + w, 8, k);
  }

  /** Bit k of the byte x << s: clear below s, x's bit k - s above. */
  lemma ShiftedByteBit(x: int, s: nat, k: nat, w: int)
    requires k < 8 && w == Shl(x, s) % 256
    ensures Bit(w, k) == if k < s then false else Bit(x, k - s)
  {
    Pow2Widths();
    BitOfMod(Shl(x, s), 8, k);
    ShlBit(x, s, k);
  }

  /** A byte whose 8 low bits are all zero adds nothing. */
  lemma AddToEmptyByte(b: byte, w: int, k: nat)
    requires b % Pow2(8) == 0 && k < 8
    ensures Bit(b + w, k) == Bit(w, k) && !Bit(b, k)
  {
    assert Pow2(8) == 256;
    ModOfSmall(b, 256);
    BitOfZero(k);
  }

  /** Below a clear offset, the bits of b + (x << (offset - n)) are those of the addend, above it those of b. */
  lemma AddBelowOffset(b: byte, x: int, offset: nat, n: nat, k: nat)
    requires 1 <= offset < 8 && n <= offset && b % Pow2(offset) == 0 && k < 8
    requires 0 <= x < Pow2(n)
    ensures Bit(b + Shl(x, offset - n) % 256, k) == if k < offset then Bit(Shl(x, offset - n) % 256, k) else Bit(b, k)
    ensures k < offset ==> !Bit(b, k)
  {
    var p, y := Pow2(offset), Shl(x, offset - n);
    var hb := b / p;
    ClearLowBits(b, offset, p, hb, k);
    ShiftedFits(x, n, offset, p, y);
    ModOfSmall(y, 256);
    BitOfSumAt(b + y % 256, hb, offset, y % 256, k);
  }

  /** A byte whose low offset bits are clear is its high part times 2^offset, and its low bits are 0. */
  lemma ClearLowBits(b: byte, offset: nat, p: nat, hb: int, k: nat)
    requires 1 <= offset < 8 && p == Pow2(offset) && b % p == 0 && hb == b / p
    ensures b == hb * p
    ensures Bit(b, k) == if k < offset then false else Bit(hb, k - offset)
  {
    assert b == hb * p + 0;
    BitOfSumAt(b, hb, offset, 0, k);
    BitOfZero(k);
  }

  /** x << (offset - n) for x below 2^n is below 2^offset, which is at most 256. */
  lemma ShiftedFits(x: int, n: nat, offset: nat, p: nat, y: int)
    requires 1 <= offset < 8 && n <= offset && 0 <= x < Pow2(n) && p == Pow2(offset) && y == Shl(x, offset - n)
    ensures 0 <= y < p <= 256
  {
    ShlBelow(x, n, offset - n);
    assert n + (offset - n) == offset;
    Pow2Monotone(offset, 8);
    Pow2Widths();
  }

  /** The bits of the buffer after a write inside byte pos. */
  lemma WriteInByte(bs: seq<byte>, pos: nat, offset: nat, x: int, n: nat)
    requires pos < |bs| && 1 <= offset <= 8 && n <= offset && bs[pos] % Pow2(offset) == 0
    requires 0 <= x < Pow2(n) || offset == 8
    ensures BitsOf(bs[pos := AddShifted(bs[pos], x, offset, n)]) == Splice(BitsOf(bs), 8 * pos + 8 - offset, ToBits(x, n))
  {
    var b := AddShifted(bs[pos], x, offset, n);
    var a := BitsOf(bs[pos := b]);
    forall j | 0 <= j < |a|
      ensures a[j] == Splice(BitsOf(bs), 8 * pos + 8 - offset, ToBits(x, n))[j]
    {
      var i, r := j / 8, j % 8;
      var k := 7 - r;
      AddShiftedBit(bs[pos], x, offset, n, k);
      SetBitAt(bs, pos, b, offset, x, n, j, i, r);
    }
  }

  /** Bit t of byte i after byte pos became b, whose bit 7 - t is x's bit inside [offset - n, offset). */
  lemma SetBitAt(bs: seq<byte>, pos: nat, b: byte, offset: nat, x: int, n: nat, j: nat, i: nat, t: nat)
    requires pos < |bs| && 1 <= offset <= 8 && n <= offset
    requires i < |bs| && t < 8 && j == 8 * i + t
    requires Bit(b, 7 - t) == if offset - n <= 7 - t < offset then Bit(x, 7 - t - (offset - n)) else Bit(bs[pos], 7 - t)
    ensures BitsOf(bs[pos := b])[j] == Splice(BitsOf(bs), 8 * pos + 8 - offset, ToBits(x, n))[j]
  {
    var q := 8 * pos + 8 - offset;
    var nb := bs[pos := b];
    assert j / 8 == i && j % 8 == t;
    assert BitsOf(nb)[j] == Bit(nb[i], 7 - t);
    assert BitsOf(bs)[j] == Bit(bs[i], 7 - t);
    SpliceAt(BitsOf(bs), q, ToBits(x, n), j);
    if q <= j < q + n {
      assert ToBits(x, n)[j - q] == Bit(x, 7 - t - (offset - n));
    }
    if i == pos {
      assert (q <= j < q + n) == (offset - n <= 7 - t < offset);
    } else {
      assert !(q <= j < q + n);
      assert nb[i] == bs[i];
    }
  }
}
