/**
 * Bit strings, most significant bit first, as the stream readers and writers of
 * the analyzers see a byte buffer.
 */
module Bits {
  /** An 8-bit unsigned byte. */
  type byte = x: int | 0 <= x < 256

  function Pow2(n: nat): (r: nat)
    ensures r >= 1
  {
    if n == 0 then 1 else 2 * Pow2(n - 1)
  }

  /** Bit k of x, counting from the least significant bit (two's complement for negative x). */
  function Bit(x: int, k: nat): bool
    decreases k
  {
    if k == 0 then x % 2 == 1 else Bit(x / 2, k - 1)
  }

  /** The n low bits of x, most significant first. */
  function ToBits(x: int, n: nat): (bits: seq<bool>)
  {
    seq(n, j requires 0 <= j < n => Bit(x, n - 1 - j))
  }

  /** The unsigned value of a bit string read most significant bit first. */
  function ValueOf(bits: seq<bool>): (v: nat)
    ensures v < Pow2(|bits|)
  {
    if bits == [] then 0
    else 2 * ValueOf(bits[..|bits| - 1]) + (if bits[|bits| - 1] then 1 else 0)
  }

  /** The bits of a byte buffer, byte after byte, each byte most significant bit first. */
  function BitsOf(bs: seq<byte>): (bits: seq<bool>)
  {
    seq(8 * |bs|, j requires 0 <= j < 8 * |bs| => Bit(bs[j / 8], 7 - j % 8))
  }

  /** The unsigned value of the n bits starting at bit p, most significant first. */
  function Field(bits: seq<bool>, p: nat, n: nat): nat
    requires p + n <= |bits|
  {
    if n == 0 then 0 else 2 * Field(bits, p, n - 1) + BoolBit(bits[p + n - 1])
  }

  function BoolBit(b: bool): nat { if b then 1 else 0 }

  // ----- arithmetic helpers -----

  lemma MulLower(k: int, d: int)
    ensures k >= 1 && d > 0 ==> k * d >= d
  {
    if k >= 1 && d > 0 {
      assert k * d == (k - 1) * d + d;
    }
  }

  /** The quotient of a non-negative number by a positive one is not negative. */
  lemma DivNonNegative(x: int, d: int)
    requires x >= 0 && d > 0
    ensures x / d >= 0
  {
    var q := x / d;
    assert x == q * d + x % d;
    MulLower(-q, d);
    assert (-q) * d == -(q * d);
  }

  lemma DivModUnique(x: int, d: int, q: int, r: int)
    requires d > 0 && 0 <= r < d && x == q * d + r
    ensures x / d == q && x % d == r
  {
    var q0, r0 := x / d, x % d;
    assert x == q0 * d + r0;
    assert (q0 - q) * d == r - r0;
    MulLower(q0 - q, d);
    MulLower(q - q0, d);
    assert (q - q0) * d == r0 - r;
  }

  /** Bit 8 * i + j lies j bits into byte i + j / 8. */
  lemma ByteShift(i: nat, j: nat)
    ensures (8 * i + j) / 8 == i + j / 8 && (8 * i + j) % 8 == j % 8
  {
    DivModUnique(8 * i + j, 8, i + j / 8, j % 8);
  }

  lemma ModOfSmall(r: int, d: int)
    requires 0 <= r < d
    ensures r % d == r && r / d == 0
  {
    DivModUnique(r, d, 0, r);
  }

  lemma MultipleDiv(c: int, p: int)
    requires p >= 1
    ensures (c * p) / p == c && (c * p) % p == 0
  {
    DivModUnique(c * p, p, c, 0);
  }

  lemma {:induction false} Pow2Add(a: nat, b: nat)
    ensures Pow2(a + b) == Pow2(a) * Pow2(b)
    decreases b
  {
    if b > 0 {
      Pow2Add(a, b - 1);
      assert Pow2(a + b) == 2 * Pow2(a + b - 1);
    }
  }

  lemma {:induction false} Pow2Monotone(a: nat, b: nat)
    requires a <= b
    ensures Pow2(a) <= Pow2(b)
    decreases b
  {
    if a < b {
      Pow2Monotone(a, b - 1);
    }
  }

  lemma Distribute(pa: int, pb: int, q: int, t: int)
    ensures pa * (q * pb + t) == q * (pa * pb) + t * pa
  {
  }

  lemma MulBelow(t: int, pa: int, pb: int)
    requires pa > 0 && 0 <= t < pb
    ensures t * pa + pa <= pa * pb
  {
    MulLower(pb - t, pa);
    assert (pb - t) * pa == pa * pb - t * pa;
  }

  lemma DivDivBy(x: int, pa: int, pb: int)
    requires pa > 0 && pb > 0
    ensures pa * pb > 0
    ensures (x / pa) / pb == x / (pa * pb)
    ensures x % (pa * pb) == (x / pa) % pb * pa + x % pa
  {
    MulLower(pa, pb);
    var y := x / pa;
    var q, t, r := y / pb, y % pb, x % pa;
    assert y == q * pb + t;
    assert x == pa * y + r;
    Distribute(pa, pb, q, t);
    assert x == q * (pa * pb) + (t * pa + r);
    MulBelow(t, pa, pb);
    DivModUnique(x, pa * pb, q, t * pa + r);
  }

  /** Dividing by 2^a then by 2^b is dividing by 2^(a+b); the remainders combine likewise. */
  lemma DivDiv(x: int, a: nat, b: nat)
    ensures (x / Pow2(a)) / Pow2(b) == x / Pow2(a + b)
    ensures x % Pow2(a + b) == (x / Pow2(a)) % Pow2(b) * Pow2(a) + x % Pow2(a)
  {
    Pow2Add(a, b);
    DivDivBy(x, Pow2(a), Pow2(b));
  }

  lemma HalfDivMod(x: int, k: nat)
    ensures (x / 2) / Pow2(k) == x / Pow2(k + 1)
    ensures 2 * ((x / 2) % Pow2(k)) + x % 2 == x % Pow2(k + 1)
  {
    DivDivBy(x, 2, Pow2(k));
  }

  /** One step of And with an odd mask 2h + 1: the low bit of y, then h & (y / 2) above it. */
  lemma AndOddMask(m: nat, h: nat, y: int)
    requires m == 2 * h + 1
    ensures And(m, y) == 2 * And(h, y / 2) + y % 2
  {
    DivModUnique(m, 2, h, 1);
  }

  /** AndOddMask with the mask on the right. */
  lemma AndByOddMask(y: int, m: nat, h: nat)
    requires y >= 0 && m == 2 * h + 1
    ensures And(y, m) == 2 * And(y / 2, h) + y % 2
  {
    DivModUnique(m, 2, h, 1);
  }

  /** HalfDivMod's remainder with the wider power named. */
  lemma HalfMod(x: int, j: nat, k: nat)
    requires k == j + 1
    ensures 2 * ((x / 2) % Pow2(j)) + x % 2 == x % Pow2(k)
  {
    HalfDivMod(x, j);
  }

  // ----- single bits -----

  /** Bit k of x / 2^b is bit k + b of x. */
  lemma {:induction false} BitOfDiv(x: int, b: nat, k: nat)
    ensures Bit(x / Pow2(b), k) == Bit(x, k + b)
    decreases b
  {
    if b == 0 {
      assert x / 1 == x;
    } else {
      BitOfDiv(x / 2, b - 1, k);
      HalfDivMod(x, b - 1);
      assert Bit(x, k + b) == Bit(x / 2, k + b - 1);
    }
  }

  /** Below bit b, x mod 2^b has the bits of x. */
  lemma {:induction false} BitOfMod(x: int, b: nat, k: nat)
    requires k < b
    ensures Bit(x % Pow2(b), k) == Bit(x, k)
    decreases k
  {
    var r := x % Pow2(b);
    var h := (x / 2) % Pow2(b - 1);
    HalfDivMod(x, b - 1);
    assert r == h * 2 + x % 2;
    DivModUnique(r, 2, h, x % 2);
    if k > 0 {
      BitOfMod(x / 2, b - 1, k - 1);
    }
  }

  lemma BitZero(x: int)
    ensures Bit(x, 0) == (x % 2 == 1)
  {
  }

  // ----- the bit-string lemmas -----

  /** All but the last of the n bits of x are the n - 1 bits of x / 2. */
  lemma ToBitsInit(x: int, n: nat)
    requires n > 0
    ensures ToBits(x, n)[..n - 1] == ToBits(x / 2, n - 1)
    ensures ToBits(x, n)[n - 1] == (x % 2 == 1)
  {
    forall j | 0 <= j < n - 1
      ensures ToBits(x, n)[j] == ToBits(x / 2, n - 1)[j]
    {
      BitOfDiv(x, 1, n - 2 - j);
      assert Pow2(1) == 2;
    }
    BitZero(x);
  }

  /** Reading back the n bits of x gives x modulo 2^n. */
  lemma {:induction false} ValueOfToBits(x: int, n: nat)
    ensures ValueOf(ToBits(x, n)) == x % Pow2(n)
    decreases n
  {
    if n == 0 {
      assert ToBits(x, 0) == [];
    } else {
      ToBitsInit(x, n);
      ValueOfToBits(x / 2, n - 1);
      HalfDivMod(x, n - 1);
    }
  }

  /** Writing out the value of a bit string gives the bit string back. */
  lemma {:induction false} ToBitsValueOf(bits: seq<bool>)
    ensures ToBits(ValueOf(bits), |bits|) == bits
    decreases |bits|
  {
    var n := |bits|;
    if n == 0 {
      assert ToBits(ValueOf(bits), 0) == [];
    } else {
      var init := bits[..n - 1];
      var v := ValueOf(bits);
      var b := BoolBit(bits[n - 1]);
      assert v == 2 * ValueOf(init) + b;
      DivModUnique(v, 2, ValueOf(init), b);
      ToBitsValueOf(init);
      ToBitsInit(v, n);
      assert bits == init + [bits[n - 1]];
      assert ToBits(v, n) == ToBits(v, n)[..n - 1] + [ToBits(v, n)[n - 1]];
    }
  }

  /** The value of ToBits(r, k) for 0 <= r < 2^k is r. */
  lemma ValueOfToBitsSmall(r: int, k: nat)
    requires 0 <= r < Pow2(k)
    ensures ValueOf(ToBits(r, k)) == r
  {
    ValueOfToBits(r, k);
    ModOfSmall(r, Pow2(k));
  }

  /** Only the low n bits of x matter to ToBits(x, n). */
  lemma ToBitsMod(x: int, n: nat)
    ensures ToBits(x, n) == ToBits(x % Pow2(n), n)
  {
    forall j | 0 <= j < n
      ensures ToBits(x, n)[j] == ToBits(x % Pow2(n), n)[j]
    {
      BitOfMod(x, n, n - 1 - j);
    }
  }

  /** The a + b low bits of x are the a bits above position b followed by the b lowest bits. */
  lemma ToBitsSplit(x: int, a: nat, b: nat)
    ensures ToBits(x, a + b) == ToBits(x / Pow2(b), a) + ToBits(x % Pow2(b), b)
  {
    var s, hi, lo := ToBits(x, a + b), ToBits(x / Pow2(b), a), ToBits(x % Pow2(b), b);
    forall j | 0 <= j < a + b
      ensures s[j] == (hi + lo)[j]
    {
      if j < a {
        BitOfDiv(x, b, a - 1 - j);
        assert a - 1 - j + b == a + b - 1 - j;
      } else {
        BitOfMod(x, b, a + b - 1 - j);
      }
    }
  }

  /** ToBits(x, n) split at bit n - k. */
  lemma ToBitsSplitAt(x: int, n: nat, k: nat)
    requires k <= n
    ensures ToBits(x, n) == ToBits(x / Pow2(k), n - k) + ToBits(x % Pow2(k), k)
  {
    ToBitsSplit(x, n - k, k);
  }

  /** The value of a concatenation. */
  lemma {:induction false} ValueOfConcat(a: seq<bool>, b: seq<bool>, n: nat)
    requires n == |b|
    ensures ValueOf(a + b) == ValueOf(a) * Pow2(n) + ValueOf(b)
    decreases |b|
  {
    if b == [] {
      assert a + b == a;
    } else {
      var n := |b|;
      var init := b[..n - 1];
      var last := BoolBit(b[n - 1]);
      assert (a + b)[..|a + b| - 1] == a + init;
      ValueOfConcat(a, init, n - 1);
      var va, vi, p := ValueOf(a), ValueOf(init), Pow2(n - 1);
      assert ValueOf(a + b) == 2 * (va * p + vi) + last;
      assert ValueOf(b) == 2 * vi + last;
      assert Pow2(n) == 2 * p;
      DoubleMul(va, p);
    }
  }

  lemma DoubleMul(v: int, p: int)
    ensures v * (2 * p) == 2 * (v * p)
  {
  }

  /** ToBits is injective on values below 2^n. */
  lemma ToBitsInjective(x: int, y: int, n: nat)
    requires 0 <= x < Pow2(n) && 0 <= y < Pow2(n)
    requires ToBits(x, n) == ToBits(y, n)
    ensures x == y
  {
    ValueOfToBitsSmall(x, n);
    ValueOfToBitsSmall(y, n);
  }

  lemma ByteValue(b: byte)
    ensures ValueOf(ToBits(b, 8)) == b
  {
    assert Pow2(8) == 256;
    ValueOfToBitsSmall(b, 8);
  }

  // ----- buffers -----

  /** The 8 bits of byte i of a buffer. */
  lemma BitsOfAt(bs: seq<byte>, i: nat)
    requires i < |bs|
    ensures 8 * i + 8 <= |BitsOf(bs)|
    ensures BitsOf(bs)[8 * i..8 * i + 8] == ToBits(bs[i], 8)
  {
    var s := BitsOf(bs);
    forall j | 0 <= j < 8
      ensures s[8 * i + j] == ToBits(bs[i], 8)[j]
    {
      assert (8 * i + j) / 8 == i;
      assert (8 * i + j) % 8 == j;
    }
  }

  /** A buffer whose first 8 bits are those of x starts with the byte x. */
  lemma FirstByteOf(bs: seq<byte>, x: int)
    requires 1 <= |bs| && 0 <= x < 256
    requires 8 <= |BitsOf(bs)| && BitsOf(bs)[..8] == ToBits(x, 8)
    ensures bs[0] == x
  {
    BitsOfAt(bs, 0);
    assert Pow2(8) == 256;
    ToBitsInjective(x, bs[0], 8);
  }

  /** The bits from byte i on are the bits of the buffer from byte i on. */
  lemma BitsOfSuffix(bs: seq<byte>, i: nat)
    requires i <= |bs|
    ensures BitsOf(bs)[8 * i..] == BitsOf(bs[i..])
  {
    var s, t := BitsOf(bs), BitsOf(bs[i..]);
    forall j | 0 <= j < |t|
      ensures s[8 * i + j] == t[j]
    {
      ByteShift(i, j);
    }
  }

  lemma BitsOfConcat(a: seq<byte>, b: seq<byte>)
    ensures BitsOf(a + b) == BitsOf(a) + BitsOf(b)
  {
    var s, t := BitsOf(a + b), BitsOf(a) + BitsOf(b);
    forall j | 0 <= j < |s|
      ensures s[j] == t[j]
    {
      if j >= 8 * |a| {
        ByteShift(|a|, j - 8 * |a|);
        assert s[j] == Bit(b[(j - 8 * |a|) / 8], 7 - j % 8);
      } else {
        assert j / 8 < |a|;
        assert s[j] == Bit(a[j / 8], 7 - j % 8);
      }
    }
  }

  /** The unsigned big-endian value of a byte buffer. */
  function BigEndian(bs: seq<byte>): nat
  {
    if bs == [] then 0 else 256 * BigEndian(bs[..|bs| - 1]) + bs[|bs| - 1]
  }

  /** One more byte of a prefix: the big-endian value moves up a byte. */
  lemma BigEndianStep(bs: seq<byte>, k: nat)
    requires k < |bs|
    ensures BigEndian(bs[..k + 1]) == 256 * BigEndian(bs[..k]) + bs[k]
  {
    assert bs[..k + 1][..k] == bs[..k];
  }

  /** The bits of a buffer are the 8 * |bs| bits of its big-endian value. */
  lemma {:induction false} BitsOfBigEndian(bs: seq<byte>)
    ensures BitsOf(bs) == ToBits(BigEndian(bs), 8 * |bs|)
    decreases |bs|
  {
    if bs == [] {
      assert BitsOf(bs) == [] == ToBits(0, 0);
    } else {
      var n := |bs|;
      var init, last := bs[..n - 1], bs[n - 1];
      var v := BigEndian(bs);
      BitsOfBigEndian(init);
      assert bs == init + [last];
      BitsOfConcat(init, [last]);
      BitsOfAt([last], 0);
      assert BitsOf([last]) == ToBits(last, 8);
      ToBitsSplit(v, 8 * (n - 1), 8);
      Pow2Widths();
      DivModUnique(v, 256, BigEndian(init), last);
    }
  }

  /** A field of a buffer's bits, as arithmetic on the buffer's big-endian value. */
  lemma FieldOfBytes(bs: seq<byte>, p: nat, k: nat)
    requires p + k <= 8 * |bs|
    ensures Field(BitsOf(bs), p, k) == (BigEndian(bs) / Pow2(8 * |bs| - p - k)) % Pow2(k)
  {
    BitsOfBigEndian(bs);
    FieldOfToBits(BigEndian(bs), 8 * |bs|, p, k);
  }

  /** FieldOfBytes with the buffer's value and the two powers of two given. */
  lemma FieldOfValue(bs: seq<byte>, p: nat, k: nat, v: nat, d: nat, m: nat)
    requires p + k <= 8 * |bs| && BigEndian(bs) == v && Pow2(8 * |bs| - p - k) == d && Pow2(k) == m
    ensures Field(BitsOf(bs), p, k) == (v / d) % m
  {
    FieldOfBytes(bs, p, k);
  }

  /** Two buffers with the same bits are the same buffer. */
  lemma BitsOfInjective(a: seq<byte>, b: seq<byte>)
    requires BitsOf(a) == BitsOf(b)
    ensures a == b
  {
    assert |a| == |b|;
    forall i | 0 <= i < |a|
      ensures a[i] == b[i]
    {
      BitsOfAt(a, i);
      BitsOfAt(b, i);
      ByteValue(a[i]);
      ByteValue(b[i]);
    }
  }

  // ----- fields -----

  /** A slice of a slice. */
  lemma SubSlice(s: seq<bool>, t: seq<bool>, off: nat, j: nat, m: nat)
    requires off + |t| <= |s| && s[off..off + |t|] == t && j + m <= |t|
    ensures s[off + j..off + j + m] == t[j..j + m]
  {
    var v, w := s[off + j..off + j + m], t[j..j + m];
    forall q | 0 <= q < m
      ensures v[q] == w[q]
    {
      assert v[q] == s[off + j + q];
      assert s[off..off + |t|][j + q] == s[off + j + q];
    }
  }

  /** A field is the value of the bits it covers. */
  lemma {:induction false} FieldValueOf(bits: seq<bool>, p: nat, n: nat)
    requires p + n <= |bits|
    ensures Field(bits, p, n) == ValueOf(bits[p..p + n])
  {
    if n == 0 {
      assert bits[p..p] == [];
    } else {
      var s := bits[p..p + n];
      FieldValueOf(bits, p, n - 1);
      assert s[..n - 1] == bits[p..p + n - 1];
      assert s[n - 1] == bits[p + n - 1];
    }
  }

  /** The field where the n bits of a fitting value sit inside a concatenation is that value. */
  lemma FieldOfPart(a: seq<bool>, x: int, n: nat, c: seq<bool>)
    requires 0 <= x < Pow2(n)
    ensures |a| + n <= |a + ToBits(x, n) + c|
    ensures Field(a + ToBits(x, n) + c, |a|, n) == x
  {
    FieldOfConcat(a, ToBits(x, n), c);
    ValueOfToBitsSmall(x, n);
  }

  /** A field of s read after a prefix. */
  lemma FieldShift(pre: seq<bool>, s: seq<bool>, q: nat, n: nat)
    requires q + n <= |s|
    ensures Field(pre + s, |pre| + q, n) == Field(s, q, n)
  {
    assert (pre + s)[|pre| + q..|pre| + q + n] == s[q..q + n];
    FieldValueOf(pre + s, |pre| + q, n);
    FieldValueOf(s, q, n);
  }

  /** A field of s is unchanged by what follows s. */
  lemma FieldPrefix(s: seq<bool>, t: seq<bool>, q: nat, n: nat)
    requires q + n <= |s|
    ensures Field(s + t, q, n) == Field(s, q, n)
  {
    assert (s + t)[q..q + n] == s[q..q + n];
    FieldValueOf(s + t, q, n);
    FieldValueOf(s, q, n);
  }

  /** The prefix as long as the sequence is the sequence. */
  lemma WholePrefix(s: seq<bool>, n: nat)
    requires n == |s|
    ensures s[..n] == s
  {
  }

  /** A field that holds the n bits of a value that fits them is that value. */
  lemma FieldAt(bits: seq<bool>, p: nat, x: int, n: nat)
    requires p + n <= |bits| && bits[p..p + n] == ToBits(x, n) && 0 <= x < Pow2(n)
    ensures Field(bits, p, n) == x
  {
    FieldValueOf(bits, p, n);
    ValueOfToBitsSmall(x, n);
  }

  /** Writing a field back in its width gives the bits it was read from. */
  lemma ToBitsOfField(bits: seq<bool>, p: nat, n: nat)
    requires p + n <= |bits|
    ensures ToBits(Field(bits, p, n), n) == bits[p..p + n]
  {
    FieldValueOf(bits, p, n);
    ToBitsValueOf(bits[p..p + n]);
  }

  /** In s == a + b, the fields covering a and b are their values. */
  lemma FieldOfSplit(s: seq<bool>, a: seq<bool>, b: seq<bool>)
    requires s == a + b
    ensures Field(s, |a|, |b|) == ValueOf(b)
    ensures Field(s, 0, |a|) == ValueOf(a)
  {
    assert s[|a|..|a| + |b|] == b;
    assert s[0..|a|] == a;
    FieldIsValue(s, |a|, |b|, b);
    FieldIsValue(s, 0, |a|, a);
  }

  /** A field over a slice equal to t is the value of t. */
  lemma FieldIsValue(s: seq<bool>, p: nat, n: nat, t: seq<bool>)
    requires p + n <= |s| && s[p..p + n] == t
    ensures Field(s, p, n) == ValueOf(t)
  {
    FieldValueOf(s, p, n);
  }

  /** A field read inside a concatenation a + b + c, starting where b starts. */
  lemma FieldOfConcat(a: seq<bool>, b: seq<bool>, c: seq<bool>)
    ensures Field(a + b + c, |a|, |b|) == ValueOf(b)
  {
    assert (a + b + c)[|a|..|a| + |b|] == b;
    FieldValueOf(a + b + c, |a|, |b|);
  }

  /** The last k bits of ToBits(x, n) hold x modulo 2^k. */
  lemma FieldLowBits(x: int, n: nat, k: nat)
    requires k <= n
    ensures Field(ToBits(x, n), n - k, k) == x % Pow2(k)
  {
    var r := x % Pow2(k);
    ToBitsSplitAt(x, n, k);
    FieldOfSplit(ToBits(x, n), ToBits(x / Pow2(k), n - k), ToBits(r, k));
    ValueOfToBitsSmall(r, k);
  }

  /** The k bits of ToBits(x, n) from bit p on: the bits of x from position n - p - k upwards. */
  lemma FieldOfToBits(x: int, n: nat, p: nat, k: nat)
    requires p + k <= n
    ensures Field(ToBits(x, n), p, k) == (x / Pow2(n - p - k)) % Pow2(k)
  {
    var lo := n - p - k;
    var hi := x / Pow2(lo);
    var s := ToBits(x, n);
    forall j | 0 <= j < k
      ensures s[p..p + k][j] == ToBits(hi, k)[j]
    {
      BitOfDiv(x, lo, k - 1 - j);
      assert k - 1 - j + lo == n - 1 - (p + j);
    }
    assert s[p..p + k] == ToBits(hi, k);
    FieldValueOf(s, p, k);
    ValueOfToBits(hi, k);
  }

  /** A field that lies inside byte i of a buffer is a field of that byte's bits. */
  lemma FieldInByte(bs: seq<byte>, i: nat, j: nat, m: nat)
    requires i < |bs| && j + m <= 8
    ensures Field(BitsOf(bs), 8 * i + j, m) == Field(ToBits(bs[i], 8), j, m)
  {
    BitsOfAt(bs, i);
    SubSlice(BitsOf(bs), ToBits(bs[i], 8), 8 * i, j, m);
    FieldOfSameSlice(BitsOf(bs), ToBits(bs[i], 8), 8 * i + j, j, m);
  }

  /** Two fields over equal slices are equal. */
  lemma FieldOfSameSlice(s: seq<bool>, t: seq<bool>, p: nat, q: nat, m: nat)
    requires p + m <= |s| && q + m <= |t| && s[p..p + m] == t[q..q + m]
    ensures Field(s, p, m) == Field(t, q, m)
  {
    FieldValueOf(s, p, m);
    FieldValueOf(t, q, m);
  }

  /** The field at a byte boundary spanning one byte is that byte. */
  lemma FieldByte(bs: seq<byte>, i: nat)
    requires i < |bs|
    ensures Field(BitsOf(bs), 8 * i, 8) == bs[i]
  {
    BitsOfAt(bs, i);
    FieldIsValue(BitsOf(bs), 8 * i, 8, ToBits(bs[i], 8));
    ByteValue(bs[i]);
  }

  /** A field of a + b bits is the first a bits shifted left by b plus the next b bits. */
  lemma FieldSplit(bits: seq<bool>, p: nat, a: nat, b: nat)
    requires p + a + b <= |bits|
    ensures Field(bits, p, a + b) == Field(bits, p, a) * Pow2(b) + Field(bits, p + a, b)
  {
    var x, y := bits[p..p + a], bits[p + a..p + a + b];
    FieldAsSlices(bits, p, a, b);
    ValueOfConcat(x, y, b);
    Rename(Field(bits, p, a + b), Field(bits, p, a), Field(bits, p + a, b), ValueOf(x + y), ValueOf(x), ValueOf(y), Pow2(b));
  }

  /** u * m + v, with u and v replaced by equal values. */
  lemma Rename(w: int, u: int, v: int, w': int, u': int, v': int, m: int)
    requires w == w' && u == u' && v == v' && w' == u' * m + v'
    ensures w == u * m + v
  {
  }

  lemma FieldAsSlices(bits: seq<bool>, p: nat, a: nat, b: nat)
    requires p + a + b <= |bits|
    ensures Field(bits, p, a + b) == ValueOf(bits[p..p + a] + bits[p + a..p + a + b])
    ensures Field(bits, p, a) == ValueOf(bits[p..p + a]) && Field(bits, p + a, b) == ValueOf(bits[p + a..p + a + b])
  {
    assert bits[p..p + a + b] == bits[p..p + a] + bits[p + a..p + a + b];
    FieldValueOf(bits, p, a + b);
    FieldValueOf(bits, p, a);
    FieldValueOf(bits, p + a, b);
  }

  lemma FieldBound(bits: seq<bool>, p: nat, n: nat)
    requires p + n <= |bits|
    ensures 0 <= Field(bits, p, n) < Pow2(n)
  {
    assert |bits[p..p + n]| == n;
    FieldValueOf(bits, p, n);
  }

  // Go's shift and bitwise-and operators, bit by bit, and what they compute.

  /** x << n (the values shifted here stay far below 2^63, so nothing overflows). */
  function Shl(x: int, n: nat): (r: int)
    ensures x >= 1 ==> r >= 1
    decreases n
  {
    if n == 0 then x else 2 * Shl(x, n - 1)
  }

  /** x >> n: an arithmetic shift, rounding toward minus infinity. */
  function Shr(x: int, n: nat): (r: int)
    ensures x >= 0 ==> r >= 0
    decreases n
  {
    if n == 0 then x else Shr(x / 2, n - 1)
  }

  /** x & y for a non-negative x and any y (two's complement), bit by bit from the least significant. */
  function And(x: nat, y: int): nat
    decreases x
  {
    if x == 0 then 0
    else 2 * And(x / 2, y / 2) + (if x % 2 == 1 && y % 2 == 1 then 1 else 0)
  }

  lemma {:induction false} ShlMul(x: int, n: nat)
    ensures Shl(x, n) == x * Pow2(n)
    decreases n
  {
    if n > 0 {
      ShlMul(x, n - 1);
      DoubleMul(x, Pow2(n - 1));
    }
  }

  lemma {:induction false} ShrDiv(x: int, n: nat)
    ensures Shr(x, n) == x / Pow2(n)
    decreases n
  {
    if n > 0 {
      ShrDiv(x / 2, n - 1);
      HalfDivMod(x, n - 1);
    }
  }

  lemma {:induction false} AndZero(x: nat)
    ensures And(x, 0) == 0
    decreases x
  {
    if x > 0 {
      AndZero(x / 2);
    }
  }

  /** Masking with an even y drops bit 0 and masks the rest with y / 2. */
  lemma AndEven(x: nat, y: int)
    requires y % 2 == 0
    ensures And(x, y) == 2 * And(x / 2, y / 2)
  {
  }

  /** x & (2^k - 1) keeps the k low bits of x. */
  lemma {:induction false} AndLowMask(x: nat, k: nat)
    ensures And(x, Pow2(k) - 1) == x % Pow2(k)
    decreases k
  {
    if k == 0 {
      AndZero(x);
    } else {
      var i, y := k - 1, x / 2;
      AndByOddMask(x, Pow2(k) - 1, Pow2(i) - 1);
      AndLowMask(y, i);
      HalfMod(x, i, k);
    }
  }

  /** One step of AndMidMask: bit 0 of the mask 2^(j+k) - 2^j is clear when j > 0. */
  lemma MidMaskHalf(x: nat, y: nat, i: nat, j: nat, k: nat, m: nat, h: nat)
    requires j == i + 1 && y == x / 2
    requires m == Pow2(j + k) - Pow2(j) && h == Pow2(i + k) - Pow2(i)
    ensures Shr(And(x, m), j) == Shr(And(y, h), i)
  {
    assert Pow2(j + k) == 2 * Pow2(i + k) && Pow2(j) == 2 * Pow2(i);
    assert m == 2 * h + 0;
    DivModUnique(m, 2, h, 0);
    AndEven(x, m);
    var a := And(y, h);
    assert (2 * a) / 2 == a;
  }

  /** (x & (2^(j+k) - 2^j)) >> j == (x >> j) & (2^k - 1): the k bits of x above its j lowest bits. */
  lemma AndMidMask(x: nat, j: nat, k: nat)
    ensures Pow2(j) <= Pow2(j + k)
    ensures Shr(And(x, Pow2(j + k) - Pow2(j)), j) == And(Shr(x, j), Pow2(k) - 1)
  {
    Pow2Monotone(j, j + k);
    MidMask(x, j, k, Pow2(j + k) - Pow2(j), Pow2(k) - 1);
  }

  /** AndMidMask with the two masks named m and low. */
  lemma {:induction false} MidMask(x: nat, j: nat, k: nat, m: nat, low: nat)
    requires m == Pow2(j + k) - Pow2(j) && low == Pow2(k) - 1
    ensures Shr(And(x, m), j) == And(Shr(x, j), low)
    decreases j
  {
    if j == 0 {
      assert Pow2(0) == 1;
    } else {
      var i, y := j - 1, x / 2;
      Pow2Monotone(i, i + k);
      var h := Pow2(i + k) - Pow2(i);
      MidMaskHalf(x, y, i, j, k, m, h);
      MidMask(y, i, k, h, low);
      assert Shr(x, j) == Shr(y, i);
    }
  }

  lemma {:induction false} ShlAdd(x: int, n: nat, k: nat)
    ensures Shl(x, n + k) == Shl(Shl(x, n), k)
    decreases k
  {
    if k > 0 {
      ShlAdd(x, n, k - 1);
    }
  }

  lemma Shl8(x: int)
    ensures Shl(x, 8) == 256 * x
  {
    ShlMul(x, 8);
    assert Pow2(8) == 256;
  }

  /** A one-bit field is that bit. */
  lemma FieldOfOne(bits: seq<bool>, p: nat)
    requires p < |bits|
    ensures Field(bits, p, 1) == BoolBit(bits[p])
  {
  }

  /** FieldOfOne with the width named. */
  lemma FieldOfOneBit(bits: seq<bool>, p: nat, n: nat)
    requires p < |bits| && n == 1
    ensures Field(bits, p, n) == BoolBit(bits[p])
  {
    FieldOfOne(bits, p);
  }

  /** An empty field is zero. */
  lemma FieldOfNone(bits: seq<bool>, p: nat)
    requires p <= |bits|
    ensures Field(bits, p, 0) == 0
  {
  }

  /** x & (2^k - 1) with the mask on the left: the k low bits of any x. */
  lemma {:induction false} LowMaskAnd(x: int, k: nat)
    ensures And(Pow2(k) - 1, x) == x % Pow2(k)
    decreases k, 1
  {
    if k == 0 {
      assert Pow2(0) == 1;
    } else {
      LowMaskStep(x, k);
    }
  }

  /** LowMaskAnd for k > 0, from the lowest bit and the k - 1 bits above it. */
  lemma {:induction false} LowMaskStep(x: int, k: nat)
    requires k > 0
    ensures And(Pow2(k) - 1, x) == x % Pow2(k)
    decreases k, 0
  {
    var j, y := k - 1, x / 2;
    AndOddMask(Pow2(k) - 1, Pow2(j) - 1, x);
    LowMaskAnd(y, j);
    HalfMod(x, j, k);
  }

  // ----- overwriting part of a bit string -----

  /** bits with the |v| bits from position q on replaced by v. */
  function Splice(bits: seq<bool>, q: nat, v: seq<bool>): (r: seq<bool>)
    requires q + |v| <= |bits|
    ensures |r| == |bits|
  {
    seq(|bits|, j requires 0 <= j < |bits| => if q <= j < q + |v| then v[j - q] else bits[j])
  }

  lemma SpliceAt(bits: seq<bool>, q: nat, v: seq<bool>, j: nat)
    requires q + |v| <= |bits| && j < |bits|
    ensures Splice(bits, q, v)[j] == if q <= j < q + |v| then v[j - q] else bits[j]
  {
  }

  /** Splice replaces the |v| bits at q by v and keeps the rest. */
  lemma SpliceIsConcat(bits: seq<bool>, q: nat, v: seq<bool>)
    requires q + |v| <= |bits|
    ensures Splice(bits, q, v) == bits[..q] + v + bits[q + |v|..]
  {
  }

  /** After an overwrite at q, the bits up to its end are the old bits before q followed by v. */
  lemma SplicePrefix(bits: seq<bool>, q: nat, v: seq<bool>)
    requires q + |v| <= |bits|
    ensures Splice(bits, q, v)[..q + |v|] == bits[..q] + v
  {
    SpliceIsConcat(bits, q, v);
    assert (bits[..q] + v + bits[q + |v|..])[..q + |v|] == bits[..q] + v;
  }

  /** Two adjacent overwrites are one overwrite with the concatenation. */
  /** The same splice, its position and its bits written two ways. */
  lemma SpliceSame(bits: seq<bool>, q: nat, q': nat, v: seq<bool>, v': seq<bool>)
    requires q == q' && v == v' && q + |v| <= |bits|
    ensures Splice(bits, q, v) == Splice(bits, q', v')
  {
  }

  lemma SpliceTwice(bits: seq<bool>, q: nat, v: seq<bool>, w: seq<bool>)
    requires q + |v| + |w| <= |bits|
    ensures Splice(Splice(bits, q, v), q + |v|, w) == Splice(bits, q, v + w)
  {
    var a, b := Splice(Splice(bits, q, v), q + |v|, w), Splice(bits, q, v + w);
    forall j | 0 <= j < |bits|
      ensures a[j] == b[j]
    {
      SpliceAt(bits, q, v, j);
      SpliceAt(Splice(bits, q, v), q + |v|, w, j);
      SpliceAt(bits, q, v + w, j);
    }
  }

  // ----- bits of sums and products -----

  /** Every bit of zero is clear. */
  lemma {:induction false} BitOfZero(k: nat)
    ensures !Bit(0, k)
    decreases k
  {
    if k > 0 {
      BitOfZero(k - 1);
    }
  }

  /** The bits of y * 2^m + r, for 0 <= r < 2^m: those of r below m, those of y above. */
  lemma BitOfSum(y: int, m: nat, r: int, k: nat)
    requires 0 <= r < Pow2(m)
    ensures Bit(y * Pow2(m) + r, k) == if k < m then Bit(r, k) else Bit(y, k - m)
  {
    var z := y * Pow2(m) + r;
    DivModUnique(z, Pow2(m), y, r);
    if k < m {
      BitOfMod(z, m, k);
    } else {
      BitOfDiv(z, m, k - m);
      assert k - m + m == k;
    }
  }

  /** BitOfSum with the sum named. */
  lemma BitOfSumAt(z: int, y: int, m: nat, r: int, k: nat)
    requires 0 <= r < Pow2(m) && z == y * Pow2(m) + r
    ensures Bit(z, k) == if k < m then Bit(r, k) else Bit(y, k - m)
  {
    BitOfSum(y, m, r, k);
  }

  /** (y * p) mod (q * p) == (y mod q) * p. */
  lemma ModMul(y: int, p: int, q: int)
    requires p > 0 && q > 0
    ensures q * p > 0 && (y * p) % (q * p) == (y % q) * p
  {
    var d, v := y / q, y % q;
    MulLower(q, p);
    assert y * p == d * (q * p) + v * p;
    MulBelow(v, p, q);
    DivModUnique(y * p, q * p, d, v * p);
  }

  // ----- products, kept to one step each -----

  lemma MulAssoc(a: int, b: int, c: int)
    ensures a * (b * c) == (a * b) * c
  {
  }

  lemma MulAddRight(a: int, b: int, p: int)
    ensures (a + b) * p == a * p + b * p
  {
  }

  /** Below a * b, the quotient by b is below a. */
  lemma DivBelow(x: int, a: int, b: int)
    requires b > 0 && 0 <= x < a * b
    ensures 0 <= x / b < a
  {
    var d := x / b;
    assert x == d * b + x % b;
    if d >= a {
      MulLower(d - a + 1, b);
      MulAddRight(d - a, a, b);
    }
  }

  /** A multiple of n * p is a multiple of p. */
  lemma MultipleOfFactor(x: int, n: int, p: int)
    requires n > 0 && p > 0 && x % (n * p) == 0
    ensures x % p == 0 && x == (x / (n * p) * n) * p
  {
    var d := x / (n * p);
    assert x == d * (n * p);
    MulAssoc(d, n, p);
    MultipleDiv(d * n, p);
  }

  /** Bit k of x << s: clear below s, bit k - s of x from s on. */
  lemma {:induction false} ShlBit(x: int, s: nat, k: nat)
    ensures Bit(Shl(x, s), k) == if k < s then false else Bit(x, k - s)
    decreases s
  {
    if s > 0 {
      var y := Shl(x, s - 1);
      assert (2 * y) % 2 == 0 && (2 * y) / 2 == y;
      if k > 0 {
        ShlBit(x, s - 1, k - 1);
      }
    }
  }

  /** A value below 2^n shifted left by s is below 2^(n + s). */
  lemma {:induction false} ShlBelow(x: int, n: nat, s: nat)
    requires 0 <= x < Pow2(n)
    ensures 0 <= Shl(x, s) < Pow2(n + s)
    decreases s
  {
    if s > 0 {
      ShlBelow(x, n, s - 1);
    }
  }

  lemma Pow2Widths()
    ensures Pow2(8) == 0x100 && Pow2(16) == 0x1_0000 && Pow2(32) == 0x1_0000_0000
  {
    assert Pow2(8) == 0x100;
    Pow2Add(8, 8);
    Pow2Add(16, 16);
  }

  /** A field inside bytes i..j of a buffer is the same field of those bytes alone. */
  lemma FieldOfSub(bs: seq<byte>, i: nat, j: nat, p: nat, k: nat)
    requires i <= j <= |bs| && 8 * i <= p && p + k <= 8 * j
    ensures p + k <= |BitsOf(bs)| && Field(BitsOf(bs), p, k) == Field(BitsOf(bs[i..j]), p - 8 * i, k)
  {
    var whole, part := BitsOf(bs), BitsOf(bs[i..j]);
    BitsOfSuffix(bs, i);
    assert bs[i..] == bs[i..j] + bs[j..];
    BitsOfConcat(bs[i..j], bs[j..]);
    assert whole[p..p + k] == part[p - 8 * i..p - 8 * i + k];
    FieldOfSameSlice(whole, part, p, p - 8 * i, k);
  }

  lemma BigEndianOfTwo(bs: seq<byte>)
    requires |bs| == 2
    ensures BigEndian(bs) == bs[0] as int * 0x100 + bs[1] as int
  {
    assert bs[..0] == [];
    BigEndianStep(bs, 0);
    BigEndianStep(bs, 1);
    assert bs[..2] == bs;
  }

  lemma BigEndianOfFour(bs: seq<byte>)
    requires |bs| == 4
    ensures BigEndian(bs) == ((bs[0] as int * 0x100 + bs[1] as int) * 0x100 + bs[2] as int) * 0x100 + bs[3] as int
  {
    assert bs[..0] == [];
    BigEndianStep(bs, 0);
    BigEndianStep(bs, 1);
    BigEndianStep(bs, 2);
    BigEndianStep(bs, 3);
    assert bs[..4] == bs;
  }

  lemma BigEndianOfFive(bs: seq<byte>)
    requires |bs| == 5
    ensures BigEndian(bs) == BigEndian(bs[..4]) * 0x100 + bs[4] as int
    ensures BigEndian(bs[..4]) == ((bs[0] as int * 0x100 + bs[1] as int) * 0x100 + bs[2] as int) * 0x100 + bs[3] as int
  {
    BigEndianOfFour(bs[..4]);
    BigEndianStep(bs, 4);
    assert bs[..5] == bs;
  }

  /** The powers of two up to 2^16. */
  lemma SmallPowers()
    ensures Pow2(0) == 1 && Pow2(1) == 2 && Pow2(2) == 4 && Pow2(3) == 8 && Pow2(4) == 16 && Pow2(5) == 32
    ensures Pow2(6) == 64 && Pow2(7) == 128 && Pow2(8) == 256 && Pow2(9) == 512 && Pow2(10) == 1024
    ensures Pow2(11) == 2048 && Pow2(12) == 4096 && Pow2(13) == 8192 && Pow2(14) == 16384 && Pow2(15) == 32768
    ensures Pow2(16) == 65536
  {
    assert Pow2(4) == 16;
    assert Pow2(8) == 256;
    assert Pow2(12) == 4096;
    assert Pow2(16) == 65536;
  }

  /** A field inside the two bytes from byte i, as arithmetic on their 16-bit value v. */
  lemma FieldOfPair(bs: seq<byte>, i: nat, p: nat, k: nat, v: nat, d: nat, m: nat)
    requires i + 2 <= |bs| && 8 * i <= p && p + k <= 8 * i + 16
    requires v == bs[i] as int * 0x100 + bs[i + 1] as int && Pow2(8 * i + 16 - p - k) == d && Pow2(k) == m
    ensures Field(BitsOf(bs), p, k) == (v / d) % m
  {
    FieldOfSub(bs, i, i + 2, p, k);
    BigEndianOfTwo(bs[i..i + 2]);
    FieldOfValue(bs[i..i + 2], p - 8 * i, k, v, d, m);
  }
}
