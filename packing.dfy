/**
 * A run of fixed-width fields as a serializer writes them: each value in its
 * width, most significant bit first, one after the other. A reader that takes
 * the same widths back gets the values back.
 */
module Packing {
  import opened Bits

  /** A value and the number of bits it is written in. */
  datatype Slot = Slot(value: int, width: nat)

  /** Every value fits its width. */
  predicate AllFit(s: seq<Slot>)
  {
    forall i :: 0 <= i < |s| ==> 0 <= s[i].value < Pow2(s[i].width)
  }

  lemma FitsThree(a: Slot, b: Slot, c: Slot)
    requires 0 <= a.value < Pow2(a.width) && 0 <= b.value < Pow2(b.width) && 0 <= c.value < Pow2(c.width)
    ensures AllFit([a, b, c])
  {
  }

  /** Where slot i starts: the widths of the slots before it. */
  function Offset(s: seq<Slot>, i: nat): nat
    requires i <= |s|
  {
    if i == 0 then 0 else Offset(s, i - 1) + s[i - 1].width
  }

  /** The first i slots written out. */
  function PackTo(s: seq<Slot>, i: nat): (bits: seq<bool>)
    requires i <= |s|
    ensures |bits| == Offset(s, i)
  {
    if i == 0 then [] else PackTo(s, i - 1) + ToBits(s[i - 1].value, s[i - 1].width)
  }

  /** The first j = i + 1 slots are the first i, then slot i. */
  lemma PackToNext(s: seq<Slot>, i: nat, j: nat)
    requires i < |s| && j == i + 1
    ensures PackTo(s, j) == PackTo(s, i) + ToBits(s[i].value, s[i].width)
  {
  }

  /** The slot after slot i starts where slot i ends. */
  lemma OffsetStep(s: seq<Slot>, i: nat, j: nat)
    requires i < |s| && j == i + 1
    ensures Offset(s, j) == Offset(s, i) + s[i].width
  {
  }

  /** Offsets grow with the slot index. */
  lemma {:induction false} OffsetMonotone(s: seq<Slot>, i: nat, j: nat)
    requires i <= j <= |s|
    ensures Offset(s, i) + (if i < j then s[i].width else 0) <= Offset(s, j)
    decreases j
  {
    if i < j {
      OffsetMonotone(s, i, j - 1);
    }
  }

  /** Whatever follows, the field at slot i of the written slots reads back slot i's value. */
  lemma {:induction false} FieldOfPackTo(s: seq<Slot>, i: nat, j: nat, rest: seq<bool>)
    requires i < j <= |s| && AllFit(s)
    ensures Offset(s, i) + s[i].width <= |PackTo(s, j) + rest|
    ensures Field(PackTo(s, j) + rest, Offset(s, i), s[i].width) == s[i].value
    decreases j
  {
    var last := ToBits(s[j - 1].value, s[j - 1].width);
    if j == i + 1 {
      FieldOfPart(PackTo(s, i), s[i].value, s[i].width, rest);
    } else {
      FieldOfPackTo(s, i, j - 1, last + rest);
      assert PackTo(s, j) + rest == PackTo(s, j - 1) + (last + rest);
    }
  }

  /** Slot i of s holds the field of bits at the slot's offset and width. */
  predicate ReadsBack(s: seq<Slot>, i: nat, bits: seq<bool>)
    requires i < |s|
  {
    Offset(s, i) + s[i].width <= |bits| && s[i].value == Field(bits, Offset(s, i), s[i].width)
  }

  /** Slots whose values are the fields of bits at their offsets write those bits back. */
  lemma {:induction false} PackToOfFields(s: seq<Slot>, j: nat, bits: seq<bool>)
    requires j <= |s| && Offset(s, j) <= |bits|
    requires forall i :: 0 <= i < j ==> ReadsBack(s, i, bits)
    ensures PackTo(s, j) == bits[..Offset(s, j)]
    decreases j
  {
    if j > 0 {
      PackToOfFields(s, j - 1, bits);
      assert ReadsBack(s, j - 1, bits);
      PackToStep(s, j, bits);
    }
  }

  /** In all the slots written out, the field of slot i (at p, n bits wide) reads back its value v. */
  lemma SlotBack(s: seq<Slot>, i: nat, bits: seq<bool>, p: nat, n: nat, v: int)
    requires AllFit(s) && i < |s| && bits == PackTo(s, |s|)
    requires p == Offset(s, i) && n == s[i].width && v == s[i].value
    ensures p + n <= |bits| && Field(bits, p, n) == v
  {
    FieldOfPackTo(s, i, |s|, []);
    assert PackTo(s, |s|) + [] == bits;
  }

  /** One more slot read from its field extends the written prefix by that field's bits. */
  lemma PackToStep(s: seq<Slot>, j: nat, bits: seq<bool>)
    requires 0 < j <= |s| && Offset(s, j) <= |bits|
    requires PackTo(s, j - 1) == bits[..Offset(s, j - 1)]
    requires s[j - 1].value == Field(bits, Offset(s, j - 1), s[j - 1].width)
    ensures PackTo(s, j) == bits[..Offset(s, j)]
  {
    var p, q := Offset(s, j - 1), Offset(s, j);
    FieldBack(bits, p, s[j - 1].width, q, s[j - 1].value);
    JoinPrefix(PackTo(s, j - 1), ToBits(s[j - 1].value, s[j - 1].width), bits, p, q);
  }

  /** A prefix of bits followed by the slice after it is the longer prefix. */
  lemma JoinPrefix(a: seq<bool>, b: seq<bool>, bits: seq<bool>, p: nat, q: nat)
    requires p <= q <= |bits| && a == bits[..p] && b == bits[p..q]
    ensures a + b == bits[..q]
  {
  }

  lemma FieldBack(bits: seq<bool>, p: nat, n: nat, q: nat, v: int)
    requires q == p + n <= |bits| && v == Field(bits, p, n)
    ensures ToBits(v, n) == bits[p..q]
  {
    ToBitsOfField(bits, p, n);
  }

  /** All the slots written out. */
  function PackAll(s: seq<Slot>): (bits: seq<bool>)
    ensures |bits| == Offset(s, |s|)
  {
    PackTo(s, |s|)
  }

  /** The first i slots of a + b, when they all come from a. */
  lemma {:induction false} PackToPrefix(a: seq<Slot>, b: seq<Slot>, i: nat)
    requires i <= |a|
    ensures PackTo(a + b, i) == PackTo(a, i)
    decreases i
  {
    if i > 0 {
      PackToPrefix(a, b, i - 1);
    }
  }

  /** Writing a + b is writing a, then b. */
  lemma {:induction false} PackToConcat(a: seq<Slot>, b: seq<Slot>, j: nat)
    requires j <= |b|
    ensures PackTo(a + b, |a| + j) == PackAll(a) + PackTo(b, j)
    decreases j
  {
    if j == 0 {
      PackToPrefix(a, b, |a|);
      assert PackTo(b, 0) == [];
    } else {
      PackToConcat(a, b, j - 1);
      assert (a + b)[|a| + j - 1] == b[j - 1];
      var x, y, z := PackAll(a), PackTo(b, j - 1), ToBits(b[j - 1].value, b[j - 1].width);
      assert PackTo(a + b, |a| + j) == x + y + z;
      assert PackTo(b, j) == y + z;
      assert x + y + z == x + (y + z);
    }
  }

  lemma PackAllConcat(a: seq<Slot>, b: seq<Slot>)
    ensures PackAll(a + b) == PackAll(a) + PackAll(b)
  {
    PackToConcat(a, b, |b|);
  }

  /** Writing one more slot adds its bits. */
  lemma PackAllSnoc(s: seq<Slot>, x: Slot)
    ensures PackAll(s + [x]) == PackAll(s) + ToBits(x.value, x.width)
  {
    PackToPrefix(s, [x], |s|);
    assert (s + [x])[|s|] == x;
  }

  /** A piece found at position p: what precedes it, and what follows it. */
  lemma Peel(bits: seq<bool>, p: nat, g: seq<bool>, rest: seq<bool>)
    requires p <= |bits| && bits[p..] == g + rest
    ensures |bits[..p]| == p && bits == bits[..p] + g + rest
    ensures p + |g| <= |bits| && bits[p + |g|..] == rest
  {
    assert bits == bits[..p] + bits[p..];
    assert bits[p + |g|..] == bits[p..][|g|..];
  }

  /** What follows a group g found at p starts at q = p + |g|. */
  lemma DropAfter(bits: seq<bool>, p: nat, g: seq<bool>, rest: seq<bool>, q: nat)
    requires p <= |bits| && bits[p..] == g + rest && q == p + |g|
    ensures q <= |bits| && bits[q..] == rest
  {
    assert bits[q..] == bits[p..][|g|..];
  }

  /** A field of s read in pre + s, |pre| bits further on. */
  lemma FieldAfter(bits: seq<bool>, pre: seq<bool>, s: seq<bool>, q: nat, n: nat)
    requires q + n <= |s| && bits == pre + s
    ensures |pre| + q + n <= |bits| && Field(bits, |pre| + q, n) == Field(s, q, n)
  {
    FieldShift(pre, s, q, n);
  }

  /** The first field of a value written out first is that value. */
  lemma FieldOfFront(x: int, n: nat, c: seq<bool>)
    requires 0 <= x < Pow2(n)
    ensures n <= |ToBits(x, n) + c| && Field(ToBits(x, n) + c, 0, n) == x
  {
    FieldOfPart([], x, n, c);
    assert [] + ToBits(x, n) + c == ToBits(x, n) + c;
  }

  lemma GroupSplit(pre: seq<bool>, g: seq<bool>, rest: seq<bool>)
    ensures pre + g + rest == pre + (g + rest)
  {
  }

  lemma FieldOfPackAll(g: seq<Slot>, i: nat, rest: seq<bool>)
    requires i < |g| && AllFit(g)
    ensures Offset(g, i) + g[i].width <= |PackAll(g) + rest|
    ensures Field(PackAll(g) + rest, Offset(g, i), g[i].width) == g[i].value
  {
    FieldOfPackTo(g, i, |g|, rest);
  }

  /**
   * Slot i of a group of fitting slots reads back wherever the group is placed:
   * at bit p, the group's start plus the slot's offset, in the slot's width n.
   */
  lemma FieldInGroup(bits: seq<bool>, pre: seq<bool>, g: seq<Slot>, i: nat, rest: seq<bool>, p: nat, n: nat)
    requires i < |g| && AllFit(g) && bits == pre + PackAll(g) + rest
    requires p == |pre| + Offset(g, i) && n == g[i].width
    ensures p + n <= |bits| && Field(bits, p, n) == g[i].value
  {
    GroupSplit(pre, PackAll(g), rest);
    FieldOfPackAll(g, i, rest);
    FieldAfter(bits, pre, PackAll(g) + rest, Offset(g, i), g[i].width);
  }
}
