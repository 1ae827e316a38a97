/**
 * The text functions the analyzers take from Go's strconv and strings
 * packages: hexadecimal and decimal formatting (strconv.FormatInt,
 * strconv.Itoa, fmt's "%02x"), the syntax strconv.Atoi accepts, and
 * strings.Join, strings.Split, strings.FieldsFunc, strings.TrimSpace and
 * strings.Trim. Strings are sequences of runes.
 */
module Text {

  // ----- hexadecimal -----

  function HexDigit(d: nat): char
    requires d < 16
  {
    if d < 10 then (48 + d) as char else (87 + d) as char
  }

  /** strconv.FormatInt(v, 16): lower-case hex digits without leading zeros. */
  function HexOf(v: nat): string
  {
    if v < 16 then [HexDigit(v)] else HexOf(v / 16) + [HexDigit(v % 16)]
  }

  /** The value of a hex digit, -1 for any other character. */
  function DigitValue(c: char): int
  {
    if '0' <= c <= '9' then c as int - 48
    else if 'a' <= c <= 'f' then c as int - 87
    else -1
  }

  function HexValue(s: string): int
  {
    if s == [] then 0 else 16 * HexValue(s[..|s| - 1]) + DigitValue(s[|s| - 1])
  }

  /** The text of a value reads back as the value, and has no leading zero. */
  lemma {:induction false} HexRoundTrip(v: nat)
    ensures HexValue(HexOf(v)) == v
    ensures HexOf(v)[0] != '0' || v == 0
    ensures forall k | 0 <= k < |HexOf(v)| :: 0 <= DigitValue(HexOf(v)[k]) < 16
  {
    var s := HexOf(v);
    if v >= 16 {
      HexRoundTrip(v / 16);
      assert s[..|s| - 1] == HexOf(v / 16);
    }
  }

  /** Bytes of one or two digits. */
  lemma HexOfByte(v: nat)
    requires v < 256
    ensures 1 <= |HexOf(v)| <= 2 && (|HexOf(v)| == 1 <==> v < 16)
  {
  }

  /** fmt.Sprintf("%02x", b): a byte as exactly two lower-case hex digits. */
  function Hex2(b: nat): (s: string)
    requires b < 256
    ensures |s| == 2 && HexValue(s) == b
    ensures forall k | 0 <= k < 2 :: 0 <= DigitValue(s[k]) < 16
  {
    var s := [HexDigit(b / 16), HexDigit(b % 16)];
    assert s[..1] == [s[0]] && s[..1][..0] == [];
    assert HexValue(s[..1]) == b / 16;
    s
  }

  // ----- decimal -----

  predicate IsDigit(c: char)
  {
    '0' <= c <= '9'
  }

  /** The decimal digits of n, without leading zeros. */
  function DecimalDigits(n: nat): string
  {
    if n < 10 then [(48 + n) as char] else DecimalDigits(n / 10) + [(48 + n % 10) as char]
  }

  /** strconv.Itoa: a minus sign for negative values, then the digits of the magnitude. */
  function Itoa(v: int): string
  {
    if v < 0 then "-" + DecimalDigits(-v) else DecimalDigits(v)
  }

  /** The value of a run of decimal digits. */
  function DecimalValue(s: string): int
  {
    if s == [] then 0 else 10 * DecimalValue(s[..|s| - 1]) + (s[|s| - 1] as int - 48)
  }

  predicate AllDigits(s: string)
  {
    forall k | 0 <= k < |s| :: IsDigit(s[k])
  }

  const Int64Max := 0x7fff_ffff_ffff_ffff

  /** The digits after an optional sign. */
  function Unsigned(s: string): string
  {
    if s != [] && (s[0] == '-' || s[0] == '+') then s[1..] else s
  }

  /**
   * strconv.Atoi (64-bit int) returns no error: an optional sign, then at
   * least one decimal digit, and the value fits in an int.
   */
  predicate AtoiAccepts(s: string)
  {
    var d := Unsigned(s);
    d != [] && AllDigits(d)
      && (if s[0] == '-' then DecimalValue(d) <= Int64Max + 1 else DecimalValue(d) <= Int64Max)
  }

  /** The value strconv.Atoi returns for text it accepts. */
  function AtoiValue(s: string): int
    requires AtoiAccepts(s)
  {
    if s[0] == '-' then -DecimalValue(Unsigned(s)) else DecimalValue(Unsigned(s))
  }

  /** The digits of n are digits and read back as n. */
  lemma {:induction false} DecimalRoundTrip(n: nat)
    ensures DecimalDigits(n) != [] && AllDigits(DecimalDigits(n))
    ensures DecimalValue(DecimalDigits(n)) == n
    ensures DecimalDigits(n)[0] != '-' && DecimalDigits(n)[0] != '+'
  {
    var s := DecimalDigits(n);
    if n >= 10 {
      DecimalRoundTrip(n / 10);
      assert s[..|s| - 1] == DecimalDigits(n / 10);
    }
  }

  /** Every int's Itoa text is accepted by Atoi and reads back as the same int. */
  lemma ItoaAtoi(v: int)
    requires -Int64Max - 1 <= v <= Int64Max
    ensures AtoiAccepts(Itoa(v)) && AtoiValue(Itoa(v)) == v
  {
    if v < 0 {
      DecimalRoundTrip(-v);
      assert Unsigned(Itoa(v)) == DecimalDigits(-v);
    } else {
      DecimalRoundTrip(v);
    }
  }

  // ----- strings.Join and strings.Split -----

  /** strings.Join: the parts with sep between each two. */
  function Join(parts: seq<string>, sep: string): string
  {
    if parts == [] then ""
    else if |parts| == 1 then parts[0]
    else Join(parts[..|parts| - 1], sep) + sep + parts[|parts| - 1]
  }

  /**
   * strings.Split with a one-rune separator: the text between separators,
   * one more part than there are separators.
   */
  function Split(s: string, c: char): (r: seq<string>)
    ensures |r| >= 1
  {
    if s == [] then [""]
    else
      var init := Split(s[..|s| - 1], c);
      if s[|s| - 1] == c then init + [""]
      else init[..|init| - 1] + [init[|init| - 1] + [s[|s| - 1]]]
  }

  /** Text without the separator splits into itself alone. */
  lemma {:induction false} SplitWhole(s: string, c: char)
    requires c !in s
    ensures Split(s, c) == [s]
  {
    if s != [] {
      var t := s[..|s| - 1];
      SplitWhole(t, c);
      assert t + [s[|s| - 1]] == s;
    }
  }

  /** The part after the last separator ends the split. */
  lemma {:induction false} SplitAfter(s: string, c: char, t: string)
    requires c !in t
    ensures Split(s + [c] + t, c) == Split(s, c) + [t]
  {
    if t == [] {
      assert (s + [c] + t)[..|s|] == s;
    } else {
      var u := s + [c] + t;
      var t' := t[..|t| - 1];
      assert u[..|u| - 1] == s + [c] + t';
      SplitAfter(s, c, t');
      assert t' + [t[|t| - 1]] == t;
    }
  }

  /** Joining the parts of a split with the separator gives the text back, and no part holds the separator. */
  lemma {:induction false} SplitJoin(s: string, c: char)
    ensures Join(Split(s, c), [c]) == s
    ensures forall k | 0 <= k < |Split(s, c)| :: c !in Split(s, c)[k]
  {
    if s != [] {
      var t, last := s[..|s| - 1], s[|s| - 1];
      var init := Split(t, c);
      SplitJoin(t, c);
      assert s == t + [last];
      var r := Split(s, c);
      if last == c {
        assert r == init + [""];
        assert r[..|r| - 1] == init;
      } else {
        var n := |init|;
        assert r == init[..n - 1] + [init[n - 1] + [last]];
        assert r[..|r| - 1] == init[..n - 1];
        if n > 1 {
          JoinLast(init, [c]);
          assert Join(r, [c]) == Join(init[..n - 1], [c]) + [c] + (init[n - 1] + [last]);
        } else {
          assert Join(r, [c]) == init[0] + [last];
        }
        forall k | 0 <= k < |r|
          ensures c !in r[k]
        {
          if k < n - 1 {
            assert r[k] == init[k];
          }
        }
      }
    }
  }

  lemma JoinLast(parts: seq<string>, sep: string)
    requires |parts| > 1
    ensures Join(parts, sep) == Join(parts[..|parts| - 1], sep) + sep + parts[|parts| - 1]
  {
  }

  // ----- strings.FieldsFunc -----

  /** The characters of s that are not separators, in order. */
  function Kept(s: string, seps: set<char>): string
  {
    if s == [] then "" else Kept(s[..|s| - 1], seps) + (if s[|s| - 1] in seps then "" else [s[|s| - 1]])
  }

  function Concat(parts: seq<string>): string
  {
    if parts == [] then "" else Concat(parts[..|parts| - 1]) + parts[|parts| - 1]
  }

  /** strings.FieldsFunc: the maximal runs of characters that are not separators. */
  function FieldsFunc(s: string, seps: set<char>): (r: seq<string>)
    ensures s != [] && s[|s| - 1] !in seps ==> r != []
  {
    if s == [] then []
    else
      var init := FieldsFunc(s[..|s| - 1], seps);
      var c := s[|s| - 1];
      if c in seps then init
      else if |s| >= 2 && s[|s| - 2] !in seps then init[..|init| - 1] + [init[|init| - 1] + [c]]
      else init + [[c]]
  }

  /** A field: non-empty and free of separators. */
  predicate Clean(f: string, seps: set<char>)
  {
    f != [] && forall i | 0 <= i < |f| :: f[i] !in seps
  }

  predicate AllClean(fs: seq<string>, seps: set<char>)
  {
    forall k | 0 <= k < |fs| :: Clean(fs[k], seps)
  }

  /** Every field is non-empty and separator-free, and together they are the non-separator characters in order. */
  lemma {:induction false} FieldsFuncParts(s: string, seps: set<char>)
    ensures AllClean(FieldsFunc(s, seps), seps)
    ensures Concat(FieldsFunc(s, seps)) == Kept(s, seps)
  {
    if s != [] {
      var t, c := s[..|s| - 1], s[|s| - 1];
      FieldsFuncParts(t, seps);
      var init := FieldsFunc(t, seps);
      assert s[..|s| - 1] == t;
      if c in seps {
      } else if |s| >= 2 && s[|s| - 2] !in seps {
        assert t[|t| - 1] == s[|s| - 2];
        var n := |init|;
        var front, last := init[..n - 1], init[n - 1];
        assert init == front + [last];
        assert FieldsFunc(s, seps) == front + [last + [c]];
        ConcatLast(front, last);
        ConcatLast(front, last + [c]);
        CleanFront(init, seps);
        assert Clean(last + [c], seps);
        CleanAppend(front, last + [c], seps);
      } else {
        assert FieldsFunc(s, seps) == init + [[c]];
        ConcatLast(init, [c]);
        CleanAppend(init, [c], seps);
      }
    }
  }

  lemma ConcatLast(a: seq<string>, x: string)
    ensures Concat(a + [x]) == Concat(a) + x
  {
    assert (a + [x])[..|a|] == a;
  }

  lemma CleanAppend(a: seq<string>, x: string, seps: set<char>)
    requires AllClean(a, seps) && Clean(x, seps)
    ensures AllClean(a + [x], seps)
  {
    forall k | 0 <= k < |a| + 1
      ensures Clean((a + [x])[k], seps)
    {
      if k < |a| {
        assert (a + [x])[k] == a[k];
      }
    }
  }

  lemma CleanFront(a: seq<string>, seps: set<char>)
    requires AllClean(a, seps) && a != []
    ensures AllClean(a[..|a| - 1], seps) && Clean(a[|a| - 1], seps)
  {
    var front := a[..|a| - 1];
    forall k | 0 <= k < |front|
      ensures Clean(front[k], seps)
    {
      assert front[k] == a[k];
    }
  }

  /** The fields after one more character: dropped if a separator, else extending the last field or starting one. */
  lemma FieldsFuncSnoc(s: string, d: char, seps: set<char>)
    ensures var f := FieldsFunc(s, seps);
      FieldsFunc(s + [d], seps)
        == if d in seps then f
           else if s != [] && s[|s| - 1] !in seps then f[..|f| - 1] + [f[|f| - 1] + [d]]
           else f + [[d]]
  {
    var t := s + [d];
    assert t[..|t| - 1] == s;
    if |t| >= 2 {
      assert t[|t| - 2] == s[|s| - 1];
    }
  }

  /** A separator splits the fields: those of the text before it, then those of the text after it. */
  lemma {:induction false} FieldsFuncJoin(a: string, c: char, b: string, seps: set<char>)
    requires c in seps
    ensures FieldsFunc(a + [c] + b, seps) == FieldsFunc(a, seps) + FieldsFunc(b, seps)
    decreases |b|
  {
    if b == [] {
      FieldsFuncSnoc(a, c, seps);
      assert a + [c] + b == a + [c];
    } else {
      var b', d := b[..|b| - 1], b[|b| - 1];
      FieldsFuncJoin(a, c, b', seps);
      assert a + [c] + b == (a + [c] + b') + [d];
      assert b == b' + [d];
      FieldsJoinStep(a, c, b', d, seps);
    }
  }

  lemma FieldsJoinStep(a: string, c: char, b: string, d: char, seps: set<char>)
    requires c in seps
    requires FieldsFunc(a + [c] + b, seps) == FieldsFunc(a, seps) + FieldsFunc(b, seps)
    ensures FieldsFunc(a + [c] + b + [d], seps) == FieldsFunc(a, seps) + FieldsFunc(b + [d], seps)
  {
    var s := a + [c] + b;
    var x, y := FieldsFunc(a, seps), FieldsFunc(b, seps);
    assert s[|s| - 1] == if b != [] then b[|b| - 1] else c;
    if d in seps {
      FieldsFuncSnoc(s, d, seps);
      FieldsFuncSnoc(b, d, seps);
    } else if b != [] && b[|b| - 1] !in seps {
      FieldsExtendLast(s, b, d, x, y, seps);
    } else {
      FieldsFuncSnoc(s, d, seps);
      FieldsFuncSnoc(b, d, seps);
      assert x + y + [[d]] == x + (y + [[d]]);
    }
  }

  lemma FieldsExtendLast(s: string, b: string, d: char, x: seq<string>, y: seq<string>, seps: set<char>)
    requires d !in seps && b != [] && b[|b| - 1] !in seps && s != [] && s[|s| - 1] == b[|b| - 1]
    requires FieldsFunc(s, seps) == x + y && FieldsFunc(b, seps) == y
    ensures FieldsFunc(s + [d], seps) == x + FieldsFunc(b + [d], seps)
  {
    FieldsFuncSnoc(s, d, seps);
    FieldsFuncSnoc(b, d, seps);
    assert y != [];
    var xy := x + y;
    assert xy[..|xy| - 1] == x + y[..|y| - 1];
    assert xy[|xy| - 1] == y[|y| - 1];
  }

  /** Text without separators is one field. */
  lemma {:induction false} FieldsFuncWhole(a: string, seps: set<char>)
    requires Clean(a, seps)
    ensures FieldsFunc(a, seps) == [a]
  {
    var t := a[..|a| - 1];
    assert a == t + [a[|a| - 1]];
    FieldsFuncSnoc(t, a[|a| - 1], seps);
    if |a| > 1 {
      assert Clean(t, seps) by {
        forall i | 0 <= i < |t|
          ensures t[i] !in seps
        {
          assert t[i] == a[i];
        }
      }
      FieldsFuncWhole(t, seps);
    }
  }

  /** Each part followed by the terminator c. */
  function Terminated(parts: seq<string>, c: char): string
  {
    if parts == [] then "" else Terminated(parts[..|parts| - 1], c) + parts[|parts| - 1] + [c]
  }

  /** Separator-free parts, each followed by a separator, split back into those parts. */
  lemma {:induction false} FieldsOfTerminated(parts: seq<string>, c: char, seps: set<char>)
    requires c in seps && AllClean(parts, seps)
    ensures FieldsFunc(Terminated(parts, c), seps) == parts
    decreases |parts|
  {
    if parts != [] {
      var init, last := parts[..|parts| - 1], parts[|parts| - 1];
      CleanFront(parts, seps);
      FieldsOfTerminated(init, c, seps);
      var t := Terminated(init, c);
      assert t == [] || t[|t| - 1] == c;
      TerminatedStep(t, init, last, c, seps);
      assert init + [last] == parts;
    }
  }

  /** One more separator-free part and its terminator after text that splits into init. */
  lemma TerminatedStep(t: string, init: seq<string>, last: string, c: char, seps: set<char>)
    requires c in seps && Clean(last, seps) && FieldsFunc(t, seps) == init
    requires t == [] || t[|t| - 1] == c
    ensures FieldsFunc(t + last + [c], seps) == init + [last]
  {
    FieldsFuncSnoc(t + last, c, seps);
    FieldsFuncWhole(last, seps);
    if t == [] {
      assert t + last == last;
    } else {
      var y := t[..|t| - 1];
      assert t == y + [c];
      FieldsFuncJoin(y, c, last, seps);
      FieldsFuncSnoc(y, c, seps);
      assert t + last == y + [c] + last;
    }
  }

  /** A separator in front of the text adds no field. */
  lemma FieldsDropLead(c: char, b: string, seps: set<char>)
    requires c in seps
    ensures FieldsFunc([c] + b, seps) == FieldsFunc(b, seps)
  {
    FieldsFuncJoin("", c, b, seps);
    assert "" + [c] + b == [c] + b;
  }

  /** A separator-free word followed by a separator is the first field. */
  lemma FieldsWord(a: string, c: char, b: string, seps: set<char>)
    requires c in seps && Clean(a, seps)
    ensures FieldsFunc(a + [c] + b, seps) == [a] + FieldsFunc(b, seps)
  {
    FieldsFuncJoin(a, c, b, seps);
    FieldsFuncWhole(a, seps);
  }

  // ----- trimming -----

  /** unicode.IsSpace: the ASCII white space, U+0085, U+00A0 and the Unicode White_Space characters above U+00FF. */
  const Spaces: set<char> := {
    9 as char, 10 as char, 11 as char, 12 as char, 13 as char, 32 as char, 0x85 as char, 0xa0 as char,
    0x1680 as char, 0x2000 as char, 0x2001 as char, 0x2002 as char, 0x2003 as char, 0x2004 as char,
    0x2005 as char, 0x2006 as char, 0x2007 as char, 0x2008 as char, 0x2009 as char, 0x200a as char,
    0x2028 as char, 0x2029 as char, 0x202f as char, 0x205f as char, 0x3000 as char}

  /** s without its leading characters from cut. */
  function TrimLeft(s: string, cut: set<char>): (r: string)
    ensures |r| <= |s| && r == s[|s| - |r|..]
    ensures r != [] ==> r[0] !in cut
    ensures forall k | 0 <= k < |s| - |r| :: s[k] in cut
  {
    if s != [] && s[0] in cut then TrimLeft(s[1..], cut) else s
  }

  /** s without its trailing characters from cut. */
  function TrimRight(s: string, cut: set<char>): (r: string)
    ensures |r| <= |s| && r == s[..|r|]
    ensures r != [] ==> r[|r| - 1] !in cut
    ensures forall k | |r| <= k < |s| :: s[k] in cut
  {
    if s != [] && s[|s| - 1] in cut then TrimRight(s[..|s| - 1], cut) else s
  }

  /** Both ends trimmed: what is left starts and ends with a character outside cut. */
  function TrimBoth(s: string, cut: set<char>): (r: string)
    ensures |r| <= |s|
    ensures r != [] ==> r[0] !in cut && r[|r| - 1] !in cut
  {
    var l := TrimLeft(s, cut);
    var r := TrimRight(l, cut);
    if r != [] then assert r[0] == l[0]; r else r
  }

  /** strings.TrimSpace. */
  function TrimSpace(s: string): string
  {
    TrimBoth(s, Spaces)
  }

  /** strings.Trim with a one-rune cutset. */
  function Trim(s: string, cut: char): string
  {
    TrimBoth(s, {cut})
  }

  /** Text that starts and ends with characters outside cut is left as it is. */
  lemma TrimNothing(s: string, cut: set<char>)
    requires s != [] && s[0] !in cut && s[|s| - 1] !in cut
    ensures TrimBoth(s, cut) == s
  {
    TrimStable(s, cut);
  }

  /** Trimming twice is trimming once. */
  lemma TrimTwice(s: string, cut: set<char>)
    ensures TrimBoth(TrimBoth(s, cut), cut) == TrimBoth(s, cut)
  {
    TrimStable(TrimBoth(s, cut), cut);
  }

  /** Leading white space before a word-bounded text is trimmed away. */
  lemma TrimSpaceLead(s: string)
    requires s != [] && s[0] !in Spaces && s[|s| - 1] !in Spaces
    ensures TrimSpace([' '] + s) == s
  {
    assert ([' '] + s)[1..] == s;
    TrimStable(s, Spaces);
  }

  lemma TrimStable(r: string, cut: set<char>)
    requires r != [] ==> r[0] !in cut && r[|r| - 1] !in cut
    ensures TrimLeft(r, cut) == r && TrimRight(r, cut) == r
  {
  }
}
