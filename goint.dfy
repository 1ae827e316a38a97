/** Go's integer division and remainder, which truncate toward zero. */
module GoInt {
  import opened Bits

  function Abs(x: int): nat { if x < 0 then -x else x }

  /** a / b in Go: the quotient of the magnitudes, negated when the signs differ. */
  function GoDiv(a: int, b: int): int
    requires b != 0
  {
    var q := Abs(a) / Abs(b);
    if (a < 0) != (b < 0) then -q else q
  }

  /** a % b in Go: what is left after GoDiv, carrying the sign of a. */
  function GoRem(a: int, b: int): int
    requires b != 0
  {
    a - b * GoDiv(a, b)
  }

  /** The defining property of truncated division: a remainder smaller than b in magnitude, with a's sign. */
  lemma GoDivRem(a: int, b: int)
    requires b != 0
    ensures a == b * GoDiv(a, b) + GoRem(a, b)
    ensures Abs(GoRem(a, b)) < Abs(b)
    ensures a >= 0 ==> GoRem(a, b) >= 0
    ensures a <= 0 ==> GoRem(a, b) <= 0
  {
    if b > 0 {
      RemOfPositive(a, b);
    } else {
      RemOfNegative(a, b);
    }
  }

  lemma RemOfPositive(a: int, b: int)
    requires b > 0
    ensures GoRem(a, b) == if a >= 0 then a % b else -((-a) % b)
  {
  }

  lemma RemOfNegative(a: int, b: int)
    requires b < 0
    ensures GoRem(a, b) == if a >= 0 then a % (-b) else -((-a) % (-b))
  {
    var c := -b;
    if a >= 0 {
      assert GoDiv(a, b) == -(a / c);
      assert b * -(a / c) == c * (a / c);
    } else {
      assert GoDiv(a, b) == (-a) / c;
      assert b * ((-a) / c) == -(c * ((-a) / c));
    }
  }

  /** On non-negative operands Go's division is Dafny's. */
  lemma GoDivNonNegative(a: int, b: int)
    requires a >= 0 && b > 0
    ensures GoDiv(a, b) == a / b && GoRem(a, b) == a % b
    ensures GoDiv(a, b) >= 0 && 0 <= GoRem(a, b) < b
  {
    DivNonNegative(a, b);
  }

  /** A dividend smaller in magnitude than the divisor gives quotient 0 and is its own remainder. */
  lemma GoDivSmall(a: int, b: int)
    requires b > 0 && -b < a < b
    ensures GoDiv(a, b) == 0 && GoRem(a, b) == a
  {
    ModOfSmall(Abs(a), b);
  }

  /** For 0 <= t <= l, d·t/l truncated lies between 0 and d, on d's side of zero. */
  lemma GoDivScaled(d: int, t: int, l: int)
    requires 0 <= t <= l && 0 < l
    ensures d >= 0 ==> 0 <= GoDiv(d * t, l) <= d
    ensures d <= 0 ==> d <= GoDiv(d * t, l) <= 0
  {
    if d >= 0 {
      assert 0 <= d * t <= d * l;
      QuotientAtMost(d * t, l, d);
    } else {
      assert 0 <= -d * t <= -d * l;
      assert Abs(d * t) == -d * t;
      QuotientAtMost(-d * t, l, -d);
    }
  }

  lemma QuotientAtMost(x: int, l: int, d: int)
    requires 0 <= x <= d * l && 0 < l
    ensures 0 <= x / l <= d
  {
    var q := x / l;
    assert l * q <= x;
    assert l * (q - d) <= 0;
  }

  /** Truncated division by a positive divisor never decreases as the dividend grows. */
  lemma GoDivMonotone(a: int, b: int, d: int)
    requires a <= b && d > 0
    ensures GoDiv(a, d) <= GoDiv(b, d)
  {
    if a >= 0 {
      DivMonotone(a, b, d);
      assert GoDiv(a, d) == a / d && GoDiv(b, d) == b / d;
    } else if b < 0 {
      DivMonotone(-b, -a, d);
      assert GoDiv(a, d) == -((-a) / d) && GoDiv(b, d) == -((-b) / d);
    } else {
      assert GoDiv(a, d) == -((-a) / d) && GoDiv(b, d) == b / d;
      DivMonotone(0, -a, d);
      DivMonotone(0, b, d);
    }
  }

  lemma DivMonotone(a: int, b: int, d: int)
    requires 0 <= a <= b && d > 0
    ensures a / d <= b / d
  {
    var qa, qb := a / d, b / d;
    assert qa * d <= a && b < qb * d + d;
    MulLower(qa - qb, d);
    assert (qa - qb) * d == qa * d - qb * d;
  }
}
