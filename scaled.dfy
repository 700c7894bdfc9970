/** The long-division loops of `/=` and `%=` (BigDecimal.cpp:257-336) work on local
    BigDecimals that all hold non-negative multiples of one power of ten. This module
    names that situation and wraps the operators those loops call (`+=`, `-=`, `*`,
    `<=`, the `long long` constructor) in the exact results they give there. */
module ScaledValues {
  import opened DigitSeq
  import opened Representation
  import opened Comparator
  import opened Arithmetic
  import opened Multiplier
  import opened Integers

  /** `d` is canonical, non-negative and holds n * 10^f. */
  predicate IsScaled(d: Dec, n: int, f: int)
  {
    Canonical(d) && d.sign && n >= 0 && Mag(d) == Scale(n, f)
  }

  /** n * 10^f is a positive value below 0.1: the values the comparator misplaces
      against zero. */
  predicate Small(n: int, f: int)
  {
    n > 0 && Scale(n, f) < Pow10(-1)
  }

  lemma ScaledOf(d: Dec, n: int, f: int)
    requires Canonical(d) && Value(d) == Scale(n, f) && n >= 0
    ensures IsScaled(d, n, f)
  {
    ScaleNonNegative(n, f);
    CanonicalSign(d);
  }

  /** A scaled value is zero exactly when its digits are empty, and then it is `Zero`. */
  lemma ScaledZero(d: Dec, n: int, f: int)
    requires IsScaled(d, n, f)
    ensures n == 0 <==> d.digits == []
    ensures n == 0 <==> d == Zero
  {
    ScaleZero(f);
    ScaleCompare(0, n, f);
    if d.digits != [] {
      NonzeroMag(d);
    } else {
      ZeroMag(d);
    }
  }

  /** The comparator misplaces two scaled values only when one is zero and the other
      Small. */
  lemma ScaledMisordered(x: Dec, m: int, y: Dec, n: int, f: int)
    requires IsScaled(x, m, f) && IsScaled(y, n, f)
    ensures Misordered(x, y) <==> (m == 0 && Small(n, f)) || (n == 0 && Small(m, f))
  {
    ScaledZero(x, m, f);
    ScaledZero(y, n, f);
    assert Pow10(-1) == 0.1;
    if x.digits != [] {
      TopNegativeMeansSmall(x);
    }
    if y.digits != [] {
      TopNegativeMeansSmall(y);
    }
  }

  /** Whole numbers are never Small. */
  lemma WholeNotSmall(n: int)
    ensures !Small(n, 0)
  {
    if n > 0 {
      ScaleLe(1, n, 0);
      assert Num(1) == 1.0;
      assert Pow10(-1) == 0.1;
    }
  }

  /** A Small multiple of 10^f is below 10^(-1-f). */
  lemma SmallBound(n: int, f: int)
    requires Small(n, f)
    ensures f <= -1 && n < Pow(-1 - f)
  {
    if f >= 0 {
      ScaleLe(1, n, f);
      ScaleOne(f);
      Pow10Monotone(-1, f);
    } else {
      ScalePow(-1 - f, f);
      assert f + (-1 - f) == -1;
      ScaleCompare(n, Pow(-1 - f), f);
    }
  }

  /** Where the comparator is right, `x <= y` on scaled values is `m <= n`. */
  lemma ScaledCompare(x: Dec, m: int, y: Dec, n: int, f: int)
    requires IsScaled(x, m, f) && IsScaled(y, n, f) && !Misordered(x, y)
    ensures Compare(x, y) != Greater <==> m <= n
    ensures Compare(x, y) == Equal <==> m == n
  {
    CompareAgrees(x, y);
    ScaleCompare(m, n, f);
  }

  /** `x += y` for two non-negative operands: `doAdd`, exact. */
  method AddNonNegative(x: Dec, y: Dec) returns (s: Dec)
    requires WellFormed(x) && WellFormed(y) && x.sign && y.sign
    ensures Canonical(s) && s.sign && Mag(s) == Mag(x) + Mag(y)
  {
    var r := AddAssign(x, y);
    s := r.value;
    MagNonNegative(x);
    MagNonNegative(y);
    CanonicalSign(s);
  }

  /** `x += y` on scaled values. */
  method AddScaled(x: Dec, ghost m: int, y: Dec, ghost n: int, ghost f: int) returns (s: Dec)
    requires IsScaled(x, m, f) && IsScaled(y, n, f)
    ensures IsScaled(s, m + n, f)
  {
    s := AddNonNegative(x, y);
    ScaleAdd(m, n, f);
  }

  /** `x -= y` with x >= y: exact, unless the pair is one the comparator misplaces, when
      `doSubtract` throws `logic_error`. */
  method SubScaled(x: Dec, ghost m: int, y: Dec, ghost n: int, ghost f: int)
    returns (r: Result<Dec>)
    requires IsScaled(x, m, f) && IsScaled(y, n, f) && n <= m
    ensures r.Ok? <==> !Misordered(x, y)
    ensures r.Ok? ==> IsScaled(r.value, m - n, f)
    ensures r.Err? ==> r.error == LogicError
  {
    r := SubAssign(x, y);
    if Misordered(x, y) {
      SubMisordered(x, y);
    } else {
      SubExact(x, y);
      ScaleSub(m, n, f);
      ScaledOf(r.value, m - n, f);
    }
  }

  /** `x * 10`: the literal converted by the `long long` constructor, then `*=`. */
  method TimesTen(x: Dec, ghost m: int, ghost f: int) returns (s: Dec)
    requires IsScaled(x, m, f)
    ensures IsScaled(s, 10 * m, f)
  {
    var ten := FromInt(10);
    s := MulAssign(x, ten);
    ScaleMul(m, f, 10, 0);
    assert f + 0 == f && m * 10 == 10 * m;
    ScaledOf(s, 10 * m, f);
  }

  /** `x + (c - '0')` for a digit c, the digit converted by the `long long` constructor;
      at scale f <= 0 the digit is c * 10^(-f) units. */
  method PlusDigit(x: Dec, ghost m: int, c: int, ghost f: int) returns (s: Dec)
    requires IsScaled(x, m, f) && IsDigit(c) && f <= 0
    ensures IsScaled(s, m + c * Pow(-f), f)
  {
    var cd := FromInt(c);
    ScaleShift(c, -f, f);
    assert f + -f == 0 && Pow(-f) * c == c * Pow(-f);
    ScaledOf(cd, c * Pow(-f), f);
    s := AddScaled(x, m, cd, c * Pow(-f), f);
  }

  /** `++mult`: adds the constant 1. */
  method Increment(x: Dec, ghost m: int) returns (s: Dec)
    requires IsScaled(x, m, 0)
    ensures IsScaled(s, m + 1, 0)
  {
    var one := FromInt(1);
    ScaledOf(one, 1, 0);
    s := AddScaled(x, m, one, 1, 0);
  }
}
