/** The state of a BigDecimal (BigDecimal.h:54-56) as a value, its numeric meaning and
    the normalisation invariant (BigDecimal.h:57-59). A C++ BigDecimal is copied
    memberwise, so every local copy the algorithms make is one of these values. */
module Representation {
  import opened DigitSeq

  /** `digits` least-significant first, `sign` true for non-negative, value
      sign * DigitsVal(digits) * 10^exponent. */
  datatype Dec = Dec(digits: seq<int>, sign: bool, exponent: int)

  /** The errors the source throws. */
  datatype Error =
    | InvalidArgument(text: string)  // std::invalid_argument from the parser or std::stoi
    | OutOfRange                     // std::out_of_range from vector::at
    | LogicError                     // std::logic_error("Invalid digit state")
    | Overflow                       // std::overflow_error from toInt64
    | Underflow                      // std::underflow_error from toInt64

  datatype Result<T> = Ok(value: T) | Err(error: Error)

  /** A default-constructed BigDecimal: empty digits, sign true, exponent 0 (BigDecimal.h:7,54-56). */
  const Zero := Dec([], true, 0)

  /** The magnitude |value|. */
  function Mag(d: Dec): real
  {
    Scale(DigitsVal(d.digits), d.exponent)
  }

  /** The numeric value. */
  function Value(d: Dec): real
  {
    if d.sign then Mag(d) else -Mag(d)
  }

  predicate WellFormed(d: Dec)
  {
    ValidDigits(d.digits)
  }

  /** The invariant normalize establishes: no zero at either end of `digits`, and zero is
      represented only by empty digits, sign true and exponent 0. */
  predicate Canonical(d: Dec)
  {
    && ValidDigits(d.digits)
    && (d.digits == [] ==> d.sign && d.exponent == 0)
    && (d.digits != [] ==> d.digits[0] != 0 && d.digits[|d.digits| - 1] != 0)
  }

  /** The position just above the most significant digit: `digits.size() + exponent`. */
  function Top(d: Dec): int
  {
    |d.digits| + d.exponent
  }

  lemma MagNonNegative(d: Dec)
    requires WellFormed(d)
    ensures Mag(d) >= 0.0
  {
    DigitsValBounds(d.digits);
    ScaleNonNegative(DigitsVal(d.digits), d.exponent);
  }

  /** A canonical nonzero value has magnitude in [10^(Top-1), 10^Top). */
  lemma MagBounds(d: Dec)
    requires Canonical(d) && d.digits != []
    ensures Pow10(Top(d) - 1) <= Mag(d) < Pow10(Top(d))
  {
    var n := |d.digits|;
    DigitsValLowerBound(d.digits);
    DigitsValBounds(d.digits);
    ScaleLe(Pow(n - 1), DigitsVal(d.digits), d.exponent);
    ScaleLt(DigitsVal(d.digits), Pow(n), d.exponent);
    ScalePow(n - 1, d.exponent);
    ScalePow(n, d.exponent);
  }

  /** 10^k placed at exponent e is 10^(e+k). */
  lemma ScalePow(k: nat, e: int)
    ensures Scale(Pow(k), e) == Pow10(e + k)
  {
    ScaleShift(1, k, e);
    ScaleOne(e + k);
  }

  lemma ZeroMag(d: Dec)
    requires d.digits == []
    ensures Mag(d) == 0.0 && Value(d) == 0.0
  {
    ScaleZero(d.exponent);
  }

  lemma NonzeroMag(d: Dec)
    requires Canonical(d) && d.digits != []
    ensures Mag(d) > 0.0
  {
    MagBounds(d);
  }

  /** Prepending `k` zero digits while lowering the exponent by `k` keeps the magnitude:
      the alignment step of the algorithms. */
  lemma MagShift(d: Dec, k: nat)
    ensures Mag(Dec(Zeros(k) + d.digits, d.sign, d.exponent - k)) == Mag(d)
  {
    DigitsValShift(k, d.digits);
    ScaleShift(DigitsVal(d.digits), k, d.exponent - k);
  }

  /** Two canonical representations with the same value are identical: the defaulted
      memberwise `==` (BigDecimal.h:46) is numeric equality on canonical values. */
  lemma {:induction false} CanonicalUnique(a: Dec, b: Dec)
    requires Canonical(a) && Canonical(b)
    requires Value(a) == Value(b)
    ensures a == b
  {
    if a.digits == [] && b.digits == [] {
    } else if a.digits == [] {
      NonzeroMag(b);
    } else if b.digits == [] {
      NonzeroMag(a);
    } else {
      NonzeroMag(a);
      NonzeroMag(b);
      assert a.sign == b.sign;
      assert Mag(a) == Mag(b);
      SameMagExponent(a, b);
      SameMagExponent(b, a);
      ScaleCompare(DigitsVal(a.digits), DigitsVal(b.digits), a.exponent);
      DigitsValInjective(a.digits, b.digits);
    }
  }

  /** Equal magnitudes force the exponents of canonical values to agree: with a smaller
      exponent on the left, the left digit vector would start with a zero. */
  lemma SameMagExponent(a: Dec, b: Dec)
    requires Canonical(a) && Canonical(b) && a.digits != [] && b.digits != []
    requires Mag(a) == Mag(b)
    ensures a.exponent >= b.exponent
  {
    if a.exponent < b.exponent {
      var k := b.exponent - a.exponent;
      MagShift(b, k);
      ScaleCompare(DigitsVal(a.digits), DigitsVal(Zeros(k) + b.digits), a.exponent);
      DigitsValShift(k, b.digits);
      MultipleOfTen(Pow(k - 1), DigitsVal(b.digits));
      DigitsValNotMultipleOfTen(a.digits);
      assert false;
    }
  }

  lemma MultipleOfTen(p: int, v: int)
    ensures (10 * p * v) % 10 == 0
  {
    assert 10 * p * v == 10 * (p * v);
  }

  /** Canonical values are non-negative exactly when their sign is true. */
  lemma CanonicalSign(d: Dec)
    requires Canonical(d)
    ensures d.sign <==> Value(d) >= 0.0
    ensures d.digits != [] ==> Value(d) != 0.0
  {
    if d.digits != [] {
      NonzeroMag(d);
    }
  }

  /** A canonical value is below 0.1 in magnitude exactly when its `Top` is negative;
      this is what makes zero (Top 0) compare above such values. */
  lemma TopNegativeMeansSmall(d: Dec)
    requires Canonical(d) && d.digits != []
    ensures Top(d) < 0 <==> Mag(d) < 0.1
  {
    MagBounds(d);
    assert Pow10(-1) == 0.1;
    if Top(d) < 0 {
      Pow10Monotone(Top(d), -1);
    } else {
      Pow10Monotone(-1, Top(d) - 1);
    }
  }
}
