/** The `long long` constructor (BigDecimal.cpp:9-16) and `toInt64` with its helper
    `longLongE` (BigDecimal.cpp:100-143). C++ `long long` is modelled as an `int` kept in
    [MinInt64, MaxInt64] by explicit checks; its truncating `/` and `%` are written out. */
module Integers {
  import opened DigitSeq
  import opened Representation
  import opened Normalizer

  const MaxInt64: int := 0x7FFF_FFFF_FFFF_FFFF
  const MinInt64: int := -0x8000_0000_0000_0000
  /** size_t arithmetic is modulo 2^64. */
  const SizeModulus: int := 0x1_0000_0000_0000_0000

  predicate IsInt64(i: int) { MinInt64 <= i <= MaxInt64 }

  /** The fields of a C++ object fit their types: `exponent` is an `int` and the vector
      holds fewer than 2^63 digits. */
  predicate MachineSized(d: Dec)
  {
    |d.digits| < 0x8000_0000_0000_0000 && -0x8000_0000 <= d.exponent < 0x8000_0000
  }

  function AbsInt(i: int): nat { if i < 0 then -i else i }

  /** C++ integer division by a positive divisor: rounds toward zero. */
  function TruncDiv(a: int, b: int): int
    requires b > 0
  {
    if a >= 0 then a / b else -((-a) / b)
  }

  /** C++ `%`: the remainder takes the sign of the dividend. */
  function TruncRem(a: int, b: int): int
    requires b > 0
  {
    a - b * TruncDiv(a, b)
  }

  /** One step of the constructor's loop: the pushed digit is the last decimal digit of
      |i|, and the quotient is |i| / 10 with the sign of i. */
  lemma TruncStep(i: int)
    ensures AbsInt(TruncRem(i, 10)) == AbsInt(i) % 10
    ensures AbsInt(TruncDiv(i, 10)) == AbsInt(i) / 10
    ensures (i >= 0 ==> TruncDiv(i, 10) >= 0) && (i <= 0 ==> TruncDiv(i, 10) <= 0)
  {
  }

  /** `BigDecimal(long long i)`: the decimal digits of |i| pushed least-significant
      first, the sign taken from i, then `normalize()`. Every `long long`, including the
      minimum, is represented exactly. */
  method FromInt(i: int) returns (r: Dec)
    requires IsInt64(i)
    ensures Canonical(r)
    ensures Value(r) == Scale(i, 0)
  {
    var sign := i >= 0;
    var digits: seq<int> := [];
    var n := i;
    while n != 0
      invariant ValidDigits(digits)
      invariant (i >= 0 ==> n >= 0) && (i <= 0 ==> n <= 0)
      invariant DigitsVal(digits) + Pow(|digits|) * AbsInt(n) == AbsInt(i)
      decreases AbsInt(n)
    {
      TruncStep(n);
      var digit := AbsInt(TruncRem(n, 10));
      DigitStep(DigitsVal(digits), Pow(|digits|), AbsInt(n));
      DigitsValSnoc(digits, digit);
      digits := digits + [digit];
      n := TruncDiv(n, 10);
    }
    r := Normalize(Dec(digits, sign, 0));
    SignedInt(i, Dec(digits, sign, 0));
  }

  /** Splitting off the last decimal digit of a non-negative n at place p. */
  lemma DigitStep(v: int, p: int, n: nat)
    ensures v + p * n == v + p * (n % 10) + (10 * p) * (n / 10)
  {
    assert n == 10 * (n / 10) + n % 10;
    assert p * n == p * (n % 10) + p * (10 * (n / 10));
    assert p * (10 * (n / 10)) == (10 * p) * (n / 10);
  }

  /** The digits spell |i| and the sign is that of i, so the value is i. */
  lemma SignedInt(i: int, d: Dec)
    requires d.exponent == 0 && d.sign == (i >= 0) && DigitsVal(d.digits) == AbsInt(i)
    ensures Value(d) == Scale(i, 0)
  {
    if i < 0 {
      ScaleNeg(-i, 0);
    }
  }

  /** The error `toInt64` throws for a value out of range: overflow for non-negative,
      underflow for negative values. */
  function RangeError(sign: bool): Error
  {
    if sign then Overflow else Underflow
  }

  /** The contribution of one digit at place `pos` to the integer part. */
  function Term(x: int, pos: int): int
  {
    if pos >= 0 then x * Pow(pos) else 0
  }

  /** The sum of the digits at non-negative places, `ds[k]` sitting at place `e + k`. */
  function WholePart(ds: seq<int>, e: int): int
  {
    if ds == [] then 0 else WholePart(ds[..|ds| - 1], e) + Term(ds[|ds| - 1], e + |ds| - 1)
  }

  /** |value| with everything after the decimal point dropped. */
  function IntPart(d: Dec): int
  {
    WholePart(d.digits, d.exponent)
  }

  /** The conversion the header promises: the value truncated toward zero, or
      overflow/underflow when that does not fit a `long long`. */
  function Int64Of(d: Dec): Result<int>
  {
    var w := IntPart(d);
    if d.sign then (if w <= MaxInt64 then Ok(w) else Err(Overflow))
    else if w <= -MinInt64 then Ok(-w) else Err(Underflow)
  }

  /** What `toInt64` computes: the size check is done on `digits.size() + exponent` in
      size_t, so a negative sum wraps around and is rejected as too large. */
  function ToInt64Outcome(d: Dec): Result<int>
  {
    if (|d.digits| + d.exponent) % SizeModulus > 19 then Err(RangeError(d.sign)) else Int64Of(d)
  }

  /** `longLongE(digit, pos)`: digit * 10^pos by repeated multiplication. Its callers pass
      pos <= 18, so the product stays below 2^63. */
  method LongLongE(digit: int, pos: int) returns (r: int)
    requires IsDigit(digit) && 0 <= pos <= 18
    ensures r == Term(digit, pos) && 0 <= r <= MaxInt64
  {
    r := digit;
    if r == 0 {
      return;
    }
    var i := 0;
    while i < pos
      invariant 0 <= i <= pos
      invariant r == digit * Pow(i)
    {
      TimesTenStep(digit, i, r);
      r := r * 10;
      i := i + 1;
    }
    TermFits(digit, pos, r);
  }

  /** One pass of the `longLongE` loop: ten times digit * 10^i is digit * 10^(i+1). */
  lemma TimesTenStep(digit: int, i: nat, r: int)
    requires r == digit * Pow(i)
    ensures r * 10 == digit * Pow(i + 1)
  {
    assert Pow(i + 1) == 10 * Pow(i);
    MulTen(Pow(i), digit);
  }

  /** A digit times a power of ten up to 10^18 is the digit's term and fits `long long`. */
  lemma TermFits(digit: int, pos: int, r: int)
    requires IsDigit(digit) && 0 <= pos <= 18 && r == digit * Pow(pos)
    ensures r == Term(digit, pos) && 0 <= r <= MaxInt64
  {
    PowMonotone(pos, 18);
    LargePowers();
    DigitTimesPowerFits(digit, Pow(pos));
  }

  lemma DigitTimesPowerFits(digit: int, p: int)
    requires IsDigit(digit) && 0 <= p <= 1_000_000_000_000_000_000
    ensures 0 <= digit * p <= MaxInt64
  {
    assert digit * p <= 9 * p;
  }

  lemma LargePowers()
    ensures Pow(18) == 1_000_000_000_000_000_000
    ensures Pow(19) == 10_000_000_000_000_000_000
  {
    assert Pow(3) == 1000;
    PowAdd(3, 3);
    PowAdd(6, 6);
    PowAdd(12, 6);
  }

  /** `toInt64()`. */
  method ToInt64(d: Dec) returns (r: Result<int>)
    requires WellFormed(d) && MachineSized(d)
    ensures r == ToInt64Outcome(d)
  {
    if (|d.digits| + d.exponent) % SizeModulus > 19 {
      return Err(RangeError(d.sign));
    }
    if d.sign {
      r := AccumulatePositive(d);
    } else {
      r := AccumulateNegative(d);
    }
  }

  /** The first loop of `toInt64`: adds the digits at non-negative places, throwing
      overflow as soon as the next addition would pass MaxInt64. */
  method AccumulatePositive(d: Dec) returns (r: Result<int>)
    requires WellFormed(d) && MachineSized(d) && d.sign
    requires (|d.digits| + d.exponent) % SizeModulus <= 19
    ensures r == Int64Of(d)
  {
    var result := 0;
    var pos := d.exponent;
    var k := 0;
    PlacesFit(d);
    while k < |d.digits|
      invariant 0 <= k <= |d.digits| && pos == d.exponent + k
      invariant result == WholePart(d.digits[..k], d.exponent) && result <= MaxInt64
    {
      WholePartPrefixStep(d.digits, d.exponent, k);
      if pos >= 0 {
        var toAdd := LongLongE(d.digits[k], pos);
        if toAdd > MaxInt64 - result {
          PrefixExceeds(d.digits, d.exponent, k + 1, MaxInt64);
          return Err(Overflow);
        }
        result := result + toAdd;
      }
      pos := pos + 1;
      k := k + 1;
    }
    assert d.digits[..k] == d.digits;
    r := Ok(result);
  }

  /** The second loop of `toInt64`: subtracts the digits at non-negative places, throwing
      underflow as soon as the next subtraction would pass MinInt64. */
  method AccumulateNegative(d: Dec) returns (r: Result<int>)
    requires WellFormed(d) && MachineSized(d) && !d.sign
    requires (|d.digits| + d.exponent) % SizeModulus <= 19
    ensures r == Int64Of(d)
  {
    var result := 0;
    var pos := d.exponent;
    var k := 0;
    PlacesFit(d);
    while k < |d.digits|
      invariant 0 <= k <= |d.digits| && pos == d.exponent + k
      invariant result == -WholePart(d.digits[..k], d.exponent) && result >= MinInt64
    {
      WholePartPrefixStep(d.digits, d.exponent, k);
      if pos >= 0 {
        var toSubtract := LongLongE(d.digits[k], pos);
        if -1 * toSubtract < MinInt64 - result {
          PrefixExceeds(d.digits, d.exponent, k + 1, -MinInt64);
          return Err(Underflow);
        }
        result := result - toSubtract;
      }
      pos := pos + 1;
      k := k + 1;
    }
    assert d.digits[..k] == d.digits;
    r := Ok(result);
  }

  /** A size check passed in size_t bounds the places of a machine-sized value. */
  lemma PlacesFit(d: Dec)
    requires MachineSized(d) && (|d.digits| + d.exponent) % SizeModulus <= 19
    ensures |d.digits| + d.exponent <= 19
  {
  }

  /** A prefix whose integer part passes a bound takes the whole integer part past it. */
  lemma PrefixExceeds(ds: seq<int>, e: int, j: nat, bound: int)
    requires ValidDigits(ds) && j <= |ds| && WholePart(ds[..j], e) > bound
    ensures WholePart(ds, e) > bound
  {
    WholePartPrefixLe(ds, e, j);
  }

  lemma WholePartPrefixStep(ds: seq<int>, e: int, k: nat)
    requires k < |ds|
    ensures WholePart(ds[..k + 1], e) == WholePart(ds[..k], e) + Term(ds[k], e + k)
  {
    assert ds[..k + 1][..k] == ds[..k];
  }

  /** Every digit adds a non-negative amount, so a prefix's integer part is at most the
      whole vector's. */
  lemma {:induction false} WholePartPrefixLe(ds: seq<int>, e: int, j: nat)
    requires ValidDigits(ds) && j <= |ds|
    ensures 0 <= WholePart(ds[..j], e) <= WholePart(ds, e)
    decreases |ds|
  {
    if j == |ds| {
      assert ds[..j] == ds;
      WholePartNonNegative(ds, e);
    } else {
      var n := |ds| - 1;
      WholePartPrefixLe(ds[..n], e, j);
      assert ds[..n][..j] == ds[..j];
    }
  }

  lemma {:induction false} WholePartNonNegative(ds: seq<int>, e: int)
    requires ValidDigits(ds)
    ensures WholePart(ds, e) >= 0
  {
    if ds != [] {
      WholePartNonNegative(ds[..|ds| - 1], e);
    }
  }

  /** With all places non-negative the integer part is the whole digit value scaled. */
  lemma {:induction false} WholePartScaled(ds: seq<int>, e: nat)
    ensures WholePart(ds, e) == Pow(e) * DigitsVal(ds)
  {
    if ds != [] {
      var n := |ds| - 1;
      WholePartScaled(ds[..n], e);
      assert ds == ds[..n] + [ds[n]];
      DigitsValSnoc(ds[..n], ds[n]);
      PowAdd(e, n);
      AppendScaled(Pow(e), Pow(n), DigitsVal(ds[..n]), ds[n]);
    }
  }

  lemma AppendScaled(p: int, q: int, v: int, x: int)
    ensures p * v + x * (p * q) == p * (v + q * x)
  {
  }

  /** Digits at negative places contribute nothing. */
  lemma {:induction false} WholePartFraction(ds: seq<int>, e: int)
    requires e + |ds| <= 0
    ensures WholePart(ds, e) == 0
  {
    if ds != [] {
      WholePartFraction(ds[..|ds| - 1], e);
    }
  }

  /** Dropping `k` digits that all sit at negative places. */
  lemma {:induction false} WholePartDropLow(ds: seq<int>, e: int, k: nat)
    requires k <= |ds| && e + k <= 0
    ensures WholePart(ds, e) == WholePart(ds[k..], e + k)
    decreases |ds|
  {
    if |ds| == k {
      WholePartFraction(ds, e);
    } else {
      var n := |ds| - 1;
      WholePartDropLow(ds[..n], e, k);
      assert ds[..n][k..] == ds[k..][..n - k];
    }
  }

  /** The integer part is the floor of the magnitude. */
  lemma IntPartFloor(d: Dec)
    requires WellFormed(d)
    ensures Scale(IntPart(d), 0) <= Mag(d) < Scale(IntPart(d) + 1, 0)
  {
    if d.exponent >= 0 {
      IntPartWhole(d);
    } else if |d.digits| <= -d.exponent {
      IntPartFractionOnly(d);
    } else {
      IntPartMixed(d);
    }
  }

  /** `IntPartFloor` when no digit lies below the point. */
  lemma IntPartWhole(d: Dec)
    requires WellFormed(d) && d.exponent >= 0
    ensures Scale(IntPart(d), 0) <= Mag(d) < Scale(IntPart(d) + 1, 0)
  {
    WholePartScaled(d.digits, d.exponent);
    ScaleShift(DigitsVal(d.digits), d.exponent, 0);
    ScaleLt(IntPart(d), IntPart(d) + 1, 0);
  }

  /** `IntPartFloor` when every digit lies below the point. */
  lemma IntPartFractionOnly(d: Dec)
    requires WellFormed(d) && d.exponent < 0 && |d.digits| <= -d.exponent
    ensures Scale(IntPart(d), 0) <= Mag(d) < Scale(IntPart(d) + 1, 0)
  {
    var ds, e := d.digits, d.exponent;
    WholePartFraction(ds, e);
    DigitsValBounds(ds);
    PowMonotone(|ds|, -e);
    FractionBelowOne(DigitsVal(ds), -e, e);
    ScaleZero(0);
  }

  /** `IntPartFloor` when digits lie on both sides of the point. */
  lemma IntPartMixed(d: Dec)
    requires WellFormed(d) && d.exponent < 0 && |d.digits| > -d.exponent
    ensures Scale(IntPart(d), 0) <= Mag(d) < Scale(IntPart(d) + 1, 0)
  {
    var k := -d.exponent;
    var low, high := d.digits[..k], d.digits[k..];
    IntPartOfHigh(d, k, high);
    MagSplit(d, k, low, high);
    DigitsValBounds(low);
    FractionBelowOne(DigitsVal(low), k, d.exponent);
    ScaleAdd(DigitsVal(high), 1, 0);
  }

  /** The integer part is the value of the digits at non-negative places. */
  lemma IntPartOfHigh(d: Dec, k: nat, high: seq<int>)
    requires k == -d.exponent && k <= |d.digits| && high == d.digits[k..]
    ensures IntPart(d) == DigitsVal(high)
  {
    WholePartDropLow(d.digits, d.exponent, k);
    assert d.exponent + k == 0;
    WholePartScaled(high, 0);
  }

  /** The magnitude splits into the digits below the point and those above it. */
  lemma MagSplit(d: Dec, k: nat, low: seq<int>, high: seq<int>)
    requires k == -d.exponent && k <= |d.digits| && low == d.digits[..k] && high == d.digits[k..]
    ensures Mag(d) == Scale(DigitsVal(low), d.exponent) + Scale(DigitsVal(high), 0)
  {
    assert d.digits == low + high;
    DigitsValAppend(low, high);
    ScaleAddTo(DigitsVal(low), Pow(k) * DigitsVal(high), DigitsVal(d.digits), d.exponent);
    ScaleShiftTo(DigitsVal(high), k, d.exponent, Pow(k) * DigitsVal(high), 0);
  }

  /** A digit value below 10^k placed k places below the point is in [0, 1). */
  lemma FractionBelowOne(v: int, k: nat, e: int)
    requires 0 <= v < Pow(k) && e + k == 0
    ensures 0.0 <= Scale(v, e) < Scale(1, 0)
  {
    ScaleNonNegative(v, e);
    ScaleLt(v, Pow(k), e);
    ScaleShift(1, k, e);
    assert Pow(k) * 1 == Pow(k);
  }

  /** The intended conversion truncates toward zero: a result is the value with its
      fraction dropped and fits a `long long`; an error means the truncated value does
      not fit, overflow above MaxInt64 and underflow below MinInt64. */
  lemma Int64OfTruncates(d: Dec)
    requires WellFormed(d)
    ensures match Int64Of(d)
      case Ok(n) =>
        && IsInt64(n)
        && (d.sign ==> Scale(n, 0) <= Value(d) < Scale(n + 1, 0))
        && (!d.sign ==> Scale(n - 1, 0) < Value(d) <= Scale(n, 0))
      case Err(err) =>
        && err == RangeError(d.sign)
        && (d.sign ==> Value(d) >= Scale(MaxInt64 + 1, 0))
        && (!d.sign ==> Value(d) <= Scale(MinInt64 - 1, 0))
  {
    var w := IntPart(d);
    IntPartFloor(d);
    IntPartNonNegative(d);
    if d.sign {
      if w > MaxInt64 {
        ScaleLe(MaxInt64 + 1, w, 0);
      }
    } else {
      ScaleNeg(w, 0);
      ScaleNeg(w + 1, 0);
      assert -w - 1 == -(w + 1);
      if w > -MinInt64 {
        ScaleLe(-MinInt64 + 1, w, 0);
        ScaleNeg(-MinInt64 + 1, 0);
      }
    }
  }

  lemma IntPartNonNegative(d: Dec)
    requires WellFormed(d)
    ensures IntPart(d) >= 0
  {
    WholePartNonNegative(d.digits, d.exponent);
  }

  /** For zero and for every value of at least 0.1 in magnitude, `toInt64` returns the
      intended conversion: a `digits.size() + exponent` above 19 already means a
      magnitude of at least 10^19, beyond every `long long`. */
  lemma ToInt64AsIntended(d: Dec)
    requires Canonical(d) && MachineSized(d) && (d.digits == [] || Top(d) >= 0)
    ensures ToInt64Outcome(d) == Int64Of(d)
  {
    if Top(d) > 19 {
      assert d.digits != [];
      MagBounds(d);
      Pow10Monotone(19, Top(d) - 1);
      ScalePow(19, 0);
      IntPartFloor(d);
      ScaleCompare(Pow(19), IntPart(d) + 1, 0);
      LargePowers();
    }
  }

  /** A nonzero value below 0.1 in magnitude makes `digits.size() + exponent` negative;
      in size_t it wraps around above 19 and `toInt64` throws, where truncation gives 0. */
  lemma ToInt64RejectsSmall(d: Dec)
    requires WellFormed(d) && MachineSized(d) && Top(d) < 0
    ensures ToInt64Outcome(d) == Err(RangeError(d.sign))
    ensures Int64Of(d) == Ok(0)
  {
    WholePartFraction(d.digits, d.exponent);
    assert (|d.digits| + d.exponent) % SizeModulus == |d.digits| + d.exponent + SizeModulus;
  }

  /** 0.05: `toInt64` throws overflow although the value truncates to 0. */
  lemma ToInt64SmallExample()
    ensures ToInt64Outcome(Dec([5], true, -2)) == Err(Overflow)
    ensures Int64Of(Dec([5], true, -2)) == Ok(0)
    ensures Value(Dec([5], true, -2)) == 0.05
  {
    ToInt64RejectsSmall(Dec([5], true, -2));
    assert Num(5) == 5.0;
  }

  /** Converting a `long long` to a BigDecimal and back gives it unchanged. */
  lemma Int64RoundTrip(r: Dec, i: int)
    requires IsInt64(i) && Canonical(r) && MachineSized(r) && Value(r) == Scale(i, 0)
    ensures ToInt64Outcome(r) == Ok(i)
  {
    CanonicalSign(r);
    ScaleCompare(i, 0, 0);
    ScaleZero(0);
    if i < 0 {
      ScaleNeg(i, 0);
    }
    assert Mag(r) == Scale(AbsInt(i), 0);
    if r.digits != [] {
      NonzeroMag(r);
      ScaleCompare(AbsInt(i), 0, 0);
      ScaleLe(1, AbsInt(i), 0);
      assert Num(1) == 1.0;
      TopNegativeMeansSmall(r);
    }
    ToInt64AsIntended(r);
    IntPartFloor(r);
    ScaleCompare(IntPart(r), AbsInt(i), 0);
    ScaleCompare(AbsInt(i), IntPart(r) + 1, 0);
  }
}
