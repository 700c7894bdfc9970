/** `singleDigitMultiply` and `operator*=` (BigDecimal.cpp:209-254): schoolbook
    multiplication, one row per digit of the shorter operand, the rows summed with `+=`. */
module Multiplier {
  import opened DigitSeq
  import opened Representation
  import opened Normalizer
  import opened Arithmetic

  /** One step of either digit loop of `singleDigitMultiply`: the digit written at place
      `p` and the new carry one place up account for the old digit times `digit` plus the
      old carry. */
  lemma MulStep(dv: int, p: int, x: int, digit: int, c: int, low: int)
    requires dv + c * p == digit * low
    ensures dv + p * ((x * digit + c) % 10) + ((x * digit + c) / 10) * (10 * p)
         == digit * (low + p * x)
  {
    var e := x * digit + c;
    var q, m := e / 10, e % 10;
    assert e == 10 * q + m;
    assert q * (10 * p) == p * (10 * q);
    assert p * m + p * (10 * q) == p * e;
    assert p * e == p * (x * digit) + c * p;
    assert p * (x * digit) == digit * (p * x);
  }

  /** The carry out of a digit times `digit` plus a carry of at most `digit` is again at
      most `digit`. */
  lemma CarryBound(x: int, digit: int, c: int)
    requires IsDigit(x) && 0 <= c <= digit
    ensures 0 <= x * digit + c && (x * digit + c) / 10 <= digit
  {
    assert x * digit <= 9 * digit;
  }

  /** `singleDigitMultiply(bd, digit)`: the digit vector of `bd` times `digit`, with sign
      true and exponent 0. `*=` passes one decimal digit; any non-negative factor works,
      the final loop pushing as many carry digits as it needs. */
  method SingleDigitMultiply(bd: Dec, digit: int) returns (r: Dec)
    requires WellFormed(bd) && digit >= 0
    ensures Canonical(r) && r.sign && r.exponent >= 0
    ensures DigitsVal(r.digits) * Pow(r.exponent) == DigitsVal(bd.digits) * digit
  {
    var ds, carry := MultiplyDigits(bd.digits, digit);
    ds := PushCarry(ds, carry, DigitsVal(bd.digits) * digit);
    r := Normalize(Dec(ds, true, 0));
    IntegerRep(r, Dec(ds, true, 0));
  }

  /** The first loop of `singleDigitMultiply`: every digit times `digit` plus the carry,
      the digit kept in place and the rest carried. */
  method MultiplyDigits(digits: seq<int>, digit: int) returns (ds: seq<int>, carry: int)
    requires ValidDigits(digits) && digit >= 0
    ensures |ds| == |digits| && ValidDigits(ds) && 0 <= carry <= digit
    ensures DigitsVal(ds) + carry * Pow(|ds|) == DigitsVal(digits) * digit
  {
    ds := digits;
    carry := 0;
    var i := 0;
    while i < |ds|
      invariant 0 <= i <= |ds| == |digits|
      invariant ValidDigits(ds[..i]) && ds[i..] == digits[i..]
      invariant 0 <= carry <= digit
      invariant DigitsVal(ds[..i]) + carry * Pow(i) == digit * DigitsVal(digits[..i])
    {
      assert ds[i] == digits[i];
      var elem := ds[i] * digit + carry;
      CarryBound(ds[i], digit, carry);
      MulStep(DigitsVal(ds[..i]), Pow(i), ds[i], digit, carry, DigitsVal(digits[..i]));
      ghost var before := ds[..i];
      ds := ds[i := elem % 10];
      carry := elem / 10;
      assert ds[..i] == before;
      DigitsValPrefixStep(ds, i);
      DigitsValPrefixStep(digits, i);
      i := i + 1;
    }
    assert ds[..i] == ds && digits[..i] == digits;
    assert digit * DigitsVal(digits) == DigitsVal(digits) * digit;
  }

  /** The second loop of `singleDigitMultiply`: the carry pushed one decimal digit at a
      time. */
  method PushCarry(ds0: seq<int>, carry0: int, ghost target: int) returns (ds: seq<int>)
    requires ValidDigits(ds0) && carry0 >= 0
    requires DigitsVal(ds0) + carry0 * Pow(|ds0|) == target
    ensures ValidDigits(ds) && DigitsVal(ds) == target
  {
    ds := ds0;
    var carry := carry0;
    while carry > 0
      invariant carry >= 0 && ValidDigits(ds)
      invariant DigitsVal(ds) + carry * Pow(|ds|) == target
    {
      MulStep(DigitsVal(ds), Pow(|ds|), 0, 1, carry, target);
      DigitsValSnoc(ds, carry % 10);
      ds := ds + [carry % 10];
      carry := carry / 10;
    }
  }

  /** The normalised form of an integer-valued state at exponent 0 spells the same
      integer with `exponent` zeros appended. */
  lemma IntegerRep(r: Dec, d: Dec)
    requires d.sign && d.exponent == 0 && Value(r) == Value(d)
    requires r.digits == [] ==> r.sign && r.exponent == 0
    requires r.digits != [] ==> r.sign == d.sign && d.exponent <= r.exponent
    ensures r.sign && r.exponent >= 0
    ensures DigitsVal(r.digits) * Pow(r.exponent) == DigitsVal(d.digits)
  {
    var v := DigitsVal(r.digits);
    ScaleShift(v, r.exponent, 0);
    assert 0 + r.exponent == r.exponent;
    ScaleCompare(Pow(r.exponent) * v, DigitsVal(d.digits), 0);
    assert v * Pow(r.exponent) == Pow(r.exponent) * v;
  }

  /** r is the canonical representation of the product of the values of a and b. */
  predicate ProductOutcome(a: Dec, b: Dec, r: Dec)
  {
    Canonical(r) && Value(r) == Value(a) * Value(b)
  }

  /** `operator*=`: the product of the values, normalised. */
  method MulAssign(a: Dec, b: Dec) returns (r: Dec)
    requires Canonical(a) && Canonical(b)
    ensures Canonical(r)
    ensures Value(r) == Value(a) * Value(b)
    ensures ProductOutcome(a, b, r)
  {
    var newSign := a.sign == b.sign;
    var newExponent := a.exponent + b.exponent;
    var bd1, d2;
    if |a.digits| > |b.digits| {
      bd1, d2 := a, b.digits;
    } else {
      bd1, d2 := b, a.digits;
    }
    if d2 == [] {
      // `digits.clear(); normalize();` on the left operand.
      r := Normalize(Dec([], a.sign, a.exponent));
      ZeroProduct(a, b);
      return;
    }
    var total := SumRows(bd1, d2);
    ProductValue(a, b, total, newSign, newExponent);
    r := Normalize(Dec(total.digits, newSign, newExponent + total.exponent));
  }

  /** The loop of `operator*=`: row `i` is `bd1` times digit `i` of `d2`, moved `i` places
      up, and is added to the running total with `+=`. */
  method SumRows(bd1: Dec, d2: seq<int>) returns (total: Dec)
    requires WellFormed(bd1) && ValidDigits(d2)
    ensures Canonical(total) && total.sign
    ensures Mag(total) == Scale(DigitsVal(bd1.digits) * DigitsVal(d2), 0)
  {
    total := Zero;
    var i := 0;
    ScaleZero(0);
    while i < |d2|
      invariant 0 <= i <= |d2|
      invariant Canonical(total) && total.sign
      invariant Mag(total) == Scale(DigitsVal(bd1.digits) * DigitsVal(d2[..i]), 0)
    {
      var row := SingleDigitMultiply(bd1, d2[i]);
      row := row.(exponent := row.exponent + i);
      RowValue(row, DigitsVal(bd1.digits) * d2[i], i);
      var sum := AddAssign(total, row);
      ghost var m, low := DigitsVal(bd1.digits), DigitsVal(d2[..i]);
      DigitsValBounds(bd1.digits);
      DigitsValBounds(d2[..i]);
      NonNegativeProducts(m, low, d2[i], Pow(i));
      AccumulateStep(total, row, sum.value, m * low, m * d2[i] * Pow(i));
      total := sum.value;
      DigitsValPrefixStep(d2, i);
      RowSum(m, low, Pow(i), d2[i]);
      i := i + 1;
    }
    assert d2[..i] == d2;
  }

  /** Adding a non-negative row to a non-negative total with `+=`. */
  lemma AccumulateStep(total: Dec, row: Dec, next: Dec, t: int, w: int)
    requires Canonical(next) && Value(next) == Mag(total) + Mag(row)
    requires Mag(total) == Scale(t, 0) && Mag(row) == Scale(w, 0) && t >= 0 && w >= 0
    ensures next.sign && Mag(next) == Scale(t + w, 0)
  {
    ScaleAdd(t, w, 0);
    ScaleNonNegative(t + w, 0);
    CanonicalSign(next);
  }

  lemma ZeroProduct(a: Dec, b: Dec)
    requires a.digits == [] || b.digits == []
    ensures Value(a) * Value(b) == 0.0
  {
    if a.digits == [] {
      ZeroMag(a);
    } else {
      ZeroMag(b);
    }
  }

  /** A row whose digits spell `n` with `exponent - i` zeros appended, moved `i` places
      up, is n * 10^i. */
  lemma RowValue(row: Dec, n: int, i: nat)
    requires row.exponent - i >= 0
    requires DigitsVal(row.digits) * Pow(row.exponent - i) == n
    ensures Mag(row) == Scale(n * Pow(i), 0)
  {
    var v, k := DigitsVal(row.digits), row.exponent - i;
    ScaleShift(v, row.exponent, 0);
    assert 0 + row.exponent == row.exponent;
    PowAdd(k, i);
    assert k + i == row.exponent;
    Regroup(v, Pow(k), Pow(i), n);
  }

  lemma Regroup(v: int, p: int, q: int, n: int)
    requires v * p == n
    ensures (p * q) * v == n * q
  {
    assert (p * q) * v == (v * p) * q;
  }

  lemma NonNegativeProducts(m: int, low: int, x: int, p: int)
    requires m >= 0 && low >= 0 && x >= 0 && p >= 0
    ensures m * low >= 0 && m * x * p >= 0
  {
  }

  lemma RowSum(m: int, low: int, p: int, x: int)
    ensures m * low + m * x * p == m * (low + p * x)
  {
  }

  /** Placing the accumulated rows at the summed exponents gives the product. */
  lemma ProductValue(a: Dec, b: Dec, total: Dec, newSign: bool, newExponent: int)
    requires newSign == (a.sign == b.sign) && newExponent == a.exponent + b.exponent
    requires Mag(total) == Scale(DigitsVal(a.digits) * DigitsVal(b.digits), 0)
          || Mag(total) == Scale(DigitsVal(b.digits) * DigitsVal(a.digits), 0)
    ensures Value(Dec(total.digits, newSign, newExponent + total.exponent))
         == Value(a) * Value(b)
  {
    var m := Mag(Dec(total.digits, newSign, newExponent + total.exponent));
    ProductMag(a, b, total, newExponent, m);
    SignedProduct(a, b, m, newSign);
  }

  /** The magnitude half of `ProductValue`. */
  lemma ProductMag(a: Dec, b: Dec, total: Dec, newExponent: int, m: real)
    requires newExponent == a.exponent + b.exponent
    requires Mag(total) == Scale(DigitsVal(a.digits) * DigitsVal(b.digits), 0)
          || Mag(total) == Scale(DigitsVal(b.digits) * DigitsVal(a.digits), 0)
    requires m == Scale(DigitsVal(total.digits), newExponent + total.exponent)
    ensures m == Mag(a) * Mag(b)
  {
    var v, w := DigitsVal(a.digits), DigitsVal(b.digits);
    TotalAt(Mag(total), v, w, v * w);
    ProductMagAt(DigitsVal(total.digits), total.exponent, v * w, v, a.exponent, w, b.exponent,
                 newExponent, Mag(a), Mag(b), m);
  }

  /** Either order of the factors names the same total. */
  lemma TotalAt(mt: real, v: int, w: int, vw: int)
    requires mt == Scale(v * w, 0) || mt == Scale(w * v, 0)
    requires vw == v * w
    ensures mt == Scale(vw, 0)
  {
    assert w * v == vw;
  }

  /** `ProductMag` over plain terms: the rows' total t at et equals v * w at 0, so t at
      et + g is Scale(v, ea) * Scale(w, eb) when g = ea + eb. */
  lemma ProductMagAt(t: int, et: int, vw: int, v: int, ea: int, w: int, eb: int,
                     g: int, ma: real, mb: real, m: real)
    requires Scale(t, et) == Scale(vw, 0) && vw == v * w && g == ea + eb
    requires ma == Scale(v, ea) && mb == Scale(w, eb) && m == Scale(t, g + et)
    ensures m == ma * mb
  {
    ScaleRebase(t, et, vw, 0, g);
    ScaleAt(t, et + g, g + et);
    ScaleAt(vw, 0 + g, ea + eb);
    ScaleMulAt(v, ea, w, eb, vw, mb);
    MulCongruent(ma, Scale(v, ea), mb);
  }

  /** Equal scaled values stay equal when both exponents are raised by g. */
  lemma ScaleRebase(v: int, e: int, w: int, f: int, g: int)
    requires Scale(v, e) == Scale(w, f)
    ensures Scale(v, e + g) == Scale(w, f + g)
  {
    ScaleExp(v, e, g);
    ScaleExp(w, f, g);
  }

  lemma SignedProduct(a: Dec, b: Dec, m: real, s: bool)
    requires m == Mag(a) * Mag(b) && s == (a.sign == b.sign)
    ensures (if s then m else -m) == Value(a) * Value(b)
  {
  }
}
