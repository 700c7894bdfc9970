/** `operator%=` (BigDecimal.cpp:299-336): the remainder of |receiver| by |divisor| by
    long division with repeated addition, with the receiver's sign put back and no final
    `normalize`. Both operands are first brought to a common scale: the receiver's
    exponent becomes zeros in its digit vector, or its fractional digit count is added to
    the divisor's exponent. */
module Modulo {
  import opened DigitSeq
  import opened Representation
  import opened Normalizer
  import opened Comparator
  import opened Arithmetic
  import opened Multiplier
  import opened ScaledValues
  import opened Division

  function Min(x: int, y: int): int { if x <= y then x else y }

  /** A bound on every Small multiple of 10^f. */
  function SmallLimit(f: int): int
  {
    if f <= -1 then Pow(-1 - f) else 0
  }

  /** The pairs for which one reduction step throws: a zero remainder against a Small
      divisor (the comparator keeps adding the divisor while the sum is below 0.1, then
      `0 - sum` is misordered), or a Small remainder smaller than the divisor (`rem - 0`
      is misordered). */
  predicate StepFails(rn: int, bn: int, f: int)
  {
    (rn == 0 && Small(bn, f)) || (0 < rn < bn && Small(rn, f))
  }

  lemma SmallBelowLimit(n: int, f: int)
    requires Small(n, f)
    ensures n < SmallLimit(f)
  {
    SmallBound(n, f);
  }

  lemma SmallDown(n: int, n2: int, f: int)
    requires 1 <= n <= n2 && Small(n2, f)
    ensures Small(n, f)
  {
    ScaleLe(n, n2, f);
  }

  /** `x <= y` for a positive scaled x: the numeric order, except that a Small x is
      also taken to be below zero. */
  lemma CompareScaledPositive(x: Dec, mx: int, y: Dec, ny: int, f: int)
    requires IsScaled(x, mx, f) && IsScaled(y, ny, f) && mx >= 1
    ensures Compare(x, y) != Greater <==> mx <= ny || (ny == 0 && Small(mx, f))
  {
    ScaledMisordered(x, mx, y, ny, f);
    if Misordered(x, y) {
      CompareMisorders(x, y);
      ScalePositive(mx, f);
    } else {
      ScaledCompare(x, mx, y, ny, f);
    }
  }

  /** Two positive scaled values are never misordered. */
  lemma PositivesOrdered(x: Dec, mx: int, y: Dec, ny: int, f: int)
    requires IsScaled(x, mx, f) && IsScaled(y, ny, f) && mx >= 1 && ny >= 1
    ensures !Misordered(x, y)
  {
    ScaledMisordered(x, mx, y, ny, f);
  }

  /** The inner loop and the subtraction of one step of `%=` (BigDecimal.cpp:326-330):
      `bdMult` grows by the divisor while `bdMult <= remainder`, then the remainder loses
      `bdMult - bd`. */
  method ReduceRemainder(bd: Dec, ghost bn: int, remainder: Dec, ghost rn: int, ghost f: int)
    returns (r: Result<Dec>)
    requires IsScaled(bd, bn, f) && bn >= 1 && IsScaled(remainder, rn, f)
    ensures r.Ok? <==> !StepFails(rn, bn, f)
    ensures r.Ok? ==> IsScaled(r.value, rn % bn, f)
    ensures r.Err? ==> r.error == LogicError
  {
    var bdMult := bd;
    ghost var m, mb := 0, 0;
    ghost var limit := Max(rn, SmallLimit(f));
    while Compare(bdMult, remainder) != Greater
      invariant m >= 0 && mb == m * bn && IsScaled(bdMult, mb + bn, f)
      invariant m == 0 || mb <= rn || (rn == 0 && Small(mb, f))
      invariant mb <= limit
      decreases limit - mb
    {
      CompareScaledPositive(bdMult, mb + bn, remainder, rn, f);
      if mb + bn > rn {
        SmallBelowLimit(mb + bn, f);
      }
      bdMult := AddScaled(bdMult, mb + bn, bd, bn, f);
      m, mb := m + 1, mb + bn;
    }
    CompareScaledPositive(bdMult, mb + bn, remainder, rn, f);
    r := TakeMultiple(bd, bn, remainder, rn, bdMult, m, mb, f);
  }

  /** The subtraction that ends one step of `%=`: the remainder loses `bdMult - bd`, the
      last multiple of the divisor that the comparator let through. */
  method TakeMultiple(bd: Dec, ghost bn: int, remainder: Dec, ghost rn: int, bdMult: Dec,
                      ghost m: int, ghost mb: int, ghost f: int)
    returns (r: Result<Dec>)
    requires IsScaled(bd, bn, f) && bn >= 1 && IsScaled(remainder, rn, f)
    requires m >= 0 && mb == m * bn && IsScaled(bdMult, mb + bn, f)
    requires m == 0 || mb <= rn || (rn == 0 && Small(mb, f))
    requires !(mb + bn <= rn || (rn == 0 && Small(mb + bn, f)))
    ensures r.Ok? <==> !StepFails(rn, bn, f)
    ensures r.Ok? ==> IsScaled(r.value, rn % bn, f)
    ensures r.Err? ==> r.error == LogicError
  {
    PositivesOrdered(bdMult, mb + bn, bd, bn, f);
    var t := SubScaled(bdMult, mb + bn, bd, bn, f);
    var tv := t.value;
    ScaledMisordered(remainder, rn, tv, mb, f);
    TakeCases(rn, bn, m, mb, f);
    r := SubAssign(remainder, tv);
    if Misordered(remainder, tv) {
      SubMisordered(remainder, tv);
    } else {
      SubExact(remainder, tv);
      ScaleSub(rn, mb, f);
      ScaledOf(r.value, rn - mb, f);
    }
  }

  /** The integer side of `TakeMultiple`: when the last multiple let through is at most
      the remainder, what is left is rn % bn and the step fails exactly on a Small
      remainder with no multiple taken; otherwise the comparator let a Small multiple
      past a zero remainder, and the step fails. */
  lemma TakeCases(rn: int, bn: int, m: int, mb: int, f: int)
    requires bn >= 1 && rn >= 0 && m >= 0 && mb == m * bn
    requires m == 0 || mb <= rn || (rn == 0 && Small(mb, f))
    requires !(mb + bn <= rn || (rn == 0 && Small(mb + bn, f)))
    ensures mb <= rn ==> rn % bn == rn - mb
    ensures mb <= rn ==> (StepFails(rn, bn, f) <==> mb == 0 && Small(rn, f))
    ensures mb > rn ==> rn == 0 && Small(mb, f) && StepFails(rn, bn, f)
  {
    assert 0 <= mb;
    if mb <= rn {
      DivModOf(rn, bn, m);
      if m == 0 {
        assert mb == 0;
      } else {
        assert mb >= bn;
      }
    } else {
      SmallDown(bn, mb, f);
    }
  }

  /** One pass of the digit loop of `%=`: the remainder times ten plus the next digit,
      reduced below the divisor. */
  method AppendDigit(remainder: Dec, ghost rn: int, c: int, bd: Dec, ghost bn: int, ghost f: int,
                     ghost x: int)
    returns (r: Result<Dec>)
    requires IsScaled(remainder, rn, f) && IsDigit(c) && f <= 0
    requires IsScaled(bd, bn, f) && bn >= 1 && x == 10 * rn + c * Pow(-f)
    ensures r.Ok? <==> !StepFails(x, bn, f)
    ensures r.Ok? ==> IsScaled(r.value, x % bn, f)
    ensures r.Err? ==> r.error == LogicError
  {
    var t := TimesTen(remainder, rn, f);
    var next := PlusDigit(t, 10 * rn, c, f);
    r := ReduceRemainder(bd, bn, next, x, f);
  }

  /** A step throws only for a divisor with digits below the point. */
  lemma StepFailsBelowPoint(rn: int, bn: int, f: int)
    requires StepFails(rn, bn, f)
    ensures f < 0
  {
    if rn == 0 {
      SmallBound(bn, f);
    } else {
      SmallBound(rn, f);
    }
  }

  /** The loop invariant of `ReduceDigits` carried over one more digit. */
  lemma DigitStep(ds: seq<int>, i: nat, pw: int, mt: int, bn: int, rn: int, x: int)
    returns (mt': int, rn': int)
    requires i < |ds| && bn >= 1 && IsDigit(ds[i]) && pw >= 1
    requires Accounted(ds[i + 1..], pw, mt, bn, rn) && x == 10 * rn + ds[i] * pw
    ensures Accounted(ds[i..], pw, mt', bn, rn') && rn' == x % bn
  {
    assert ds[i..][1..] == ds[i + 1..];
    mt', rn' := 10 * mt + x / bn, x % bn;
    StepArith(DigitsVal(ds[i + 1..]), DigitsVal(ds[i..]), pw, mt, bn, rn, ds[i], x, mt', rn');
  }

  lemma StepArith(p: int, p': int, pw: int, mt: int, bn: int, rn: int, c: int, x: int, mt': int,
                  rn': int)
    requires p * pw == mt * bn + rn && bn >= 1 && mt >= 0 && rn >= 0 && c >= 0 && pw >= 1
    requires p' == c + 10 * p && x == 10 * rn + c * pw && mt' == 10 * mt + x / bn && rn' == x % bn
    ensures p' * pw == mt' * bn + rn' && mt' >= 0 && 0 <= rn' < bn
  {
    assert x == (x / bn) * bn + rn';
    assert x >= 0;
    assert p' * pw == c * pw + 10 * (p * pw);
    assert mt' * bn == 10 * (mt * bn) + (x / bn) * bn;
  }

  /** The remainder the digit loop of `%=` holds once it has processed `done` (least
      significant first, so processed from the end), counted in units of 10^f with
      pw == 10^-f: each digit is appended to ten times the remainder and the sum reduced
      below the divisor. */
  function LoopRemainder(done: seq<int>, bn: int, pw: int): int
    requires bn >= 1
  {
    if done == [] then 0 else (10 * LoopRemainder(done[1..], bn, pw) + done[0] * pw) % bn
  }

  /** Some step of the digit loop over `done` throws: the remainder left by the higher
      digits, with the next digit appended, is one of the `StepFails` pairs. */
  predicate LoopFails(done: seq<int>, bn: int, f: int)
    requires bn >= 1 && f <= 0
  {
    done != [] &&
    (LoopFails(done[1..], bn, f) ||
     StepFails(10 * LoopRemainder(done[1..], bn, Pow(-f)) + done[0] * Pow(-f), bn, f))
  }

  /** A failure among the higher digits is a failure of the whole loop. */
  lemma {:induction false} FailsPersist(ds: seq<int>, i: nat, bn: int, f: int)
    requires bn >= 1 && f <= 0 && i <= |ds| && LoopFails(ds[i..], bn, f)
    ensures LoopFails(ds, bn, f)
    decreases i
  {
    if i > 0 {
      assert ds[i - 1..][1..] == ds[i..];
      FailsPersist(ds, i - 1, bn, f);
    }
  }

  /** The digit loop of `%=`: the digit vector most-significant first, each digit
      appended to the remainder, which is then reduced below the divisor. Counted in
      units of 10^f, the processed digits are mt times the divisor plus the remainder.
      It throws exactly when one of its steps meets a `StepFails` pair. */
  method ReduceDigits(ds: seq<int>, bd: Dec, ghost bn: int, ghost f: int)
    returns (r: Result<Dec>, ghost mt: int, ghost rn: int)
    requires ValidDigits(ds) && IsScaled(bd, bn, f) && bn >= 1 && f <= 0
    ensures r.Ok? <==> !LoopFails(ds, bn, f)
    ensures r.Ok? ==> IsScaled(r.value, rn, f) && 0 <= rn < bn && mt >= 0
    ensures r.Ok? ==> DigitsVal(ds) * Pow(-f) == mt * bn + rn
    ensures r.Ok? ==> rn == LoopRemainder(ds, bn, Pow(-f))
    ensures r.Err? ==> r.error == LogicError && f < 0
  {
    var remainder := Zero;
    mt, rn := 0, 0;
    ghost var pw := Pow(-f);
    ScaleZero(f);
    var i := |ds| - 1;
    assert ds[i + 1..] == [];
    while i >= 0
      invariant -1 <= i < |ds|
      invariant IsScaled(remainder, rn, f) && Accounted(ds[i + 1..], pw, mt, bn, rn)
      invariant rn == LoopRemainder(ds[i + 1..], bn, pw) && !LoopFails(ds[i + 1..], bn, f)
    {
      var c := ds[i];
      ghost var x := 10 * rn + c * pw;
      var s := AppendDigit(remainder, rn, c, bd, bn, f, x);
      assert ds[i..][1..] == ds[i + 1..];
      if s.Err? {
        StepFailsBelowPoint(x, bn, f);
        FailsPersist(ds, i, bn, f);
        return Err(LogicError), mt, rn;
      }
      remainder := s.value;
      mt, rn := DigitStep(ds, i, pw, mt, bn, rn, x);
      i := i - 1;
    }
    assert ds[0..] == ds;
    r := Ok(remainder);
  }

  /** The digits processed, counted in units of the divisor's scale, are mt divisors
      and a remainder rn below one divisor. */
  predicate Accounted(done: seq<int>, pw: int, mt: int, bn: int, rn: int)
  {
    DigitsVal(done) * pw == mt * bn + rn && 0 <= rn < bn && mt >= 0
  }

  /** The receiver's digits at the common scale of `%=` (BigDecimal.cpp:316-318): a
      positive exponent becomes zeros below the digits. */
  function CommonDigits(a: Dec): seq<int>
  {
    if a.exponent > 0 then Zeros(a.exponent) + a.digits else a.digits
  }

  /** The divisor's exponent at the common scale (BigDecimal.cpp:319-322): raised by the
      receiver's fractional digit count. */
  function DivisorExponent(a: Dec, b: Dec): int
  {
    if a.exponent > 0 then b.exponent else b.exponent - a.exponent
  }

  /** The divisor at the common scale, counted in units of 10^Min(0, DivisorExponent). */
  function DivisorUnits(a: Dec, b: Dec): (bn: int)
    requires Canonical(b) && b.digits != []
    ensures bn >= 1
  {
    var e := DivisorExponent(a, b);
    DigitsValLowerBound(b.digits);
    PositiveProduct(DigitsVal(b.digits), Pow(e - Min(0, e)), DigitsVal(b.digits) * Pow(e - Min(0, e)));
    DigitsVal(b.digits) * Pow(e - Min(0, e))
  }

  /** The digit loop of `%=` throws for this receiver and divisor. */
  predicate ModThrows(a: Dec, b: Dec)
    requires Canonical(b) && b.digits != []
  {
    LoopFails(CommonDigits(a), DivisorUnits(a, b), Min(0, DivisorExponent(a, b)))
  }

  /** r is a remainder of a by b as `%=` leaves it: |a| = m * |b| + |r| with
      0 <= |r| < |b|, the sign of a, and canonical unless its digits are empty. */
  predicate RemainderOutcome(a: Dec, b: Dec, r: Dec, m: int)
  {
    && ValidDigits(r.digits) && (r.digits != [] ==> Canonical(r))
    && m >= 0 && Mag(a) == Scale(m, 0) * Mag(b) + Mag(r)
    && Mag(r) < Mag(b)
    && Value(r) == Signed(a.sign, Mag(r))
  }

  /** `%=` with a nonzero divisor. A result r satisfies |a| = m * |b| + |r| with
      0 <= |r| < |b| and carries the receiver's sign. The result is not normalised: a
      zero remainder after the digit loop keeps the receiver's sign and takes the
      exponent min(receiver exponent, 0). It throws exactly when the receiver is the larger and
      the digit loop meets a failing step, which needs a divisor with digits below both
      the point and the receiver's last digit. */
  method ModAssign(a: Dec, b: Dec) returns (r: Result<Dec>, ghost m: int)
    requires Canonical(a) && Canonical(b) && b.digits != []
    ensures Compare(a.(sign := true), b.(sign := true)) == Less ==> r == Ok(a)
    ensures Compare(a.(sign := true), b.(sign := true)) == Equal ==> r == Ok(Zero)
    ensures Compare(a.(sign := true), b.(sign := true)) == Greater && r.Ok? ==>
      r.value.sign == a.sign
    ensures Compare(a.(sign := true), b.(sign := true)) == Greater && r.Ok? && r.value.digits == [] ==>
      r.value == Dec([], a.sign, Min(a.exponent, 0))
    ensures r.Ok? ==> RemainderOutcome(a, b, r.value, m)
    ensures r.Err? <==> Compare(a.(sign := true), b.(sign := true)) == Greater && ModThrows(a, b)
    ensures r.Err? ==> r.error == LogicError && b.exponent < Min(a.exponent, 0)
  {
    var bd := b.(sign := true);
    var self := a.(sign := true);
    var cmp := Compare(self, bd);
    if cmp == Less {
      ModLess(a, b);
      return Ok(a), 0;
    } else if cmp == Equal {
      ModEqual(a, b);
      return Ok(Zero), 1;
    }
    r, m := ModLarger(a, b);
  }

  /** 6 % 0.7 returns (to 0.4): at the common scale of tenths the one step sees 60
      against 7, not a failing pair. */
  lemma ModSixBySevenTenths()
    ensures Compare(Dec([6], true, 0), Dec([7], true, -1)) == Greater
    ensures !ModThrows(Dec([6], true, 0), Dec([7], true, -1))
  {
    var a, b := Dec([6], true, 0), Dec([7], true, -1);
    assert CommonDigits(a) == [6];
    assert DigitsVal(b.digits) == 7;
    assert DivisorUnits(a, b) == 7;
    assert LoopRemainder([], 7, 10) == 0;
    assert !StepFails(60, 7, -1);
  }

  /** 10 % 7e-5 returns (to 1e-5): in units of 1e-5 the steps see 100000 and then 50
      against 7, neither a failing pair. */
  lemma ModTenBySevenE5()
    ensures Compare(Dec([1], true, 1), Dec([7], true, -5)) == Greater
    ensures !ModThrows(Dec([1], true, 1), Dec([7], true, -5))
  {
    var a, b := Dec([1], true, 1), Dec([7], true, -5);
    assert CommonDigits(a) == [0, 1];
    assert DigitsVal(b.digits) == 7;
    assert DivisorUnits(a, b) == 7;
    assert Pow(5) == 100000;
    assert [0, 1][1..] == [1] && [1][1..] == [];
    assert LoopRemainder([1], 7, 100000) == 5;
    assert !StepFails(100000, 7, -5);
    assert !StepFails(50, 7, -5);
  }

  /** 100 % 0.05 throws logic_error: in units of 0.01 the first step leaves remainder 0,
      and the next meets 0 against the divisor 5, below 0.1. */
  lemma ModHundredByFiveHundredths()
    ensures Compare(Dec([1], true, 2), Dec([5], true, -2)) == Greater
    ensures ModThrows(Dec([1], true, 2), Dec([5], true, -2))
  {
    var a, b := Dec([1], true, 2), Dec([5], true, -2);
    assert CommonDigits(a) == [0, 0, 1];
    assert DigitsVal(b.digits) == 5;
    assert DivisorUnits(a, b) == 5;
    assert [0, 0, 1][1..] == [0, 1] && [0, 1][1..] == [1] && [1][1..] == [];
    assert LoopRemainder([1], 5, 100) == 0;
    assert Scale(5, -2) == 0.05 && Pow10(-1) == 0.1;
    assert StepFails(0, 5, -2);
  }

  /** `bd %= bd` compares the receiver with itself as `equal`, so it leaves zero. */
  lemma ModSelf(a: Dec)
    requires Canonical(a)
    ensures Compare(a.(sign := true), a.(sign := true)) == Equal
  {
    AbsCanonical(a);
    CompareAgrees(a.(sign := true), a.(sign := true));
  }

  /** The part of `%=` after the comparison (BigDecimal.cpp:312-335): the common scale,
      the digit loop, and the remainder moved back to the receiver's scale with its
      sign. */
  method ModLarger(a: Dec, b: Dec) returns (r: Result<Dec>, ghost m: int)
    requires Canonical(a) && Canonical(b) && b.digits != []
    ensures r.Ok? ==> r.value.sign == a.sign && RemainderOutcome(a, b, r.value, m)
    ensures r.Ok? && r.value.digits == [] ==> r.value == Dec([], a.sign, Min(a.exponent, 0))
    ensures r.Err? <==> ModThrows(a, b)
    ensures r.Err? ==> r.error == LogicError && b.exponent < Min(a.exponent, 0)
  {
    var digits, exponentChange, bd, f, bn := ToCommonScale(a, b);
    var res, mt, rn := ReduceDigits(digits, bd, bn, f);
    if res.Err? {
      return Err(LogicError), 0;
    }
    var rem := res.value;
    var x := rem.(exponent := rem.exponent - exponentChange, sign := a.sign);
    Rescaled(a, b, rem, x, DigitsVal(digits), mt, bn, rn, f, exponentChange);
    return Ok(x), mt;
  }

  /** Lines 316-323 of BigDecimal.cpp: a positive receiver exponent becomes zeros below
      its digits; otherwise the receiver's fractional digit count moves the divisor up. */
  method ToCommonScale(a: Dec, b: Dec)
    returns (digits: seq<int>, exponentChange: int, bd: Dec, ghost f: int, ghost bn: int)
    requires Canonical(a) && Canonical(b) && b.digits != []
    ensures ValidDigits(digits) && exponentChange >= 0 && f <= 0
    ensures IsScaled(bd, bn, f) && bn >= 1
    ensures Mag(a) == Scale(DigitsVal(digits), -exponentChange)
    ensures Mag(b) == Scale(bn, f - exponentChange)
    ensures f < 0 <==> b.exponent < Min(a.exponent, 0)
    ensures digits == CommonDigits(a) && bd.exponent == DivisorExponent(a, b)
    ensures f == Min(0, DivisorExponent(a, b)) && bn == DivisorUnits(a, b)
    ensures exponentChange == -Min(a.exponent, 0)
  {
    bd := b.(sign := true);
    exponentChange := 0;
    digits := a.digits;
    if a.exponent > 0 {
      digits := Zeros(a.exponent) + digits;
    } else {
      exponentChange := -a.exponent;
      bd := bd.(exponent := bd.exponent + exponentChange);
    }
    f := Min(0, bd.exponent);
    bn := DigitsVal(b.digits) * Pow(bd.exponent - f);
    CommonScale(a, b, digits, exponentChange, bd, f, bn);
  }

  /** The remainder moved back down by the exponent change, with the receiver's sign. */
  lemma Rescaled(a: Dec, b: Dec, rem: Dec, x: Dec, av: int, mt: int, bn: int, rn: int, f: int, c: int)
    requires IsScaled(rem, rn, f) && mt >= 0 && 0 <= rn < bn && f <= 0
    requires x == rem.(exponent := rem.exponent - c, sign := a.sign)
    requires Mag(a) == Scale(av, -c) && Mag(b) == Scale(bn, f - c)
    requires av * Pow(-f) == mt * bn + rn
    ensures ValidDigits(x.digits) && (x.digits != [] ==> Canonical(x))
    ensures Mag(a) == Scale(mt, 0) * Mag(b) + Mag(x)
    ensures Mag(x) < Mag(b)
    ensures Value(x) == Signed(a.sign, Mag(x))
    ensures RemainderOutcome(a, b, x, mt)
  {
    ScaleRebase(DigitsVal(rem.digits), rem.exponent, rn, f, -c);
    RemainderValue(a, b, x, av, mt, bn, rn, f, c);
  }

  lemma PositiveProduct(v: int, p: int, n: int)
    requires n == v * p && v >= 1 && p >= 1
    ensures n == p * v && n >= 1
  {
  }

  /** The common scale: the receiver is its digit value times 10^-c, the divisor bn
      units of 10^(f - c), and f < 0 exactly when the divisor reaches below both the
      point and the receiver's last digit. */
  lemma CommonScale(a: Dec, b: Dec, digits: seq<int>, c: int, bd: Dec, f: int, bn: int)
    requires Canonical(a) && Canonical(b) && b.digits != []
    requires a.exponent > 0 ==>
      (digits == Zeros(a.exponent) + a.digits && c == 0 && bd == b.(sign := true))
    requires a.exponent <= 0 ==>
      (digits == a.digits && c == -a.exponent && bd == b.(sign := true, exponent := b.exponent + c))
    requires f == Min(0, bd.exponent) && bn == DigitsVal(b.digits) * Pow(bd.exponent - f)
    ensures ValidDigits(digits) && c >= 0 && f <= 0
    ensures IsScaled(bd, bn, f) && bn >= 1
    ensures Mag(a) == Scale(DigitsVal(digits), -c)
    ensures Mag(b) == Scale(bn, f - c)
    ensures f < 0 <==> b.exponent < Min(a.exponent, 0)
  {
    CommonDivisor(b, bd, c, f, bn);
    CommonReceiver(a, digits, c);
  }

  /** The divisor at the common scale: bn units of 10^f before the exponent change. */
  lemma CommonDivisor(b: Dec, bd: Dec, c: int, f: int, bn: int)
    requires Canonical(b) && b.digits != []
    requires bd == b.(sign := true, exponent := b.exponent + c)
    requires f == Min(0, bd.exponent) && bn == DigitsVal(b.digits) * Pow(bd.exponent - f)
    ensures IsScaled(bd, bn, f) && bn >= 1
    ensures Mag(b) == Scale(bn, f - c)
  {
    var bv, k := DigitsVal(b.digits), bd.exponent - f;
    DigitsValLowerBound(b.digits);
    PositiveProduct(bv, Pow(k), bn);
    ScaleShiftTo(bv, k, f, bn, bd.exponent);
    ScaleShiftTo(bv, k, f - c, bn, b.exponent);
  }

  /** The receiver at the common scale: its digit value times 10^-c. */
  lemma CommonReceiver(a: Dec, digits: seq<int>, c: int)
    requires Canonical(a)
    requires a.exponent > 0 ==> digits == Zeros(a.exponent) + a.digits && c == 0
    requires a.exponent <= 0 ==> digits == a.digits && c == -a.exponent
    ensures ValidDigits(digits) && Mag(a) == Scale(DigitsVal(digits), -c)
  {
    if a.exponent > 0 {
      DigitsValShift(a.exponent, a.digits);
      ScaleShift(DigitsVal(a.digits), a.exponent, 0);
    }
  }

  /** The value relation of `%=` once the digit loop has finished. */
  lemma RemainderValue(a: Dec, b: Dec, x: Dec, av: int, mt: int, bn: int, rn: int, f: int, c: int)
    requires mt >= 0 && 0 <= rn < bn && f <= 0
    requires Mag(a) == Scale(av, -c) && Mag(b) == Scale(bn, f - c)
    requires av * Pow(-f) == mt * bn + rn
    requires x.sign == a.sign && Mag(x) == Scale(rn, f - c)
    ensures Mag(a) == Scale(mt, 0) * Mag(b) + Mag(x)
    ensures Mag(x) < Mag(b)
    ensures Value(x) == Signed(a.sign, Mag(x))
  {
    ScaleShift(av, -f, f - c);
    assert f - c + -f == -c;
    assert Pow(-f) * av == mt * bn + rn;
    ScaleAdd(mt * bn, rn, f - c);
    ScaleMul(mt, 0, bn, f - c);
    assert 0 + (f - c) == f - c;
    ScaleLt(rn, bn, f - c);
  }

  lemma AbsCanonical(d: Dec)
    requires Canonical(d)
    ensures Canonical(d.(sign := true)) && Mag(d.(sign := true)) == Mag(d)
    ensures Value(d.(sign := true)) == Mag(d)
  {
  }

  /** A `less` from the comparator on the unsigned operands is a true `less`: the only
      misordered pair (zero against a Small divisor) compares `greater`. */
  lemma ModLess(a: Dec, b: Dec)
    requires Canonical(a) && Canonical(b) && b.digits != []
    requires Compare(a.(sign := true), b.(sign := true)) == Less
    ensures Mag(a) == Scale(0, 0) * Mag(b) + Mag(a) && Mag(a) < Mag(b)
    ensures Value(a) == Signed(a.sign, Mag(a))
    ensures RemainderOutcome(a, b, a, 0)
  {
    var x, y := a.(sign := true), b.(sign := true);
    AbsCanonical(a);
    AbsCanonical(b);
    assert Num(0) == 0.0;
    if Misordered(x, y) {
      CompareMisorders(x, y);
      NonzeroMag(y);
      ZeroMag(x);
    } else {
      CompareAgrees(x, y);
    }
  }

  /** An `equal` from the comparator is true equality of the magnitudes. */
  lemma ModEqual(a: Dec, b: Dec)
    requires Canonical(a) && Canonical(b) && b.digits != []
    requires Compare(a.(sign := true), b.(sign := true)) == Equal
    ensures Mag(a) == Scale(1, 0) * Mag(b) + Mag(Zero) && Mag(Zero) < Mag(b)
    ensures RemainderOutcome(a, b, Zero, 1)
  {
    var x, y := a.(sign := true), b.(sign := true);
    AbsCanonical(a);
    AbsCanonical(b);
    if Misordered(x, y) {
      CompareMisorders(x, y);
    }
    CompareAgrees(x, y);
    assert Num(1) == 1.0 && Num(0) == 0.0;
    NonzeroMag(b);
  }

  /** `%=` as written leaves a zero remainder with the receiver's sign: for -14 % 7 the
      comparison of 14 with 7 is `greater`, so the result keeps sign false, and every
      result the contract of `ModAssign` allows there is a numeric zero that is not the
      canonical `Zero` and so not `==` to `BigDecimal(0)`. */
  lemma ModSignedZero(x: Dec, m: int)
    requires ValidDigits(x.digits) && !x.sign
    requires Mag(Dec([4, 1], false, 0)) == Scale(m, 0) * Mag(Dec([7], true, 0)) + Mag(x)
    requires Mag(x) < Mag(Dec([7], true, 0))
    ensures Compare(Dec([4, 1], true, 0), Dec([7], true, 0)) == Greater
    ensures Value(x) == 0.0 && x != Zero && !Canonical(x)
  {
    assert DigitsVal([4, 1]) == 14 && DigitsVal([7]) == 7;
    ScaleMul(m, 0, 7, 0);
    ScaleSub(14, m * 7, 0);
    MagNonNegative(x);
    ScaleZero(0);
    ScaleCompare(0, 14 - m * 7, 0);
    ScaleCompare(14 - m * 7, 7, 0);
    assert m == 2;
    if Canonical(x) && x.digits != [] {
      NonzeroMag(x);
    }
    var a, b := Dec([4, 1], true, 0), Dec([7], true, 0);
    assert Top(a) > Top(b);
  }

  /** `%=` as written leaves 1.4 % 0.7 with a zero remainder at exponent -1: the
      receiver's one fractional digit moves the divisor up, the digit loop ends on a
      zero remainder, and that remainder is moved back down. Every result the contract
      of `ModAssign` allows there (see `ModFourteenBySevenTenths` for the branch taken)
      is this numeric zero, which is not the canonical `Zero` and so not `==` to
      `BigDecimal(0)`. */
  lemma ModZeroKeepsScale(a: Dec, b: Dec, x: Dec, m: int)
    requires a == Dec([4, 1], true, -1) && b == Dec([7], true, -1)
    requires RemainderOutcome(a, b, x, m)
    requires x.digits == [] ==> x == Dec([], a.sign, Min(a.exponent, 0))
    ensures x == Dec([], true, -1) && Value(x) == 0.0 && x != Zero
  {
    assert DigitsVal([4, 1]) == 14 && DigitsVal([7]) == 7;
    assert Mag(a) == Scale(14, -1) && Mag(b) == Scale(7, -1);
    ScaleMul(m, 0, 7, -1);
    ScaleSub(14, m * 7, -1);
    MagNonNegative(x);
    ScaleZero(-1);
    ScaleCompare(0, 14 - m * 7, -1);
    ScaleCompare(14 - m * 7, 7, -1);
    assert m == 2;
    if x.digits != [] {
      NonzeroMag(x);
      assert false;
    }
  }

  /** 1.4 % 0.7 takes the `greater` branch and returns: at the common scale of tenths
      the steps see 1 and then 14 against 7, never a failing pair. */
  lemma ModFourteenBySevenTenths()
    ensures Compare(Dec([4, 1], true, -1), Dec([7], true, -1)) == Greater
    ensures !ModThrows(Dec([4, 1], true, -1), Dec([7], true, -1))
  {
    assert Top(Dec([4, 1], true, -1)) > Top(Dec([7], true, -1));
  }

  /** The magnitude of a well-formed value is its absolute value. */
  lemma MagIsAbs(d: Dec)
    requires WellFormed(d)
    ensures Mag(d) == if Value(d) >= 0.0 then Value(d) else -Value(d)
  {
    MagNonNegative(d);
  }

  /** `%=` followed by `normalize`, as every other arithmetic operator ends: the same
      remainder, now canonical, so that an exact multiple gives `Zero`. */
  method ModAssignNormalized(a: Dec, b: Dec) returns (r: Result<Dec>, ghost m: int)
    requires Canonical(a) && Canonical(b) && b.digits != []
    ensures r.Ok? ==> Canonical(r.value)
    ensures r.Ok? ==> m >= 0 && Mag(a) == Scale(m, 0) * Mag(b) + Mag(r.value)
    ensures r.Ok? ==> Mag(r.value) < Mag(b)
    ensures r.Ok? ==> Value(r.value) == Signed(a.sign, Mag(r.value))
    ensures r.Ok? ==> (r.value == Zero <==> Mag(a) == Scale(m, 0) * Mag(b))
    ensures r.Err? <==> Compare(a.(sign := true), b.(sign := true)) == Greater && ModThrows(a, b)
    ensures r.Err? ==> r.error == LogicError && b.exponent < Min(a.exponent, 0)
  {
    r, m := ModAssign(a, b);
    if r.Ok? {
      var x := r.value;
      var n := Normalize(x);
      NormalizedRemainder(a, b, x, n, m);
      r := Ok(n);
    }
  }

  /** The remainder equation survives normalisation, and the canonical remainder is
      `Zero` exactly for an exact multiple. */
  lemma NormalizedRemainder(a: Dec, b: Dec, x: Dec, n: Dec, m: int)
    requires RemainderOutcome(a, b, x, m) && Canonical(n) && Value(n) == Value(x)
    ensures m >= 0 && Mag(a) == Scale(m, 0) * Mag(b) + Mag(n)
    ensures Mag(n) < Mag(b)
    ensures Value(n) == Signed(a.sign, Mag(n))
    ensures n == Zero <==> Mag(a) == Scale(m, 0) * Mag(b)
  {
    SameMag(x, n);
    CanonicalZeroIff(n);
    SumZero(Mag(a), Scale(m, 0) * Mag(b), Mag(n));
  }

  /** Two well-formed values that are equal have equal magnitudes. */
  lemma SameMag(x: Dec, n: Dec)
    requires WellFormed(x) && WellFormed(n) && Value(n) == Value(x)
    ensures Mag(n) == Mag(x)
  {
    MagIsAbs(x);
    MagIsAbs(n);
  }

  /** A canonical value is `Zero` exactly when its magnitude is 0. */
  lemma CanonicalZeroIff(n: Dec)
    requires Canonical(n)
    ensures n == Zero <==> Mag(n) == 0.0
  {
    if n.digits != [] {
      NonzeroMag(n);
    } else {
      ZeroMag(n);
    }
  }

  lemma SumZero(s: real, p: real, x: real)
    requires s == p + x
    ensures s == p <==> x == 0.0
  {
  }
}
