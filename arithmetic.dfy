/** Signed addition and subtraction: `operator+=` and `operator-=` (BigDecimal.cpp:189-207)
    dispatch on the signs to `doAdd` (BigDecimal.cpp:420-460), which adds magnitudes, and
    `doSubtract` (BigDecimal.cpp:462-494), which subtracts them. */
module Arithmetic {
  import opened DigitSeq
  import opened Representation
  import opened Normalizer
  import opened Comparator

  function CarryVal(c: bool): int { if c then 1 else 0 }

  /** A magnitude carrying a sign flag. */
  function Signed(sign: bool, m: real): real { if sign then m else -m }

  /** The exponent both operands are brought to before the digit loops. */
  function AlignExp(a: Dec, b: Dec): int
  {
    if a.exponent > b.exponent then b.exponent else a.exponent
  }

  /** The receiver's digits after the least-significant zeros inserted by the alignment. */
  function AlignedDigits(a: Dec, b: Dec): seq<int>
  {
    if a.exponent > b.exponent then Zeros(a.exponent - b.exponent) + a.digits else a.digits
  }

  lemma AlignedValue(a: Dec, b: Dec)
    ensures |AlignedDigits(a, b)| == Top(a) - AlignExp(a, b)
    ensures ValidDigits(a.digits) ==> ValidDigits(AlignedDigits(a, b))
    ensures Scale(DigitsVal(AlignedDigits(a, b)), AlignExp(a, b)) == Mag(a)
  {
    if a.exponent > b.exponent {
      MagShift(a, a.exponent - b.exponent);
    }
  }

  /** The value bookkeeping of one step of a carry or borrow loop: the digit at position
      `p` = 10^k goes from `x` to `x + bi + c - 10 * cn`, while the carry goes from `c` at
      10^k to `cn` at 10^(k+1). */
  lemma CarryStep(dv: int, dvNew: int, x: int, bi: int, c: int, cn: int,
                  p: int, pa: int, pi: int, low: int, target: int)
    requires dvNew == dv + ((x + bi + c - 10 * cn) - x) * p
    requires dv + c * p == target + pa * low
    requires p == pa * pi
    ensures dvNew + cn * (10 * p) == target + pa * (low + pi * bi)
  {
    assert pa * (low + pi * bi) == pa * low + (pa * pi) * bi;
    assert ((x + bi + c - 10 * cn) - x) * p == bi * p + c * p - cn * (10 * p);
  }

  /** CarryStep for a digit pushed at the top, where the previous digit was absent. */
  lemma PushStep(dv: int, dvNew: int, bi: int, c: int, cn: int,
                 p: int, pa: int, pi: int, low: int, target: int)
    requires dvNew == dv + p * (bi + c - 10 * cn)
    requires dv + c * p == target + pa * low
    requires p == pa * pi
    ensures dvNew + cn * (10 * p) == target + pa * (low + pi * bi)
  {
    CarryStep(dv, dvNew, 0, bi, c, cn, p, pa, pi, low, target);
  }

  /** `doAdd`: adds the magnitudes digit by digit at the common exponent and keeps the
      receiver's sign, whatever the operand's sign. */
  method DoAdd(a: Dec, b: Dec) returns (r: Dec)
    requires ValidDigits(a.digits) && ValidDigits(b.digits)
    ensures Canonical(r)
    ensures Value(r) == Signed(a.sign, Mag(a) + Mag(b))
  {
    // Insert least-significant zeros so that both share the smaller exponent.
    var digits := a.digits;
    var exponent := a.exponent;
    if exponent > b.exponent {
      digits := Zeros(exponent - b.exponent) + digits;
      exponent := b.exponent;
    }
    var align := b.exponent - exponent;
    if align > |digits| {
      digits := digits + Zeros(align - |digits|);
    }
    ghost var aligned := digits;
    AlignedValue(a, b);
    DigitsValPad(AlignedDigits(a, b), |aligned| - |AlignedDigits(a, b)|);
    ghost var target := DigitsVal(aligned);
    var numDigits := if |digits| - align < |b.digits| then |digits| - align else |b.digits|;
    var carry;
    digits, carry := AddOverlap(digits, b.digits, align, numDigits);
    var i := numDigits;
    digits, carry, i := AppendHigher(digits, b.digits, align, i, carry, target);
    digits := PropagateCarry(digits, align, i, carry);
    AddValue(a, b, digits, exponent, target);
    r := Normalize(Dec(digits, a.sign, exponent));
  }

  lemma AddValue(a: Dec, b: Dec, digits: seq<int>, exponent: int, target: int)
    requires exponent <= b.exponent
    requires Scale(target, exponent) == Mag(a)
    requires DigitsVal(digits) == target + Pow(b.exponent - exponent) * DigitsVal(b.digits)
    ensures Value(Dec(digits, a.sign, exponent)) == Signed(a.sign, Mag(a) + Mag(b))
  {
    var k := b.exponent - exponent;
    ScaleAdd(target, Pow(k) * DigitsVal(b.digits), exponent);
    ScaleShift(DigitsVal(b.digits), k, exponent);
  }

  /** The first loop of `doAdd`: the operand's digits are added into the receiver's
      from position `align` up, as far as both have digits. */
  method AddOverlap(digits: seq<int>, bs: seq<int>, align: nat, numDigits: nat)
    returns (ds: seq<int>, carry: bool)
    requires ValidDigits(digits) && ValidDigits(bs)
    requires numDigits <= |bs| && align + numDigits <= |digits|
    ensures |ds| == |digits| && ValidDigits(ds)
    ensures forall k :: numDigits + align <= k < |ds| ==> ds[k] == digits[k]
    ensures DigitsVal(ds) + CarryVal(carry) * Pow(numDigits + align)
      == DigitsVal(digits) + Pow(align) * DigitsVal(bs[..numDigits])
  {
    ds := digits;
    carry := false;
    var i := 0;
    while i < numDigits
      invariant 0 <= i <= numDigits
      invariant |ds| == |digits| && ValidDigits(ds)
      invariant forall k :: i + align <= k < |ds| ==> ds[k] == digits[k]
      invariant DigitsVal(ds) + CarryVal(carry) * Pow(i + align)
        == DigitsVal(digits) + Pow(align) * DigitsVal(bs[..i])
    {
      var k := i + align;
      var sum := ds[k] + bs[i] + CarryVal(carry);
      var oldCarry := carry;
      ghost var before := ds;
      if sum > 9 {
        carry := true;
        ds := ds[k := sum - 10];
      } else {
        carry := false;
        ds := ds[k := sum];
      }
      DigitsValUpdate(before, k, ds[k]);
      DigitsValPrefixStep(bs, i);
      PowAdd(align, i);
      CarryStep(DigitsVal(before), DigitsVal(ds), before[k], bs[i], CarryVal(oldCarry),
        CarryVal(carry), Pow(k), Pow(align), Pow(i), DigitsVal(bs[..i]), DigitsVal(digits));
      i := i + 1;
    }
  }

  /** The second loop of `doAdd`: the operand's digits above the receiver's top are
      pushed, with the carry. It runs only when the receiver ends at position `i + align`. */
  method AppendHigher(digits: seq<int>, bs: seq<int>, align: nat, i0: nat, carry0: bool,
                      ghost target: int)
    returns (ds: seq<int>, carry: bool, i: nat)
    requires ValidDigits(digits) && ValidDigits(bs)
    requires i0 <= |bs| && i0 + align <= |digits|
    requires i0 < |bs| ==> |digits| == i0 + align
    requires DigitsVal(digits) + CarryVal(carry0) * Pow(i0 + align)
      == target + Pow(align) * DigitsVal(bs[..i0])
    ensures i == |bs| && i + align <= |ds| && ValidDigits(ds)
    ensures DigitsVal(ds) + CarryVal(carry) * Pow(i + align)
      == target + Pow(align) * DigitsVal(bs)
  {
    ds, carry, i := digits, carry0, i0;
    while i < |bs|
      invariant i0 <= i <= |bs|
      invariant i0 < |bs| ==> |ds| == i + align
      invariant i + align <= |ds| && ValidDigits(ds)
      invariant DigitsVal(ds) + CarryVal(carry) * Pow(i + align)
        == target + Pow(align) * DigitsVal(bs[..i])
    {
      var sum := bs[i] + CarryVal(carry);
      var oldCarry := carry;
      ghost var before := ds;
      var digit := sum;
      if sum > 9 {
        carry := true;
        digit := sum - 10;
      } else {
        carry := false;
      }
      ds := ds + [digit];
      assert |before| == i + align;
      DigitsValSnoc(before, digit);
      DigitsValPrefixStep(bs, i);
      PowAdd(align, i);
      PushStep(DigitsVal(before), DigitsVal(ds), bs[i], CarryVal(oldCarry),
        CarryVal(carry), Pow(i + align), Pow(align), Pow(i), DigitsVal(bs[..i]), target);
      i := i + 1;
    }
    assert bs[..i] == bs;
  }

  /** The third loop of `doAdd` and the final push: the carry runs on through the
      receiver's own higher digits, and a carry out of the top becomes a new digit 1. */
  method PropagateCarry(digits: seq<int>, align: nat, i0: nat, carry0: bool)
    returns (ds: seq<int>)
    requires ValidDigits(digits) && i0 + align <= |digits|
    ensures ValidDigits(ds)
    ensures DigitsVal(ds) == DigitsVal(digits) + CarryVal(carry0) * Pow(i0 + align)
  {
    ds := digits;
    var carry, i := carry0, i0;
    while carry && i < |ds| - align
      invariant i0 <= i && i + align <= |ds| && ValidDigits(ds)
      invariant DigitsVal(ds) + CarryVal(carry) * Pow(i + align)
        == DigitsVal(digits) + CarryVal(carry0) * Pow(i0 + align)
      decreases |ds| - align - i
    {
      var k := i + align;
      var sum := ds[k] + 1;
      ghost var before := ds;
      if sum > 9 {
        carry := true;
        ds := ds[k := sum - 10];
      } else {
        carry := false;
        ds := ds[k := sum];
      }
      DigitsValUpdate(before, k, ds[k]);
      CarryStep(DigitsVal(before), DigitsVal(ds), before[k], 0, 1, CarryVal(carry),
        Pow(k), 1, Pow(k), 0, DigitsVal(digits) + CarryVal(carry0) * Pow(i0 + align));
      i := i + 1;
    }
    if carry {
      DigitsValSnoc(ds, 1);
      ds := ds + [1];
    }
  }

  /** How many of the operand's digit positions lie below the receiver's top. */
  function Reach(a: Dec, b: Dec): int
  {
    Top(a) - b.exponent
  }

  /** The integer spelled by the operand's digits below the receiver's top: the part the
      direct branch of `doSubtract` subtracts (its higher digits are never read). */
  function LowPart(a: Dec, b: Dec): int
  {
    if Reach(a, b) <= 0 then 0
    else if Reach(a, b) < |b.digits| then DigitsVal(b.digits[..Reach(a, b)])
    else DigitsVal(b.digits)
  }

  function LowMag(a: Dec, b: Dec): real
  {
    Scale(LowPart(a, b), b.exponent)
  }

  /** When the direct branch of `doSubtract` completes without throwing. */
  predicate DirectFits(a: Dec, b: Dec)
  {
    && Top(a) > AlignExp(a, b)
    && (Reach(a, b) < 0 ==> b.digits == [])
    && Mag(a) >= LowMag(a, b)
  }

  /** What the direct branch throws when it does not complete: `logic_error` when the
      borrow escapes above the last digit the operand reaches, `out_of_range` otherwise. */
  function DirectError(a: Dec, b: Dec): Error
  {
    if Top(a) > AlignExp(a, b) && |b.digits| < Reach(a, b) then LogicError else OutOfRange
  }

  /** The direct branch of `doSubtract` (BigDecimal.cpp:468-487): aligns the receiver and
      subtracts the operand's digits with borrows, on the assumption that the receiver is
      the larger in magnitude. `vector::at` and the `size_t` arithmetic are modelled as
      written, so every outcome is characterised, not only that case. */
  method SubtractDigits(a: Dec, b: Dec) returns (r: Result<Dec>)
    requires ValidDigits(a.digits) && ValidDigits(b.digits)
    ensures r.Ok? <==> DirectFits(a, b)
    ensures r.Ok? ==> ValidDigits(r.value.digits) && r.value.sign == a.sign
    ensures r.Ok? ==> Mag(r.value) == Mag(a) - LowMag(a, b)
    ensures r.Err? ==> r.error == DirectError(a, b)
  {
    var digits := a.digits;
    var exponent := a.exponent;
    if exponent > b.exponent {
      digits := Zeros(exponent - b.exponent) + digits;
      exponent := b.exponent;
    }
    var align := b.exponent - exponent;
    AlignedValue(a, b);
    // `digits.size() - align` is unsigned: it wraps when align exceeds the size.
    var numDigits := if |digits| >= align then
        (if |digits| - align < |b.digits| then |digits| - align else |b.digits|)
      else |b.digits|;
    SubtractFacts(a, b, digits, exponent, align, numDigits);
    assert Reach(a, b) == |digits| - align;
    var step := SubtractOverlap(digits, b.digits, align, numDigits);
    if step.Err? {
      if align > |digits| {
        assert Reach(a, b) < 0 && b.digits != [];
      } else {
        assert numDigits == Reach(a, b) && !(Mag(a) >= LowMag(a, b));
      }
      r := Err(step.error);
      return;
    }
    var done := FinishBorrow(step.value, digits, numDigits + align);
    if done.Err? {
      if |digits| > 0 {
        DigitsValBounds(digits);
        assert b.digits[..0] == [];
        assert numDigits + align < |digits| && numDigits == |b.digits|;
      }
      r := Err(done.error);
      return;
    }
    r := Ok(Dec(done.value, a.sign, exponent));
  }

  lemma SubtractFacts(a: Dec, b: Dec, digits: seq<int>, exponent: int, align: nat, numDigits: nat)
    requires ValidDigits(a.digits) && ValidDigits(b.digits)
    requires digits == AlignedDigits(a, b) && exponent == AlignExp(a, b)
    requires align == b.exponent - exponent
    requires numDigits == if |digits| >= align then
        (if |digits| - align < |b.digits| then |digits| - align else |b.digits|)
      else |b.digits|
    ensures |digits| == Top(a) - exponent
    ensures |digits| >= align || numDigits == 0 ==>
      LowPart(a, b) == DigitsVal(b.digits[..numDigits])
    ensures Mag(a) >= LowMag(a, b) <==>
      DigitsVal(digits) - Pow(align) * LowPart(a, b) >= 0
    ensures Scale(DigitsVal(digits) - Pow(align) * LowPart(a, b), exponent)
      == Mag(a) - LowMag(a, b)
  {
    AlignedValue(a, b);
    if |digits| >= align && numDigits == |b.digits| {
      assert b.digits[..numDigits] == b.digits;
    }
    if numDigits == 0 {
      assert b.digits[..0] == [];
    }
    ScaleSub(DigitsVal(digits), Pow(align) * LowPart(a, b), exponent);
    ScaleShift(LowPart(a, b), align, exponent);
    ScaleCompare(Pow(align) * LowPart(a, b), DigitsVal(digits), exponent);
  }

  /** The first loop of the direct branch: the operand's digits are subtracted from
      position `align` up, each borrow taken at once from the next position up. */
  method SubtractOverlap(digits: seq<int>, bs: seq<int>, align: nat, numDigits: nat)
    returns (res: Result<seq<int>>)
    requires ValidDigits(digits) && ValidDigits(bs) && numDigits <= |bs|
    requires numDigits + align <= |digits| || align > |digits|
    ensures numDigits > 0 && align >= |digits| ==> res == Err(OutOfRange)
    ensures numDigits == 0 ==> res.Ok?
    ensures res.Err? ==> res.error == OutOfRange
    ensures numDigits + align <= |digits| ==>
      (res.Ok? <==> numDigits + align < |digits|
                    || DigitsVal(digits) - Pow(align) * DigitsVal(bs[..numDigits]) >= 0)
    ensures res.Ok? ==> BorrowState(res.value, digits, numDigits + align)
    ensures res.Ok? ==>
      DigitsVal(res.value) == DigitsVal(digits) - Pow(align) * DigitsVal(bs[..numDigits])
  {
    var ds := digits;
    var n := |digits|;
    var i := 0;
    while i < numDigits
      invariant 0 <= i <= numDigits && |ds| == n
      invariant i > 0 ==> i + align <= n
      invariant BorrowState(ds, digits, i + align)
      invariant DigitsVal(ds) == DigitsVal(digits) - Pow(align) * DigitsVal(bs[..i])
    {
      var k := i + align;
      if k >= n {
        return Err(OutOfRange);
      }
      ghost var before := ds;
      ds := ds[k := ds[k] - bs[i]];
      DigitsValUpdate(before, k, ds[k]);
      DigitsValPrefixStep(bs, i);
      PowAdd(align, i);
      BorrowStep(DigitsVal(before), DigitsVal(ds), before[k], bs[i], Pow(k), Pow(align), Pow(i),
        DigitsVal(bs[..i]), DigitsVal(digits));
      if ds[k] < 0 {
        if k + 1 >= n {
          NegativeTop(ds);
          return Err(OutOfRange);
        }
        BorrowFix(ds, k);
        ds := ds[k + 1 := ds[k + 1] - 1][k := ds[k] + 10];
      }
      i := i + 1;
    }
    if numDigits == 0 {
      assert bs[..0] == [];
      DigitsValBounds(digits);
    } else if numDigits + align == n {
      assert ValidDigits(ds);
      DigitsValBounds(ds);
    }
    res := Ok(ds);
  }

  /** The digits during the borrow loops: valid below position `k`, the receiver's own
      above it, and at `k` the receiver's digit less a borrow of at most one. */
  predicate BorrowState(ds: seq<int>, digits: seq<int>, k: int)
  {
    && |ds| == |digits|
    && (forall j :: 0 <= j < k && j < |ds| ==> IsDigit(ds[j]))
    && (forall j :: 0 <= j < |ds| && j > k ==> ds[j] == digits[j])
    && (0 <= k < |ds| ==> digits[k] - 1 <= ds[k] <= digits[k])
  }

  /** The value bookkeeping of one subtraction step: the operand digit `bi` is taken
      from position `p` = 10^k = 10^align * 10^i. */
  lemma BorrowStep(dv: int, dvNew: int, x: int, bi: int, p: int, pa: int, pi: int,
                   low: int, target: int)
    requires dvNew == dv + ((x - bi) - x) * p
    requires dv == target - pa * low
    requires p == pa * pi
    ensures dvNew == target - pa * (low + pi * bi)
  {
    assert pa * (low + pi * bi) == pa * low + (pa * pi) * bi;
  }

  /** Taking a borrow: ten more at position k, one less at position k + 1. */
  lemma BorrowFix(ds: seq<int>, k: nat)
    requires k + 1 < |ds|
    ensures DigitsVal(ds[k + 1 := ds[k + 1] - 1][k := ds[k] + 10]) == DigitsVal(ds)
  {
    DigitsValUpdate(ds, k + 1, ds[k + 1] - 1);
    DigitsValUpdate(ds[k + 1 := ds[k + 1] - 1], k, ds[k] + 10);
    assert Pow(k + 1) == 10 * Pow(k);
  }

  /** A vector whose top digit is negative and whose other digits are valid has a
      negative value. */
  lemma NegativeTop(ds: seq<int>)
    requires ds != [] && ds[|ds| - 1] < 0
    requires forall j :: 0 <= j < |ds| - 1 ==> IsDigit(ds[j])
    ensures DigitsVal(ds) < 0
  {
    var n := |ds| - 1;
    assert ds == ds[..n] + [ds[n]];
    DigitsValSnoc(ds[..n], ds[n]);
    DigitsValBounds(ds[..n]);
    MulDistance(Pow(n), ds[n], 0);
  }

  /** The second loop of the direct branch and its final check (BigDecimal.cpp:481-487): a
      pending borrow is carried upwards, and a negative top digit is a `logic_error`.
      With no digits at all, `size() - 1` wraps and `at` is out of range. */
  method FinishBorrow(ds0: seq<int>, digits: seq<int>, start: nat) returns (res: Result<seq<int>>)
    requires ValidDigits(digits) && BorrowState(ds0, digits, start)
    ensures |digits| == 0 ==> res == Err(OutOfRange)
    ensures |digits| > 0 ==> (res.Ok? <==> DigitsVal(ds0) >= 0)
    ensures |digits| > 0 && res.Err? ==> res.error == LogicError
    ensures res.Ok? ==> ValidDigits(res.value) && DigitsVal(res.value) == DigitsVal(ds0)
  {
    var ds := ds0;
    var n := |ds|;
    if n == 0 {
      return Err(OutOfRange);
    }
    var i := start;
    while i < n - 1 && ds[i] < 0
      invariant start <= i && |ds| == n
      invariant forall j :: 0 <= j < i && j < n ==> IsDigit(ds[j])
      invariant forall j :: i < j < n ==> IsDigit(ds[j])
      invariant i < n ==> -1 <= ds[i] <= 9
      invariant DigitsVal(ds) == DigitsVal(ds0)
      decreases n - i
    {
      BorrowFix(ds, i);
      ds := ds[i + 1 := ds[i + 1] - 1][i := ds[i] + 10];
      i := i + 1;
    }
    if ds[n - 1] < 0 {
      NegativeTop(ds);
      return Err(LogicError);
    }
    DigitsValBounds(ds);
    res := Ok(ds);
  }

  /** The numeric outcome of an operation that may throw. */
  function ValueOf(r: Result<Dec>): Result<real>
  {
    match r
    case Ok(d) => Ok(Value(d))
    case Err(e) => Err(e)
  }

  function Negate(r: Result<real>): Result<real>
  {
    match r
    case Ok(v) => Ok(-v)
    case Err(e) => Err(e)
  }

  /** The test that sends `doSubtract` down its direct branch (BigDecimal.cpp:467). */
  predicate Direct(a: Dec, b: Dec)
  {
    var cmp := Compare(a, b);
    (cmp == Greater && a.sign) || (cmp == Less && !a.sign)
  }

  /** `doSubtract` takes its swap branch (BigDecimal.cpp:489-492). */
  predicate Swaps(a: Dec, b: Dec)
  {
    Compare(a, b) != Equal && !Direct(a, b)
  }

  function SwapRank(a: Dec, b: Dec): nat
  {
    if Swaps(a, b) then 1 else 0
  }

  /** What the direct branch yields: the receiver's magnitude less the part of the
      operand below the receiver's top, with the receiver's sign, or the exception. */
  function DirectOutcome(a: Dec, b: Dec): Result<real>
  {
    if DirectFits(a, b) then Ok(Signed(a.sign, Mag(a) - LowMag(a, b))) else Err(DirectError(a, b))
  }

  /** What `doSubtract` yields, branch by branch. The swap branch computes `bd - *this`,
      which always takes the direct branch (SwapOnce), and negates it. */
  function SubtractOutcome(a: Dec, b: Dec): Result<real>
  {
    if Compare(a, b) == Equal then Ok(0.0)
    else if Direct(a, b) then DirectOutcome(a, b)
    else Negate(DirectOutcome(b, a))
  }

  /** What `+=` yields. */
  function AddOutcome(a: Dec, b: Dec): Result<real>
  {
    if a.sign == b.sign then Ok(Signed(a.sign, Mag(a) + Mag(b))) else SubtractOutcome(a, b)
  }

  /** What `-=` yields. */
  function SubOutcome(a: Dec, b: Dec): Result<real>
  {
    if a.sign == b.sign then SubtractOutcome(a, b) else Ok(Signed(a.sign, Mag(a) + Mag(b)))
  }

  /** The swap branch is taken only for operands of one sign, and the reversed
      subtraction it performs always takes the direct branch: the recursion stops. */
  lemma SwapOnce(a: Dec, b: Dec)
    requires Swaps(a, b)
    ensures a.sign == b.sign && Direct(b, a) && !Swaps(b, a) && Compare(b, a) != Equal
  {
    CompareMagnitudesFlip(a, b);
  }

  /** `doSubtract`. */
  method DoSubtract(a: Dec, b: Dec) returns (r: Result<Dec>)
    requires Canonical(a) && Canonical(b)
    ensures r.Ok? ==> Canonical(r.value)
    ensures ValueOf(r) == SubtractOutcome(a, b)
    decreases SwapRank(a, b), 1
  {
    var cmp := Compare(a, b);
    if cmp == Equal {
      var z := Normalize(Dec([], a.sign, a.exponent));
      r := Ok(z);
    } else if (cmp == Greater && a.sign) || (cmp == Less && !a.sign) {
      var raw := SubtractDigits(a, b);
      if raw.Err? {
        r := Err(raw.error);
        return;
      }
      var n := Normalize(raw.value);
      r := Ok(n);
    } else {
      // *this = bd - *this; sign = !sign;
      SwapOnce(a, b);
      var diff := SubAssign(b, a);
      if diff.Err? {
        r := Err(diff.error);
        return;
      }
      var n := Normalize(Dec(diff.value.digits, !diff.value.sign, diff.value.exponent));
      r := Ok(n);
    }
  }

  /** `operator-=`: subtracts magnitudes when the signs agree, adds them otherwise. */
  method SubAssign(a: Dec, b: Dec) returns (r: Result<Dec>)
    requires Canonical(a) && Canonical(b)
    ensures r.Ok? ==> Canonical(r.value)
    ensures ValueOf(r) == SubOutcome(a, b)
    decreases SwapRank(a, b), 2
  {
    if a.sign == b.sign {
      r := DoSubtract(a, b);
    } else {
      var s := DoAdd(a, b);
      r := Ok(s);
    }
  }

  /** `operator+=`: adds magnitudes when the signs agree, subtracts them otherwise. */
  method AddAssign(a: Dec, b: Dec) returns (r: Result<Dec>)
    requires WellFormed(a) && WellFormed(b)
    requires a.sign != b.sign ==> Canonical(a) && Canonical(b)
    ensures r.Ok? ==> Canonical(r.value)
    ensures ValueOf(r) == AddOutcome(a, b)
  {
    if a.sign == b.sign {
      var s := DoAdd(a, b);
      r := Ok(s);
    } else {
      r := DoSubtract(a, b);
    }
  }

  /** A canonical value of larger magnitude reaches at least as high. */
  lemma MagOrderTop(a: Dec, b: Dec)
    requires Canonical(a) && Canonical(b) && b.digits != [] && Mag(a) >= Mag(b)
    ensures a.digits != [] && Top(a) >= Top(b)
  {
    NonzeroMag(b);
    if a.digits == [] {
      ZeroMag(a);
    } else {
      MagBounds(a);
      MagBounds(b);
      if Top(a) < Top(b) {
        Pow10Monotone(Top(a), Top(b) - 1);
      }
    }
  }

  /** When the receiver is the larger in magnitude, the direct branch subtracts the whole
      operand and cannot throw (the assumption stated at BigDecimal.cpp:477). */
  lemma DirectExact(a: Dec, b: Dec)
    requires Canonical(a) && Canonical(b) && a.digits != [] && Mag(a) >= Mag(b)
    ensures DirectOutcome(a, b) == Ok(Signed(a.sign, Mag(a) - Mag(b)))
  {
    if b.digits == [] {
      ScaleZero(b.exponent);
    } else {
      MagOrderTop(a, b);
    }
  }

  /** `+=` computes the sum exactly when the signs agree or the receiver is the larger in
      magnitude, and never otherwise: with signs that differ and a larger operand it
      either throws or returns a value of the receiver's sign. */
  lemma AddExactIff(a: Dec, b: Dec)
    requires Canonical(a) && Canonical(b)
    ensures AddOutcome(a, b) == Ok(Value(a) + Value(b)) <==> a.sign == b.sign || Mag(a) >= Mag(b)
  {
    MagNonNegative(a);
    MagNonNegative(b);
    if a.sign != b.sign {
      assert Direct(a, b);
      if Mag(a) >= Mag(b) {
        if a.digits == [] {
          ZeroMag(a);
          if b.digits != [] {
            NonzeroMag(b);
          }
        }
        DirectExact(a, b);
      }
    }
  }

  /** `-=` computes the difference exactly on canonical operands, except for the pairs the
      comparator misorders. */
  lemma SubExact(a: Dec, b: Dec)
    requires Canonical(a) && Canonical(b) && !Misordered(a, b)
    ensures SubOutcome(a, b) == Ok(Value(a) - Value(b))
  {
    MagNonNegative(a);
    MagNonNegative(b);
    if a.sign == b.sign {
      CompareAgrees(a, b);
      CanonicalSign(a);
      CanonicalSign(b);
      if Compare(a, b) == Equal {
      } else if Direct(a, b) {
        if a.digits == [] {
          ZeroMag(a);
        }
        DirectExact(a, b);
      } else {
        if b.digits == [] {
          ZeroMag(b);
        }
        DirectExact(b, a);
      }
    }
  }

  /** Zero minus a value in (0, 0.1), and such a value minus zero, throw `logic_error`. */
  lemma SubMisordered(a: Dec, b: Dec)
    requires Canonical(a) && Canonical(b) && Misordered(a, b)
    ensures SubOutcome(a, b) == Err(LogicError)
  {
    CompareMisorders(a, b);
    if a.digits == [] {
      ZeroMag(a);
      NonzeroMag(b);
      assert Direct(a, b);
    } else {
      ZeroMag(b);
      NonzeroMag(a);
      assert Swaps(a, b);
    }
  }
}
