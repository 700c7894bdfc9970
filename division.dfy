/** `operator/=` (BigDecimal.cpp:257-297): long division of the dividend's digit vector
    by the divisor's digit vector, one quotient digit at a time by repeated addition,
    continued past the point until the remainder is zero or the quotient holds
    max(size, size) + 20 digits. Both signs are ignored: the quotient is never negative,
    and the loops only end for a positive divisor. */
module Division {
  import opened DigitSeq
  import opened Representation
  import opened Normalizer
  import opened Comparator
  import opened Arithmetic
  import opened Multiplier
  import opened ScaledValues

  function Max(x: int, y: int): int { if x >= y then x else y }

  /** Two whole numbers are never a pair the comparator misplaces. */
  lemma WholeOrdered(x: Dec, m: int, y: Dec, n: int)
    requires IsScaled(x, m, 0) && IsScaled(y, n, 0)
    ensures !Misordered(x, y)
  {
    ScaledMisordered(x, m, y, n, 0);
    WholeNotSmall(m);
    WholeNotSmall(n);
  }

  lemma MulLe(x: int, y: int, b: int)
    requires x <= y && b >= 0
    ensures x * b <= y * b
  {
    assert y * b - x * b == (y - x) * b;
  }

  lemma DivModOf(rv: int, b: int, m: int)
    requires b >= 1 && 0 <= m * b <= rv < m * b + b
    ensures rv / b == m && rv % b == rv - m * b
  {
    var q, r := rv / b, rv % b;
    assert rv == q * b + r && 0 <= r < b;
    if q > m {
      MulLe(m + 1, q, b);
      assert false;
    } else if q < m {
      MulLe(q + 1, m, b);
      assert false;
    }
  }

  /** The repeated-addition step of both loops (BigDecimal.cpp:268-275): `mult` counts how
      often the divisor fits into the remainder, and the remainder keeps what is left. */
  method QuotientDigit(bd: Dec, ghost b: int, remainder: Dec, ghost rv: int)
    returns (mult: Dec, rest: Dec)
    requires IsScaled(bd, b, 0) && b >= 1 && IsScaled(remainder, rv, 0)
    ensures IsScaled(mult, rv / b, 0) && IsScaled(rest, rv % b, 0)
  {
    var bdCpy := bd;
    mult := Zero;
    ghost var m := 0;
    ScaleZero(0);
    while Compare(bdCpy, remainder) != Greater
      invariant m >= 0 && IsScaled(mult, m, 0) && IsScaled(bdCpy, m * b + b, 0)
      invariant m * b <= rv
      decreases rv - m * b
    {
      WholeOrdered(bdCpy, m * b + b, remainder, rv);
      ScaledCompare(bdCpy, m * b + b, remainder, rv, 0);
      bdCpy := AddScaled(bdCpy, m * b + b, bd, b, 0);
      mult := Increment(mult, m);
      assert (m + 1) * b + b == m * b + b + b;
      m := m + 1;
    }
    WholeOrdered(bdCpy, m * b + b, remainder, rv);
    ScaledCompare(bdCpy, m * b + b, remainder, rv, 0);
    WholeOrdered(bdCpy, m * b + b, bd, b);
    var s := SubScaled(bdCpy, m * b + b, bd, b, 0);
    bdCpy := s.value;
    WholeOrdered(remainder, rv, bdCpy, m * b);
    var t := SubScaled(remainder, rv, bdCpy, m * b, 0);
    rest := t.value;
    DivModOf(rv, b, m);
  }

  /** A quotient digit moved to place i: a canonical single digit has exponent 0, so
      setting the exponent to i gives digit * 10^i. */
  lemma DigitPlaced(mult: Dec, d: int, i: int)
    requires IsScaled(mult, d, 0) && 0 <= d <= 9
    ensures WellFormed(mult) && Mag(Dec(mult.digits, true, i)) == Scale(d, i)
  {
    if d == 0 {
      ScaledZero(mult, d, 0);
    } else {
      var single := Dec([d], true, 0);
      assert DigitsVal([d]) == d;
      CanonicalUnique(mult, single);
    }
  }

  lemma QuotientDigitBound(rv: int, c: int, b: int)
    requires 0 <= rv < b && 0 <= c <= 9
    ensures 0 <= (10 * rv + c) / b <= 9
  {
    assert 10 * rv + c < 10 * b;
    DigitBelowTen(10 * rv + c, b);
  }

  /** One long-division step: the next dividend digit joins the processed prefix. */
  lemma QuotientArith(p: int, q: int, b: int, rv: int, c: int)
    requires p == q * b + rv && b >= 1
    ensures c + 10 * p == (10 * q + (10 * rv + c) / b) * b + (10 * rv + c) % b
  {
    var x := 10 * rv + c;
    var d := x / b;
    assert x == d * b + x % b;
    assert 10 * p == (10 * q) * b + 10 * rv;
    assert (10 * q + d) * b == (10 * q) * b + d * b;
  }

  /** Adding digit d at place i to q * 10^(i+1). */
  lemma PlaceValue(q: int, d: int, i: int)
    ensures Scale(q, i + 1) + Scale(d, i) == Scale(10 * q + d, i)
  {
    Scale10(q, i);
    ScaleAdd(10 * q, d, i);
  }

  /** The end of each step of both loops (BigDecimal.cpp:268-279 and 282-292): the
      quotient digit found by repeated addition is moved to place i and added to the
      result with `+=`. */
  method NextQuotientDigit(bd: Dec, ghost b: int, remainder: Dec, ghost rv: int,
                           result: Dec, ghost q: int, i: int)
    returns (result': Dec, remainder': Dec)
    requires IsScaled(bd, b, 0) && b >= 1 && IsScaled(remainder, rv, 0) && rv < 10 * b
    requires Canonical(result) && result.sign && q >= 0 && Mag(result) == Scale(q, i + 1)
    ensures 0 <= rv / b <= 9
    ensures Canonical(result') && result'.sign && Mag(result') == Scale(10 * q + rv / b, i)
    ensures IsScaled(remainder', rv % b, 0)
  {
    var mult;
    mult, remainder' := QuotientDigit(bd, b, remainder, rv);
    DigitBelowTen(rv, b);
    DigitPlaced(mult, rv / b, i);
    result' := AddNonNegative(result, mult.(exponent := i));
    PlaceValue(q, rv / b, i);
  }

  lemma DigitBelowTen(rv: int, b: int)
    requires 0 <= rv < 10 * b && b >= 1
    ensures 0 <= rv / b <= 9
  {
    var d := rv / b;
    assert rv == d * b + rv % b && 0 <= rv % b < b;
    if d > 9 {
      MulLe(10, d, b);
      assert false;
    } else if d < 0 {
      MulLe(d, -1, b);
      assert false;
    }
  }

  /** The first loop of `/=`: the dividend's digits most-significant first, each step
      placing one quotient digit at the dividend digit's place. */
  method IntegerQuotient(ds: seq<int>, bd: Dec, ghost b: int)
    returns (result: Dec, remainder: Dec, ghost q: int, ghost rv: int)
    requires ValidDigits(ds) && IsScaled(bd, b, 0) && b >= 1
    ensures IsScaled(result, q, 0) && IsScaled(remainder, rv, 0)
    ensures DigitsVal(ds) == q * b + rv && rv < b
  {
    result, remainder := Zero, Zero;
    q, rv := 0, 0;
    ScaleZero(0);
    ScaleZero(|ds|);
    var i := |ds| - 1;
    assert ds[i + 1..] == [];
    while i >= 0
      invariant -1 <= i < |ds|
      invariant Canonical(result) && result.sign && q >= 0 && Mag(result) == Scale(q, i + 1)
      invariant IsScaled(remainder, rv, 0) && rv < b
      invariant DigitsVal(ds[i + 1..]) == q * b + rv
    {
      var c := ds[i];
      var t := TimesTen(remainder, rv, 0);
      remainder := PlusDigit(t, 10 * rv, c, 0);
      assert Pow(0) == 1;
      QuotientDigitBound(rv, c, b);
      ghost var d := (10 * rv + c) / b;
      result, remainder := NextQuotientDigit(bd, b, remainder, 10 * rv + c, result, q, i);
      assert ds[i..][1..] == ds[i + 1..];
      QuotientArith(DigitsVal(ds[i + 1..]), q, b, rv, c);
      q, rv := 10 * q + d, (10 * rv + c) % b;
      ScaleNonNegative(q, i);
      i := i - 1;
    }
    assert ds[0..] == ds;
  }

  /** A canonical value equal to n * 10^f has no digit below place f. */
  lemma ExponentAtLeast(d: Dec, n: int, f: int)
    requires Canonical(d) && d.digits != [] && Mag(d) == Scale(n, f)
    ensures d.exponent >= f
  {
    if d.exponent < f {
      var j := f - d.exponent;
      ScaleShift(n, j, d.exponent);
      assert d.exponent + j == f;
      ScaleCompare(DigitsVal(d.digits), Pow(j) * n, d.exponent);
      assert Pow(j) * n == 10 * Pow(j - 1) * n;
      MultipleOfTen(Pow(j - 1), n);
      DigitsValNotMultipleOfTen(d.digits);
    }
  }

  /** A canonical value equal to n * 10^f with n not a multiple of ten has a digit at
      place f or below. */
  lemma ExponentAtMost(d: Dec, n: int, f: int)
    requires Canonical(d) && d.digits != [] && Mag(d) == Scale(n, f) && n % 10 != 0
    ensures d.exponent <= f
  {
    if d.exponent > f {
      var j := d.exponent - f;
      var v := DigitsVal(d.digits);
      ScaleShift(v, j, f);
      assert f + j == d.exponent;
      ScaleCompare(n, Pow(j) * v, f);
      assert Pow(j) * v == 10 * Pow(j - 1) * v;
      MultipleOfTen(Pow(j - 1), v);
    }
  }

  /** Each step of the second loop either leaves the quotient as it was (digit 0; the
      remainder then grows) or makes it one digit longer at the low end. */
  lemma QuotientGrows(before: Dec, after: Dec, q: int, d: int, e: int)
    requires Canonical(before) && Canonical(after) && before.sign && after.sign
    requires q >= 0 && 0 <= d <= 9
    requires Mag(before) == Scale(q, e + 1) && Mag(after) == Scale(10 * q + d, e)
    ensures d == 0 ==> after == before
    ensures d != 0 ==> |after.digits| > |before.digits|
  {
    Scale10(q, e);
    if d == 0 {
      CanonicalUnique(after, before);
    } else {
      ScalePositive(10 * q + d, e);
      if after.digits == [] {
        ZeroMag(after);
      }
      assert (10 * q + d) % 10 == d;
      ExponentAtMost(after, 10 * q + d, e);
      if before.digits != [] {
        ExponentAtLeast(before, q, e + 1);
        ScaleLe(10 * q, 10 * q + d, e);
        MagOrderTop(after, before);
      }
    }
  }

  lemma FractionArith(n: int, k: nat, q: int, b: int, rv: int)
    requires n * Pow(k) == q * b + rv && b >= 1
    ensures n * Pow(k + 1) == (10 * q + 10 * rv / b) * b + 10 * rv % b
  {
    var d := 10 * rv / b;
    assert 10 * rv == d * b + 10 * rv % b;
    assert n * (10 * Pow(k)) == 10 * (n * Pow(k));
    assert (10 * q + d) * b == 10 * (q * b) + d * b;
  }

  /** The condition of the fraction loop of `/=` (BigDecimal.cpp:279) still holds after j
      steps: n * 10^j is not yet a multiple of b, and the quotient found so far,
      n * 10^j / b placed j digits below the point, holds fewer than maxDigits digits in
      canonical form. */
  ghost predicate Continues(n: int, b: int, j: nat, maxDigits: int)
  {
    b >= 1 && n * Pow(j) % b != 0 &&
    forall d: Dec :: Canonical(d) && Mag(d) == Scale(n * Pow(j) / b, -(j as int)) ==> |d.digits| < maxDigits
  }

  /** The fraction loop ran k steps and no fewer: its condition held after each of the
      first k - 1 steps and at the start. */
  ghost predicate StopsFirst(n: int, b: int, k: int, maxDigits: int)
  {
    forall j: nat :: j < k ==> Continues(n, b, j, maxDigits)
  }

  /** The loop condition, read off the loop's state: the result is the canonical form of
      the quotient so far and the remainder is the rest. */
  lemma ContinuesAt(n: int, b: int, k: nat, q: int, rv: int, result: Dec, maxDigits: int)
    requires b >= 1 && q >= 0 && n * Pow(k) == q * b + rv && 0 < rv < b
    requires Canonical(result) && result.sign && Mag(result) == Scale(q, -(k as int))
    requires |result.digits| < maxDigits
    ensures Continues(n, b, k, maxDigits)
  {
    var p := n * Pow(k);
    assert 0 <= q * b;
    DivModOf(p, b, q);
    forall d: Dec | Canonical(d) && Mag(d) == Scale(p / b, -(k as int))
      ensures |d.digits| < maxDigits
    {
      CanonicalUnique(d.(sign := true), result);
    }
  }

  /** The second loop of `/=`: digits below the point, while the remainder is nonzero and
      the quotient holds fewer than `maxDigits` digits. */
  method FractionQuotient(bd: Dec, ghost b: int, result0: Dec, ghost q0: int,
                          remainder0: Dec, ghost rv0: int, maxDigits: int, ghost n: int)
    returns (result: Dec, ghost k: int, ghost q: int, ghost rv: int)
    requires IsScaled(bd, b, 0) && b >= 1 && n == q0 * b + rv0
    requires IsScaled(result0, q0, 0) && IsScaled(remainder0, rv0, 0) && rv0 < b
    ensures k >= 0 && Canonical(result) && result.sign && q >= 0 && Mag(result) == Scale(q, -k)
    ensures (q0 * b + rv0) * Pow(k) == q * b + rv && 0 <= rv < b
    ensures rv != 0 ==> |result.digits| >= maxDigits
    ensures StopsFirst(n, b, k, maxDigits)
  {
    result := result0;
    var remainder := remainder0;
    k, q, rv := 0, q0, rv0;
    var i := -1;
    while |result.digits| < maxDigits && remainder != Zero
      invariant k >= 0 && i == -1 - k
      invariant Canonical(result) && result.sign && q >= 0 && Mag(result) == Scale(q, -k)
      invariant IsScaled(remainder, rv, 0) && rv < b
      invariant (q0 * b + rv0) * Pow(k) == q * b + rv
      invariant StopsFirst(n, b, k, maxDigits)
      decreases maxDigits - |result.digits|, b - rv
    {
      ScaledZero(remainder, rv, 0);
      ContinuesAt(n, b, k, q, rv, result, maxDigits);
      remainder := TimesTen(remainder, rv, 0);
      QuotientDigitBound(rv, 0, b);
      ghost var before := result;
      result, remainder := NextQuotientDigit(bd, b, remainder, 10 * rv, result, q, i);
      QuotientGrows(before, result, q, 10 * rv / b, i);
      FractionArith(q0 * b + rv0, k, q, b, rv);
      q, rv := 10 * q + 10 * rv / b, 10 * rv % b;
      k := k + 1;
      ScaleNonNegative(q, i);
      i := i - 1;
    }
    ScaledZero(remainder, rv, 0);
  }

  /** What `/=` leaves for a positive divisor: the quotient q of the digit vectors,
      carried k places past the point with remainder `rem`, placed at the exponent
      difference less k, so that the result times |b| is at most |a| and q + 1 units
      of the last place times |b| exceed it. The fraction loop stops at the first k
      where the division is exact or the result holds `maxDigits` digits. */
  ghost predicate DivisionOutcome(a: Dec, b: Dec, r: Dec, k: int, q: int, rem: int)
  {
    && Canonical(r) && r.sign && k >= 0 && q >= 0
    && DigitsVal(a.digits) * Pow(k) == q * DigitsVal(b.digits) + rem
    && 0 <= rem < DigitsVal(b.digits)
    && Mag(r) == Scale(q, a.exponent - b.exponent - k)
    && (rem != 0 ==> |r.digits| >= MaxDigits(a, b))
    && Value(r) * Mag(b) <= Mag(a)
    && Mag(a) < Scale(q + 1, a.exponent - b.exponent - k) * Mag(b)
    && (rem == 0 ==> Value(r) * Mag(b) == Mag(a))
    && (StopsFirst(DigitsVal(a.digits), DigitsVal(b.digits), k, MaxDigits(a, b)))
  }

  /** The digit budget of `/=` (BigDecimal.cpp:261). */
  function MaxDigits(a: Dec, b: Dec): int
  {
    Max(|a.digits|, |b.digits|) + 20
  }

  /** `operator/=` with a positive divisor. The quotient q of the digit vectors, carried
      k places past the point, leaves remainder `rem`; the result is q placed at the
      exponent difference less k. */
  method DivAssign(a: Dec, b: Dec) returns (r: Dec, ghost k: int, ghost q: int, ghost rem: int)
    requires Canonical(a) && Canonical(b) && b.sign && b.digits != []
    ensures Canonical(r) && r.sign && k >= 0 && q >= 0
    ensures DigitsVal(a.digits) * Pow(k) == q * DigitsVal(b.digits) + rem
    ensures 0 <= rem < DigitsVal(b.digits)
    ensures Mag(r) == Scale(q, a.exponent - b.exponent - k)
    ensures rem != 0 ==> |r.digits| >= MaxDigits(a, b)
    ensures Value(r) * Mag(b) <= Mag(a)
    ensures Mag(a) < Scale(q + 1, a.exponent - b.exponent - k) * Mag(b)
    ensures rem == 0 ==> Value(r) * Mag(b) == Mag(a)
    ensures StopsFirst(DigitsVal(a.digits), DigitsVal(b.digits), k, MaxDigits(a, b))
    ensures DivisionOutcome(a, b, r, k, q, rem)
  {
    var exponentResult := a.exponent - b.exponent;
    var bd := b.(exponent := 0);
    ghost var bv := DigitsVal(b.digits);
    DigitsValLowerBound(b.digits);
    var maxDigits := MaxDigits(a, bd);
    var result, remainder, q0, rv0 := IntegerQuotient(a.digits, bd, bv);
    result, k, q, rem := FractionQuotient(bd, bv, result, q0, remainder, rv0, maxDigits, DigitsVal(a.digits));
    ghost var before := result;
    result := result.(exponent := result.exponent + exponentResult);
    ScaleRebase(DigitsVal(before.digits), before.exponent, q, -k, exponentResult);
    assert -k + exponentResult == a.exponent - b.exponent - k;
    r := Normalize(result);
    if rem != 0 {
      CanonicalUnique(r, result);
    }
    DivBounds(a, b, r, k, q, rem);
  }

  /** `/=` has a single outcome: two results that both satisfy `DivisionOutcome` took
      the same number of fraction steps and are the same value, so even a quotient that
      never terminates, such as 1/3, is cut at one fixed place. */
  lemma DivisionDeterministic(a: Dec, b: Dec, r1: Dec, k1: int, q1: int, rem1: int,
                              r2: Dec, k2: int, q2: int, rem2: int)
    requires DivisionOutcome(a, b, r1, k1, q1, rem1) && DivisionOutcome(a, b, r2, k2, q2, rem2)
    ensures k1 == k2 && q1 == q2 && rem1 == rem2 && r1 == r2
  {
    var n, bv, x := DigitsVal(a.digits), DigitsVal(b.digits), a.exponent - b.exponent;
    if k1 < k2 {
      assert Continues(n, bv, k1, MaxDigits(a, b));
      StillRunning(n, bv, x, r1, k1, q1, rem1, MaxDigits(a, b));
      assert false;
    } else if k2 < k1 {
      assert Continues(n, bv, k2, MaxDigits(a, b));
      StillRunning(n, bv, x, r2, k2, q2, rem2, MaxDigits(a, b));
      assert false;
    }
    var p := n * Pow(k1);
    assert 0 <= q1 * bv && 0 <= q2 * bv;
    DivModOf(p, bv, q1);
    DivModOf(p, bv, q2);
    CanonicalUnique(r1, r2);
  }

  /** A canonical result q * 10^(x-k), with n * 10^k = q * b + rem, for which the loop
      condition holds after k steps has a nonzero remainder and fewer than maxDigits
      digits: the loop would have gone on. */
  lemma StillRunning(n: int, bv: int, x: int, r: Dec, k: int, q: int, rem: int, maxDigits: int)
    requires Canonical(r) && k >= 0 && q >= 0 && Mag(r) == Scale(q, x - k)
    requires n * Pow(k) == q * bv + rem && 0 <= rem < bv
    requires Continues(n, bv, k, maxDigits)
    ensures rem != 0 && |r.digits| < maxDigits
  {
    var p := n * Pow(k);
    assert 0 <= q * bv;
    DivModOf(p, bv, q);
    var d := r.(exponent := r.exponent - x);
    if r.digits == [] {
      ZeroMag(r);
      ScaleZero(x - k);
      ScaleCompare(0, q, x - k);
      ScaleZero(-k);
      assert Zero.digits == [] && Mag(Zero) == Scale(p / bv, -k);
    } else {
      ScaleRebase(DigitsVal(r.digits), r.exponent, q, x - k, -x);
      ScaleAt(q, x - k + -x, -k);
      assert Canonical(d) && Mag(d) == Scale(p / bv, -k);
    }
  }

  /** The quotient's place in the reals: q * 10^-k times the divisor is at most the
      dividend and within one unit of the last quotient digit of it. */
  lemma DivBounds(a: Dec, b: Dec, r: Dec, k: nat, q: int, rem: int)
    requires r.sign && Mag(r) == Scale(q, a.exponent - b.exponent - k)
    requires DigitsVal(a.digits) * Pow(k) == q * DigitsVal(b.digits) + rem
    requires 0 <= rem < DigitsVal(b.digits)
    ensures Value(r) * Mag(b) <= Mag(a)
    ensures Mag(a) < Scale(q + 1, a.exponent - b.exponent - k) * Mag(b)
    ensures rem == 0 ==> Value(r) * Mag(b) == Mag(a)
  {
    DivBoundsAt(Mag(a), Value(r), Mag(b), DigitsVal(a.digits), DigitsVal(b.digits), a.exponent,
                b.exponent, k, q, rem, a.exponent - b.exponent - k, a.exponent - k);
  }

  /** `DivBounds` on the scaled integers alone, the quotient at exponent x and the
      products at exponent low. */
  lemma DivBoundsAt(ma: real, vr: real, mb: real, av: int, bv: int, ea: int, eb: int, k: nat,
                    q: int, rem: int, x: int, low: int)
    requires x == ea - eb - k && low == ea - k
    requires ma == Scale(av, ea) && vr == Scale(q, x) && mb == Scale(bv, eb)
    requires av * Pow(k) == q * bv + rem && 0 <= rem < bv
    ensures vr * mb <= ma < Scale(q + 1, x) * mb
    ensures rem == 0 ==> vr * mb == ma
  {
    QuotientBracket(av, bv, Pow(k), q, rem);
    DivLower(ma, vr, mb, av, bv, ea, eb, k, q, rem, x, low);
    BelowNext(ma, Scale(q + 1, x), mb, av, bv, ea, eb, k, q + 1, x, low);
  }

  /** q divisors, q placed at exponent x, are at most the dividend. */
  lemma DivLower(ma: real, vr: real, mb: real, av: int, bv: int, ea: int, eb: int, k: nat, q: int,
                 rem: int, x: int, low: int)
    requires low == x + eb && low == ea - k && ma == Scale(av, ea) && vr == Scale(q, x)
    requires mb == Scale(bv, eb) && q * bv <= Pow(k) * av && (rem == 0 ==> Pow(k) * av == q * bv)
    ensures vr * mb <= ma && (rem == 0 ==> vr * mb == ma)
  {
    DividendAtLow(av, ea, k, low);
    ProductAt(q, x, bv, eb, low, vr, mb);
    ScaleLe(q * bv, Pow(k) * av, low);
  }

  /** The dividend is below q1 divisors, q1 placed at exponent x. */
  lemma BelowNext(ma: real, vq: real, mb: real, av: int, bv: int, ea: int, eb: int, k: nat,
                  q1: int, x: int, low: int)
    requires low == x + eb && low == ea - k && ma == Scale(av, ea) && vq == Scale(q1, x)
    requires mb == Scale(bv, eb) && Pow(k) * av < q1 * bv
    ensures ma < vq * mb
  {
    DividendAtLow(av, ea, k, low);
    ProductAt(q1, x, bv, eb, low, vq, mb);
    ScaleLt(Pow(k) * av, q1 * bv, low);
  }

  /** q divisors are at most the shifted dividend and q + 1 divisors exceed it. */
  lemma QuotientBracket(av: int, bv: int, p: int, q: int, rem: int)
    requires av * p == q * bv + rem && 0 <= rem < bv
    ensures q * bv <= p * av < (q + 1) * bv && (rem == 0 ==> p * av == q * bv)
  {
    assert (q + 1) * bv == q * bv + bv;
  }

  lemma DividendAtLow(av: int, e: int, k: nat, low: int)
    requires low == e - k
    ensures Scale(av, e) == Scale(Pow(k) * av, low)
  {
    ScaleShift(av, k, low);
  }

  lemma ProductAt(q: int, x: int, bv: int, eb: int, low: int, vq: real, vb: real)
    requires low == x + eb && vq == Scale(q, x) && vb == Scale(bv, eb)
    ensures vq * vb == Scale(q * bv, low)
  {
    ScaleMulAt(q, x, bv, eb, q * bv, vb);
    ScaleAt(q * bv, x + eb, low);
    MulCongruent(vq, Scale(q, x), vb);
  }
}
