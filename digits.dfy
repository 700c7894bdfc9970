/** Digit vectors: the `digits` field of a BigDecimal, least-significant digit first,
    with each entry the digit's numeric value (the C++ code stores the characters '0'..'9'). */
module DigitSeq {

  /** 10^n as a natural number. */
  function Pow(n: nat): (r: nat)
    ensures r >= 1
  {
    if n == 0 then 1 else 10 * Pow(n - 1)
  }

  /** 10^e as a real, for any integer exponent. */
  function Pow10(e: int): (r: real)
    ensures r > 0.0
    decreases if e >= 0 then e else -e
  {
    if e == 0 then 1.0 else if e > 0 then 10.0 * Pow10(e - 1) else Pow10(e + 1) / 10.0
  }

  /** The integer spelled by a least-significant-first digit vector. */
  function DigitsVal(ds: seq<int>): int
  {
    if ds == [] then 0 else ds[0] + 10 * DigitsVal(ds[1..])
  }

  predicate IsDigit(x: int) { 0 <= x <= 9 }

  predicate ValidDigits(ds: seq<int>)
  {
    forall i :: 0 <= i < |ds| ==> IsDigit(ds[i])
  }

  /** `n` zero digits. */
  function Zeros(n: nat): (r: seq<int>)
    ensures |r| == n && ValidDigits(r)
    ensures forall i :: 0 <= i < n ==> r[i] == 0
  {
    seq(n, _ => 0)
  }

  /** The digit vector with its order reversed (most-significant first). */
  function Reverse(s: seq<int>): (r: seq<int>)
    ensures |r| == |s|
    ensures forall i :: 0 <= i < |s| ==> r[i] == s[|s| - 1 - i]
  {
    if s == [] then [] else Reverse(s[1..]) + [s[0]]
  }

  lemma PowAdd(m: nat, n: nat)
    ensures Pow(m + n) == Pow(m) * Pow(n)
  {
    if n > 0 {
      PowAdd(m, n - 1);
      assert Pow(m + n) == 10 * Pow(m + n - 1);
    }
  }

  lemma PowMonotone(m: nat, n: nat)
    requires m <= n
    ensures Pow(m) <= Pow(n)
  {
    if m < n {
      PowMonotone(m, n - 1);
    }
  }

  lemma Pow10Succ(e: int)
    ensures Pow10(e + 1) == 10.0 * Pow10(e)
  {
  }

  lemma {:induction false} Pow10Monotone(a: int, b: int)
    requires a <= b
    ensures Pow10(a) <= Pow10(b)
    decreases b - a
  {
    if a < b {
      Pow10Monotone(a, b - 1);
      Pow10Succ(b - 1);
    }
  }

  lemma DigitsValAppend(xs: seq<int>, ys: seq<int>)
    ensures DigitsVal(xs + ys) == DigitsVal(xs) + Pow(|xs|) * DigitsVal(ys)
  {
    if xs == [] {
      assert xs + ys == ys;
    } else {
      assert (xs + ys)[1..] == xs[1..] + ys;
      DigitsValAppend(xs[1..], ys);
      var t := DigitsVal(xs[1..]);
      var p := Pow(|xs| - 1);
      var v := DigitsVal(ys);
      assert DigitsVal(xs + ys) == xs[0] + 10 * DigitsVal(xs[1..] + ys);
      assert DigitsVal(xs[1..] + ys) == t + p * v;
      assert Pow(|xs|) == 10 * p;
      Distribute(xs[0], t, p, v);
    }
  }

  /** The integer v as a real, by recursion: the solver then treats it as one term and
      never has to mix integer and real multiplication. */
  function Num(v: int): real
    decreases if v >= 0 then v else -v
  {
    if v == 0 then 0.0 else if v > 0 then Num(v - 1) + 1.0 else Num(v + 1) - 1.0
  }

  lemma {:induction false} NumIsCast(v: int)
    ensures Num(v) == v as real
    decreases if v >= 0 then v else -v
  {
    if v > 0 {
      NumIsCast(v - 1);
    } else if v < 0 {
      NumIsCast(v + 1);
    }
  }

  lemma NumAdd(v: int, w: int)
    ensures Num(v) + Num(w) == Num(v + w)
  {
    NumIsCast(v);
    NumIsCast(w);
    NumIsCast(v + w);
  }

  lemma NumPositive(v: int)
    requires v > 0
    ensures Num(v) > 0.0
  {
    NumIsCast(v);
  }

  /** v * 10^e as a real: the value of an integer digit vector placed at exponent e.
      Defined by recursion on the exponent, like Pow10, so that the solver sees a scaled
      value as a single term rather than a product with a cast. */
  function Scale(v: int, e: int): real
    decreases if e >= 0 then e else -e
  {
    if e == 0 then Num(v) else if e > 0 then 10.0 * Scale(v, e - 1) else Scale(v, e + 1) / 10.0
  }

  lemma ScaleSucc(v: int, e: int)
    ensures Scale(v, e + 1) == 10.0 * Scale(v, e)
  {
  }

  lemma {:induction false} ScaleAdd(v: int, w: int, e: int)
    ensures Scale(v, e) + Scale(w, e) == Scale(v + w, e)
    decreases if e >= 0 then e else -e
  {
    if e == 0 {
      NumAdd(v, w);
    } else if e > 0 {
      ScaleAdd(v, w, e - 1);
    } else if e < 0 {
      ScaleAdd(v, w, e + 1);
    }
  }

  lemma {:induction false} ScaleNeg(v: int, e: int)
    ensures -Scale(v, e) == Scale(-v, e)
    decreases if e >= 0 then e else -e
  {
    if e == 0 {
      NumIsCast(v);
      NumIsCast(-v);
    } else if e > 0 {
      ScaleNeg(v, e - 1);
    } else if e < 0 {
      ScaleNeg(v, e + 1);
    }
  }

  lemma ScaleSub(v: int, w: int, e: int)
    ensures Scale(v, e) - Scale(w, e) == Scale(v - w, e)
  {
    ScaleNeg(w, e);
    ScaleAdd(v, -w, e);
  }

  lemma {:induction false} ScaleZero(e: int)
    ensures Scale(0, e) == 0.0
    decreases if e >= 0 then e else -e
  {
    if e > 0 {
      ScaleZero(e - 1);
    } else if e < 0 {
      ScaleZero(e + 1);
    }
  }

  lemma {:induction false} ScaleOne(e: int)
    ensures Scale(1, e) == Pow10(e)
    decreases if e >= 0 then e else -e
  {
    if e > 0 {
      ScaleOne(e - 1);
    } else if e < 0 {
      ScaleOne(e + 1);
    }
  }

  lemma {:induction false} ScalePositive(v: int, e: int)
    requires v > 0
    ensures Scale(v, e) > 0.0
    decreases if e >= 0 then e else -e
  {
    if e == 0 {
      NumPositive(v);
    } else if e > 0 {
      ScalePositive(v, e - 1);
    } else if e < 0 {
      ScalePositive(v, e + 1);
    }
  }

  lemma TenLeft(x: real, y: real)
    ensures (10.0 * x) * y == 10.0 * (x * y)
  {
  }

  lemma TenRight(x: real, y: real)
    ensures y * (10.0 * x) == 10.0 * (y * x)
  {
  }

  /** An integer times a scaled integer scales the product of the integers. */
  lemma ScaleMulInt(v: int, w: int, f: int)
    ensures Num(v) * Scale(w, f) == Scale(v * w, f)
  {
    NumIsCast(v);
    CastMulScale(Num(v), v, w, f);
  }

  /** `ScaleMulInt` with the integer factor as an abstract real, so that its recursive
      definition never meets the product. */
  lemma CastMulScale(a: real, v: int, w: int, f: int)
    requires a == v as real
    ensures a * Scale(w, f) == Scale(v * w, f)
  {
    CastBase(a, v, w);
    ScaleTimes(w, f, a, v * w, 0, f);
  }

  lemma CastBase(a: real, v: int, w: int)
    requires a == v as real
    ensures a * Num(w) == Scale(v * w, 0)
  {
    NumIsCast(w);
    NumIsCast(v * w);
  }

  lemma ScaleAddTo(a: int, b: int, c: int, f: int)
    requires c == a + b
    ensures Scale(a, f) + Scale(b, f) == Scale(c, f)
  {
    ScaleAdd(a, b, f);
  }

  /** The product of two scaled integers scales their product by the summed exponents. */
  lemma ScaleMul(v: int, e: int, w: int, f: int)
    ensures Scale(v, e) * Scale(w, f) == Scale(v * w, e + f)
  {
    ScaleMulAt(v, e, w, f, v * w, Scale(w, f));
  }

  /** Equal exponents give equal scaled values. */
  lemma ScaleAt(v: int, e: int, e': int)
    requires e == e'
    ensures Scale(v, e) == Scale(v, e')
  {
  }

  /** Equal left factors give equal products. */
  lemma MulCongruent(x: real, x': real, y: real)
    requires x == x'
    ensures x * y == x' * y
  {
  }
  /** `ScaleMul` with the integer product and the second factor as given terms. */
  lemma ScaleMulAt(v: int, e: int, w: int, f: int, vw: int, y: real)
    requires vw == v * w && y == Scale(w, f)
    ensures Scale(v, e) * y == Scale(vw, e + f)
  {
    ScaleMulInt(v, w, f);
    ScaleMulBy(v, e, y, vw, f, e + f);
  }

  /** Multiplying by `y`, which takes `Num(v)` to `Scale(vw, f)`, takes `Scale(v, e)` to
      `Scale(vw, e + f)`. */
  lemma ScaleMulBy(v: int, e: int, y: real, vw: int, f: int, ef: int)
    requires Num(v) * y == Scale(vw, f) && ef == e + f
    ensures Scale(v, e) * y == Scale(vw, ef)
  {
    if e >= 0 {
      ScaleMulUp(v, e, y, vw, f);
    } else {
      ScaleMulDown(v, e, y, vw, f);
    }
    ScaleAt(vw, e + f, ef);
  }

  /** `ScaleMulBy` with `y` as the left factor. */
  lemma ScaleTimes(v: int, e: int, y: real, vw: int, f: int, ef: int)
    requires y * Num(v) == Scale(vw, f) && ef == e + f
    ensures y * Scale(v, e) == Scale(vw, ef)
  {
    if e >= 0 {
      ScaleTimesUp(v, e, y, vw, f);
    } else {
      ScaleTimesDown(v, e, y, vw, f);
    }
    ScaleAt(vw, e + f, ef);
  }

  lemma {:induction false} ScaleTimesUp(v: int, e: int, y: real, vw: int, f: int)
    requires e >= 0 && y * Num(v) == Scale(vw, f)
    ensures y * Scale(v, e) == Scale(vw, e + f)
    decreases e
  {
    if e > 0 {
      ScaleTimesUp(v, e - 1, y, vw, f);
      ScaleStep(v, e - 1, e);
      ScaleStep(vw, e - 1 + f, e + f);
      TenRight(Scale(v, e - 1), y);
    }
  }

  lemma {:induction false} ScaleTimesDown(v: int, e: int, y: real, vw: int, f: int)
    requires e <= 0 && y * Num(v) == Scale(vw, f)
    ensures y * Scale(v, e) == Scale(vw, e + f)
    decreases -e
  {
    if e < 0 {
      ScaleTimesDown(v, e + 1, y, vw, f);
      ScaleStep(v, e, e + 1);
      ScaleStep(vw, e + f, e + 1 + f);
      TenRight(Scale(v, e), y);
    }
  }

  /** Scaling one factor up by ten scales the product up by ten. */
  lemma {:induction false} ScaleMulUp(v: int, e: int, y: real, vw: int, f: int)
    requires e >= 0 && Num(v) * y == Scale(vw, f)
    ensures Scale(v, e) * y == Scale(vw, e + f)
    decreases e
  {
    if e > 0 {
      ScaleMulUp(v, e - 1, y, vw, f);
      ScaleStep(v, e - 1, e);
      ScaleStep(vw, e - 1 + f, e + f);
      TenLeft(Scale(v, e - 1), y);
    }
  }

  /** Scaling one factor down by ten scales the product down by ten. */
  lemma {:induction false} ScaleMulDown(v: int, e: int, y: real, vw: int, f: int)
    requires e <= 0 && Num(v) * y == Scale(vw, f)
    ensures Scale(v, e) * y == Scale(vw, e + f)
    decreases -e
  {
    if e < 0 {
      ScaleMulDown(v, e + 1, y, vw, f);
      ScaleStep(v, e, e + 1);
      ScaleStep(vw, e + f, e + 1 + f);
      TenLeft(Scale(v, e), y);
    }
  }

  /** `Scale(v, e1)` for `e1` the successor of `e`, with both exponents as given. */
  lemma ScaleStep(v: int, e: int, e1: int)
    requires e1 == e + 1
    ensures Scale(v, e1) == 10.0 * Scale(v, e)
  {
    ScaleSucc(v, e);
  }

  /** Raising the exponent by f multiplies by 10^f. */
  lemma ScaleExp(v: int, e: int, f: int)
    ensures Scale(v, e + f) == Scale(v, e) * Pow10(f)
  {
    ScaleMul(v, e, 1, f);
    ScaleOne(f);
  }

  /** Multiplying the integer by ten is the same as raising the exponent by one. */
  lemma Scale10(w: int, e: int)
    ensures Scale(10 * w, e) == Scale(w, e + 1)
  {
    ScaleMulInt(10, w, e);
    NumIsCast(10);
    ScaleSucc(w, e);
  }

  lemma MulTen(p: int, v: int)
    ensures (10 * p) * v == 10 * (p * v)
  {
  }

  /** Multiplying the integer by 10^k is the same as raising the exponent by k. */
  lemma {:induction false} ScaleShift(v: int, k: nat, e: int)
    ensures Scale(Pow(k) * v, e) == Scale(v, e + k)
  {
    if k > 0 {
      MulTen(Pow(k - 1), v);
      Scale10(Pow(k - 1) * v, e);
      ScaleShift(v, k - 1, e + 1);
    }
  }

  /** `ScaleShift` with the shifted integer and the raised exponent as given terms. */
  lemma ScaleShiftTo(v: int, k: nat, e: int, n: int, e1: int)
    requires n == Pow(k) * v && e1 == e + k
    ensures Scale(n, e) == Scale(v, e1)
  {
    ScaleShift(v, k, e);
  }

  lemma ScaleNonNegative(v: int, e: int)
    requires v >= 0
    ensures Scale(v, e) >= 0.0
  {
    if v == 0 {
      ScaleZero(e);
    } else {
      ScalePositive(v, e);
    }
  }

  lemma ScaleLe(v: int, w: int, e: int)
    requires v <= w
    ensures Scale(v, e) <= Scale(w, e)
  {
    ScaleSub(w, v, e);
    ScaleNonNegative(w - v, e);
  }

  lemma ScaleLt(v: int, w: int, e: int)
    requires v < w
    ensures Scale(v, e) < Scale(w, e)
  {
    ScaleSub(w, v, e);
    ScalePositive(w - v, e);
  }

  /** Scale is injective and order-reflecting at a fixed exponent. */
  lemma ScaleCompare(v: int, w: int, e: int)
    ensures Scale(v, e) < Scale(w, e) <==> v < w
    ensures Scale(v, e) == Scale(w, e) <==> v == w
  {
    if v < w {
      ScaleLt(v, w, e);
    } else if w < v {
      ScaleLt(w, v, e);
    }
  }

  lemma Distribute(d: int, t: int, p: int, v: int)
    ensures d + 10 * (t + p * v) == d + 10 * t + (10 * p) * v
  {
  }

  lemma DigitsValZeros(n: nat)
    ensures DigitsVal(Zeros(n)) == 0
  {
    if n > 0 {
      assert Zeros(n)[1..] == Zeros(n - 1);
      DigitsValZeros(n - 1);
    }
  }

  /** Prepending `n` zero digits multiplies the value by 10^n. */
  lemma DigitsValShift(n: nat, ds: seq<int>)
    ensures DigitsVal(Zeros(n) + ds) == Pow(n) * DigitsVal(ds)
  {
    DigitsValAppend(Zeros(n), ds);
    DigitsValZeros(n);
  }

  /** Appending most-significant zeros leaves the value unchanged. */
  lemma DigitsValPad(ds: seq<int>, n: nat)
    ensures DigitsVal(ds + Zeros(n)) == DigitsVal(ds)
  {
    DigitsValAppend(ds, Zeros(n));
    DigitsValZeros(n);
  }

  lemma DigitsValSnoc(ds: seq<int>, x: int)
    ensures DigitsVal(ds + [x]) == DigitsVal(ds) + Pow(|ds|) * x
  {
    DigitsValAppend(ds, [x]);
    assert [x][1..] == [];
    assert DigitsVal([x]) == x;
  }

  lemma DigitsValPrefixStep(ds: seq<int>, i: nat)
    requires i < |ds|
    ensures DigitsVal(ds[..i + 1]) == DigitsVal(ds[..i]) + Pow(i) * ds[i]
  {
    assert ds[..i + 1] == ds[..i] + [ds[i]];
    DigitsValSnoc(ds[..i], ds[i]);
  }

  /** Replacing one digit changes the value by the difference at that position. */
  lemma DigitsValUpdate(ds: seq<int>, k: nat, v: int)
    requires k < |ds|
    ensures DigitsVal(ds[k := v]) == DigitsVal(ds) + (v - ds[k]) * Pow(k)
  {
    if k == 0 {
      assert ds[k := v][1..] == ds[1..];
    } else {
      assert ds[k := v][1..] == ds[1..][k - 1 := v];
      DigitsValUpdate(ds[1..], k - 1, v);
    }
  }

  lemma DigitsValBounds(ds: seq<int>)
    requires ValidDigits(ds)
    ensures 0 <= DigitsVal(ds) < Pow(|ds|)
  {
    if ds != [] {
      DigitsValBounds(ds[1..]);
    }
  }

  /** A vector whose most-significant digit is nonzero is at least 10^(n-1). */
  lemma DigitsValLowerBound(ds: seq<int>)
    requires ValidDigits(ds) && ds != [] && ds[|ds| - 1] != 0
    ensures DigitsVal(ds) >= Pow(|ds| - 1)
  {
    var n := |ds|;
    assert ds == ds[..n - 1] + [ds[n - 1]];
    DigitsValSnoc(ds[..n - 1], ds[n - 1]);
    DigitsValBounds(ds[..n - 1]);
  }

  /** A vector whose least-significant digit is nonzero is not a multiple of ten. */
  lemma DigitsValNotMultipleOfTen(ds: seq<int>)
    requires ValidDigits(ds) && ds != [] && ds[0] != 0
    ensures DigitsVal(ds) % 10 != 0
  {
    DigitsValBounds(ds[1..]);
    assert DigitsVal(ds) == ds[0] + 10 * DigitsVal(ds[1..]);
  }

  /** Digit vectors without most-significant zeros are determined by their value. */
  lemma {:induction false} DigitsValInjective(xs: seq<int>, ys: seq<int>)
    requires ValidDigits(xs) && ValidDigits(ys)
    requires xs == [] || xs[|xs| - 1] != 0
    requires ys == [] || ys[|ys| - 1] != 0
    requires DigitsVal(xs) == DigitsVal(ys)
    ensures xs == ys
  {
    if xs == [] && ys != [] {
      DigitsValLowerBound(ys);
    } else if xs != [] && ys == [] {
      DigitsValLowerBound(xs);
    } else if xs != [] {
      DigitsValBounds(xs[1..]);
      DigitsValBounds(ys[1..]);
      assert DigitsVal(xs) == xs[0] + 10 * DigitsVal(xs[1..]);
      assert DigitsVal(ys) == ys[0] + 10 * DigitsVal(ys[1..]);
      assert xs[0] == ys[0];
      DigitsValInjective(xs[1..], ys[1..]);
      assert xs == [xs[0]] + xs[1..];
      assert ys == [ys[0]] + ys[1..];
    }
  }

  /** Multiplying by a non-negative factor keeps a strict gap of at least that factor. */
  lemma MulDistance(p: int, x: int, y: int)
    requires p >= 0 && x < y
    ensures p * x + p <= p * y
  {
    var m := y - x - 1;
    assert p * y == p * x + p * m + p;
    assert p * m >= 0;
  }
}
