/** `normalize` (BigDecimal.cpp:81-97): strips most-significant zeros, resets zero to its
    single representation, and folds least-significant zeros into the exponent. */
module Normalizer {
  import opened DigitSeq
  import opened Representation

  /** The two erase loops of `normalize`, on a copy of the state. Any digit values are
      accepted (the arithmetic calls it on vectors it has just repaired); the result is
      canonical whenever the digits are. */
  method Normalize(d: Dec) returns (r: Dec)
    ensures Value(r) == Value(d)
    ensures r.digits == [] ==> r.sign && r.exponent == 0
    ensures r.digits != [] ==> r.digits[0] != 0 && r.digits[|r.digits| - 1] != 0
    ensures ValidDigits(d.digits) ==> Canonical(r)
    ensures r.digits != [] ==>
      && r.sign == d.sign
      && d.exponent <= r.exponent
      && Top(r) <= Top(d)
      && r.digits == d.digits[r.exponent - d.exponent .. Top(r) - d.exponent]
  {
    var digits := DropHighZeros(d.digits);
    ghost var hi := |digits|;
    if digits == [] {
      StripValue(d, 0, 0);
      ScaleZero(d.exponent);
      r := Dec([], true, 0);
      return;
    }
    var exponent;
    ghost var lo;
    digits, exponent, lo := DropLowZeros(digits, d.exponent);
    assert digits == d.digits[lo..hi];
    StripValue(d, lo, hi);
    r := Dec(digits, d.sign, exponent);
  }

  /** The first erase loop: removes most-significant zeros. */
  method DropHighZeros(ds: seq<int>) returns (digits: seq<int>)
    ensures |digits| <= |ds| && digits == ds[..|digits|]
    ensures forall k :: |digits| <= k < |ds| ==> ds[k] == 0
    ensures digits != [] ==> digits[|digits| - 1] != 0
  {
    digits := ds;
    while digits != [] && digits[|digits| - 1] == 0
      invariant |digits| <= |ds|
      invariant digits == ds[..|digits|]
      invariant forall k :: |digits| <= k < |ds| ==> ds[k] == 0
    {
      digits := digits[..|digits| - 1];
    }
  }

  /** The second erase loop: removes least-significant zeros, raising the exponent for
      each one removed. */
  method DropLowZeros(ds: seq<int>, e: int) returns (digits: seq<int>, exponent: int, ghost lo: nat)
    requires ds != [] && ds[|ds| - 1] != 0
    ensures lo < |ds| && digits == ds[lo..] && exponent == e + lo
    ensures forall k :: 0 <= k < lo ==> ds[k] == 0
    ensures digits[0] != 0
  {
    digits, exponent, lo := ds, e, 0;
    while digits[0] == 0
      invariant lo < |ds| && digits == ds[lo..]
      invariant forall k :: 0 <= k < lo ==> ds[k] == 0
      invariant exponent == e + lo
      decreases |digits|
    {
      digits := digits[1..];
      exponent := exponent + 1;
      lo := lo + 1;
    }
  }

  /** Dropping zero digits from both ends, with the exponent raised by the number dropped
      at the least-significant end, keeps the magnitude. */
  lemma StripValue(d: Dec, lo: nat, hi: nat)
    requires lo <= hi <= |d.digits|
    requires forall k :: 0 <= k < lo ==> d.digits[k] == 0
    requires forall k :: hi <= k < |d.digits| ==> d.digits[k] == 0
    ensures Mag(Dec(d.digits[lo..hi], d.sign, d.exponent + lo)) == Mag(d)
  {
    var mid := d.digits[lo..hi];
    assert d.digits == Zeros(lo) + mid + Zeros(|d.digits| - hi);
    DigitsValPad(Zeros(lo) + mid, |d.digits| - hi);
    DigitsValShift(lo, mid);
    ScaleShift(DigitsVal(mid), lo, d.exponent);
  }
}
