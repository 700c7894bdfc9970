/** `toString` (BigDecimal.cpp:155-187): the digits most-significant first after an
    optional `-`, with the exponent shown as a decimal point inside or in front of the
    digits, or as an `e-`/`e+` suffix. */
module Formatter {
  import opened DigitSeq
  import opened Representation
  import opened Text

  /** The text `toString` produces. For a negative exponent p = -exponent and n digits:
      p == n puts `0.` in front, p < n puts the point p digits from the right, and p > n
      writes one digit, the point (left out when there is no other digit), the rest and
      `e-` with the distance the point moved. */
  function Format(d: Dec): string
    requires ValidDigits(d.digits)
  {
    if d.digits == [] then "0"
    else
      var prefix := if d.sign then "" else "-";
      var body := Spelled(d.digits);
      var n := |d.digits|;
      if d.exponent < 0 then
        var p := -d.exponent;
        if p == n then prefix + "0." + body
        else if p > n then
          prefix + (if n == 1 then body else body[..1] + "." + body[1..])
            + "e-" + NatToString(p - n + 1)
        else prefix + body[..n - p] + "." + body[n - p..]
      else if d.exponent > 0 then prefix + body + "e+" + NatToString(d.exponent)
      else prefix + body
  }

  /** The spelling holds the digits in reverse order. */
  lemma {:induction false} SpelledAt(ds: seq<int>, k: nat)
    requires ValidDigits(ds) && k < |ds|
    ensures Spelled(ds)[k] == DigitChar(ds[|ds| - 1 - k])
  {
    if k < |ds| - 1 {
      SpelledAt(ds[1..], k);
    }
  }

  /** `std::reverse(s.begin() + offset, s.end())`: swaps from both ends inward. */
  method ReverseFrom(s: string, offset: nat) returns (t: string)
    requires offset <= |s|
    ensures |t| == |s| && t[..offset] == s[..offset]
    ensures forall k :: offset <= k < |s| ==> t[k] == s[|s| - 1 - (k - offset)]
  {
    t := s;
    if offset == |s| {
      return;
    }
    var lo, hi := offset, |s| - 1;
    while lo < hi
      invariant offset <= lo <= hi + 1 <= |s| && lo + hi == offset + |s| - 1
      invariant |t| == |s|
      invariant forall k :: 0 <= k < offset ==> t[k] == s[k]
      invariant forall k :: lo <= k <= hi ==> t[k] == s[k]
      invariant forall k :: offset <= k < lo ==> t[k] == s[|s| - 1 - (k - offset)]
      invariant forall k :: hi < k < |s| ==> t[k] == s[|s| - 1 - (k - offset)]
    {
      t := t[lo := t[hi]][hi := t[lo]];
      lo, hi := lo + 1, hi - 1;
    }
  }

  /** `toString`: the sign, the digit characters least-significant first, reversed in
      place, then the point inserted or the exponent appended. */
  method ToString(d: Dec) returns (result: string)
    requires ValidDigits(d.digits)
    ensures result == Format(d)
  {
    if d.digits == [] {
      return "0";
    }
    result := [];
    var offset := 0;
    if !d.sign {
      result := result + "-";
      offset := 1;
    }
    ghost var prefix := result;
    result := AppendDigits(result, d.digits);
    result := ReverseFrom(result, offset);
    SpelledBody(d.digits, prefix, result);
    result := PlacePoint(d, offset, result);
  }

  /** `result += std::string_view(digits.begin(), digits.end())`. */
  method AppendDigits(s: string, ds: seq<int>) returns (result: string)
    requires ValidDigits(ds)
    ensures |result| == |s| + |ds| && result[..|s|] == s
    ensures forall k :: |s| <= k < |result| ==> result[k] == DigitChar(ds[k - |s|])
  {
    result := s;
    var i := 0;
    while i < |ds|
      invariant 0 <= i <= |ds| && |result| == |s| + i
      invariant result[..|s|] == s
      invariant forall k :: |s| <= k < |result| ==> result[k] == DigitChar(ds[k - |s|])
    {
      result := result + [DigitChar(ds[i])];
      i := i + 1;
    }
  }

  /** The last part of `toString`: the point inserted, or the exponent appended. */
  method PlacePoint(d: Dec, offset: nat, s: string) returns (result: string)
    requires ValidDigits(d.digits) && d.digits != []
    requires offset == (if d.sign then 0 else 1)
    requires s == (if d.sign then "" else "-") + Spelled(d.digits)
    ensures result == Format(d)
  {
    result := s;
    if d.exponent < 0 {
      result := PlaceNegative(d, offset, s);
    } else if d.exponent != 0 {
      result := result + "e+" + NatToString(d.exponent);
    }
  }

  /** A negative exponent: `0.` in front, a point inside, or one digit, a point and an
      `e-` suffix. */
  method PlaceNegative(d: Dec, offset: nat, s: string) returns (result: string)
    requires ValidDigits(d.digits) && d.digits != [] && d.exponent < 0
    requires offset == (if d.sign then 0 else 1)
    requires s == (if d.sign then "" else "-") + Spelled(d.digits)
    ensures result == Format(d)
  {
    result := s;
    var n := |d.digits|;
    ghost var prefix, body := (if d.sign then "" else "-"), Spelled(d.digits);
    var pointPos := -d.exponent;
    if pointPos == n {
      result := InsertAt(result, offset, "0.", prefix, body, 0);
      assert body[..0] + "0." + body[0..] == "0." + body;
    } else if pointPos > n {
      result := Scientific(d, offset, s);
    } else {
      result := InsertAt(result, offset + n - pointPos, ".", prefix, body, n - pointPos);
    }
  }

  /** `s.insert(cut, ins)` on a text made of a prefix and a body, m characters into the
      body. */
  method InsertAt(s: string, cut: nat, ins: string, ghost prefix: string, ghost body: string,
                  ghost m: nat)
    returns (t: string)
    requires s == prefix + body && cut == |prefix| + m && m <= |body|
    ensures t == prefix + body[..m] + ins + body[m..]
  {
    assert s[..cut] == prefix + body[..m] && s[cut..] == body[m..];
    t := s[..cut] + ins + s[cut..];
  }

  /** More places after the point than digits: one digit, the point when other digits
      follow, the rest, and `e-` with the exponent of the leading digit negated. */
  method Scientific(d: Dec, offset: nat, s: string) returns (result: string)
    requires ValidDigits(d.digits) && d.digits != [] && -d.exponent > |d.digits|
    requires offset == (if d.sign then 0 else 1)
    requires s == (if d.sign then "" else "-") + Spelled(d.digits)
    ensures result == Format(d)
  {
    result := s;
    var n := |d.digits|;
    ghost var prefix, body := (if d.sign then "" else "-"), Spelled(d.digits);
    var pointPos := -d.exponent;
    if offset + 1 != |result| {
      result := InsertAt(result, offset + 1, ".", prefix, body, 1);
    }
    result := result + "e-" + NatToString(pointPos - n + 1);
  }

  /** After the reversal the text is the prefix followed by the spelling. */
  lemma SpelledBody(ds: seq<int>, prefix: string, t: string)
    requires ValidDigits(ds) && |t| == |prefix| + |ds| && t[..|prefix|] == prefix
    requires forall k :: |prefix| <= k < |t| ==> t[k] == DigitChar(ds[|t| - 1 - k])
    ensures t == prefix + Spelled(ds)
  {
    forall k | |prefix| <= k < |t|
      ensures t[k] == Spelled(ds)[k - |prefix|]
    {
      SpelledAt(ds, k - |prefix|);
    }
  }

  /** Zero prints as `0`, and a `-` leads exactly the negative values. */
  lemma FormatSign(d: Dec)
    requires ValidDigits(d.digits)
    ensures d.digits == [] ==> Format(d) == "0"
    ensures d.digits != [] ==> (Format(d)[0] == '-' <==> !d.sign)
  {
    if d.digits != [] && d.sign {
      SpelledDigits(d.digits);
      var body := Spelled(d.digits);
      assert IsDigitChar(body[0]);
    }
  }
}
