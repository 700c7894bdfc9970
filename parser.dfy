/** `constructFromChars` (BigDecimal.cpp:39-79): an optional sign, digits with at most
    one `.`, and an optional `e`/`E` exponent read by `std::stoi`; trailing zeros after
    the point are dropped before the point is removed, and the result is normalised. */
module Parser {
  import opened DigitSeq
  import opened Representation
  import opened Normalizer
  import opened Text

  /** The exception message for a string that is not a decimal. */
  function NotDecimal(str: string): Error
  {
    InvalidArgument("\"" + str + "\" is not a valid decimal")
  }

  /** What `constructFromChars` reads from `str` before `normalize`: the sign, the body
      (the characters before the exponent marker with the point and the trailing zeros
      after the point removed) as a digit vector, and the exponent read by `std::stoi`
      less the number of fractional digits kept. */
  function Parsed(str: string): Result<Dec>
  {
    if str == [] then Ok(Zero)
    else
      var signed := str[0] == '-' || str[0] == '+';
      var rest := if signed then str[1..] else str;
      if signed && rest == [] then Err(NotDecimal(str))
      else ParsedUnsigned(str, rest, !signed || str[0] == '+')
  }

  /** The part after the sign: a point after the exponent marker is an error, then the
      exponent text goes to `std::stoi`. */
  function ParsedUnsigned(str: string, rest: string, sign: bool): Result<Dec>
  {
    var p, e := FindPoint(rest), FindMarker(rest);
    if e < p && p != |rest| then Err(NotDecimal(str))
    else
      var exp := if e == |rest| then Ok(0) else StoiPrefix(rest[e + 1..]);
      if exp.Err? then Err(exp.error)
      else ParsedBody(str, rest, p, e, sign, exp.value)
  }

  /** The characters before the exponent marker at e, with a point at p < e. */
  function ParsedBody(str: string, rest: string, p: nat, e: nat, sign: bool, x: int): Result<Dec>
    requires p <= |rest| && e <= |rest|
  {
    var frac := if p < e then TrimZeros(rest[p + 1..e]) else [];
    var body := if p < e then rest[..p] + frac else rest[..e];
    if body == [] || !AllDigitChars(body) then Err(NotDecimal(str))
    else Ok(Dec(DigitsOf(body), sign, x - |frac|))
  }

  /** A successful parse gives a digit vector of decimal digits. */
  lemma ParsedValid(str: string)
    requires Parsed(str).Ok?
    ensures ValidDigits(Parsed(str).value.digits)
  {
    if str != [] {
      var signed := str[0] == '-' || str[0] == '+';
      var rest := if signed then str[1..] else str;
      var p, e := FindPoint(rest), FindMarker(rest);
      var exp := if e == |rest| then Ok(0) else StoiPrefix(rest[e + 1..]);
      ParsedBodyValid(str, rest, p, e, !signed || str[0] == '+', exp.value);
    }
  }

  lemma ParsedBodyValid(str: string, rest: string, p: nat, e: nat, sign: bool, x: int)
    requires p <= |rest| && e <= |rest|
    ensures ParsedBody(str, rest, p, e, sign, x).Ok? ==>
      ValidDigits(ParsedBody(str, rest, p, e, sign, x).value.digits)
  {
    var frac := if p < e then TrimZeros(rest[p + 1..e]) else [];
    var body := if p < e then rest[..p] + frac else rest[..e];
    if body != [] && AllDigitChars(body) {
      DigitsOfValid(body);
    }
  }

  /** `std::find(begin, end, '.')`. */
  method FindPointFrom(s: string, lo: nat, hi: nat) returns (i: nat)
    requires lo <= hi <= |s|
    ensures i == lo + FindPoint(s[lo..hi])
  {
    i := lo;
    while i < hi && s[i] != '.'
      invariant lo <= i <= hi
      invariant forall k :: lo <= k < i ==> s[k] != '.'
    {
      i := i + 1;
    }
    FindPointAt(s[lo..hi], i - lo);
  }

  /** `std::find_if(begin, end, ...)` for `e` or `E`. */
  method FindMarkerFrom(s: string, lo: nat, hi: nat) returns (i: nat)
    requires lo <= hi <= |s|
    ensures i == lo + FindMarker(s[lo..hi])
  {
    i := lo;
    while i < hi && s[i] != 'e' && s[i] != 'E'
      invariant lo <= i <= hi
      invariant forall k :: lo <= k < i ==> !IsExponentMarker(s[k])
    {
      i := i + 1;
    }
    FindMarkerAt(s[lo..hi], i - lo);
  }

  /** `while (*(end - 1) == '0') --end;`: stops at the point at the latest. */
  method TrimTrailingZeros(s: string, point: nat, end: nat) returns (e: nat)
    requires point < end <= |s| && s[point] == '.'
    ensures point < e <= end && s[point + 1..e] == TrimZeros(s[point + 1..end])
  {
    e := end;
    while s[e - 1] == '0'
      invariant point < e <= end
      invariant TrimZeros(s[point + 1..e]) == TrimZeros(s[point + 1..end])
      decreases e
    {
      assert s[point + 1..e][..e - 1 - (point + 1)] == s[point + 1..e - 1];
      e := e - 1;
    }
    TrimZerosNone(s[point + 1..e]);
  }

  /** The digit loop: from the last body character down to the first, each must be a
      digit and is pushed, so the vector ends least-significant first. */
  method PushDigits(s: string, lo: nat, hi: nat) returns (ok: bool, digits: seq<int>)
    requires lo < hi <= |s|
    ensures ok <==> AllDigitChars(s[lo..hi])
    ensures ok ==> digits == DigitsOf(s[lo..hi])
  {
    digits := [];
    var iter := hi - 1;
    while true
      invariant lo <= iter < hi
      invariant AllDigitChars(s[iter + 1..hi]) && digits == DigitsOf(s[iter + 1..hi])
      decreases iter
    {
      if !IsDigitChar(s[iter]) {
        assert s[lo..hi][iter - lo] == s[iter];
        return false, digits;
      }
      assert s[iter..hi][1..] == s[iter + 1..hi];
      digits := digits + [CharDigit(s[iter])];
      if iter == lo {
        break;
      }
      iter := iter - 1;
    }
    ok := true;
  }

  /** The outcome of `constructFromChars` for a given reading: the exception, or the
      normalised value. */
  predicate Delivers(r: Result<Dec>, reading: Result<Dec>)
  {
    && (r.Err? <==> reading.Err?)
    && (r.Err? ==> r.error == reading.error)
    && (r.Ok? ==> Canonical(r.value) && Value(r.value) == Value(reading.value))
  }

  /** `constructFromChars` as a constructor: the value read, normalised, or the
      exception. The empty string gives zero. */
  method ConstructFromChars(str: string) returns (r: Result<Dec>)
    ensures Delivers(r, Parsed(str))
  {
    if |str| == 0 {
      return Ok(Zero);
    }
    var sign := true;
    var begin := 0;
    if str[0] == '-' || str[0] == '+' {
      sign := str[0] == '+';
      begin := 1;
      if begin == |str| {
        return Err(NotDecimal(str));
      }
    }
    r := ReadUnsigned(str, begin, sign);
  }

  /** The markers found, the exponent read and cut off, then the body. */
  method ReadUnsigned(str: string, begin: nat, sign: bool) returns (r: Result<Dec>)
    requires begin <= |str|
    ensures Delivers(r, ParsedUnsigned(str, str[begin..], sign))
  {
    ghost var rest := str[begin..];
    var end := |str|;
    var exponent := 0;
    assert str[begin..end] == rest;
    var pointIter := FindPointFrom(str, begin, end);
    var eIter := FindMarkerFrom(str, begin, end);
    ghost var p, e := pointIter - begin, eIter - begin;
    if eIter < pointIter && pointIter != end {
      return Err(NotDecimal(str));
    }
    if eIter != end {
      assert str[eIter + 1..end] == rest[e + 1..];
      var stoi := StoiPrefix(str[eIter + 1..end]);
      if stoi.Err? {
        return Err(stoi.error);
      }
      exponent := stoi.value;
      end := eIter;
    }
    r := ReadBody(str, begin, end, pointIter, eIter, sign, exponent, p, e);
  }

  /** The point and the trailing zeros after it removed, then the digits pushed and the
      result normalised. */
  method ReadBody(str: string, begin: nat, end: nat, pointIter: nat, eIter: nat, sign: bool,
                  exponent: int, ghost p: nat, ghost e: nat)
    returns (r: Result<Dec>)
    requires begin <= |str| && p <= |str| - begin && e <= |str| - begin
    requires pointIter == begin + p && eIter == begin + e && end == eIter
    requires p < |str| - begin ==> str[pointIter] == '.'
    ensures Delivers(r, ParsedBody(str, str[begin..], p, e, sign, exponent))
  {
    ghost var rest := str[begin..];
    var chars, end', exponent' := str, end, exponent;
    ghost var frac: string := [];
    if !(pointIter == end' || pointIter > eIter) {
      chars, end', exponent' := DropPoint(str, begin, end, pointIter, exponent, p, e);
      frac := TrimZeros(rest[p + 1..e]);
    } else {
      assert chars[begin..end'] == rest[..e];
    }
    ReadingOf(str, rest, p, e, sign, exponent, chars[begin..end'], frac);
    if end' == begin {
      return Err(NotDecimal(str));
    }
    var ok, digits := PushDigits(chars, begin, end');
    if !ok {
      return Err(NotDecimal(str));
    }
    DigitsOfValid(chars[begin..end']);
    var n := Normalize(Dec(digits, sign, exponent'));
    r := Ok(n);
  }

  /** The trailing zeros after the point trimmed, the exponent lowered by the fractional
      digits kept, and `std::shift_left` closing the gap of the point. */
  method DropPoint(str: string, begin: nat, end: nat, pointIter: nat, exponent: int,
                   ghost p: nat, ghost e: nat)
    returns (chars: string, end': nat, exponent': int)
    requires begin <= |str| && p < e <= |str| - begin
    requires pointIter == begin + p && end == begin + e && str[pointIter] == '.'
    ensures begin <= end' <= |chars|
    ensures chars[begin..end'] == str[begin..][..p] + TrimZeros(str[begin..][p + 1..e])
    ensures exponent' == exponent - |TrimZeros(str[begin..][p + 1..e])|
  {
    ghost var rest := str[begin..];
    assert str[pointIter + 1..end] == rest[p + 1..e];
    end' := TrimTrailingZeros(str, pointIter, end);
    exponent' := exponent - (end' - pointIter - 1);
    chars := str[..pointIter] + str[pointIter + 1..end'];
    end' := end' - 1;
    assert chars[begin..end'] == rest[..p] + str[pointIter + 1..end' + 1];
  }

  /** `ParsedBody` in terms of the body and the fractional digits kept. */
  lemma ReadingOf(str: string, rest: string, p: nat, e: nat, sign: bool, x: int, body: string,
                  frac: string)
    requires p <= |rest| && e <= |rest|
    requires frac == (if p < e then TrimZeros(rest[p + 1..e]) else [])
    requires body == (if p < e then rest[..p] + frac else rest[..e])
    ensures ParsedBody(str, rest, p, e, sign, x)
         == if body == [] || !AllDigitChars(body) then Err(NotDecimal(str))
            else Ok(Dec(DigitsOf(body), sign, x - |frac|))
  {
  }
}
