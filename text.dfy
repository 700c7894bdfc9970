/** Characters and strings: the digit characters the C++ code stores and prints, the
    library calls `std::to_string` (on non-negative ints) and `std::stoi` used by the
    formatter and the parser, and `std::find` over a character set. */
module Text {
  import opened DigitSeq
  import opened Representation

  predicate IsDigitChar(c: char) { '0' <= c <= '9' }

  /** The character `'0' + d`. */
  function DigitChar(d: int): (c: char)
    requires IsDigit(d)
    ensures IsDigitChar(c) && CharDigit(c) == d
  {
    (d + 48) as char
  }

  /** The character's distance from `'0'`. */
  function CharDigit(c: char): int
  {
    c as int - 48
  }

  predicate AllDigitChars(s: string)
  {
    forall i :: 0 <= i < |s| ==> IsDigitChar(s[i])
  }

  /** The least-significant-first digit vector of a most-significant-first spelling. */
  function DigitsOf(s: string): seq<int>
  {
    if s == [] then [] else DigitsOf(s[1..]) + [CharDigit(s[0])]
  }

  /** The most-significant-first spelling of a digit vector. */
  function Spelled(ds: seq<int>): (s: string)
    requires ValidDigits(ds)
    ensures |s| == |ds|
  {
    if ds == [] then [] else Spelled(ds[1..]) + [DigitChar(ds[0])]
  }

  lemma {:induction false} DigitsOfSnoc(s: string, c: char)
    ensures DigitsOf(s + [c]) == [CharDigit(c)] + DigitsOf(s)
  {
    if s == [] {
      assert [c][1..] == [];
    } else {
      assert (s + [c])[1..] == s[1..] + [c];
      DigitsOfSnoc(s[1..], c);
    }
  }

  /** Spelling a digit vector and reading it back gives the vector again. */
  lemma {:induction false} SpelledDigits(ds: seq<int>)
    requires ValidDigits(ds)
    ensures |Spelled(ds)| == |ds| && AllDigitChars(Spelled(ds))
    ensures DigitsOf(Spelled(ds)) == ds
  {
    if ds != [] {
      SpelledDigits(ds[1..]);
      DigitsOfSnoc(Spelled(ds[1..]), DigitChar(ds[0]));
      assert [ds[0]] + ds[1..] == ds;
    }
  }

  /** Reading digit characters gives valid digits. */
  lemma {:induction false} DigitsOfValid(s: string)
    requires AllDigitChars(s)
    ensures ValidDigits(DigitsOf(s)) && |DigitsOf(s)| == |s|
  {
    if s != [] {
      DigitsOfValid(s[1..]);
    }
  }

  /** The value of a most-significant-first run of digit characters. */
  function DecimalValue(s: string): int
  {
    if s == [] then 0 else 10 * DecimalValue(s[..|s| - 1]) + CharDigit(s[|s| - 1])
  }

  /** `std::to_string` on a non-negative integer. */
  function NatToString(n: nat): string
  {
    if n < 10 then [DigitChar(n)] else NatToString(n / 10) + [DigitChar(n % 10)]
  }

  lemma {:induction false} NatToStringDigits(n: nat)
    ensures NatToString(n) != [] && AllDigitChars(NatToString(n))
    ensures DecimalValue(NatToString(n)) == n
  {
    if n >= 10 {
      NatToStringDigits(n / 10);
      var s := NatToString(n);
      assert s[..|s| - 1] == NatToString(n / 10);
    }
  }

  /** The length of the run of digit characters that starts `s`. */
  function DigitRun(s: string): (k: nat)
    ensures k <= |s|
  {
    if s != [] && IsDigitChar(s[0]) then 1 + DigitRun(s[1..]) else 0
  }

  /** The run found is made of digits and is as long as it can be. */
  lemma {:induction false} DigitRunMaximal(s: string)
    ensures AllDigitChars(s[..DigitRun(s)])
    ensures DigitRun(s) < |s| ==> !IsDigitChar(s[DigitRun(s)])
  {
    if s != [] && IsDigitChar(s[0]) {
      DigitRunMaximal(s[1..]);
      var k := DigitRun(s);
      assert forall i :: 1 <= i < k ==> s[..k][i] == s[1..][..k - 1][i - 1];
    }
  }

  lemma {:induction false} DigitRunAll(s: string)
    requires AllDigitChars(s)
    ensures DigitRun(s) == |s|
  {
    if s != [] {
      DigitRunAll(s[1..]);
    }
  }

  /** `std::stoi`: an optional sign and the longest run of digits after it; whatever
      follows is ignored, and no digit at all throws `std::invalid_argument`. */
  function StoiPrefix(s: string): Result<int>
  {
    var signed := s != [] && (s[0] == '+' || s[0] == '-');
    var rest := if signed then s[1..] else s;
    var k := DigitRun(rest);
    if k == 0 then Err(InvalidArgument("stoi"))
    else if signed && s[0] == '-' then Ok(-DecimalValue(rest[..k]))
    else Ok(DecimalValue(rest[..k]))
  }

  /** `std::stoi` reads back a signed `std::to_string`. */
  lemma StoiSigned(n: nat, c: char)
    requires c == '+' || c == '-'
    ensures StoiPrefix([c] + NatToString(n)) == Ok(if c == '-' then -(n as int) else n)
  {
    var s := [c] + NatToString(n);
    NatToStringDigits(n);
    assert s[1..] == NatToString(n);
    DigitRunAll(NatToString(n));
    assert NatToString(n)[..|NatToString(n)|] == NatToString(n);
  }

  predicate IsExponentMarker(c: char) { c == 'e' || c == 'E' }

  /** `std::find(.., '.')`: the first position of a point, or the length when there is
      none. */
  function FindPoint(s: string): (i: nat)
    ensures i <= |s|
    ensures i < |s| ==> s[i] == '.'
  {
    if s == [] || s[0] == '.' then 0 else 1 + FindPoint(s[1..])
  }

  /** `std::find_if` for `e` or `E`: the first exponent marker, or the length. */
  function FindMarker(s: string): (i: nat)
    ensures i <= |s|
    ensures i < |s| ==> IsExponentMarker(s[i])
  {
    if s == [] || IsExponentMarker(s[0]) then 0 else 1 + FindMarker(s[1..])
  }

  /** No point before the position found. */
  lemma {:induction false} FindPointFirst(s: string, k: nat)
    requires k < FindPoint(s)
    ensures s[k] != '.'
  {
    if k > 0 {
      FindPointFirst(s[1..], k - 1);
    }
  }

  /** No exponent marker before the position found. */
  lemma {:induction false} FindMarkerFirst(s: string, k: nat)
    requires k < FindMarker(s)
    ensures !IsExponentMarker(s[k])
  {
    if k > 0 {
      FindMarkerFirst(s[1..], k - 1);
    }
  }

  /** The positions found are the only ones with those properties. */
  lemma {:induction false} FindPointAt(s: string, i: nat)
    requires i <= |s| && (i < |s| ==> s[i] == '.')
    requires forall k :: 0 <= k < i ==> s[k] != '.'
    ensures FindPoint(s) == i
  {
    if i > 0 {
      assert s[0] != '.';
      assert forall k :: 0 <= k < i - 1 ==> s[1..][k] == s[k + 1];
      FindPointAt(s[1..], i - 1);
    }
  }

  lemma {:induction false} FindMarkerAt(s: string, i: nat)
    requires i <= |s| && (i < |s| ==> IsExponentMarker(s[i]))
    requires forall k :: 0 <= k < i ==> !IsExponentMarker(s[k])
    ensures FindMarker(s) == i
  {
    if i > 0 {
      assert !IsExponentMarker(s[0]);
      assert forall k :: 0 <= k < i - 1 ==> s[1..][k] == s[k + 1];
      FindMarkerAt(s[1..], i - 1);
    }
  }

  /** Trailing `'0'` characters removed. */
  function TrimZeros(s: string): (t: string)
    ensures |t| <= |s|
  {
    if s != [] && s[|s| - 1] == '0' then TrimZeros(s[..|s| - 1]) else s
  }

  /** Trimming keeps a prefix that does not end in `'0'`. */
  lemma {:induction false} TrimZerosPrefix(s: string)
    ensures TrimZeros(s) == s[..|TrimZeros(s)|]
    ensures TrimZeros(s) == [] || TrimZeros(s)[|TrimZeros(s)| - 1] != '0'
  {
    if s != [] && s[|s| - 1] == '0' {
      TrimZerosPrefix(s[..|s| - 1]);
      assert s[..|s| - 1][..|TrimZeros(s)|] == s[..|TrimZeros(s)|];
    } else {
      assert s[..|s|] == s;
    }
  }

  lemma TrimZerosNone(s: string)
    requires s == [] || s[|s| - 1] != '0'
    ensures TrimZeros(s) == s
  {
  }
}
