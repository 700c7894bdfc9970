/** `toString` followed by the string constructor: for every normalised value the text
    printed reads back as the same representation. */
module TextRoundTrip {
  import opened DigitSeq
  import opened Representation
  import opened Text
  import opened Formatter
  import opened Parser

  /** A run of digit characters holds neither a point nor an exponent marker. */
  lemma NoMarkers(s: string)
    requires AllDigitChars(s)
    ensures FindPoint(s) == |s| && FindMarker(s) == |s|
  {
    FindPointAt(s, |s|);
    FindMarkerAt(s, |s|);
  }

  /** Searching a concatenation: past the first part when it holds no match, inside
      it when it does. */
  lemma {:induction false} Concat(a: string, b: string)
    ensures FindPoint(a) == |a| ==> FindPoint(a + b) == |a| + FindPoint(b)
    ensures FindPoint(a) < |a| ==> FindPoint(a + b) == FindPoint(a)
    ensures FindMarker(a) == |a| ==> FindMarker(a + b) == |a| + FindMarker(b)
    ensures FindMarker(a) < |a| ==> FindMarker(a + b) == FindMarker(a)
  {
    if a != [] {
      assert (a + b)[1..] == a[1..] + b;
      assert (a + b)[0] == a[0];
      Concat(a[1..], b);
    } else {
      assert a + b == b;
    }
  }

  /** The separators `toString` writes. */
  lemma Separators()
    ensures FindPoint(".") == 0 && FindMarker(".") == 1
    ensures FindPoint("0.") == 1 && FindMarker("0.") == 2
    ensures FindPoint("e-") == 2 && FindMarker("e-") == 0
    ensures FindPoint("e+") == 2 && FindMarker("e+") == 0
  {
    assert "0."[1..] == ".";
    assert "e-"[1..] == "-";
    assert "e+"[1..] == "+";
    assert "-"[1..] == [] && "+"[1..] == [] && "."[1..] == [];
  }

  /** The spelling of a canonical digit vector is a nonempty run of digit characters
      that does not end in `0`, and reads back as the vector. */
  predicate Untrimmed(s: string)
  {
    s != [] && AllDigitChars(s) && s[|s| - 1] != '0'
  }

  lemma SpelledUntrimmed(ds: seq<int>)
    requires ValidDigits(ds) && ds != [] && ds[0] != 0
    ensures Untrimmed(Spelled(ds)) && DigitsOf(Spelled(ds)) == ds
  {
    SpelledDigits(ds);
    SpelledAt(ds, |ds| - 1);
    assert CharDigit('0') == 0;
  }

  /** A tail of such a run is left alone by the parser's zero trimming. */
  lemma TailUntrimmed(s: string, k: nat)
    requires Untrimmed(s) && k < |s|
    ensures TrimZeros(s[k..]) == s[k..] && AllDigitChars(s[k..])
  {
    assert s[k..][|s[k..]| - 1] == s[|s| - 1];
    TrimZerosNone(s[k..]);
  }

  /** A text that starts with a digit, after an optional `-`, is read with that sign. */
  lemma SignedText(str: string, u: string, sign: bool)
    requires u != [] && IsDigitChar(u[0])
    requires str == SignText(sign) + u
    ensures Parsed(str) == ParsedUnsigned(str, u, sign)
  {
    if !sign {
      assert str[0] == '-' && str[1..] == u;
    } else {
      assert str == u;
    }
  }

  /** What the search for the markers and `std::stoi` find in a text: the point at p,
      the exponent marker at e (no point after it) and the exponent x. */
  predicate Reads(u: string, p: nat, e: nat, x: int)
  {
    && FindPoint(u) == p && FindMarker(u) == e
    && !(e < p && p != |u|)
    && (e == |u| ==> x == 0)
    && (e < |u| ==> StoiPrefix(u[e + 1..]) == Ok(x))
  }

  /** `ParsedUnsigned` once the markers and the exponent are known. */
  lemma UnsignedReading(str: string, u: string, sign: bool, p: nat, e: nat, x: int)
    requires Reads(u, p, e, x)
    ensures p <= |u| && e <= |u|
    ensures ParsedUnsigned(str, u, sign) == ParsedBody(str, u, p, e, sign, x)
  {
  }

  /** Digits alone. */
  lemma WholeText(str: string, s: string, sign: bool)
    requires s != [] && AllDigitChars(s)
    ensures ParsedUnsigned(str, s, sign) == Ok(Dec(DigitsOf(s), sign, 0))
  {
    NoMarkers(s);
    UnsignedReading(str, s, sign, |s|, |s|, 0);
    assert s[..|s|] == s;
    ReadingOf(str, s, |s|, |s|, sign, 0, s, []);
  }

  /** Digits, `e`, a sign and the digits of the exponent. */
  lemma ExponentText(str: string, s: string, t: string, x: string, v: int, sign: bool)
    requires Untrimmed(s) && (t == "e+" || t == "e-")
    requires AllDigitChars(x) && StoiPrefix([t[1]] + x) == Ok(v)
    ensures ParsedUnsigned(str, s + t + x, sign) == Ok(Dec(DigitsOf(s), sign, v))
  {
    ExponentFacts(s, t, x, v);
    UnsignedReading(str, s + t + x, sign, |s + t + x|, |s|, v);
    ExponentBody(str, s, t, x, v, sign);
  }

  lemma ExponentFacts(s: string, t: string, x: string, v: int)
    requires AllDigitChars(s) && (t == "e+" || t == "e-")
    requires AllDigitChars(x) && StoiPrefix([t[1]] + x) == Ok(v)
    ensures Reads(s + t + x, |s + t + x|, |s|, v)
  {
    SuffixMarkers(s, t, x);
    assert (s + t + x)[|s| + 1..] == [t[1]] + x;
  }

  lemma ExponentBody(str: string, s: string, t: string, x: string, v: int, sign: bool)
    requires Untrimmed(s) && |t| == 2
    ensures ParsedBody(str, s + t + x, |s + t + x|, |s|, sign, v) == Ok(Dec(DigitsOf(s), sign, v))
  {
    assert (s + t + x)[..|s|] == s;
    ReadingOf(str, s + t + x, |s + t + x|, |s|, sign, v, s, []);
  }

  /** How the body of a text with a point at p and the marker (or the end) at e splits:
      the digits before the point and the untrimmed digits after it. */
  predicate Splits(u: string, p: nat, e: nat, body: string, frac: string)
  {
    p < e <= |u| && frac == TrimZeros(u[p + 1..e]) && body == u[..p] + frac
  }

  /** `ParsedBody` on such a split. */
  lemma FractionReading(str: string, u: string, p: nat, e: nat, sign: bool, x: int,
                        body: string, frac: string)
    requires Splits(u, p, e, body, frac) && body != [] && AllDigitChars(body)
    ensures ParsedBody(str, u, p, e, sign, x) == Ok(Dec(DigitsOf(body), sign, x - |frac|))
  {
    ReadingOf(str, u, p, e, sign, x, body, frac);
  }

  /** `0.` and digits. */
  lemma PointInFrontText(str: string, s: string, sign: bool)
    requires Untrimmed(s)
    ensures ParsedUnsigned(str, "0." + s, sign) == Ok(Dec(DigitsOf(s) + [0], sign, -|s|))
  {
    PointInFrontReading(str, s, sign);
    PointInFrontSplit(s);
    FractionReading(str, "0." + s, 1, |s| + 2, sign, 0, ['0'] + s, s);
  }

  lemma PointInFrontSplit(s: string)
    requires Untrimmed(s)
    ensures Splits("0." + s, 1, |s| + 2, ['0'] + s, s)
    ensures AllDigitChars(['0'] + s) && DigitsOf(['0'] + s) == DigitsOf(s) + [0]
  {
    var u := "0." + s;
    assert u[2..|u|] == s;
    TailUntrimmed(s, 0);
    assert u[..1] + s == ['0'] + s;
    LeadingZero(s);
  }

  /** A `0` written in front of digits reads as one more, most significant, digit. */
  lemma LeadingZero(s: string)
    requires AllDigitChars(s)
    ensures AllDigitChars(['0'] + s) && DigitsOf(['0'] + s) == DigitsOf(s) + [0]
  {
    var body := ['0'] + s;
    assert body[1..] == s;
    forall i | 0 <= i < |body|
      ensures IsDigitChar(body[i])
    {
      if i > 0 {
        assert body[i] == s[i - 1];
      }
    }
  }

  lemma PointInFrontReading(str: string, s: string, sign: bool)
    requires Untrimmed(s)
    ensures ParsedUnsigned(str, "0." + s, sign) == ParsedBody(str, "0." + s, 1, |s| + 2, sign, 0)
  {
    NoMarkers(s);
    Separators();
    Concat("0.", s);
    UnsignedReading(str, "0." + s, sign, 1, |s| + 2, 0);
  }

  /** Digits with a point after the first m of them. */
  lemma InnerPointText(str: string, s: string, m: nat, u: string, sign: bool)
    requires Untrimmed(s) && m < |s| && u == s[..m] + "." + s[m..]
    ensures ParsedUnsigned(str, u, sign) == Ok(Dec(DigitsOf(s), sign, m - |s|))
  {
    InnerPointReading(str, s, m, u, sign);
    InnerPointBody(str, s, m, u, sign);
    assert 0 - |s[m..]| == m - |s|;
  }

  lemma InnerPointBody(str: string, s: string, m: nat, u: string, sign: bool)
    requires Untrimmed(s) && m < |s| && u == s[..m] + "." + s[m..]
    ensures |s| + 1 <= |u|
    ensures ParsedBody(str, u, m, |s| + 1, sign, 0) == Ok(Dec(DigitsOf(s), sign, 0 - |s[m..]|))
  {
    InnerPointSplit(s, m, u);
    FractionReading(str, u, m, |s| + 1, sign, 0, s, s[m..]);
  }

  lemma InnerPointSplit(s: string, m: nat, u: string)
    requires Untrimmed(s) && m < |s| && u == s[..m] + "." + s[m..]
    ensures Splits(u, m, |s| + 1, s, s[m..])
  {
    assert u[m + 1..|u|] == s[m..];
    TailUntrimmed(s, m);
    assert u[..m] == s[..m];
    assert s[..m] + s[m..] == s;
  }

  lemma InnerPointReading(str: string, s: string, m: nat, u: string, sign: bool)
    requires AllDigitChars(s) && m < |s| && u == s[..m] + "." + s[m..]
    ensures |s| + 1 <= |u|
    ensures ParsedUnsigned(str, u, sign) == ParsedBody(str, u, m, |s| + 1, sign, 0)
  {
    InnerPointMarkers(s, m, u);
    UnsignedReading(str, u, sign, m, |s| + 1, 0);
  }

  /** One digit, the point, the other digits, `e-` and the digits of the exponent. */
  lemma ScientificText(str: string, s: string, x: string, u: string, v: int, sign: bool)
    requires Untrimmed(s) && |s| >= 2 && u == s[..1] + "." + s[1..] + "e-" + x
    requires AllDigitChars(x) && StoiPrefix(['-'] + x) == Ok(v)
    ensures ParsedUnsigned(str, u, sign) == Ok(Dec(DigitsOf(s), sign, v - |s[1..]|))
  {
    ScientificReading(str, s, x, u, v, sign);
    ScientificBody(str, s, x, u, v, sign);
  }

  lemma ScientificReading(str: string, s: string, x: string, u: string, v: int, sign: bool)
    requires AllDigitChars(s) && |s| >= 2 && u == s[..1] + "." + s[1..] + "e-" + x
    requires AllDigitChars(x) && StoiPrefix(['-'] + x) == Ok(v)
    ensures |s| + 1 <= |u|
    ensures ParsedUnsigned(str, u, sign) == ParsedBody(str, u, 1, |s| + 1, sign, v)
  {
    ScientificFacts(s, x, u, v);
    UnsignedReading(str, u, sign, 1, |s| + 1, v);
  }

  lemma ScientificBody(str: string, s: string, x: string, u: string, v: int, sign: bool)
    requires Untrimmed(s) && |s| >= 2 && u == s[..1] + "." + s[1..] + "e-" + x
    ensures |s| + 1 <= |u|
    ensures ParsedBody(str, u, 1, |s| + 1, sign, v) == Ok(Dec(DigitsOf(s), sign, v - |s[1..]|))
  {
    ScientificSplit(s, x, u);
    FractionReading(str, u, 1, |s| + 1, sign, v, s, s[1..]);
  }

  lemma ScientificFacts(s: string, x: string, u: string, v: int)
    requires AllDigitChars(s) && |s| >= 1 && u == s[..1] + "." + s[1..] + "e-" + x
    requires AllDigitChars(x) && StoiPrefix(['-'] + x) == Ok(v)
    ensures Reads(u, 1, |s| + 1, v)
  {
    ScientificMarkers(s, x, u);
    assert u[|s| + 2..] == ['-'] + x;
  }

  lemma ScientificSplit(s: string, x: string, u: string)
    requires Untrimmed(s) && |s| >= 2 && u == s[..1] + "." + s[1..] + "e-" + x
    ensures Splits(u, 1, |s| + 1, s, s[1..])
  {
    assert u[2..|s| + 1] == s[1..];
    TailUntrimmed(s, 1);
    assert u[..1] == s[..1];
    assert s[..1] + s[1..] == s;
  }

  /** Digits, `e`, a sign and digits: no point, the marker right after the first digits. */
  lemma SuffixMarkers(s: string, t: string, x: string)
    requires AllDigitChars(s) && AllDigitChars(x) && (t == "e+" || t == "e-")
    ensures FindPoint(s + t + x) == |s + t + x|
    ensures FindMarker(s + t + x) == |s|
  {
    NoMarkers(s);
    NoMarkers(x);
    Separators();
    Concat(s, t);
    Concat(s + t, x);
  }

  lemma ScientificMarkers(s: string, x: string, u: string)
    requires AllDigitChars(s) && AllDigitChars(x) && |s| >= 1
    requires u == s[..1] + "." + s[1..] + "e-" + x
    ensures FindPoint(u) == 1 && FindMarker(u) == |s| + 1
  {
    var lo, hi := s[..1], s[1..];
    assert AllDigitChars(lo) && AllDigitChars(hi);
    NoMarkers(lo);
    NoMarkers(hi);
    Separators();
    Concat(lo, ".");
    Concat(lo + ".", hi);
    Concat(lo + "." + hi, "e-");
    Concat(lo + "." + hi + "e-", x);
  }

  lemma InnerPointMarkers(s: string, m: nat, u: string)
    requires AllDigitChars(s) && m <= |s| && u == s[..m] + "." + s[m..]
    ensures FindPoint(u) == m && FindMarker(u) == |s| + 1
  {
    var lo, hi := s[..m], s[m..];
    assert AllDigitChars(lo) && AllDigitChars(hi);
    NoMarkers(lo);
    NoMarkers(hi);
    Separators();
    Concat(lo, ".");
    Concat(lo + ".", hi);
  }

  /** The sign `toString` writes in front. */
  function SignText(sign: bool): string
  {
    if sign then "" else "-"
  }

  /** The text `toString` prints for a normalised value reads back as that value. */
  lemma FormatParses(d: Dec)
    requires Canonical(d)
    ensures Parsed(Format(d)).Ok? && Value(Parsed(Format(d)).value) == Value(d)
  {
    var n := |d.digits|;
    if d.digits == [] {
      assert Format(d) == "0";
      ZeroParses();
      ZeroMag(d);
    } else if d.exponent > 0 {
      PositiveShape(d);
      PositiveParses(d, Format(d));
    } else if d.exponent == 0 {
      WholeShape(d);
      WholeParses(d, Format(d));
    } else if -d.exponent == n {
      PointInFrontShape(d);
      PointInFrontParses(d, Format(d));
    } else if -d.exponent < n {
      InnerPointShape(d);
      InnerPointParses(d, Format(d));
    } else if n == 1 {
      SingleDigitShape(d);
      SingleDigitParses(d, Format(d));
    } else {
      ScientificShape(d);
      ScientificParses(d, Format(d));
    }
  }

  /** Zero prints as `0`, which reads back as a single zero digit. */
  lemma ZeroParses()
    ensures Parsed("0") == Ok(Dec([0], true, 0))
  {
    SignedText("0", "0", true);
    WholeText("0", "0", true);
    assert DigitsOf("0") == [0];
  }

  lemma PositiveShape(d: Dec)
    requires ValidDigits(d.digits) && d.digits != [] && d.exponent > 0
    ensures Format(d) == SignText(d.sign) + (Spelled(d.digits) + "e+" + NatToString(d.exponent))
  {
  }

  lemma PositiveParses(d: Dec, str: string)
    requires Canonical(d) && d.digits != [] && d.exponent > 0
    requires str == SignText(d.sign) + (Spelled(d.digits) + "e+" + NatToString(d.exponent))
    ensures Parsed(str) == Ok(d)
  {
    var s, x := Spelled(d.digits), NatToString(d.exponent);
    SpelledUntrimmed(d.digits);
    ExponentRead(x, '+', d.exponent, d.exponent);
    ExponentDigitsParse(d, str, s, '+', x, s + "e+" + x);
  }

  /** The exponent `toString` writes after `e` and its sign reads back as the exponent. */
  lemma ExponentRead(x: string, c: char, n: nat, e: int)
    requires x == NatToString(n) && (c == '+' || c == '-')
    requires e == if c == '-' then -(n as int) else n as int
    ensures AllDigitChars(x) && StoiPrefix([c] + x) == Ok(e)
  {
    NatToStringDigits(n);
    StoiSigned(n, c);
  }

  lemma ExponentDigitsParse(d: Dec, str: string, s: string, c: char, x: string, u: string)
    requires Untrimmed(s) && DigitsOf(s) == d.digits && (c == '+' || c == '-')
    requires AllDigitChars(x) && StoiPrefix([c] + x) == Ok(d.exponent)
    requires u == s + ['e', c] + x && str == SignText(d.sign) + u
    ensures Parsed(str) == Ok(d)
  {
    SignedText(str, u, d.sign);
    ExponentText(str, s, ['e', c], x, d.exponent, d.sign);
  }

  lemma WholeShape(d: Dec)
    requires ValidDigits(d.digits) && d.digits != [] && d.exponent == 0
    ensures Format(d) == SignText(d.sign) + Spelled(d.digits)
  {
  }

  lemma WholeParses(d: Dec, str: string)
    requires Canonical(d) && d.digits != [] && d.exponent == 0
    requires str == SignText(d.sign) + Spelled(d.digits)
    ensures Parsed(str) == Ok(d)
  {
    SpelledUntrimmed(d.digits);
    SignedText(str, Spelled(d.digits), d.sign);
    WholeText(str, Spelled(d.digits), d.sign);
  }

  lemma PointInFrontShape(d: Dec)
    requires ValidDigits(d.digits) && d.digits != [] && -d.exponent == |d.digits|
    ensures Format(d) == SignText(d.sign) + ("0." + Spelled(d.digits))
  {
  }

  lemma PointInFrontParses(d: Dec, str: string)
    requires Canonical(d) && d.digits != [] && -d.exponent == |d.digits|
    requires str == SignText(d.sign) + ("0." + Spelled(d.digits))
    ensures Parsed(str) == Ok(Dec(d.digits + [0], d.sign, d.exponent))
    ensures Value(Dec(d.digits + [0], d.sign, d.exponent)) == Value(d)
  {
    SpelledUntrimmed(d.digits);
    SignedText(str, "0." + Spelled(d.digits), d.sign);
    PointInFrontText(str, Spelled(d.digits), d.sign);
    DigitsValSnoc(d.digits, 0);
  }

  lemma InnerPointShape(d: Dec)
    requires ValidDigits(d.digits) && d.digits != [] && 0 < -d.exponent < |d.digits|
    ensures Format(d) == SignText(d.sign) + (Spelled(d.digits)[..|d.digits| + d.exponent] + "."
                                            + Spelled(d.digits)[|d.digits| + d.exponent..])
  {
  }

  lemma InnerPointParses(d: Dec, str: string)
    requires Canonical(d) && d.digits != [] && 0 < -d.exponent < |d.digits|
    requires str == SignText(d.sign) + (Spelled(d.digits)[..|d.digits| + d.exponent] + "."
                                        + Spelled(d.digits)[|d.digits| + d.exponent..])
    ensures Parsed(str) == Ok(d)
  {
    var s, m := Spelled(d.digits), |d.digits| + d.exponent;
    SpelledUntrimmed(d.digits);
    InnerPointDigitsParse(d, str, s, m, s[..m] + "." + s[m..]);
  }

  lemma InnerPointDigitsParse(d: Dec, str: string, s: string, m: nat, u: string)
    requires Untrimmed(s) && DigitsOf(s) == d.digits && 0 < m < |s| && m - |s| == d.exponent
    requires u == s[..m] + "." + s[m..] && str == SignText(d.sign) + u
    ensures Parsed(str) == Ok(d)
  {
    assert u[0] == s[0];
    SignedText(str, u, d.sign);
    InnerPointText(str, s, m, u, d.sign);
  }

  lemma SingleDigitShape(d: Dec)
    requires ValidDigits(d.digits) && |d.digits| == 1 && -d.exponent > 1
    ensures Format(d) == SignText(d.sign) + (Spelled(d.digits) + "e-" + NatToString(-d.exponent))
  {
  }

  lemma SingleDigitParses(d: Dec, str: string)
    requires Canonical(d) && |d.digits| == 1 && -d.exponent > 1
    requires str == SignText(d.sign) + (Spelled(d.digits) + "e-" + NatToString(-d.exponent))
    ensures Parsed(str) == Ok(d)
  {
    var s, x := Spelled(d.digits), NatToString(-d.exponent);
    SpelledUntrimmed(d.digits);
    ExponentRead(x, '-', -d.exponent, d.exponent);
    ExponentDigitsParse(d, str, s, '-', x, s + "e-" + x);
  }

  lemma ScientificShape(d: Dec)
    requires ValidDigits(d.digits) && |d.digits| >= 2 && -d.exponent > |d.digits|
    ensures Format(d) == SignText(d.sign) + (Spelled(d.digits)[..1] + "." + Spelled(d.digits)[1..]
                                            + "e-" + NatToString(-d.exponent - |d.digits| + 1))
  {
  }

  lemma ScientificParses(d: Dec, str: string)
    requires Canonical(d) && |d.digits| >= 2 && -d.exponent > |d.digits|
    requires str == SignText(d.sign) + (Spelled(d.digits)[..1] + "." + Spelled(d.digits)[1..]
                                        + "e-" + NatToString(-d.exponent - |d.digits| + 1))
    ensures Parsed(str) == Ok(d)
  {
    var k := -d.exponent - |d.digits| + 1;
    var s, x := Spelled(d.digits), NatToString(k);
    NatToStringDigits(k);
    StoiSigned(k, '-');
    SpelledUntrimmed(d.digits);
    ScientificDigitsParse(d, str, s, x, s[..1] + "." + s[1..] + "e-" + x);
  }

  lemma ScientificDigitsParse(d: Dec, str: string, s: string, x: string, u: string)
    requires Untrimmed(s) && |s| >= 2 && DigitsOf(s) == d.digits
    requires AllDigitChars(x) && StoiPrefix(['-'] + x) == Ok(d.exponent + |s| - 1)
    requires u == s[..1] + "." + s[1..] + "e-" + x && str == SignText(d.sign) + u
    ensures Parsed(str) == Ok(d)
  {
    SignedText(str, u, d.sign);
    ScientificText(str, s, x, u, d.exponent + |s| - 1, d.sign);
  }

  /** Constructing from the printed text of a normalised value gives that value back,
      field for field. */
  lemma RoundTrip(d: Dec, r: Result<Dec>)
    requires Canonical(d) && Delivers(r, Parsed(Format(d)))
    ensures r == Ok(d)
  {
    FormatParses(d);
    CanonicalUnique(r.value, d);
  }
}
