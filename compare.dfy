/** `operator<=>` (BigDecimal.cpp:378-401): compares `digits.size() + exponent` first and
    then the digit vectors most-significant first, and reverses the outcome for negatives. */
module Comparator {
  import opened DigitSeq
  import opened Representation

  /** std::strong_ordering. */
  datatype Ordering = Less | Equal | Greater

  function IntOrder(x: int, y: int): Ordering
  {
    if x < y then Less else if x == y then Equal else Greater
  }

  /** The numeric order of two values. */
  function Order(x: real, y: real): Ordering
  {
    if x < y then Less else if x == y then Equal else Greater
  }

  function Flip(o: Ordering): Ordering
  {
    match o
    case Less => Greater
    case Equal => Equal
    case Greater => Less
  }

  /** std::lexicographical_compare_three_way on two digit vectors. */
  function LexCompare(xs: seq<int>, ys: seq<int>): Ordering
  {
    if xs == [] && ys == [] then Equal
    else if xs == [] then Less
    else if ys == [] then Greater
    else if xs[0] < ys[0] then Less
    else if xs[0] > ys[0] then Greater
    else LexCompare(xs[1..], ys[1..])
  }

  /** The comparison of the unsigned parts (BigDecimal.cpp:380-392). */
  function CompareMagnitudes(l: Dec, r: Dec): Ordering
  {
    if Top(l) == Top(r) then LexCompare(Reverse(l.digits), Reverse(r.digits))
    else IntOrder(Top(l), Top(r))
  }

  /** `lhs <=> rhs`. For negative operands every outcome but `less` becomes `less`, so two
      equal negative values compare `less`. */
  function Compare(l: Dec, r: Dec): Ordering
  {
    if l.sign == r.sign then
      var cmp := CompareMagnitudes(l, r);
      if l.sign then cmp
      else if cmp == Less then Greater
      else Less
    else if l.sign then Greater
    else Less
  }

  /** A positive value below 0.1: its `Top` is negative, below zero's `Top` of 0. */
  predicate TinyPositive(d: Dec)
  {
    d.sign && d.digits != [] && Top(d) < 0
  }

  /** The pairs the comparator orders against their values: zero and a value in (0, 0.1). */
  predicate Misordered(l: Dec, r: Dec)
  {
    (l.digits == [] && TinyPositive(r)) || (r.digits == [] && TinyPositive(l))
  }

  /** On canonical operands the comparator agrees with the numeric order, except that two
      equal negative values compare `less` and the pairs of Misordered. */
  lemma CompareAgrees(l: Dec, r: Dec)
    requires Canonical(l) && Canonical(r) && !Misordered(l, r)
    ensures Compare(l, r) ==
      if !l.sign && !r.sign && Value(l) == Value(r) then Less else Order(Value(l), Value(r))
  {
    CanonicalSign(l);
    CanonicalSign(r);
    if l.sign == r.sign {
      if l.digits != [] && r.digits != [] {
        CompareMagnitudesAgrees(l, r);
      } else if l.digits != [] {
        TopNegativeMeansSmall(l);
        assert LexCompare(Reverse(l.digits), []) == Greater;
      } else if r.digits != [] {
        TopNegativeMeansSmall(r);
        assert LexCompare([], Reverse(r.digits)) == Less;
      }
    }
  }

  /** Zero compares greater than a value in (0, 0.1), and such a value less than zero. */
  lemma CompareMisorders(l: Dec, r: Dec)
    requires Canonical(l) && Canonical(r) && Misordered(l, r)
    ensures Compare(l, r) == Flip(Order(Value(l), Value(r)))
    ensures Compare(l, r) != Equal
  {
    if l.digits == [] {
      NonzeroMag(r);
    } else {
      NonzeroMag(l);
    }
  }

  /** Comparing the unsigned parts of nonzero canonical values orders their magnitudes. */
  lemma CompareMagnitudesAgrees(l: Dec, r: Dec)
    requires Canonical(l) && Canonical(r) && l.digits != [] && r.digits != []
    ensures CompareMagnitudes(l, r) == Order(Mag(l), Mag(r))
  {
    MagBounds(l);
    MagBounds(r);
    if Top(l) < Top(r) {
      Pow10Monotone(Top(l), Top(r) - 1);
    } else if Top(r) < Top(l) {
      Pow10Monotone(Top(r), Top(l) - 1);
    } else if l.exponent <= r.exponent {
      SameTopOrder(l, r);
    } else {
      SameTopOrder(r, l);
      LexFlip(Reverse(l.digits), Reverse(r.digits));
    }
  }

  /** With equal `Top`, the lexicographic comparison of the most-significant-first vectors
      is the order of the magnitudes; `l` has the smaller exponent. */
  lemma SameTopOrder(l: Dec, r: Dec)
    requires Canonical(l) && Canonical(r) && l.digits != [] && r.digits != []
    requires Top(l) == Top(r) && l.exponent <= r.exponent
    ensures LexCompare(Reverse(l.digits), Reverse(r.digits)) == Order(Mag(l), Mag(r))
  {
    var k := r.exponent - l.exponent;
    var padded := Zeros(k) + r.digits;
    MagShift(r, k);
    ScaleCompare(DigitsVal(l.digits), DigitsVal(padded), l.exponent);
    LexMatchesValue(l.digits, padded);
    ReverseAppend(Zeros(k), r.digits);
    assert Reverse(Zeros(k)) == Zeros(k);
    LexPadRight(Reverse(l.digits), Reverse(r.digits), k);
  }

  /** Swapping the operands flips the comparison of the unsigned parts. */
  lemma CompareMagnitudesFlip(l: Dec, r: Dec)
    ensures CompareMagnitudes(r, l) == Flip(CompareMagnitudes(l, r))
  {
    LexFlip(Reverse(l.digits), Reverse(r.digits));
  }

  lemma {:induction false} LexFlip(xs: seq<int>, ys: seq<int>)
    ensures LexCompare(ys, xs) == Flip(LexCompare(xs, ys))
  {
    if xs != [] && ys != [] {
      LexFlip(xs[1..], ys[1..]);
    }
  }

  lemma ReverseAppend(xs: seq<int>, ys: seq<int>)
    ensures Reverse(xs + ys) == Reverse(ys) + Reverse(xs)
  {
  }

  /** For vectors of one length, comparing most-significant first orders their values. */
  lemma {:induction false} LexMatchesValue(xs: seq<int>, ys: seq<int>)
    requires ValidDigits(xs) && ValidDigits(ys) && |xs| == |ys|
    ensures LexCompare(Reverse(xs), Reverse(ys)) == IntOrder(DigitsVal(xs), DigitsVal(ys))
  {
    if xs != [] {
      var n := |xs| - 1;
      var xs', ys' := xs[..n], ys[..n];
      assert xs == xs' + [xs[n]] && ys == ys' + [ys[n]];
      ReverseAppend(xs', [xs[n]]);
      ReverseAppend(ys', [ys[n]]);
      assert Reverse(xs)[1..] == Reverse(xs') && Reverse(ys)[1..] == Reverse(ys');
      DigitsValSnoc(xs', xs[n]);
      DigitsValSnoc(ys', ys[n]);
      DigitsValBounds(xs');
      DigitsValBounds(ys');
      if xs[n] < ys[n] {
        TopDigitDecides(DigitsVal(xs'), DigitsVal(ys'), xs[n], ys[n], Pow(n));
      } else if ys[n] < xs[n] {
        TopDigitDecides(DigitsVal(ys'), DigitsVal(xs'), ys[n], xs[n], Pow(n));
      } else {
        LexMatchesValue(xs', ys');
      }
    }
  }

  /** A smaller top digit decides the comparison whatever the lower digits are. */
  lemma TopDigitDecides(a: int, b: int, x: int, y: int, p: int)
    requires 0 <= a < p && 0 <= b && x < y
    ensures a + p * x < b + p * y
  {
    MulDistance(p, x, y);
  }

  /** Most-significant-first zeros appended to the shorter vector do not change the
      comparison when the longer vector ends in a nonzero digit. */
  lemma {:induction false} LexPadRight(xs: seq<int>, ys: seq<int>, k: nat)
    requires ValidDigits(xs) && |xs| == |ys| + k
    requires k > 0 ==> xs[|xs| - 1] != 0
    ensures LexCompare(xs, ys + Zeros(k)) == LexCompare(xs, ys)
  {
    if ys == [] {
      assert ys + Zeros(k) == Zeros(k);
      if k > 0 {
        LexAboveZeros(xs);
      }
    } else {
      assert (ys + Zeros(k))[1..] == ys[1..] + Zeros(k);
      LexPadRight(xs[1..], ys[1..], k);
    }
  }

  lemma {:induction false} LexAboveZeros(xs: seq<int>)
    requires ValidDigits(xs) && xs != [] && xs[|xs| - 1] != 0
    ensures LexCompare(xs, Zeros(|xs|)) == Greater
  {
    if xs[0] == 0 {
      assert Zeros(|xs|)[1..] == Zeros(|xs| - 1);
      LexAboveZeros(xs[1..]);
    }
  }
}
