/** The `BigDecimal` class (BigDecimal.h:5-65): three fields that the compound operators
    overwrite in place. Each operator hands the current state, as a `Dec` value, to the
    algorithm that models it and stores what comes back; an operator that throws leaves
    the fields as they were. */
module Numbers {
  import opened DigitSeq
  import opened Representation
  import opened Comparator
  import opened Arithmetic
  import opened Multiplier
  import opened Division
  import opened Modulo
  import opened Integers
  import opened Parser
  import opened Formatter

  /** How a compound operator ends: normally, or by throwing `error`. */
  datatype Status = Done | Threw(error: Error)

  function StatusOf(r: Result<real>): Status
  {
    match r
    case Ok(_) => Done
    case Err(e) => Threw(e)
  }

  /** `BigDecimal(1LL)`, the operand `++` and `--` convert. */
  const One := Dec([1], true, 0)

  lemma OneValue()
    ensures Canonical(One) && Mag(One) == 1.0 && Value(One) == 1.0
  {
    assert One.digits[1..] == [];
    assert DigitsVal(One.digits) == 1;
    NumIsCast(1);
  }

  /** `operator==` is defaulted to compare the fields (BigDecimal.h:45-46); on canonical
      values that is numeric equality. */
  lemma EqualityIsNumeric(a: Dec, b: Dec)
    requires Canonical(a) && Canonical(b)
    ensures a == b <==> Value(a) == Value(b)
  {
    if Value(a) == Value(b) {
      CanonicalUnique(a, b);
    }
  }

  /** `++` adds one exactly unless the receiver lies in (-1, 0): there `+=` sends the
      mixed-sign addition down the direct subtraction branch, which assumes the receiver
      is the larger in magnitude. */
  lemma IncrementExact(a: Dec)
    requires Canonical(a)
    ensures AddOutcome(a, One) == Ok(Value(a) + 1.0) <==> a.sign || Value(a) <= -1.0
  {
    OneValue();
    AddExactIff(a, One);
    MagNonNegative(a);
  }

  /** `--` always subtracts one exactly: 1 is never one of the pairs the comparator
      misorders. */
  lemma DecrementExact(a: Dec)
    requires Canonical(a)
    ensures SubOutcome(a, One) == Ok(Value(a) - 1.0)
  {
    OneValue();
    assert !Misordered(a, One);
    SubExact(a, One);
  }

  class BigDecimal {
    var digits: seq<int>
    var sign: bool
    var exponent: int

    /** The fields as a value. */
    function Rep(): Dec
      reads this
    {
      Dec(digits, sign, exponent)
    }

    /** The invariant documented at BigDecimal.h:57-59. */
    predicate Valid()
      reads this
    {
      Canonical(Rep())
    }

    /** `BigDecimal() = default`: the member initialisers give zero. */
    constructor ()
      ensures Rep() == Zero && Valid()
    {
      digits, sign, exponent := [], true, 0;
    }

    /** `BigDecimal(long long)`. */
    constructor FromInt64(i: int)
      requires IsInt64(i)
      ensures Valid() && Value(Rep()) == Scale(i, 0)
    {
      var d := FromInt(i);
      digits, sign, exponent := d.digits, d.sign, d.exponent;
    }

    /** An object holding `d`; with `d` taken from another object this is the implicit
        memberwise copy constructor. */
    constructor Of(d: Dec)
      ensures Rep() == d
    {
      digits, sign, exponent := d.digits, d.sign, d.exponent;
    }

    /** `BigDecimal(const std::string&)`: the value read, or the exception. */
    static method FromString(str: string) returns (r: Result<BigDecimal>)
      ensures r.Err? <==> Parsed(str).Err?
      ensures r.Err? ==> r.error == Parsed(str).error
      ensures r.Ok? ==> fresh(r.value) && r.value.Valid()
      ensures r.Ok? ==> Value(r.value.Rep()) == Value(Parsed(str).value)
    {
      var d := ConstructFromChars(str);
      if d.Err? {
        return Err(d.error);
      }
      var b := new BigDecimal.Of(d.value);
      r := Ok(b);
    }

    /** `operator+=`. Only a mixed-sign addition needs canonical operands. */
    method PlusAssign(bd: BigDecimal) returns (s: Status)
      requires WellFormed(Rep()) && WellFormed(bd.Rep())
      requires sign != bd.sign ==> Valid() && bd.Valid()
      modifies this
      ensures s == StatusOf(AddOutcome(old(Rep()), old(bd.Rep())))
      ensures s.Done? ==> Valid() && Value(Rep()) == AddOutcome(old(Rep()), old(bd.Rep())).value
      ensures s.Threw? ==> Rep() == old(Rep())
    {
      var r := AddAssign(Rep(), bd.Rep());
      if r.Err? {
        return Threw(r.error);
      }
      digits, sign, exponent := r.value.digits, r.value.sign, r.value.exponent;
      s := Done;
    }

    /** `operator-=`. */
    method MinusAssign(bd: BigDecimal) returns (s: Status)
      requires Valid() && bd.Valid()
      modifies this
      ensures s == StatusOf(SubOutcome(old(Rep()), old(bd.Rep())))
      ensures s.Done? ==> Valid() && Value(Rep()) == SubOutcome(old(Rep()), old(bd.Rep())).value
      ensures s.Threw? ==> Rep() == old(Rep())
    {
      var r := SubAssign(Rep(), bd.Rep());
      if r.Err? {
        return Threw(r.error);
      }
      digits, sign, exponent := r.value.digits, r.value.sign, r.value.exponent;
      s := Done;
    }

    /** `operator*=`: never throws. */
    method TimesAssign(bd: BigDecimal)
      requires Valid() && bd.Valid()
      modifies this
      ensures Valid() && ProductOutcome(old(Rep()), old(bd.Rep()), Rep())
    {
      var a, b := Rep(), bd.Rep();
      var r := MulAssign(a, b);
      digits, sign, exponent := r.digits, r.sign, r.exponent;
    }

    /** `operator/=` with a positive divisor: the quotient of the magnitudes, truncated
        once the result holds `max(size, size) + 20` digits, always non-negative. */
    method DivideAssign(bd: BigDecimal) returns (ghost k: int, ghost q: int, ghost rem: int)
      requires Valid() && bd.Valid() && bd.sign && bd.digits != []
      modifies this
      ensures Valid() && sign
      ensures DivisionOutcome(old(Rep()), old(bd.Rep()), Rep(), k, q, rem)
    {
      var a, b := Rep(), bd.Rep();
      var r;
      r, k, q, rem := DivAssign(a, b);
      digits, sign, exponent := r.digits, r.sign, r.exponent;
    }

    /** `operator%=` with a nonzero divisor. A receiver smaller in magnitude is kept,
        equal magnitudes give zero, and otherwise the object becomes the remainder with
        the receiver's sign, or the digit loop throws. The result is not normalised: a
        zero remainder from the digit loop keeps the receiver's sign and takes the
        exponent min(receiver exponent, 0), so `Valid()` is kept only by a nonzero
        result. */
    method ModuloAssign(bd: BigDecimal) returns (s: Status, ghost m: int)
      requires Valid() && bd.Valid() && bd.digits != []
      modifies this
      ensures Compare(old(Rep()).(sign := true), old(bd.Rep()).(sign := true)) == Less ==>
        s.Done? && Rep() == old(Rep())
      ensures Compare(old(Rep()).(sign := true), old(bd.Rep()).(sign := true)) == Equal ==>
        s.Done? && Rep() == Zero
      ensures Compare(old(Rep()).(sign := true), old(bd.Rep()).(sign := true)) == Greater ==>
        (s.Threw? <==> ModThrows(old(Rep()), old(bd.Rep())))
      ensures Compare(old(Rep()).(sign := true), old(bd.Rep()).(sign := true)) == Greater && s.Done? ==>
        sign == old(sign)
      ensures Compare(old(Rep()).(sign := true), old(bd.Rep()).(sign := true)) == Greater && s.Done? && digits == []
        ==> Rep() == Dec([], old(sign), Min(old(exponent), 0))
      ensures s.Done? ==> RemainderOutcome(old(Rep()), old(bd.Rep()), Rep(), m)
      ensures s.Threw? ==> s.error == LogicError && old(bd.exponent) < Min(old(exponent), 0)
      ensures s.Threw? ==> Rep() == old(Rep())
    {
      var a, b := Rep(), bd.Rep();
      var r;
      r, m := ModAssign(a, b);
      if r.Err? {
        return Threw(r.error), m;
      }
      digits, sign, exponent := r.value.digits, r.value.sign, r.value.exponent;
      s := Done;
    }

    /** Prefix `++`: `*this += 1LL`. */
    method Increment() returns (s: Status)
      requires Valid()
      modifies this
      ensures s == StatusOf(AddOutcome(old(Rep()), One))
      ensures s.Done? ==> Valid() && Value(Rep()) == AddOutcome(old(Rep()), One).value
      ensures s.Threw? ==> Rep() == old(Rep())
      ensures old(sign) || old(Value(Rep())) <= -1.0 ==> s.Done? && Value(Rep()) == old(Value(Rep())) + 1.0
    {
      IncrementExact(Rep());
      var one := new BigDecimal.FromInt64(1);
      OneValue();
      CanonicalUnique(one.Rep(), One);
      s := PlusAssign(one);
    }

    /** Prefix `--`: `*this -= 1LL`, which never throws. */
    method Decrement()
      requires Valid()
      modifies this
      ensures Valid() && Value(Rep()) == old(Value(Rep())) - 1.0
    {
      DecrementExact(Rep());
      var one := new BigDecimal.FromInt64(1);
      OneValue();
      CanonicalUnique(one.Rep(), One);
      var s := MinusAssign(one);
    }

    /** Postfix `++`: a copy of the old value is returned. */
    method PostIncrement() returns (copy: BigDecimal, s: Status)
      requires Valid()
      modifies this
      ensures fresh(copy) && copy.Rep() == old(Rep())
      ensures s == StatusOf(AddOutcome(old(Rep()), One))
      ensures s.Done? ==> Valid() && Value(Rep()) == AddOutcome(old(Rep()), One).value
      ensures s.Threw? ==> Rep() == old(Rep())
    {
      copy := new BigDecimal.Of(Rep());
      s := Increment();
    }

    /** Postfix `--`. */
    method PostDecrement() returns (copy: BigDecimal)
      requires Valid()
      modifies this
      ensures fresh(copy) && copy.Rep() == old(Rep())
      ensures Valid() && Value(Rep()) == old(Value(Rep())) - 1.0
    {
      copy := new BigDecimal.Of(Rep());
      Decrement();
    }

    /** `operator+(BigDecimal lhs, const BigDecimal&)`: `+=` on a copy of `lhs`. */
    static method Add(lhs: BigDecimal, rhs: BigDecimal) returns (r: BigDecimal, s: Status)
      requires WellFormed(lhs.Rep()) && WellFormed(rhs.Rep())
      requires lhs.sign != rhs.sign ==> lhs.Valid() && rhs.Valid()
      ensures fresh(r)
      ensures s == StatusOf(AddOutcome(lhs.Rep(), rhs.Rep()))
      ensures s.Done? ==> r.Valid() && Value(r.Rep()) == AddOutcome(lhs.Rep(), rhs.Rep()).value
    {
      r := new BigDecimal.Of(lhs.Rep());
      s := r.PlusAssign(rhs);
    }

    /** `operator-`: `-=` on a copy of `lhs`. */
    static method Subtract(lhs: BigDecimal, rhs: BigDecimal) returns (r: BigDecimal, s: Status)
      requires lhs.Valid() && rhs.Valid()
      ensures fresh(r)
      ensures s == StatusOf(SubOutcome(lhs.Rep(), rhs.Rep()))
      ensures s.Done? ==> r.Valid() && Value(r.Rep()) == SubOutcome(lhs.Rep(), rhs.Rep()).value
    {
      r := new BigDecimal.Of(lhs.Rep());
      s := r.MinusAssign(rhs);
    }

    /** `operator*`: `*=` on a copy of `lhs`. */
    static method Multiply(lhs: BigDecimal, rhs: BigDecimal) returns (r: BigDecimal)
      requires lhs.Valid() && rhs.Valid()
      ensures fresh(r) && r.Valid() && ProductOutcome(lhs.Rep(), rhs.Rep(), r.Rep())
    {
      r := new BigDecimal.Of(lhs.Rep());
      r.TimesAssign(rhs);
    }

    /** `operator/`: `/=` on a copy of `lhs`, with a positive divisor. */
    static method Divide(lhs: BigDecimal, rhs: BigDecimal)
      returns (r: BigDecimal, ghost k: int, ghost q: int, ghost rem: int)
      requires lhs.Valid() && rhs.Valid() && rhs.sign && rhs.digits != []
      ensures fresh(r) && r.Valid() && r.sign
      ensures DivisionOutcome(lhs.Rep(), rhs.Rep(), r.Rep(), k, q, rem)
    {
      r := new BigDecimal.Of(lhs.Rep());
      k, q, rem := r.DivideAssign(rhs);
    }

    /** `operator%`: `%=` on a copy of `lhs`, with a nonzero divisor. */
    static method Remainder(lhs: BigDecimal, rhs: BigDecimal) returns (r: BigDecimal, s: Status, ghost m: int)
      requires lhs.Valid() && rhs.Valid() && rhs.digits != []
      ensures fresh(r)
      ensures Compare(lhs.Rep().(sign := true), rhs.Rep().(sign := true)) == Less ==>
        s.Done? && r.Rep() == lhs.Rep()
      ensures Compare(lhs.Rep().(sign := true), rhs.Rep().(sign := true)) == Equal ==>
        s.Done? && r.Rep() == Zero
      ensures Compare(lhs.Rep().(sign := true), rhs.Rep().(sign := true)) == Greater ==>
        (s.Threw? <==> ModThrows(lhs.Rep(), rhs.Rep()))
      ensures Compare(lhs.Rep().(sign := true), rhs.Rep().(sign := true)) == Greater && s.Done? ==>
        r.sign == lhs.sign
      ensures Compare(lhs.Rep().(sign := true), rhs.Rep().(sign := true)) == Greater && s.Done? && r.digits == []
        ==> r.Rep() == Dec([], lhs.sign, Min(lhs.exponent, 0))
      ensures s.Done? ==> RemainderOutcome(lhs.Rep(), rhs.Rep(), r.Rep(), m)
      ensures s.Threw? ==> s.error == LogicError && rhs.exponent < Min(lhs.exponent, 0)
    {
      r := new BigDecimal.Of(lhs.Rep());
      s, m := r.ModuloAssign(rhs);
    }

    /** `toInt64()`. */
    method ToInt64() returns (r: Result<int>)
      requires WellFormed(Rep()) && MachineSized(Rep())
      ensures r == ToInt64Outcome(Rep())
    {
      r := Integers.ToInt64(Rep());
    }

    /** `toString()`. */
    method ToString() returns (str: string)
      requires WellFormed(Rep())
      ensures str == Format(Rep())
    {
      str := Formatter.ToString(Rep());
    }

    /** The defaulted `operator==`: field by field, which on valid objects is equality of
        the values. */
    function Equals(other: BigDecimal): (r: bool)
      reads this, other
      ensures r <==> Rep() == other.Rep()
      ensures Valid() && other.Valid() ==> (r <==> Value(Rep()) == Value(other.Rep()))
    {
      if Valid() && other.Valid() then
        EqualityIsNumeric(Rep(), other.Rep());
        Rep() == other.Rep()
      else
        Rep() == other.Rep()
    }

    /** `operator<=>`: on valid objects the numeric order, except that two equal negative
        values compare `less` and that zero and a value in (0, 0.1) compare the wrong
        way round. */
    function CompareTo(other: BigDecimal): (o: Ordering)
      reads this, other
      ensures Valid() && other.Valid() && !Misordered(Rep(), other.Rep()) ==>
        o == if !sign && !other.sign && Value(Rep()) == Value(other.Rep()) then Less
             else Order(Value(Rep()), Value(other.Rep()))
      ensures Valid() && other.Valid() && Misordered(Rep(), other.Rep()) ==>
        o == Flip(Order(Value(Rep()), Value(other.Rep())))
    {
      if !(Valid() && other.Valid()) then Compare(Rep(), other.Rep())
      else if Misordered(Rep(), other.Rep()) then
        CompareMisorders(Rep(), other.Rep());
        Compare(Rep(), other.Rep())
      else
        CompareAgrees(Rep(), other.Rep());
        Compare(Rep(), other.Rep())
    }
  }
}
