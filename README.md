# BigDecimal in Dafny

A model of `BigDecimal`, an arbitrary-precision signed decimal type. A value is
held as three fields:

- `digits`: decimal digits, least-significant first;
- `sign`: true for non-negative;
- `exponent`: the power of ten of `digits[0]`.

`normalize` makes the representation canonical: no zero digit at either end, and
zero stored as empty digits with sign true and exponent 0. Because of this, the
defaulted memberwise `==` is numeric equality.

The model has two layers.

- **Values.** Every algorithm works on a value `Dec(digits, sign, exponent)`. The
  C++ code copies `BigDecimal`s freely, and each such copy is one of these values.
  The algorithms are:
  - the normaliser;
  - the parser (`constructFromChars`) and the formatter (`toString`);
  - the `long long` constructor and `toInt64`;
  - `doAdd` and `doSubtract`, with `+=` and `-=` dispatching to them;
  - `singleDigitMultiply` and `*=`;
  - long division `/=` and the remainder `%=`;
  - the comparator `<=>`.

  Each C++ loop is a Dafny `while` loop in a method of its own. That method's
  contract is the loop's invariant.
- **The class.** `Numbers.BigDecimal` has the three fields. Its compound operators
  (`modifies this`) hand the current state to those algorithms and store the
  result. It also has:
  - prefix and postfix `++`/`--`;
  - the binary operators, which work on a fresh copy of the left operand;
  - `==` and `<=>`.

The numeric meaning is `Value(d)`, a real:
`Mag(d) = DigitsVal(digits) * 10^exponent`, signed by `sign`.

Every algorithm is proved against a specification function or a property of
`Value`. These include:

- the parser against a declarative reading `Parsed(str)`;
- the formatter against `Format(d)`, with a round-trip lemma: printing a canonical
  value and parsing the text gives the same representation back;
- `+=`/`-=` against `AddOutcome`/`SubOutcome`, with lemmas saying exactly when
  these compute the true sum and difference;
- `*=` against the product of the values;
- `/=` and `%=` against quotient/remainder equations.

Exceptions are modelled as `Result` values and `Error` kinds.

The model follows the code as written, including these behaviours:

- **Sign-blind direct branch.** `doSubtract` chooses its direct branch with the
  *signed* comparator. So `+=` on operands of different signs computes the true sum
  only when the receiver is the larger in magnitude (`Arithmetic.AddExactIff`).
  Otherwise it throws `out_of_range` or returns a value of the receiver's sign. For
  example, `++` on a value in (-1, 0) is not exact (`Numbers.IncrementExact`).
- **Zero against small positives.** The comparator places zero above every positive
  value below 0.1 (`Comparator.CompareMisorders`), and two equal negative values
  compare `less`. `-=` between zero and such a value throws `logic_error`
  (`Arithmetic.SubMisordered`).
- **Division ignores signs.** `/=` ignores both signs: with a positive divisor the
  result is non-negative.
- **Non-terminating loops.** With a zero or negative divisor, `/=` loops forever
  unless the dividend is zero: then the digit loop runs no step and the fraction
  loop stops on the zero remainder, giving 0. With a zero divisor, `%=` loops
  forever unless the receiver is zero (the comparison says `equal` and the result
  is zero) or lies in (-0.1, 0.1) (the comparison says `less` and the receiver is
  returned). The model requires a positive divisor for `/=` and a nonzero one for
  `%=`, a deliberate restriction to the inputs on which both always return.
- **`%=` is not normalised** (see Findings).
- **`toInt64` size check** (see Findings).

Where the code departs from what the type's documentation leads one to expect,
the model follows the code:

- The empty string parses as zero and is not rejected.
- An exponent is read with `std::stoi`, so `"1e5x"` reads as `1e5`.
- The comparator is not a total order consistent with equality on all values.
- `%=` does not re-normalise: a zero remainder keeps the receiver's sign and takes the
  exponent min(receiver exponent, 0), so -14 % 7 and 1.4 % 0.7 are not `==` to 0.
- `toInt64` rejects nonzero values below 0.1.

## Model

| member | source | states |
|---|---|---|
| Representation.CanonicalUnique | BigDecimal.h:45-46 | two canonical representations with the same value are identical, so field equality is value equality |
| Representation.MagBounds | BigDecimal.cpp:381-391 | a canonical nonzero value lies in [10^(size+exponent-1), 10^(size+exponent)), which is why comparing `size+exponent` first orders magnitudes |
| Representation.CanonicalSign | BigDecimal.h:57-59 | a canonical value is non-negative exactly when its sign is true, and nonzero when it has digits |
| Representation.TopNegativeMeansSmall | BigDecimal.cpp:383-384 | a canonical nonzero value has negative `size+exponent` exactly when its magnitude is below 0.1 |
| Representation.MagShift | BigDecimal.cpp:421-424 | inserting k zero digits at the low end while lowering the exponent by k keeps the magnitude |
| Normalizer.Normalize | BigDecimal.cpp:81-97 | the value is unchanged; the result has no zero digit at either end; empty digits come with sign true and exponent 0; the result is canonical whenever the input digits are valid; the kept digits are a contiguous slice of the input |
| Normalizer.DropHighZeros | BigDecimal.cpp:84-86 | removes exactly the most-significant zeros: the result is a prefix, the dropped tail is all zeros, and a nonempty result ends in a nonzero digit |
| Normalizer.DropLowZeros | BigDecimal.cpp:94-96 | removes exactly the least-significant zeros, raising the exponent once for each, and leaves a nonzero lowest digit |
| Normalizer.StripValue | BigDecimal.cpp:81-97 | dropping zero digits at both ends, with the exponent raised by the number dropped at the low end, keeps the magnitude |
| Comparator.CompareAgrees | BigDecimal.cpp:378-401 | on canonical operands outside the misordered pairs, `<=>` is the numeric order, except that equal negative values compare `less` |
| Comparator.CompareMisorders | BigDecimal.cpp:381-391 | zero against a positive value below 0.1 compares the wrong way round, and never `equal` |
| Comparator.CompareMagnitudesAgrees | BigDecimal.cpp:380-392 | for nonzero canonical values, `size+exponent` first and then most-significant-first lexicographic order is the order of the magnitudes |
| Comparator.CompareMagnitudesFlip | BigDecimal.cpp:380-392 | swapping the operands flips the unsigned comparison |
| Comparator.LexMatchesValue | BigDecimal.cpp:385-389 | for digit vectors of equal length, the reversed lexicographic comparison is the order of their integer values |
| Arithmetic.DoAdd | BigDecimal.cpp:420-460 | the result is canonical and has the value abs(a) + abs(b) with the receiver's sign, whatever the operand's sign |
| Arithmetic.AlignedValue | BigDecimal.cpp:421-428 | after alignment the receiver's digits at the common exponent still spell its magnitude |
| Arithmetic.AddOverlap | BigDecimal.cpp:430-439 | the digits stay decimal, and digits plus the final carry equal the receiver plus the overlapping operand digits shifted by `align` |
| Arithmetic.AppendHigher | BigDecimal.cpp:440-447 | the operand's remaining digits are pushed with the carry, and the value equation now covers the whole operand |
| Arithmetic.PropagateCarry | BigDecimal.cpp:448-458 | the carry runs on through the higher digits, and a new top digit 1 keeps the value equal to digits plus the carry |
| Arithmetic.SubtractDigits | BigDecimal.cpp:468-487 | the direct branch succeeds exactly under `DirectFits`; then it yields the receiver's magnitude less the part of the operand below the receiver's top; otherwise it throws `DirectError` (out_of_range or logic_error) |
| Arithmetic.SubtractFacts | BigDecimal.cpp:468-473 | the aligned vector reaches the receiver's top; the overlapping operand digits are its low part; the subtraction is non-negative exactly when abs(a) >= that part |
| Arithmetic.SubtractOverlap | BigDecimal.cpp:473-480 | characterises when the borrow loop hits `at` out of range; on success the result equals digits minus the shifted operand digits, with at most one pending borrow |
| Arithmetic.FinishBorrow | BigDecimal.cpp:481-487 | the pending borrow runs upwards; the result fails with logic_error exactly when the vector's value is negative; empty digits make `at(size()-1)` out of range |
| Arithmetic.BorrowFix | BigDecimal.cpp:477-478 | taking a borrow (ten more here, one less above) keeps the digit vector's value |
| Arithmetic.SwapOnce | BigDecimal.cpp:489-492 | the swap branch is taken only for operands of one sign, and `bd - *this` then takes the direct branch, so the recursion stops |
| Arithmetic.DoSubtract | BigDecimal.cpp:462-494 | the outcome (value or exception) is `SubtractOutcome`: zero when the operands compare equal, the direct branch when the signed comparison says so, the negated reversed subtraction otherwise; results are canonical |
| Arithmetic.SubAssign | BigDecimal.cpp:199-207 | the outcome of `-=` is `SubOutcome`, with a canonical result |
| Arithmetic.AddAssign | BigDecimal.cpp:189-197 | the outcome of `+=` is `AddOutcome`, with a canonical result |
| Arithmetic.MagOrderTop | BigDecimal.cpp:477 | a canonical value of at least the operand's magnitude reaches at least as high, which the direct branch relies on |
| Arithmetic.DirectExact | BigDecimal.cpp:477 | when the receiver is the larger in magnitude, the direct branch subtracts the whole operand and cannot throw |
| Arithmetic.AddExactIff | BigDecimal.cpp:189-195 | `+=` yields exactly a + b if and only if the signs agree or abs(a) >= abs(b) |
| Arithmetic.SubExact | BigDecimal.cpp:199-205 | `-=` yields exactly a - b on canonical operands other than the misordered pairs |
| Arithmetic.SubMisordered | BigDecimal.cpp:485-486 | zero minus a value in (0, 0.1), and such a value minus zero, throw logic_error |
| Multiplier.SingleDigitMultiply | BigDecimal.cpp:209-223 | the result is canonical and non-negative, and its integer value (digits times 10^exponent) is the operand's digit vector times `digit` |
| Multiplier.MultiplyDigits | BigDecimal.cpp:213-217 | every digit times `digit` plus carry stays decimal, and the digits plus the final carry equal the input times `digit` |
| Multiplier.PushCarry | BigDecimal.cpp:218-220 | pushing the carry digit by digit keeps the value equation |
| Multiplier.SumRows | BigDecimal.cpp:243-248 | the sum of the shifted rows is non-negative and canonical, and equals the product of the two digit vectors |
| Multiplier.MulAssign | BigDecimal.cpp:225-254 | the result is canonical and its value is the product of the values |
| Multiplier.ZeroProduct | BigDecimal.cpp:238-242 | an operand without digits makes the product zero |
| Multiplier.ProductValue | BigDecimal.cpp:249-251 | the accumulated rows at the summed exponents, with the XNOR sign, have the value a * b |
| Division.QuotientDigit | BigDecimal.cpp:268-275 | the repeated-addition loop finds the quotient digit rv / b and leaves the remainder rv % b |
| Division.NextQuotientDigit | BigDecimal.cpp:268-277 | one step of long division: the digit is at most 9, and the result gains that digit at place i |
| Division.IntegerQuotient | BigDecimal.cpp:264-278 | after all dividend digits, dividend = q * divisor + remainder, with remainder below the divisor |
| Division.FractionQuotient | BigDecimal.cpp:279-292 | each further digit keeps dividend * 10^k = q * divisor + remainder; the loop stops with remainder 0 or at `maxDigits` digits, and at the first such step: after each earlier step the remainder was nonzero and the result held fewer than `maxDigits` digits (`StopsFirst`) |
| Division.ContinuesAt | BigDecimal.cpp:279 | the loop condition read off the loop state: a nonzero remainder and a canonical result shorter than `maxDigits` mean the quotient so far, n * 10^k / b at place -k, has fewer than `maxDigits` digits and n * 10^k is no multiple of b |
| Division.QuotientGrows | BigDecimal.cpp:279-291 | a zero quotient digit leaves the result unchanged, and a nonzero one lengthens it, which bounds the loop |
| Division.DivAssign | BigDecimal.cpp:257-297 | with a positive divisor the result is canonical and non-negative, and result * abs(b) <= abs(a) < (q+1)*10^x * abs(b); it is exact when the remainder is 0; a nonzero remainder leaves at least max(size)+20 digits, and the fraction loop took no step after the first one that met either stopping condition |
| Division.DivisionDeterministic | BigDecimal.cpp:257-297 | two results that both satisfy `DivisionOutcome` took the same number of fraction steps and are identical, so a non-terminating quotient such as 1/3 is cut at one fixed place |
| Division.StillRunning | BigDecimal.cpp:279 | a canonical quotient q * 10^(x-k) for which the loop condition still holds after k steps has a nonzero remainder and fewer than `maxDigits` digits |
| Division.DivBounds | BigDecimal.cpp:293-295 | the truncated quotient brackets the true quotient: q places below abs(a)/abs(b) and q+1 above it |
| Modulo.ReduceRemainder | BigDecimal.cpp:326-330 | one reduction step leaves rn % bn, except the pairs where the comparator lets a wrong subtraction through, which throw logic_error |
| Modulo.TakeMultiple | BigDecimal.cpp:330 | subtracting `bdMult - bd` leaves rn % bn or throws logic_error exactly on the failing pairs |
| Modulo.AppendDigit | BigDecimal.cpp:324-330 | the remainder times ten plus the next digit, reduced below the divisor |
| Modulo.StepFailsBelowPoint | BigDecimal.cpp:326-330 | a reduction step can fail only when the divisor has digits below the point |
| Modulo.ReduceDigits | BigDecimal.cpp:322-331 | the processed digits are mt divisors plus a remainder below one divisor, in units of 10^f, the remainder being `LoopRemainder`; it throws logic_error exactly when `LoopFails` (some step meets a failing pair), which needs f < 0 |
| Modulo.FailsPersist | BigDecimal.cpp:322-331 | a failing step among the higher digits makes the whole digit loop fail |
| Modulo.TakeCases | BigDecimal.cpp:326-330 | after the inner loop, the remainder less `bdMult - bd` is rn % bn when that multiple fits, and the step fails exactly on a Small remainder with no multiple taken or on a Small multiple passed over a zero remainder |
| Modulo.ToCommonScale | BigDecimal.cpp:312-321 | both operands are brought to a common scale with exponents 0 or below, with magnitudes preserved; f < 0 exactly when the divisor reaches below both the point and the receiver's last digit; the exponent change is -min(receiver exponent, 0) |
| Modulo.ModAssign | BigDecimal.cpp:299-336 | abs(a) < abs(b) returns the receiver; equal magnitudes give zero; otherwise abs(a) = m*abs(b) + abs(r) with abs(r) < abs(b) and r carrying the receiver's sign (`RemainderOutcome`), a zero remainder being left unnormalised with the receiver's sign and exponent min(receiver exponent, 0); it throws logic_error exactly when the receiver is the larger and `ModThrows(a, b)`, which needs a divisor reaching below the point and the receiver's last digit |
| Modulo.ModLarger | BigDecimal.cpp:312-335 | after the comparison: the remainder equation with the receiver's sign, a zero remainder at exponent min(receiver exponent, 0) (`exponent -= exponentChange`), or logic_error exactly when `ModThrows(a, b)` |
| Modulo.ModSixBySevenTenths | tests.cpp:111-112 | 6 % 0.7 does not throw: the only step sees 60 tenths against 7 |
| Modulo.ModTenBySevenE5 | tests.cpp:189 | 10 % 7e-5 does not throw: the steps see 100000 and then 50 units of 1e-5 against 7 |
| Modulo.ModHundredByFiveHundredths | BigDecimal.cpp:326-330 | 100 % 0.05 throws logic_error: the second step meets a zero remainder against a divisor below 0.1 |
| Modulo.ModSelf | tests.cpp:115-116 | a value compared with itself unsigned is `equal`, so `bd %= bd` leaves zero |
| Modulo.ModLess | BigDecimal.cpp:303-307 | a `less` on the unsigned operands is a true `less`, so returning the receiver satisfies the remainder equation with m = 0 |
| Modulo.ModEqual | BigDecimal.cpp:308-311 | an `equal` on the unsigned operands means equal magnitudes, so zero is the remainder with m = 1 |
| Modulo.ModSignedZero | BigDecimal.cpp:332-335 | for -14 % 7 every remainder allowed as written is a numeric zero with sign false, which is not canonical and not `==` to zero |
| Modulo.ModFourteenBySevenTenths | BigDecimal.cpp:303-331 | 1.4 % 0.7 takes the `greater` branch and does not throw |
| Modulo.ModZeroKeepsScale | BigDecimal.cpp:313-334 | for 1.4 % 0.7 every result allowed as written is the zero with sign true and exponent -1, which is not `==` to zero |
| Modulo.ModAssignNormalized | BigDecimal.cpp:299-336 | corrected `%=`: the same remainder equation with a canonical result, and the result is zero exactly when abs(a) is an exact multiple of abs(b); it throws exactly when `%=` does |
| Modulo.NormalizedRemainder | BigDecimal.cpp:81-97 | normalising the remainder keeps the remainder equation, and the canonical remainder is zero exactly for an exact multiple |
| ScaledValues.SubScaled | BigDecimal.cpp:274-275 | `x -= y` with x >= y is exact except on the pairs the comparator misorders, which throw logic_error |
| ScaledValues.ScaledCompare | BigDecimal.cpp:270 | outside the misordered pairs, `<=` on scaled values is `<=` on their integers |
| ScaledValues.Increment | BigDecimal.cpp:272 | `++mult` adds one to the counter |
| Integers.FromInt | BigDecimal.cpp:9-16 | every `long long`, including the minimum, becomes a canonical value equal to it |
| Integers.LongLongE | BigDecimal.cpp:100-107 | digit * 10^pos, which fits a `long long` for pos <= 18 |
| Integers.ToInt64 | BigDecimal.cpp:110-143 | the outcome is `ToInt64Outcome`: the size check in size_t, then the intended conversion |
| Integers.AccumulatePositive | BigDecimal.cpp:118-129 | the positive loop returns the truncated value or overflow, exactly as `Int64Of` |
| Integers.AccumulateNegative | BigDecimal.cpp:130-141 | the negative loop returns the negated truncated value or underflow, exactly as `Int64Of` |
| Integers.IntPartFloor | BigDecimal.h:20 | the integer part that the conversion keeps is the floor of the magnitude |
| Integers.Int64OfTruncates | BigDecimal.h:20-21 | corrected conversion: a result is the value truncated toward zero and fits `long long`; an error is overflow above the range and underflow below it |
| Integers.ToInt64AsIntended | BigDecimal.cpp:111-115 | for zero and every value of at least 0.1 in magnitude, `toInt64` is the truncating conversion |
| Integers.ToInt64RejectsSmall | BigDecimal.cpp:111 | as written, a nonzero value below 0.1 throws where truncation gives 0 |
| Integers.ToInt64SmallExample | BigDecimal.cpp:111 | 0.05 throws overflow_error although it truncates to 0 |
| Integers.Int64RoundTrip | BigDecimal.cpp:9-16 | a `long long` converted to BigDecimal and back by `toInt64` is unchanged |
| Text.StoiSigned | BigDecimal.cpp:58 | `std::stoi` reads back a signed decimal integer |
| Text.DigitRunMaximal | BigDecimal.cpp:58 | the digits `std::stoi` reads are the longest run of digits after the sign |
| Text.FindPointAt | BigDecimal.cpp:52 | `std::find` for '.' returns the first point, or the end |
| Text.FindMarkerAt | BigDecimal.cpp:53 | `std::find_if` for 'e'/'E' returns the first marker, or the end |
| Text.TrimZerosPrefix | BigDecimal.cpp:63-64 | trimming keeps a prefix that does not end in '0' |
| Text.SpelledDigits | BigDecimal.cpp:165-166 | spelling a digit vector most-significant first and reading it back gives the vector |
| Parser.ConstructFromChars | BigDecimal.cpp:39-79 | the result is the canonical form of the reading `Parsed(str)`, or exactly its exception; the empty string gives zero |
| Parser.ReadUnsigned | BigDecimal.cpp:52-79 | after the sign: a point after the exponent marker throws; the exponent is read by `stoi` and cut off; then the body |
| Parser.ReadBody | BigDecimal.cpp:61-78 | the body is read as `ParsedBody`, normalised, or rejected |
| Parser.DropPoint | BigDecimal.cpp:61-67 | the body keeps the integer digits and the trimmed fraction; the exponent drops by the fractional digits kept |
| Parser.TrimTrailingZeros | BigDecimal.cpp:63-64 | the end moves left over exactly the trailing '0's and stops at the point |
| Parser.PushDigits | BigDecimal.cpp:71-77 | succeeds exactly when every body character is a digit, and then yields the digits least-significant first |
| Parser.FindPointFrom | BigDecimal.cpp:52 | the first point in the range |
| Parser.FindMarkerFrom | BigDecimal.cpp:53 | the first exponent marker in the range |
| Parser.ParsedValid | BigDecimal.cpp:71-77 | a successful reading holds decimal digits only |
| Formatter.ToString | BigDecimal.cpp:155-187 | the text is `Format(d)`: "0" for zero, '-' for negatives, digits most-significant first, then `0.` in front, an inner point, a point after the first digit with `e-`, or `e+` |
| Formatter.ReverseFrom | BigDecimal.cpp:166 | `std::reverse` from `offset`: the prefix is kept and the rest is mirrored |
| Formatter.AppendDigits | BigDecimal.cpp:165 | the digit characters are appended in storage order |
| Formatter.PlacePoint | BigDecimal.cpp:167-185 | the exponent part of the text is as `Format` prescribes |
| Formatter.PlaceNegative | BigDecimal.cpp:167-181 | for a negative exponent, the three forms by comparing -exponent with the digit count |
| Formatter.Scientific | BigDecimal.cpp:172-177 | one digit, a point when more follow, and `e-` with the distance the point moved |
| Formatter.InsertAt | BigDecimal.cpp:170-179 | `std::string::insert` puts the text at the cut |
| Formatter.FormatSign | BigDecimal.cpp:156-164 | zero prints as "0", and a leading '-' appears exactly for negative values |
| TextRoundTrip.RoundTrip | BigDecimal.h:24-25 | constructing from the text `toString` prints for a canonical value gives that value back, field for field |
| TextRoundTrip.FormatParses | BigDecimal.cpp:155-187 | the printed text of a canonical value always parses, to the same value |
| TextRoundTrip.ZeroParses | BigDecimal.cpp:156-158 | "0" reads as a single zero digit, which normalises to zero |
| TextRoundTrip.WholeParses | BigDecimal.cpp:182-186 | an integer with exponent 0 reads back exactly |
| TextRoundTrip.PositiveParses | BigDecimal.cpp:182-185 | the `e+` form reads back exactly |
| TextRoundTrip.PointInFrontParses | BigDecimal.cpp:169-171 | the `0.` form reads back as the same value; the leading zero becomes a top zero digit that normalisation removes |
| TextRoundTrip.InnerPointParses | BigDecimal.cpp:178-180 | the inner-point form reads back exactly |
| TextRoundTrip.SingleDigitParses | BigDecimal.cpp:172-177 | one digit with `e-` reads back exactly |
| TextRoundTrip.ScientificParses | BigDecimal.cpp:172-177 | `d.ddd` with `e-` reads back exactly |
| TextRoundTrip.ExponentRead | BigDecimal.cpp:58 | the exponent `toString` writes after `e+` or `e-` is read back by `stoi` as the exponent |
| Numbers.EqualityIsNumeric | BigDecimal.h:45-46 | on canonical values the defaulted `==` holds if and only if the values are equal |
| Numbers.IncrementExact | BigDecimal.cpp:338-340 | `++` adds exactly one if and only if the receiver is non-negative or at most -1 |
| Numbers.DecrementExact | BigDecimal.cpp:348-350 | `--` always subtracts exactly one |
| Numbers.BigDecimal.constructor | BigDecimal.h:7 | a default-constructed object is canonical zero (empty digits, sign true, exponent 0) |
| Numbers.BigDecimal.FromInt64 | BigDecimal.cpp:9-16 | the object is canonical and equals the integer |
| Numbers.BigDecimal.Of | BigDecimal.h:26 | the memberwise copy holds the same fields |
| Numbers.BigDecimal.FromString | BigDecimal.cpp:31-33 | a fresh canonical object with the value read, or exactly the parser's exception |
| Numbers.BigDecimal.PlusAssign | BigDecimal.cpp:189-197 | the object's new value is `AddOutcome` of the old values and is canonical; on an exception the fields are unchanged |
| Numbers.BigDecimal.MinusAssign | BigDecimal.cpp:199-207 | the object's new value is `SubOutcome` of the old values and is canonical; on an exception the fields are unchanged |
| Numbers.BigDecimal.TimesAssign | BigDecimal.cpp:225-254 | the object becomes the canonical product of the old values |
| Numbers.BigDecimal.DivideAssign | BigDecimal.cpp:257-297 | with a positive divisor the object becomes canonical and non-negative, with the truncated quotient of the magnitudes bracketed and cut at the first stopping step, as for `Division.DivAssign` |
| Numbers.BigDecimal.ModuloAssign | BigDecimal.cpp:299-336 | a receiver smaller in magnitude is kept unchanged; equal magnitudes give canonical zero; otherwise the object becomes the remainder with the receiver's sign, magnitude below the divisor's, an exact multiple apart, or the call throws logic_error exactly when `ModThrows`; a zero remainder keeps the receiver's sign and takes exponent min(receiver exponent, 0); the result is canonical only when nonzero |
| Numbers.BigDecimal.Increment | BigDecimal.cpp:338-340 | prefix `++` is `+= 1`, exact for non-negative values and values at most -1 |
| Numbers.BigDecimal.Decrement | BigDecimal.cpp:348-350 | prefix `--` subtracts exactly one and never throws |
| Numbers.BigDecimal.PostIncrement | BigDecimal.cpp:342-346 | returns a fresh copy of the old value, and the object is incremented as by prefix `++` |
| Numbers.BigDecimal.PostDecrement | BigDecimal.cpp:352-356 | returns a fresh copy of the old value, and the object is one less |
| Numbers.BigDecimal.Add | BigDecimal.cpp:358-360 | `a + b` is `+=` on a fresh copy of `a` |
| Numbers.BigDecimal.Subtract | BigDecimal.cpp:362-364 | `a - b` is `-=` on a fresh copy of `a` |
| Numbers.BigDecimal.Multiply | BigDecimal.cpp:366-368 | `a * b` is a fresh canonical object holding the product |
| Numbers.BigDecimal.Divide | BigDecimal.cpp:370-372 | `a / b` with a positive divisor is a fresh non-negative canonical object holding the quotient as for `Division.DivAssign` |
| Numbers.BigDecimal.Remainder | BigDecimal.cpp:374-376 | `a % b` is a fresh object holding what `%=` leaves in a copy of `a`: `a` itself when smaller in magnitude, zero for equal magnitudes, otherwise the remainder of abs(a) by abs(b) with the sign of `a` (a zero one at exponent min(exponent of `a`, 0)), or exactly the `logic_error` of `%=` |
| Numbers.BigDecimal.ToInt64 | BigDecimal.cpp:110-143 | the object's conversion is `ToInt64Outcome` of its fields |
| Numbers.BigDecimal.ToString | BigDecimal.cpp:155-187 | the object's text is `Format` of its fields |
| Numbers.BigDecimal.Equals | BigDecimal.h:45-46 | field-by-field equality, which on valid objects is equality of the values |
| Numbers.BigDecimal.CompareTo | BigDecimal.cpp:378-401 | on valid objects the numeric order, except equal negatives (`less`) and the zero/below-0.1 pairs (reversed) |

## Left out

- Floating-point constructors (BigDecimal.cpp:22-29) and `toLongDouble` (BigDecimal.cpp:145-153): these work through `long double` formatting and `std::pow`.
- Stream operators `<<` and `>>` (BigDecimal.cpp:403-418): these are I/O adapters around `toString` and `constructFromChars`.
- The `long`, `int`, `short` and `char` constructors (BigDecimal.cpp:18-21) and the `const char*` constructor (BigDecimal.cpp:35-37): they only convert their argument and call the `long long` and string constructors, which are modelled.
- `std::stoi` leading whitespace and its `out_of_range` for huge exponents: the exponent is an optional sign and a digit run of any length.
- Overflow of the `int` exponent and of the `int` loop counters: integers are unbounded. The exception is `toInt64`, whose `size_t` wrap-around is modelled; it assumes fields that fit their C++ types (`MachineSized`).
- Numbers.BigDecimal.PlusAssign: on an exception the model keeps the old fields, whereas the C++ object can be left partly updated (aligned digits, half-applied borrows).
- Numbers.BigDecimal.MinusAssign: on an exception the fields are kept, as for PlusAssign.
- Numbers.BigDecimal.ModuloAssign: on an exception the fields are kept, whereas the C++ object has already been rescaled.
- Numbers.BigDecimal.ModuloAssign: a zero remainder can leave the object unnormalised (empty digits with the receiver's sign and exponent min(receiver exponent, 0): sign false for -14 % 7, exponent -1 for 1.4 % 0.7). The other operators require a valid object, so calculations that go on with such an object (`x -= 1` after -14 % 7, which gives -1 in C++) are not modelled.
- Numbers.BigDecimal.Increment: on an exception the fields are kept, as for PlusAssign.
- Numbers.BigDecimal.PostIncrement: on an exception the fields are kept, as for PlusAssign.
- Numbers.BigDecimal.DivideAssign: requires a positive divisor, because the source loops forever for a zero or negative one unless the dividend is zero; the zero-dividend case, which returns 0, is not modelled.
- Division.DivAssign: requires a positive divisor, for the same reason.
- Numbers.BigDecimal.ModuloAssign: requires a nonzero divisor, because the source loops forever for zero unless the receiver is zero (result zero) or lies in (-0.1, 0.1) (receiver returned); those two returning cases are not modelled.
- Modulo.ModAssign: requires a nonzero divisor, for the same reason.
- Running time: division and modulo by repeated addition are modelled step by step, but their cost is not.
- Digits are `int`s 0-9 rather than the characters '0'-'9'. The transient values outside that range in `doAdd` and `doSubtract` are modelled as integers.
- The test cases of tests.cpp are not modelled one by one; the `%=` cases cited in the table are restated as lemmas.

## Findings

The class layer `Numbers.BigDecimal` models the operators as written. The corrected members below are the reference definitions that the intended properties are proved about.

| source | as written | input that shows it | evidently intended | confidence | as-written member | corrected member |
|---|---|---|---|---|---|---|
| BigDecimal.cpp:111 | `digits.size() + exponent > 19` is computed in `size_t`, so a negative sum wraps to a huge number and the value is rejected | 0.05 (digits {5}, exponent -2): throws `overflow_error` | return the value truncated toward zero, 0 here, as the header comment at BigDecimal.h:20 promises | high; not executed | Integers.ToInt64SmallExample | Integers.Int64OfTruncates |
| BigDecimal.cpp:332-335 | `%=` ends without `normalize()`, unlike every other arithmetic operator | -14 % 7: the remainder is zero with sign false; 1.4 % 0.7: zero with exponent -1; neither is `==` to `BigDecimal(0)` | a canonical remainder, zero exactly when the divisor divides the receiver | high; not executed | Modulo.ModSignedZero, Modulo.ModZeroKeepsScale | Modulo.ModAssignNormalized |
