# fixed-point-number in Dafny

This project models the arithmetic engine of the C++ header-only library
`fixed_point_number`. The library stores a decimal number as a signed
integer "raw value" equal to the number times `scale_value = 10^n`, where
`n` is the number of fraction digits. The storage is one of the signed types
`int8_t`, `int16_t`, `int32_t` or `int64_t`.

The model works over Dafny's unbounded integers. Storage bounds, C++
truncating division and two's-complement wrap-around are written out
explicitly:

- `Storage`: the four storage widths with their MIN and MAX, integer promotion of 8- and
  16-bit operands, `next_storage_type`, and the type `src * scale_value` is
  evaluated in when an integer is converted.
  It also gives C++ `/` (`TruncDiv`) and narrowing casts (`Wrap`).
- `Scale`: `decimal_scale` (10^n), `calc_max_decimal_digits_num` and
  `max_decimal_digits_num`.
- `Details`: Euclid's `gcd`, both as the source's while loop (a method with a
  loop invariant) and as a function. Also the post-hoc overflow predicates
  `is_add_overflow` and `is_subtract_overflow`, applied to the wrapped
  result.
- `RoundPolicy`: `default_round_policy::round_div`, which rounds to nearest
  with ties away from zero. It is proved against an independent reference
  predicate, `NearestAwayFromZero`.
- `MultDiv`: `mult_div`, covering the zero-divisor error, the two gcd
  reductions, the product and its read-back check, the widening
  `mult_overflow_handler`, `round_div` and `range_checked_cast`.
- `FixedPoint`: the value type and its operations:
  - integer conversions in both directions;
  - unary `+` and `-`;
  - `+= -= *= /=`, prefix and postfix `++ --`;
  - comparisons and `swap`.
- `Render`: `get_parts` and `to_string`. A parser of the rendered text
  (`ParseRendered`) serves as the inverse for the round-trip property.
- `DecimalText`: `std::to_string` on integers, with digit-string values,
  zero padding and uniqueness of spellings.
- `TestScenarios` and `ToStringScenarios`: the expected values of the
  library's unit tests, restated over the model.

Each C++ operation that can throw returns a `Result` in the model. The error
kinds are `OutOfRange` (`fixed_point_out_of_range_error`), `ConversionError`
(`fixed_point_conversion_error`) and `InvalidArgument`
(`std::invalid_argument`). Operations are pure functions, so a failed
`+=`, `*=` or `++` leaves its operand unchanged by construction.

The C++ code has undefined behaviour where a signed operation overflows the
type it is evaluated in. 8- and 16-bit operands are promoted to `int`, so
storage arithmetic at those widths never overflows. At 32 and 64 bits it can.
The one exception at 8 and 16 bits is `src * scale_value` in the integer
conversion: with a 32- or 64-bit source it is evaluated in `int` or
`long long` and can overflow there. The model treats undefined behaviour in
two ways:

- Signed overflow of `+`, `-`, `*` and unary `-` is modelled as two's-complement
  wrap-around (`Wrap`) in the type the operation is evaluated in. The source's
  post-hoc checks then decide the result. This covers `+=` and `-=`, `++` and
  `--`, unary `-` of MIN, the product in `mult_div`, and `src * scale_value`
  (in `CommonWidth`, at every storage width).
- `std::abs` of MIN, and doubling a remainder beyond MAX in `round_div`, are
  excluded by preconditions (`AbsDefined`, `RoundDivDefined`,
  `MultDivDefined`). These corners arise only at 32 and 64 bits. Lemmas show
  when those preconditions hold.

## Model

| member | source | states |
|---|---|---|
| Storage.CommonWidth | include/fixed_point_number.hpp:395 | The type `src * scale_value` is evaluated in holds both the source and the storage type, and at least `int`. |
| Storage.NextWidth | include/fixed_point_number.hpp:58-77 | `next_storage_type`: each width maps to the next wider one, and 64 bits maps to itself. Its meaning is stated by `ProductFitsNextWidth` and `OverflowHandler`. |
| Storage.Wrap | include/fixed_point_number.hpp:476 | A narrowing cast yields the unique in-range value congruent to the input modulo 2^bits, and is the identity on in-range values. |
| Storage.WrapWindow | include/fixed_point_number.hpp:476 | A value shifted by whole periods into range wraps to exactly that shifted value. |
| Storage.TruncDiv | include/fixed_point_number.hpp:150 | C++ division leaves a remainder smaller than the divisor with the sign of the dividend. |
| Storage.TruncDivUnique | include/fixed_point_number.hpp:150 | Those remainder properties determine the C++ quotient uniquely. |
| Storage.TruncDivExact | include/fixed_point_number.hpp:459-460 | Dividing an exact multiple truncates nothing. |
| Storage.QuotientCheckExact | include/fixed_point_number.hpp:476-477 | Reading back `wrap(a*b)/a == b` holds exactly when `a*b` is representable, so the product check in `mult_div` detects overflow precisely. |
| Scale.DecimalScale | include/fixed_point_number.hpp:80-91 | 10^n is at least 1. |
| Scale.DecimalScaleMonotone | include/fixed_point_number.hpp:80-91 | 10^i <= 10^j whenever i <= j. |
| Scale.DecimalDigits | include/fixed_point_number.hpp:20-27 | The recursive digit count is at least 1 and brackets the value between consecutive powers of ten (10^(r-1) <= \|v\| < 10^r for v != 0). |
| Scale.DecimalDigitsBracket | include/fixed_point_number.hpp:20-27 | Any k with 10^(k-1) <= \|v\| < 10^k is the digit count: the count is unique. |
| Scale.MaxDecimalDigits | include/fixed_point_number.hpp:93-97 | `max_decimal_digits_num`: the digit count of MAX. `ScaleFitsIff` states what it bounds and `MaxDecimalDigitsExamples` gives its values. |
| Scale.ScaleFitsIff | include/fixed_point_number.hpp:93-97 | 10^n fits the storage type if and only if n < `max_decimal_digits_num`. |
| Scale.ScaleBelowIff | include/fixed_point_number.hpp:20-27 | For v >= 1, 10^n <= v if and only if n is below the digit count of v. |
| Scale.LargeScales | include/fixed_point_number.hpp:80-91 | The powers of ten next to the 32- and 64-bit maxima (10^9, 10^10, 10^18, 10^19). |
| Scale.DecimalScaleExamples | tests/fixed_point_number_tests.cpp:1155-1164 | `decimal_scale` for 0..6 digits is 1 .. 1000000. |
| Scale.DecimalDigitsExamples | tests/fixed_point_number_tests.cpp:1130-1142 | The digit counts of 0, 1, 9, 10, 100 and 1000 are 1, 1, 1, 2, 3, 4. |
| Scale.MaxDecimalDigitsExamples | tests/fixed_point_number_tests.cpp:1144-1152 | `max_decimal_digits_num` of the four storage types is 3, 5, 10 and 19. |
| Details.CommonDivisorsStep | include/fixed_point_number.hpp:32-37 | One loop step (a, b) to (b % a, a) keeps exactly the same common divisors. |
| Details.GcdUnique | include/fixed_point_number.hpp:29-39 | Two greatest common divisors of the same pair are equal. |
| Details.Gcd | include/fixed_point_number.hpp:29-39 | The result divides both arguments and is positive when b != 0. |
| Details.GcdGreatest | include/fixed_point_number.hpp:29-39 | Every common divisor of a and b divides the result. |
| Details.GcdIsGcd | include/fixed_point_number.hpp:29-39 | The result is the greatest common divisor. |
| Details.GcdOfDivisor | include/fixed_point_number.hpp:456-461 | The gcd of n with a positive divisor m of n is m. |
| Details.GcdLoop | include/fixed_point_number.hpp:29-39 | The while loop terminates and returns the greatest common divisor, positive when b != 0, equal to the function form. |
| Details.IsAddOverflow | include/fixed_point_number.hpp:41-49 | `is_add_overflow`: the sign test on the wrapped result. Its meaning is stated by `AddOverflowDetection`. |
| Details.IsSubtractOverflow | include/fixed_point_number.hpp:51-55 | `is_subtract_overflow`, as `is_add_overflow(b, result, a)`. Its meaning is stated by `SubtractOverflowDetection`. |
| Details.AddOverflowDetection | include/fixed_point_number.hpp:41-50 | On the wrapped sum, `is_add_overflow` is true if and only if the true sum is out of range, except MIN + MIN. |
| Details.AddOverflowMissesMinPlusMin | include/fixed_point_number.hpp:41-50 | MIN + MIN is out of range, wraps to 0, and is not flagged. |
| Details.SubtractOverflowDetection | include/fixed_point_number.hpp:52-56 | On the wrapped difference, `is_subtract_overflow` is true if and only if the true difference is out of range, except 0 - MIN. |
| Details.SubtractOverflowMissesZeroMinusMin | include/fixed_point_number.hpp:52-56 | 0 - MIN is out of range, wraps to MIN, and is not flagged. |
| RoundPolicy.RoundDiv | include/fixed_point_number.hpp:136-158 | Fails with InvalidArgument exactly for a zero divisor; otherwise the result is the nearest integer to value/divisor, ties away from zero. |
| RoundPolicy.NegateBoth | include/fixed_point_number.hpp:157 | Negating the divisor negates the rounded quotient. |
| RoundPolicy.NegateValue | include/fixed_point_number.hpp:154 | Negating the value negates the rounded quotient. |
| RoundPolicy.TruncRemainder | include/fixed_point_number.hpp:149-151 | `abs(value) % abs_divisor` is the magnitude of the truncated division's remainder. |
| RoundPolicy.NudgeIsNearest | include/fixed_point_number.hpp:150-155 | Moving the truncated quotient one step away from zero when twice the remainder reaches the divisor gives the nearest quotient. |
| RoundPolicy.NearestUnique | include/fixed_point_number.hpp:136-158 | At most one integer is the rounded quotient. |
| RoundPolicy.RoundDivExact | include/fixed_point_number.hpp:136-158 | An exact quotient is returned unrounded. |
| RoundPolicy.NearestScale | include/fixed_point_number.hpp:454-474 | Scaling value and divisor by the same positive factor keeps the set of rounded quotients. |
| RoundPolicy.NearestMultipleScale | include/fixed_point_number.hpp:454-474 | Being the nearest multiple is invariant under positive scaling. |
| RoundPolicy.RoundDivCancel | include/fixed_point_number.hpp:454-474 | Cancelling a common positive factor, which the gcd reduction does, never changes `round_div`'s result. |
| RoundPolicy.RoundDivSymmetric | include/fixed_point_number.hpp:136-158 | round_div(-v, d) = round_div(v, -d) = -round_div(v, d). |
| RoundPolicy.RoundDivBound | include/fixed_point_number.hpp:136-158 | The rounded quotient is never larger in magnitude than the value. |
| RoundPolicy.NearestBound | include/fixed_point_number.hpp:136-158 | Any nearest quotient is no larger in magnitude than the value. |
| RoundPolicy.RoundDivUnitExamples | tests/fixed_point_number_tests.cpp:1182-1198 | The unit-magnitude cases of the round-policy test, and a zero divisor rejected with InvalidArgument. |
| RoundPolicy.RoundDivHalfwayExamples | tests/fixed_point_number_tests.cpp:1200-1203 | 11111 and 11114 by 10 give 1111; 11115 and 11119 give 1112. |
| RoundPolicy.RoundDivNegativeHalfwayExamples | tests/fixed_point_number_tests.cpp:1205-1208 | The negative halves round away from zero to -1111 and -1112. |
| MultDiv.RangeCheckedCast | include/fixed_point_number.hpp:379-389 | Succeeds, with the value unchanged, exactly when the value is in range; otherwise OutOfRange. |
| MultDiv.ExactTruncDiv | include/fixed_point_number.hpp:459-460 | Dividing by a divisor of \|v\| is exact. |
| MultDiv.ReduceBy | include/fixed_point_number.hpp:456-461 | One reduction divides value and divisor exactly by the same positive gcd. |
| MultDiv.CofactorInRange | include/fixed_point_number.hpp:459-460 | A reduced value stays in range and is no larger in magnitude. |
| MultDiv.Prepare | include/fixed_point_number.hpp:449-474 | Zero divisor gives InvalidArgument. A zero factor gives 0. Otherwise the reduced factors are non-zero and in range, and the product and divisor shrink by a common factor k >= 1. |
| MultDiv.PrepareFactor | include/fixed_point_number.hpp:454-474 | Exhibits the common factor k that the two reductions divide out. |
| MultDiv.ReductionFacts | include/fixed_point_number.hpp:454-474 | The two successive reductions preserve product/divisor as a ratio and keep the factors in range. |
| MultDiv.OverflowHandler | include/fixed_point_number.hpp:491-520 | Below 64 bits the product is recomputed exactly in the next type. At 64 bits the handler always fails with OutOfRange: the product has already overflowed 64 bits, and the `long long` recomputation wraps and fails its read-back. |
| MultDiv.ProductFitsNextWidth | include/fixed_point_number.hpp:58-77 | The product of two values of a width below 64 bits fits `next_storage_type`. |
| MultDiv.Product | include/fixed_point_number.hpp:476-485 | The product step succeeds except at 64 bits with a product beyond 64 bits. When it succeeds it is the exact product, held in a type where it fits. |
| MultDiv.MultDivAsWritten | include/fixed_point_number.hpp:446-489 | `mult_div` as written, whose `round_div` casts back into the product's type. Any success is in range. |
| MultDiv.MultDiv | include/fixed_point_number.hpp:446-489 | `mult_div` with the final quotient range-checked exactly. A success is in range. InvalidArgument occurs exactly for a zero divisor; any other failure is OutOfRange. |
| MultDiv.MultDivIsRoundedQuotient | include/fixed_point_number.hpp:446-489 | The result is round_div(v1*v2, d) when that fits, and OutOfRange otherwise. The exception is 64-bit storage with a reduced product beyond 64 bits, which is OutOfRange. |
| MultDiv.ReducedProductBound | include/fixed_point_number.hpp:454-476 | The reduced product is never larger than the unreduced one. |
| MultDiv.MultDivByDivisor | include/fixed_point_number.hpp:446-489 | mult_div(v, d, d) = v for every d > 0. |
| MultDiv.MultDivOfSelf | include/fixed_point_number.hpp:446-489 | mult_div(v, d, v) = d for every v != 0 and d > 0. |
| MultDiv.MultDivDefinedSmallDivisor | include/fixed_point_number.hpp:446-489 | With no MIN operand, a divisor at most MAX/2, and a product that is not negative or fits, `mult_div` has no undefined behaviour. |
| MultDiv.ReducedRoundDivDefined | include/fixed_point_number.hpp:484-488 | After reduction, `round_div` on the reduced product and divisor is defined. |
| MultDiv.MultDivSmallProduct | include/fixed_point_number.hpp:476-488 | When the raw product fits, the result is exactly the rounded quotient. |
| MultDiv.MultDivNarrowOperands | include/fixed_point_number.hpp:446-489 | Operands that fit 8 bits give the rounded quotient in every width where it fits. |
| MultDiv.ReducedSigns | include/fixed_point_number.hpp:454-474 | Reduction keeps a non-negative product positive and does not enlarge the divisor. |
| MultDiv.AsWrittenDiffersOnlyByWrap | include/fixed_point_number.hpp:484-488 | The as-written and corrected `mult_div` differ only at 8/16 bits, where the corrected one fails and the as-written one returns MIN. |
| MultDiv.WideQuotientFits | include/fixed_point_number.hpp:482-484 | A quotient no larger than a w-bit product fits the next wider type. |
| MultDiv.NarrowQuotientEdge | include/fixed_point_number.hpp:157 | An out-of-range quotient no larger than an in-range value is MAX + 1, and narrowing wraps it to MIN. |
| MultDiv.DifferenceIsWrappedQuotient | include/fixed_point_number.hpp:484-488 | Where the two versions differ, the divisor is negative and the rounded quotient is exactly MAX + 1. |
| MultDiv.QuotientSign | include/fixed_point_number.hpp:149-157 | A negative value divided by a positive divisor never rounds to a positive quotient. |
| MultDiv.WrappedQuotientOrigin | include/fixed_point_number.hpp:454-474 | A positive quotient of a negative reduced product needs a negative divisor, and cancelling the reduction factor keeps the quotient. |
| MultDiv.PositiveDivisorAgrees | include/fixed_point_number.hpp:446-489 | With a positive divisor the as-written and corrected `mult_div` give the same outcome for every input. |
| MultDiv.WrapsAfterReduction | include/fixed_point_number.hpp:476-488 | At 8 bits, once the reductions leave -64 * 2 over -1, the as-written `mult_div` returns MIN. |
| MultDiv.MinOverMinusOneWraps | include/fixed_point_number.hpp:446-489 | At 8 bits, mult_div(-128, 1, -1) returns -128 as written where the corrected version fails with OutOfRange. |
| FixedPoint.FromInteger | include/fixed_point_number.hpp:391-403 | Succeeds exactly when s*scale is in range, giving raw s*scale; otherwise ConversionError. |
| FixedPoint.ToInteger | include/fixed_point_number.hpp:405-416 | A success is the rounded raw/scale and fits the destination. A ConversionError means no rounded quotient fits. |
| FixedPoint.IntegerRoundTrip | include/fixed_point_number.hpp:391-416 | Converting an integer in and back out returns it. |
| FixedPoint.Plus | include/fixed_point_number.hpp:213-216 | Unary `+` is the identity. |
| FixedPoint.Negate | include/fixed_point_number.hpp:218-229 | Fails with OutOfRange exactly at MIN; otherwise yields -raw, in range. |
| FixedPoint.NegationWraps | include/fixed_point_number.hpp:221 | Negation in the storage type is exact except at MIN, which wraps to itself. |
| FixedPoint.Add | include/fixed_point_number.hpp:231-244 | Except for MIN + MIN: succeeds exactly when the sum is in range, with the exact sum. Any failure is OutOfRange. |
| FixedPoint.Subtract | include/fixed_point_number.hpp:246-259 | Except for 0 - MIN: succeeds exactly when the difference is in range, with the exact difference. Any failure is OutOfRange. |
| FixedPoint.AddMissesMinPlusMin | include/fixed_point_number.hpp:231-244 | `+=` accepts MIN + MIN and yields 0. |
| FixedPoint.SubtractMissesZeroMinusMin | include/fixed_point_number.hpp:246-259 | `-=` accepts 0 - MIN and yields MIN. |
| FixedPoint.Increment | include/fixed_point_number.hpp:275-288 | Succeeds exactly when raw + scale <= MAX, adding the scale; otherwise OutOfRange. |
| FixedPoint.Decrement | include/fixed_point_number.hpp:297-310 | Succeeds exactly when raw - scale >= MIN, subtracting the scale; otherwise OutOfRange. |
| FixedPoint.PostIncrement | include/fixed_point_number.hpp:290-295 | Returns the prior value and leaves the operand incremented. |
| FixedPoint.PostDecrement | include/fixed_point_number.hpp:312-317 | Returns the prior value and leaves the operand decremented. |
| FixedPoint.Multiply | include/fixed_point_number.hpp:267-271 | A success is the rounded raw product over the scale, in range. A zero factor gives 0. Below 64 bits it succeeds exactly when that rounded quotient fits. |
| FixedPoint.MultiplyIsAsWritten | include/fixed_point_number.hpp:267-271 | `Multiply` gives the same outcome as the as-written `mult_div(raw, y, scale)` for all operands: `*=` is modelled as the source writes it. |
| FixedPoint.Divide | include/fixed_point_number.hpp:261-265 | The corrected `/=`. A zero divisor gives InvalidArgument. A success is the rounded raw*scale/divisor, in range. Below 64 bits it succeeds exactly when that quotient fits. |
| FixedPoint.DivideAsWritten | include/fixed_point_number.hpp:261-265 | `/=` as the source writes it. Where it differs from `Divide`, the storage is 8 or 16 bits, the divisor is negative, the rounded quotient is MAX + 1, `Divide` fails with OutOfRange, and this version stores MIN. |
| FixedPoint.DivideMinByMinusOneWraps | include/fixed_point_number.hpp:261-265 | At int8 with one digit, -12.8 / -1.0 stores -12.8 as written, while `Divide` fails with OutOfRange. |
| FixedPoint.DivideWrapsWithoutMinOperand | include/fixed_point_number.hpp:261-265 | At int8 with one digit, -6.4 / -0.5 also stores -12.8 as written, while `Divide` fails with OutOfRange; neither operand is MIN. |
| FixedPoint.Swap | include/fixed_point_number.hpp:373-376 | Exchanges the two values. |
| FixedPoint.ScaleHalfFits | include/fixed_point_number.hpp:181-182 | At 32/64 bits twice a valid scale fits, so `round_div` by the scale cannot overflow. |
| FixedPoint.DigitsBound | include/fixed_point_number.hpp:181-182 | A valid configuration has at most 9 (32-bit) or 18 (64-bit) fraction digits. |
| FixedPoint.ToIntegerDefined | include/fixed_point_number.hpp:409 | Apart from `std::abs(MIN)`, `round_div` by the scale is always defined. |
| FixedPoint.NegateTwice | include/fixed_point_number.hpp:218-229 | -(-a) = a for every a but MIN. |
| FixedPoint.SubtractFromZero | include/fixed_point_number.hpp:218-259 | 0 - a = -a except at MIN, where unary minus fails but subtraction yields MIN. |
| FixedPoint.AddSubtractZero | include/fixed_point_number.hpp:231-259 | Zero is the identity of `+` and `-`. |
| FixedPoint.AddCommutes | include/fixed_point_number.hpp:231-244 | `+` is commutative, including which operands fail. |
| FixedPoint.AddThenSubtract | include/fixed_point_number.hpp:231-259 | Subtracting what was added gives the value back. |
| FixedPoint.OneIsScale | include/fixed_point_number.hpp:391-403 | The integer 1 converts to raw `scale_value`. |
| FixedPoint.IncrementIsAddOne | include/fixed_point_number.hpp:275-288 | `++` is `+ 1`. |
| FixedPoint.DecrementIsSubtractOne | include/fixed_point_number.hpp:297-310 | `--` is `- 1`. |
| FixedPoint.IncrementThenDecrement | include/fixed_point_number.hpp:275-310 | `--` undoes a successful `++`. |
| FixedPoint.MultiplyByOne | include/fixed_point_number.hpp:261-271 | a * 1 = a and a / 1 = a. |
| FixedPoint.DivideBySelf | include/fixed_point_number.hpp:261-265 | a / a = 1 for a != 0. |
| FixedPoint.MultiplyCommutes | include/fixed_point_number.hpp:331-335 | `*` is commutative below 64 bits. At 64 bits, two successful results agree. |
| FixedPoint.MultiplyDefined | include/fixed_point_number.hpp:267-271 | `*` is free of undefined behaviour for non-MIN operands whose product is not negative or fits. |
| FixedPoint.Eq | include/fixed_point_number.hpp:343-346 | `operator ==` on the raw values; see `ComparisonsTotalOrder` and `ComparisonMatchesIntegers`. |
| FixedPoint.Ne | include/fixed_point_number.hpp:348-351 | `operator !=` on the raw values; see `ComparisonsTotalOrder` and `ComparisonMatchesIntegers`. |
| FixedPoint.Lt | include/fixed_point_number.hpp:353-356 | `operator <` on the raw values; see `ComparisonsTotalOrder` and `ComparisonMatchesIntegers`. |
| FixedPoint.Gt | include/fixed_point_number.hpp:358-361 | `operator >` on the raw values; see `ComparisonsTotalOrder` and `ComparisonMatchesIntegers`. |
| FixedPoint.Le | include/fixed_point_number.hpp:363-366 | `operator <=` on the raw values; see `ComparisonsTotalOrder` and `ComparisonMatchesIntegers`. |
| FixedPoint.Ge | include/fixed_point_number.hpp:368-371 | `operator >=` on the raw values; see `ComparisonsTotalOrder` and `ComparisonMatchesIntegers`. |
| FixedPoint.ComparisonsTotalOrder | include/fixed_point_number.hpp:343-371 | Exactly one of <, ==, > holds; !=, <=, >= agree with them; == is equality of values. |
| FixedPoint.ComparisonMatchesIntegers | include/fixed_point_number.hpp:343-371 | For integers converted into the type, <, == and <= on the results agree with the integers' own order. |
| FixedPoint.SwapTwice | include/fixed_point_number.hpp:373-376 | Swapping twice is the identity. |
| DecimalText.DigitChar | include/fixed_point_number.hpp:534 | A digit character spells its digit. |
| DecimalText.NatToString | include/fixed_point_number.hpp:534 | `std::to_string` of a natural is a canonical digit string whose length is the digit count and whose value is the number. |
| DecimalText.IntToString | include/fixed_point_number.hpp:536 | A negative value is spelled '-' followed by the canonical spelling of its magnitude. A non-negative value is its canonical spelling: digits only, with no leading zero. |
| DecimalText.NatToStringUnique | include/fixed_point_number.hpp:534 | Every canonical digit string is the spelling of its value. |
| DecimalText.Zeros | include/fixed_point_number.hpp:535 | The padding is n zero digits. |
| DecimalText.ZerosValue | include/fixed_point_number.hpp:535 | Zero padding has value 0. |
| DecimalText.DigitsValueAppend | include/fixed_point_number.hpp:535-536 | Appending digits shifts the front's value by one power of ten per digit. |
| DecimalText.PaddedValue | include/fixed_point_number.hpp:535-536 | Left zero padding does not change the value. |
| DecimalText.PadLeft | include/fixed_point_number.hpp:535 | The padded field is as wide as the wider of the width and the text. |
| DecimalText.ZerosCons | include/fixed_point_number.hpp:535 | n zeros are one zero followed by n-1 zeros. |
| DecimalText.PaddedSpellingUnique | include/fixed_point_number.hpp:534-535 | Every digit string is the zero-padded spelling of its value at its own width. |
| DecimalText.LeadingZero | include/fixed_point_number.hpp:535 | A leading zero adds nothing to the value. |
| DecimalText.PadOneMore | include/fixed_point_number.hpp:535 | Padding one character wider puts one more zero in front. |
| DecimalText.DigitsValueBound | include/fixed_point_number.hpp:534-535 | A string of k digits has value below 10^k. |
| Render.GetParts | include/fixed_point_number.hpp:203-211 | `negative` holds exactly when raw < 0, 0 <= fractional < scale, and \|raw\| = integer*scale + fractional. |
| Render.TruncatedParts | include/fixed_point_number.hpp:205-207 | The truncated quotient by the scale has the sign of the raw value and leaves a remainder below the scale. |
| Render.GetPartsAsWritten | include/fixed_point_number.hpp:210 | As written the integer part is cast back into the storage type and is in range; the sign and fraction agree with the exact parts. |
| Render.GetPartsUnique | include/fixed_point_number.hpp:203-211 | The parts are the only ones with those three properties. |
| Render.IntegerPartFits | include/fixed_point_number.hpp:205-210 | The exact integer part fits the storage type except for MIN with no fraction digits. |
| Render.GetPartsAsWrittenDiffers | include/fixed_point_number.hpp:210 | The as-written parts differ from the exact ones exactly for MIN with no fraction digits, where the integer part MAX + 1 wraps to MIN. |
| Render.FractionText | include/fixed_point_number.hpp:533-534 | The fraction digits left-padded with zeros to the digit count. Its meaning is stated by `FractionTextFacts` and `FractionTextUnique`. |
| Render.Format | include/fixed_point_number.hpp:531-536 | Sign, integer digits, '.', padded fraction; see `ToStringFromSpellings` and `ToStringRoundTrip`. |
| Render.FractionTextFacts | include/fixed_point_number.hpp:534-535 | A fraction part below the scale gives a field of exactly the digit count (at least one) that spells it. |
| Render.FractionTextUnique | include/fixed_point_number.hpp:534-535 | Every digit field of that width is the fraction field of the value it spells. |
| Render.ToString | include/fixed_point_number.hpp:527-537 | The text has at least three characters, contains '.', and starts with '-' exactly for negative values. |
| Render.BodyReadsBack | include/fixed_point_number.hpp:534-536 | The unsigned body reads back as integer*scale + fractional. |
| Render.ToStringRoundTrip | include/fixed_point_number.hpp:527-537 | Parsing the text back gives the value: `to_string` loses nothing. |
| Render.ToStringInjective | include/fixed_point_number.hpp:527-537 | Two values have the same text if and only if they are equal. |
| Render.ToStringAsWritten | include/fixed_point_number.hpp:527-537 | `to_string` as written, on the as-written parts. `ToStringAsWrittenAgrees` shows it equals the exact text except at MIN with no fraction digits, and `Int8MinText` shows "--128.0" there. |
| Render.ToStringAsWrittenAgrees | include/fixed_point_number.hpp:527-537 | The as-written text equals the exact text everywhere except MIN with no fraction digits. |
| Render.FormatNegated | include/fixed_point_number.hpp:533-536 | A negative part with a negative integer field is spelled with a second '-'. |
| Render.MinToStringAsWritten | include/fixed_point_number.hpp:210 | At 8/16 bits with no fraction digits, MIN renders as written with a doubled sign that no longer parses, where the exact text reads back as MIN. |
| Render.MinSignDoubled | include/fixed_point_number.hpp:210 | The as-written text of MIN with no fraction digits is '-' before the exact text. |
| Render.ToStringSpelled | include/fixed_point_number.hpp:527-537 | The text from the spellings of the two parts. |
| Render.ToStringFromSpellings | include/fixed_point_number.hpp:527-537 | A value whose magnitude is the spelled integer times the scale plus the spelled fraction renders as those spellings. |
| Render.Int8MinText | include/fixed_point_number.hpp:210 | At 8 bits with no fraction digits, -128 renders "-128.0" exactly, and "--128.0" as written. |
| ToStringScenarios.Spelled | include/fixed_point_number.hpp:527-537 | The text of a value at four digits in 64-bit storage from given digit strings. |
| ToStringScenarios.WholeAndFractionText | tests/fixed_point_number_tests.cpp:1307-1308 | Raw 12349876 renders "1234.9876". |
| ToStringScenarios.WholeOnlyText | tests/fixed_point_number_tests.cpp:1313-1314 | Raw 12340000 renders "1234.0000". |
| ToStringScenarios.FractionOnlyText | tests/fixed_point_number_tests.cpp:1319-1320 | Raw 1234 renders "0.1234". |
| ToStringScenarios.NegativeWholeAndFractionText | tests/fixed_point_number_tests.cpp:1325-1326 | Raw -12349876 renders "-1234.9876". |
| ToStringScenarios.NegativeFractionOnlyText | tests/fixed_point_number_tests.cpp:1331-1332 | Raw -1234 renders "-0.1234". |
| ToStringScenarios.LeadingFractionZerosText | tests/fixed_point_number_tests.cpp:1337-1338 | Raw 12340076 renders "1234.0076". |
| ToStringScenarios.TrailingFractionZeroText | tests/fixed_point_number_tests.cpp:1343-1344 | Raw 12340070 renders "1234.0070". |
| ToStringScenarios.NegativeLeadingFractionZerosText | tests/fixed_point_number_tests.cpp:1349-1350 | Raw -12340076 renders "-1234.0076". |
| ToStringScenarios.NegativeTrailingFractionZeroText | tests/fixed_point_number_tests.cpp:1355-1356 | Raw -12340070 renders "-1234.0070". |
| TestScenarios.BasicArithmeticExamples | tests/fixed_point_number_tests.cpp:976-981 | At two digits in every width: 0.1 + 0.2 = 0.3, 0.1 - 0.2 = -0.1, 0.2 - 0.1 = 0.1, -0.1. |
| TestScenarios.SmallSum | tests/fixed_point_number_tests.cpp:976-979 | Sums and differences of 8-bit-sized operands are exact in every width. |
| TestScenarios.MultiplyExample | tests/fixed_point_number_tests.cpp:1002-1003 | 0.1 * 0.2 = 0.02 in every width. |
| TestScenarios.SquareExample | tests/fixed_point_number_tests.cpp:1000 | 0.1 * 0.1 = 0.01 in every width. |
| TestScenarios.MultiplyByMinusOneExample | tests/fixed_point_number_tests.cpp:992 | 0.1 * -1 = -0.1 in every width. |
| TestScenarios.MultiplyNarrow | tests/fixed_point_number_tests.cpp:988-1011 | Products of 8-bit-sized raw values at two digits are their rounded quotient in every width. |
| TestScenarios.DivideExample | tests/fixed_point_number_tests.cpp:1018 | 0.1 / 0.2 = 0.5 in every width. |
| TestScenarios.DivideByMinusOneExample | tests/fixed_point_number_tests.cpp:996 | 0.2 / -1 = -0.2 in every width. |
| TestScenarios.DivideNegatedExample | tests/fixed_point_number_tests.cpp:1014 | -0.2 / 0.2 = -1 in every width. |
| TestScenarios.DivideNarrow | tests/fixed_point_number_tests.cpp:995-1016 | Quotients of 8-bit-sized raw values at two digits are the rounded quotient in every width. |
| TestScenarios.ComparisonProductExample | tests/fixed_point_number_tests.cpp:1240-1242 | 0.57 * 1.11 = 0.63 in every width. |
| TestScenarios.ComparisonQuotientExample | tests/fixed_point_number_tests.cpp:1240-1243 | 0.57 / 1.11 = 0.51 in every width. |
| TestScenarios.ComparisonOrderExample | tests/fixed_point_number_tests.cpp:1245-1295 | 0.51 < 0.57 < 0.63 with all derived relations. |
| TestScenarios.IncrementDecrementExamples | tests/fixed_point_number_tests.cpp:1057-1090 | From 0.1: `++` gives 1.1, `--` gives -0.9, and the postfix forms return 0.1. |
| TestScenarios.UnaryMinusOverflowExamples | tests/fixed_point_number_tests.cpp:1092-1099 | With no fraction digits, -(MIN + 1) succeeds and -MIN fails with OutOfRange. |
| TestScenarios.CastToIntegerExamples | tests/fixed_point_number_tests.cpp:1101-1112 | At one digit, 1 converts to raw 10, and raw 10 and raw 11 both cast to 1. |
| TestScenarios.LargestScaledInteger | tests/fixed_point_number_tests.cpp:945-947 | m = MAX / scale is at least 1, m*scale fits, and 2*m*scale exceeds MAX + 1. |
| TestScenarios.OutOfRangeAdditive | tests/fixed_point_number_tests.cpp:945-955 | a = m*scale converts, and a + a and -a - a both fail with OutOfRange. |
| TestScenarios.OutOfRangeMultiply | tests/fixed_point_number_tests.cpp:957-960 | a * a is defined and fails whenever m != 1. |

## Left out

- The floating-point paths are not modelled: `default_round_policy::round`, the floating `convert_from_source` and `convert_to_destination`, the `fenv` overflow and underflow flags, and `long double`. They are float numerics and hardware flags. Tests that construct values from doubles are restated from the raw values the doubles round to (0.1 at two digits is raw 10, 1234.007 at four digits is raw 12340070).
- `to_wstring` is a wide-character copy of `to_string`, and `operator<<` is stream output; both are left out.
- Template machinery is not modelled. The precondition `Config.Valid` (10^n <= MAX) stands for the compile-time failure of `decimal_scale` when 10^n overflows the storage type in a constant expression; `static_assert(scale_value != 0)` follows from it. Type dispatch becomes the `Width` parameter. `next_storage_type` is `NextWidth`, with 64 bits as the terminal tier.
- Integral `convert_from_source` from an unsigned source type is left out; sources are the four signed widths.
- `long` is taken to be at least 32 bits. The model's `NextWidth(W16)` is W32, and a 64-bit `long` gives the same results because a 16-bit product always fits 32 bits.
- Signed overflow is undefined behaviour in C++, in whatever type the operation is evaluated in. The model treats it as two's-complement wrap-around in that type. At 32- and 64-bit storage this covers the sums in `+=`, `-=`, `++` and `--`, unary `-` of MIN, and the product in `mult_div` and in the 64-bit overflow handler. At every storage width it covers `src * scale_value` from a 32- or 64-bit source, for example `fixed_point_number<int8_t, 2>` from `int32_t{30000000}`, which computes 3·10^9 in `int`. The results are those of a compiler that wraps.
- The other undefined behaviour at 32 and 64 bits is excluded by preconditions, not emulated. This covers `std::abs(MIN)` in `round_div` and `mult_div`, doubling a remainder beyond MAX in `round_div`, and `-int_part` in `get_parts` for MIN with no fraction digits. `MultDivDefinedSmallDivisor`, `MultiplyDefined`, `ToIntegerDefined` and `ScaleHalfFits` show when these preconditions hold.
- FixedPoint.ToInteger: only the four signed destination types are modelled. For an unsigned destination, the comparison converts a negative rounded value to unsigned, so -1.0 becomes 4294967295 instead of raising the conversion error; that case is left out.
- FixedPoint.Divide: it is the corrected `/=`, on the corrected `mult_div`, and the rest of the model uses it. `DivideAsWritten` follows the code; the two differ only in the case of the first Findings row.
- `Render.ToString` is built on the exact parts (`GetParts`) rather than the as-written ones. `ToStringAsWritten` follows the code and agrees with it everywhere but the case in the second Findings row.
- FixedPoint.MultiplyCommutes: at 64 bits it only states that two successful results agree. The gcd reduction can take different paths for (x, y) and (y, x), and only one of the reduced products may overflow 64 bits.
- MultDiv.MultDivIsRoundedQuotient: at 64 bits the result is stated relative to `ReducedProduct`, the product after reduction, not relative to v1 * v2. This follows the code, which fails whenever the reduced product overflows 64 bits.
- The gcd reduction's `static_cast<T>` of the reduced operands is not modelled as a wrap. The reduced values are cofactors of in-range values, so they always fit (`CofactorInRange`).
- The constructors, copy assignment and `_value` storage are represented by the `Fixed` datatype and the constant `Zero`.

## Findings

| source | as written | input that shows it | evidently intended | confidence | as-written member | corrected member |
|---|---|---|---|---|---|---|
| include/fixed_point_number.hpp:157 | `round_div<T>` negates its quotient in `int` and casts back to T. At 8 and 16 bits a quotient of MAX + 1 wraps to MIN, and `range_checked_cast` then accepts it. | Every digit count at 8 and 16 bits is affected. With `fixed_point_number<int8_t, 1>`, -12.8 /= -1.0 is `mult_div(-128, 10, -10)` and stores -12.8. -6.4 /= -0.5, where neither operand is MIN, does the same. With no digits, `mult_div(-128, 1, -1)` yields -128 (`MultDiv.MinOverMinusOneWraps`). | The quotient 12.8 is out of range, so `/=` throws `fixed_point_out_of_range_error`. `MultDivIsRoundedQuotient` proves the corrected `mult_div` returns the rounded quotient exactly when it fits. `DivideAsWritten` shows the as-written `/=` differs only for a negative divisor whose quotient is MAX + 1, and `MultiplyIsAsWritten` shows `*=` is unaffected. | not executed | FixedPoint.DivideMinByMinusOneWraps | FixedPoint.Divide |
| include/fixed_point_number.hpp:210 | `get_parts` casts `-int_part` back to the storage type. For MIN with no fraction digits at 8 and 16 bits, the integer part MAX + 1 wraps to MIN. | `to_string` of `fixed_point_number<int8_t, 0>` holding -128 gives "--128.0". | "-128.0": the integer part is the exact magnitude 128, and `ToStringRoundTrip` proves every text reads back as its value. | not executed | Render.Int8MinText | Render.GetParts |
