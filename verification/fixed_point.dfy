/** `fixed_point_number<value_t, fraction_digits_num>`: a decimal number
    stored as a raw integer equal to the number times 10^digits. */
module FixedPoint {
  import opened Outcome
  import opened Storage
  import opened Scale
  import opened Details
  import opened RoundPolicy
  import opened MultDiv

  /** One instantiation of the template: the storage type and the number of
      fraction digits. */
  datatype Config = Config(width: Width, digits: nat) {

    /** The scale must be representable in the storage type; a larger digit
        count makes `decimal_scale` overflow in a constant expression. */
    predicate Valid() {
      DecimalScale(digits) <= Max(width)
    }

    /** `scale_value` */
    function Scale(): nat {
      DecimalScale(digits)
    }
  }

  /** A fixed-point value; `raw` is the `_value` member. */
  datatype Fixed = Fixed(raw: int)

  /** The raw value is representable in the configured storage type. */
  predicate Fits(c: Config, x: Fixed) {
    InRange(c.width, x.raw)
  }

  /** The default constructor. */
  const Zero: Fixed := Fixed(0)

  // -----------------------------------------------------------------------
  // Integer conversions

  /** The integral `convert_from_source`: `src * scale_value`, evaluated in
      the common type of the source and storage types, read back by
      division to detect wrap-around and range-checked against the storage
      type. */
  function FromInteger(c: Config, source: Width, s: int): (r: Result<Fixed>)
    requires c.Valid() && InRange(source, s)
    ensures r.Ok? <==> InRange(c.width, s * c.Scale())
    ensures r.Ok? ==> r.value.raw == s * c.Scale()
    ensures r.Err? ==> r.error == ConversionError
  {
    var common := CommonWidth(source, c.width);
    var value := Wrap(common, s * c.Scale());
    QuotientCheckExact(common, c.Scale(), s);
    if TruncDiv(value, c.Scale()) != s || value < Min(c.width) || value > Max(c.width) then
      Err(ConversionError)
    else
      Ok(Fixed(value))
  }

  /** The integral `convert_to_destination`: `round_div(_value, scale_value)`
      range-checked against the destination type. The result is the raw
      value divided by the scale, rounded half away from zero. */
  function ToInteger(c: Config, x: Fixed, dest: Width): (r: Result<int>)
    requires c.Valid() && Fits(c, x) && AbsDefined(c.width, x.raw)
    ensures r.Ok? ==> InRange(dest, r.value) && NearestAwayFromZero(x.raw, c.Scale(), r.value)
    ensures r.Err? ==> r.error == ConversionError
    ensures r.Err? ==> forall q :: NearestAwayFromZero(x.raw, c.Scale(), q) ==> !InRange(dest, q)
  {
    var scaled := RoundDiv(x.raw, c.Scale()).value;
    if scaled < Min(dest) || scaled > Max(dest) then
      assert forall q :: NearestAwayFromZero(x.raw, c.Scale(), q) ==> q == scaled by {
        forall q | NearestAwayFromZero(x.raw, c.Scale(), q) {
          NearestUnique(x.raw, c.Scale(), q, scaled);
        }
      }
      Err(ConversionError)
    else
      Ok(scaled)
  }

  /** An integer converted in and back out is unchanged. */
  lemma IntegerRoundTrip(c: Config, source: Width, s: int)
    requires c.Valid() && InRange(source, s)
    requires FromInteger(c, source, s).Ok?
    requires AbsDefined(c.width, s * c.Scale())
    ensures ToInteger(c, FromInteger(c, source, s).value, source) == Ok(s)
  {
    var x := FromInteger(c, source, s).value;
    assert NearestAwayFromZero(x.raw, c.Scale(), s);
    NearestUnique(x.raw, c.Scale(), s, RoundDiv(x.raw, c.Scale()).value);
  }

  // -----------------------------------------------------------------------
  // Unary operators

  /** Unary `+` returns the value itself. */
  function Plus(x: Fixed): (r: Fixed)
    ensures r == x
  {
    x
  }

  /** Unary `-`: the raw value negated in the storage type; the result is
      rejected when it has the sign of the operand, which happens exactly
      for MIN, whose negation wraps to itself. */
  function Negate(c: Config, x: Fixed): (r: Result<Fixed>)
    requires Fits(c, x)
    ensures r.Err? <==> x.raw == Min(c.width)
    ensures r.Err? ==> r.error == OutOfRange
    ensures r.Ok? ==> r.value.raw == -x.raw && Fits(c, r.value)
  {
    var result := Wrap(c.width, -x.raw);
    NegationWraps(c.width, x.raw);
    if (result > 0 && x.raw > 0) || (result < 0 && x.raw < 0) then
      Err(OutOfRange)
    else
      Ok(Fixed(result))
  }

  /** Negation in the storage type is exact except at MIN, which wraps to
      itself. */
  lemma NegationWraps(w: Width, v: int)
    requires InRange(w, v)
    ensures Wrap(w, -v) == if v == Min(w) then v else -v
  {
    if v == Min(w) {
      WrapWindow(w, -v, -1);
    }
  }

  // -----------------------------------------------------------------------
  // Additive operators (`+=`, `-=` and the binary `+`, `-` built on them)

  /** `+=`: the sum is computed into a temporary in the storage type and
      committed only if `is_add_overflow` does not flag it. The flag misses
      MIN + MIN (see `AddMissesMinPlusMin`). */
  function Add(c: Config, x: Fixed, y: Fixed): (r: Result<Fixed>)
    requires Fits(c, x) && Fits(c, y)
    ensures r.Ok? ==> Fits(c, r.value)
    ensures r.Err? ==> r.error == OutOfRange
    ensures !(x.raw == Min(c.width) && y.raw == Min(c.width)) ==>
              && (r.Ok? <==> InRange(c.width, x.raw + y.raw))
              && (r.Ok? ==> r.value.raw == x.raw + y.raw)
  {
    var tmp := Wrap(c.width, x.raw + y.raw);
    AddOverflowDetection(c.width, x.raw, y.raw);
    if IsAddOverflow(x.raw, y.raw, tmp) then Err(OutOfRange) else Ok(Fixed(tmp))
  }

  /** `-=`: the difference is computed into a temporary and committed only
      if `is_subtract_overflow` does not flag it. The flag misses 0 - MIN
      (see `SubtractMissesZeroMinusMin`). */
  function Subtract(c: Config, x: Fixed, y: Fixed): (r: Result<Fixed>)
    requires Fits(c, x) && Fits(c, y)
    ensures r.Ok? ==> Fits(c, r.value)
    ensures r.Err? ==> r.error == OutOfRange
    ensures !(x.raw == 0 && y.raw == Min(c.width)) ==>
              && (r.Ok? <==> InRange(c.width, x.raw - y.raw))
              && (r.Ok? ==> r.value.raw == x.raw - y.raw)
  {
    var tmp := Wrap(c.width, x.raw - y.raw);
    SubtractOverflowDetection(c.width, x.raw, y.raw);
    if IsSubtractOverflow(x.raw, y.raw, tmp) then Err(OutOfRange) else Ok(Fixed(tmp))
  }

  /** MIN + MIN is out of range, yet `+=` accepts it and yields 0. */
  lemma AddMissesMinPlusMin(c: Config)
    ensures !InRange(c.width, Min(c.width) + Min(c.width))
    ensures Add(c, Fixed(Min(c.width)), Fixed(Min(c.width))) == Ok(Zero)
  {
    AddOverflowMissesMinPlusMin(c.width);
  }

  /** 0 - MIN is out of range, yet `-=` accepts it and yields MIN. */
  lemma SubtractMissesZeroMinusMin(c: Config)
    ensures !InRange(c.width, 0 - Min(c.width))
    ensures Subtract(c, Zero, Fixed(Min(c.width))) == Ok(Fixed(Min(c.width)))
  {
    SubtractOverflowMissesZeroMinusMin(c.width);
  }

  // -----------------------------------------------------------------------
  // Increment and decrement: one unit of scale

  /** Prefix `++`: adds `scale_value` with the add-overflow check. */
  function Increment(c: Config, x: Fixed): (r: Result<Fixed>)
    requires c.Valid() && Fits(c, x)
    ensures r.Ok? <==> x.raw + c.Scale() <= Max(c.width)
    ensures r.Ok? ==> r.value.raw == x.raw + c.Scale()
    ensures r.Err? ==> r.error == OutOfRange
  {
    var tmp := Wrap(c.width, x.raw + c.Scale());
    AddOverflowDetection(c.width, x.raw, c.Scale());
    if IsAddOverflow(x.raw, c.Scale(), tmp) then Err(OutOfRange) else Ok(Fixed(tmp))
  }

  /** Prefix `--`: subtracts `scale_value` with the subtract-overflow check. */
  function Decrement(c: Config, x: Fixed): (r: Result<Fixed>)
    requires c.Valid() && Fits(c, x)
    ensures r.Ok? <==> x.raw - c.Scale() >= Min(c.width)
    ensures r.Ok? ==> r.value.raw == x.raw - c.Scale()
    ensures r.Err? ==> r.error == OutOfRange
  {
    var tmp := Wrap(c.width, x.raw - c.Scale());
    SubtractOverflowDetection(c.width, x.raw, c.Scale());
    if IsSubtractOverflow(x.raw, c.Scale(), tmp) then Err(OutOfRange) else Ok(Fixed(tmp))
  }

  /** Postfix `++`: the pair (value returned, operand afterwards); the value
      returned is the operand before the increment. */
  function PostIncrement(c: Config, x: Fixed): (r: Result<(Fixed, Fixed)>)
    requires c.Valid() && Fits(c, x)
    ensures r.Ok? <==> x.raw + c.Scale() <= Max(c.width)
    ensures r.Ok? ==> r.value.0 == x && r.value.1.raw == x.raw + c.Scale()
    ensures r.Err? ==> r.error == OutOfRange
  {
    match Increment(c, x)
    case Ok(next) => Ok((x, next))
    case Err(e) => Err(e)
  }

  /** Postfix `--`: the pair (value returned, operand afterwards). */
  function PostDecrement(c: Config, x: Fixed): (r: Result<(Fixed, Fixed)>)
    requires c.Valid() && Fits(c, x)
    ensures r.Ok? <==> x.raw - c.Scale() >= Min(c.width)
    ensures r.Ok? ==> r.value.0 == x && r.value.1.raw == x.raw - c.Scale()
    ensures r.Err? ==> r.error == OutOfRange
  {
    match Decrement(c, x)
    case Ok(next) => Ok((x, next))
    case Err(e) => Err(e)
  }

  // -----------------------------------------------------------------------
  // Multiplicative operators

  /** `*=` is `mult_div(_value, x._value, scale_value)`: the raw product
      divided by the scale, rounded half away from zero. */
  function Multiply(c: Config, x: Fixed, y: Fixed): (r: Result<Fixed>)
    requires c.Valid() && Fits(c, x) && Fits(c, y)
    requires MultDivDefined(c.width, x.raw, y.raw, c.Scale())
    ensures r.Ok? ==> Fits(c, r.value) && NearestAwayFromZero(x.raw * y.raw, c.Scale(), r.value.raw)
    ensures r.Err? ==> r.error == OutOfRange
    ensures x.raw == 0 || y.raw == 0 ==> r == Ok(Zero)
    ensures c.width != W64 ==>
              (r.Ok? <==> InRange(c.width, RoundDiv(x.raw * y.raw, c.Scale()).value))
  {
    MultDivIsRoundedQuotient(c.width, x.raw, y.raw, c.Scale());
    match MultDiv.MultDiv(c.width, x.raw, y.raw, c.Scale())
    case Ok(v) => Ok(Fixed(v))
    case Err(e) => Err(e)
  }

  /** `/=` is `mult_div(_value, scale_value, x._value)`: the raw value times
      the scale divided by the other raw value, rounded half away from
      zero; a zero divisor is an invalid argument. */
  function Divide(c: Config, x: Fixed, y: Fixed): (r: Result<Fixed>)
    requires c.Valid() && Fits(c, x) && Fits(c, y)
    requires MultDivDefined(c.width, x.raw, c.Scale(), y.raw)
    ensures y.raw == 0 ==> r == Err(InvalidArgument)
    ensures y.raw != 0 && r.Err? ==> r.error == OutOfRange
    ensures r.Ok? ==> Fits(c, r.value) && NearestAwayFromZero(x.raw * c.Scale(), y.raw, r.value.raw)
    ensures y.raw != 0 && x.raw == 0 ==> r == Ok(Zero)
    ensures c.width != W64 && y.raw != 0 ==>
              (r.Ok? <==> InRange(c.width, RoundDiv(x.raw * c.Scale(), y.raw).value))
  {
    MultDivIsRoundedQuotient(c.width, x.raw, c.Scale(), y.raw);
    match MultDiv.MultDiv(c.width, x.raw, c.Scale(), y.raw)
    case Ok(v) => Ok(Fixed(v))
    case Err(e) => Err(e)
  }

  /** `/=` as the source writes it, on the as-written `mult_div`. It parts
      from `Divide` only at 8 and 16 bits, for a negative divisor whose
      rounded quotient is MAX + 1: there it stores MIN instead of failing. */
  function DivideAsWritten(c: Config, x: Fixed, y: Fixed): (r: Result<Fixed>)
    requires c.Valid() && Fits(c, x) && Fits(c, y)
    requires MultDivDefined(c.width, x.raw, c.Scale(), y.raw)
    ensures r.Ok? ==> Fits(c, r.value)
    ensures r != Divide(c, x, y) ==>
              && Promoted(c.width) && y.raw < 0
              && RoundDiv(x.raw * c.Scale(), y.raw).value == Max(c.width) + 1
              && Divide(c, x, y) == Err(OutOfRange)
              && r == Ok(Fixed(Min(c.width)))
  {
    AsWrittenDiffersOnlyByWrap(c.width, x.raw, c.Scale(), y.raw);
    DifferenceIsWrappedQuotient(c.width, x.raw, c.Scale(), y.raw);
    match MultDivAsWritten(c.width, x.raw, c.Scale(), y.raw)
    case Ok(v) => Ok(Fixed(v))
    case Err(e) => Err(e)
  }

  /** `*=` divides by the positive scale, where the as-written `mult_div`
      and the corrected one agree: `Multiply` is the source's `*=`. */
  lemma MultiplyIsAsWritten(c: Config, x: Fixed, y: Fixed)
    requires c.Valid() && Fits(c, x) && Fits(c, y)
    requires MultDivDefined(c.width, x.raw, y.raw, c.Scale())
    ensures var s := MultDivAsWritten(c.width, x.raw, y.raw, c.Scale());
            && (Multiply(c, x, y).Ok? <==> s.Ok?)
            && (s.Ok? ==> Multiply(c, x, y).value.raw == s.value)
            && (s.Err? ==> Multiply(c, x, y).error == s.error)
  {
    PositiveDivisorAgrees(c.width, x.raw, y.raw, c.Scale());
  }

  /** -12.8 / -1.0 with 8-bit storage and one fraction digit: `/=` as
      written stores -12.8, where the quotient 12.8 is out of range. */
  lemma DivideMinByMinusOneWraps(c: Config, x: Fixed, y: Fixed)
    requires c == Config(W8, 1) && x.raw == -128 && y.raw == -10
    ensures c.Valid() && Fits(c, x) && Fits(c, y)
    ensures DivideAsWritten(c, x, y) == Ok(x)
    ensures Divide(c, x, y) == Err(OutOfRange)
  {
    assert c.Scale() == 10;
    assert Gcd(128, 10) == 2 by {
      assert Gcd(128, 10) == Gcd(10, 128) == Gcd(8, 10) == Gcd(2, 8) == Gcd(0, 2);
    }
    TruncDivExact(-64, 2);
    TruncDivExact(-5, 2);
    assert Divides(5, 10);
    GcdOfDivisor(10, 5);
    TruncDivExact(2, 5);
    TruncDivExact(-1, 5);
    WrapsAfterReduction(W8, -128, 10, -10, -64, 2, -1);
    RoundDivExact(128, -10);
  }

  /** -6.4 / -0.5 at the same configuration: neither operand is MIN, yet the
      reductions leave the same -64 * 2 over -1, and `/=` as written stores
      -12.8 where the quotient 12.8 is out of range. */
  lemma DivideWrapsWithoutMinOperand(c: Config, x: Fixed, y: Fixed)
    requires c == Config(W8, 1) && x.raw == -64 && y.raw == -5
    ensures c.Valid() && Fits(c, x) && Fits(c, y)
    ensures DivideAsWritten(c, x, y) == Ok(Fixed(Min(c.width)))
    ensures Divide(c, x, y) == Err(OutOfRange)
  {
    assert c.Scale() == 10;
    assert Gcd(64, 5) == 1 by {
      assert Gcd(64, 5) == Gcd(5, 64) == Gcd(4, 5) == Gcd(1, 4) == Gcd(0, 1);
    }
    assert Divides(5, 10);
    GcdOfDivisor(10, 5);
    TruncDivExact(2, 5);
    TruncDivExact(-1, 5);
    WrapsAfterReduction(W8, -64, 10, -5, -64, 2, -1);
    RoundDivExact(128, -5);
  }

  // -----------------------------------------------------------------------
  // Comparisons and swap: directly on the raw values

  predicate Eq(x: Fixed, y: Fixed) { x.raw == y.raw }
  predicate Ne(x: Fixed, y: Fixed) { x.raw != y.raw }
  predicate Lt(x: Fixed, y: Fixed) { x.raw < y.raw }
  predicate Gt(x: Fixed, y: Fixed) { x.raw > y.raw }
  predicate Le(x: Fixed, y: Fixed) { x.raw <= y.raw }
  predicate Ge(x: Fixed, y: Fixed) { x.raw >= y.raw }

  /** `swap` exchanges the raw values. */
  function Swap(x: Fixed, y: Fixed): (r: (Fixed, Fixed))
    ensures r.0 == y && r.1 == x
  {
    (y, x)
  }

  // -----------------------------------------------------------------------
  // Properties

  /** With 32- or 64-bit storage a valid scale is at most 10^9 or 10^18, so
      twice the scale still fits: `round_div` by the scale cannot overflow
      when doubling its remainder. */
  lemma ScaleHalfFits(c: Config)
    requires c.Valid() && !Promoted(c.width)
    ensures 2 * c.Scale() <= Max(c.width)
  {
    var top := DigitsBound(c);
    DecimalScaleMonotone(c.digits, top);
    LargeScales();
  }

  /** The largest digit count a valid 32- or 64-bit configuration admits. */
  lemma DigitsBound(c: Config) returns (top: nat)
    requires c.Valid() && !Promoted(c.width)
    ensures top == (if c.width == W32 then 9 else 18)
    ensures c.digits <= top
  {
    ScaleFitsIff(c.width, c.digits);
    MaxDecimalDigitsExamples(c.width);
    top := if c.width == W32 then 9 else 18;
  }

  /** The only undefined behaviour left in the integral cast is `std::abs`
      of MIN: the rest of `round_div` by the scale is always defined. */
  lemma ToIntegerDefined(c: Config, x: Fixed)
    requires c.Valid() && Fits(c, x) && AbsDefined(c.width, x.raw)
    ensures RoundDivDefined(c.width, x.raw, c.Scale())
  {
    if !Promoted(c.width) {
      ScaleHalfFits(c);
    }
  }

  /** Negating twice gives the value back, for every value but MIN. */
  lemma NegateTwice(c: Config, x: Fixed)
    requires Fits(c, x) && x.raw != Min(c.width)
    ensures Negate(c, x).Ok?
    ensures Negate(c, Negate(c, x).value) == Ok(x)
  {
  }

  /** 0 - x is -x, except at MIN, where unary minus fails but the
      subtraction passes the overflow check and yields MIN. */
  lemma SubtractFromZero(c: Config, x: Fixed)
    requires Fits(c, x)
    ensures x.raw != Min(c.width) ==> Subtract(c, Zero, x) == Negate(c, x)
    ensures x.raw == Min(c.width) ==> Negate(c, x).Err? && Subtract(c, Zero, x) == Ok(x)
  {
    if x.raw == Min(c.width) {
      SubtractMissesZeroMinusMin(c);
    }
  }

  /** Zero is the identity of `+` and `-`. */
  lemma AddSubtractZero(c: Config, x: Fixed)
    requires Fits(c, x)
    ensures Add(c, x, Zero) == Ok(x) && Add(c, Zero, x) == Ok(x)
    ensures Subtract(c, x, Zero) == Ok(x)
  {
  }

  /** `+` is commutative, including which operands fail. */
  lemma AddCommutes(c: Config, x: Fixed, y: Fixed)
    requires Fits(c, x) && Fits(c, y)
    ensures Add(c, x, y) == Add(c, y, x)
  {
    assert x.raw + y.raw == y.raw + x.raw;
  }

  /** Subtracting what was added gives the value back. */
  lemma AddThenSubtract(c: Config, x: Fixed, y: Fixed)
    requires Fits(c, x) && Fits(c, y)
    requires Add(c, x, y).Ok?
    ensures Subtract(c, Add(c, x, y).value, y) == Ok(x)
  {
    if x.raw == Min(c.width) && y.raw == Min(c.width) {
      AddMissesMinPlusMin(c);
    }
  }

  /** The integer 1 converts to one unit of scale. */
  lemma OneIsScale(c: Config)
    requires c.Valid()
    ensures FromInteger(c, c.width, 1) == Ok(Fixed(c.Scale()))
  {
  }

  /** Prefix `++` is `+` of the integer 1. */
  lemma IncrementIsAddOne(c: Config, x: Fixed)
    requires c.Valid() && Fits(c, x)
    ensures Increment(c, x) == Add(c, x, Fixed(c.Scale()))
  {
    var expected := if x.raw + c.Scale() <= Max(c.width) then Ok(Fixed(x.raw + c.Scale())) else Err(OutOfRange);
    assert Increment(c, x) == expected;
    assert Add(c, x, Fixed(c.Scale())) == expected;
  }

  /** Prefix `--` is `-` of the integer 1. */
  lemma DecrementIsSubtractOne(c: Config, x: Fixed)
    requires c.Valid() && Fits(c, x)
    ensures Decrement(c, x) == Subtract(c, x, Fixed(c.Scale()))
  {
    var expected := if x.raw - c.Scale() >= Min(c.width) then Ok(Fixed(x.raw - c.Scale())) else Err(OutOfRange);
    assert Decrement(c, x) == expected;
    assert Subtract(c, x, Fixed(c.Scale())) == expected;
  }

  /** `--` undoes `++`. */
  lemma IncrementThenDecrement(c: Config, x: Fixed)
    requires c.Valid() && Fits(c, x)
    requires Increment(c, x).Ok?
    ensures Decrement(c, Increment(c, x).value) == Ok(x)
  {
  }

  /** Multiplying or dividing by the integer 1 gives the value back. */
  lemma MultiplyByOne(c: Config, x: Fixed)
    requires c.Valid() && Fits(c, x) && AbsDefined(c.width, x.raw)
    ensures MultDivDefined(c.width, x.raw, c.Scale(), c.Scale())
    ensures Multiply(c, x, Fixed(c.Scale())) == Ok(x)
    ensures Divide(c, x, Fixed(c.Scale())) == Ok(x)
  {
    MultDivByDivisor(c.width, x.raw, c.Scale());
  }

  /** A non-zero value divided by itself is exactly 1. */
  lemma DivideBySelf(c: Config, x: Fixed)
    requires c.Valid() && Fits(c, x) && AbsDefined(c.width, x.raw) && x.raw != 0
    ensures MultDivDefined(c.width, x.raw, c.Scale(), x.raw)
    ensures Divide(c, x, x) == Ok(Fixed(c.Scale()))
  {
    MultDivOfSelf(c.width, x.raw, c.Scale());
  }

  /** `*` is commutative below 64 bits; at 64 bits the gcd reduction may
      take a different path, but two results that both succeed agree. */
  lemma MultiplyCommutes(c: Config, x: Fixed, y: Fixed)
    requires c.Valid() && Fits(c, x) && Fits(c, y)
    requires MultDivDefined(c.width, x.raw, y.raw, c.Scale())
    requires MultDivDefined(c.width, y.raw, x.raw, c.Scale())
    ensures c.width != W64 || (Multiply(c, x, y).Ok? && Multiply(c, y, x).Ok?) ==>
              Multiply(c, x, y) == Multiply(c, y, x)
  {
    assert x.raw * y.raw == y.raw * x.raw;
    var r1 := Multiply(c, x, y);
    var r2 := Multiply(c, y, x);
    if r1.Ok? && r2.Ok? {
      NearestUnique(x.raw * y.raw, c.Scale(), r1.value.raw, r2.value.raw);
    }
  }

  /** `*` is well defined for operands other than MIN whose product is not
      negative or fits the storage type. */
  lemma MultiplyDefined(c: Config, x: Fixed, y: Fixed)
    requires c.Valid() && Fits(c, x) && Fits(c, y)
    requires AbsDefined(c.width, x.raw) && AbsDefined(c.width, y.raw)
    requires x.raw * y.raw >= 0 || Abs(x.raw * y.raw) <= Max(c.width)
    ensures MultDivDefined(c.width, x.raw, y.raw, c.Scale())
  {
    if !Promoted(c.width) {
      ScaleHalfFits(c);
      MultDivDefinedSmallDivisor(c.width, x.raw, y.raw, c.Scale());
    }
  }

  /** The comparison operators are the integer order on raw values: exactly
      one of <, == and > holds, and the others are derived from them. */
  lemma ComparisonsTotalOrder(x: Fixed, y: Fixed)
    ensures (Lt(x, y) && !Eq(x, y) && !Gt(x, y))
         || (!Lt(x, y) && Eq(x, y) && !Gt(x, y))
         || (!Lt(x, y) && !Eq(x, y) && Gt(x, y))
    ensures Ne(x, y) <==> !Eq(x, y)
    ensures Le(x, y) <==> Lt(x, y) || Eq(x, y)
    ensures Ge(x, y) <==> Le(y, x)
    ensures Gt(x, y) <==> Lt(y, x)
    ensures Eq(x, y) <==> x == y
  {
  }

  /** The comparisons order converted integers as the integers themselves
      are ordered: conversion by a positive scale preserves the order. */
  lemma ComparisonMatchesIntegers(c: Config, source: Width, s: int, t: int)
    requires c.Valid() && InRange(source, s) && InRange(source, t)
    requires FromInteger(c, source, s).Ok? && FromInteger(c, source, t).Ok?
    ensures var x, y := FromInteger(c, source, s).value, FromInteger(c, source, t).value;
            && (Lt(x, y) <==> s < t)
            && (Eq(x, y) <==> s == t)
            && (Le(x, y) <==> s <= t)
  {
    MulMonotoneIff(s, t, c.Scale());
    MulMonotoneIff(t, s, c.Scale());
  }

  /** `swap` twice is the identity. */
  lemma SwapTwice(x: Fixed, y: Fixed)
    ensures Swap(Swap(x, y).0, Swap(x, y).1) == (x, y)
  {
  }
}
