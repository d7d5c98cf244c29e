/** `fixed_point_number::mult_div`: round(value1 * value2 / divisor) with
    gcd pre-reduction and a widening fallback when the product overflows. */
module MultDiv {
  import opened Outcome
  import opened Storage
  import opened Details
  import opened RoundPolicy

  /** `range_checked_cast<T>`: fails unless the value is representable in T. */
  function RangeCheckedCast(w: Width, x: int): (r: Result<int>)
    ensures r.Ok? <==> InRange(w, x)
    ensures r.Ok? ==> r.value == x
    ensures r.Err? ==> r.error == OutOfRange
  {
    if x < Min(w) || x > Max(w) then Err(OutOfRange) else Ok(x)
  }

  /** Exact division by a divisor of |v| (C++ `/` then has nothing to
      truncate). */
  lemma ExactTruncDiv(v: int, g: nat)
    requires g > 0 && Divides(g, Abs(v))
    ensures TruncDiv(v, g) * g == v
  {
    var t := Abs(v) / g;
    assert Abs(v) == t * g;
    if v >= 0 {
      TruncDivExact(t, g);
    } else {
      assert v == -t * g;
      TruncDivExact(-t, g);
    }
  }

  /** One reduction step of `mult_div`: `v` and `d` are divided by
      gcd(|v|, |d|) unless that gcd is 1. Both are divided exactly, by the
      same positive factor. */
  function ReduceBy(v: int, d: int): (r: (int, int))
    requires v != 0 && d != 0
    ensures Gcd(Abs(v), Abs(d)) >= 1
    ensures r.0 * Gcd(Abs(v), Abs(d)) == v
    ensures r.1 * Gcd(Abs(v), Abs(d)) == d
  {
    var g := Gcd(Abs(v), Abs(d));
    if g != 1 then
      ExactTruncDiv(v, g);
      ExactTruncDiv(d, g);
      (TruncDiv(v, g), TruncDiv(d, g))
    else
      (v, d)
  }

  /** A cofactor of an in-range value is in range and no larger. */
  lemma CofactorInRange(w: Width, v: int, k: int, g: int)
    requires InRange(w, v) && g >= 1 && k * g == v
    ensures InRange(w, k) && Abs(k) <= Abs(v)
  {
    AbsMul(k, g);
    if k != 0 {
      MulAtLeast(g, Abs(k));
      assert g * Abs(k) == Abs(k) * g;
    }
    if k > 0 {
      assert v > 0 by {
        MulAtLeast(g, k);
        assert g * k == k * g;
      }
    } else if k < 0 {
      assert v < 0 by {
        MulAtLeast(g, -k);
        assert g * -k == -(k * g);
      }
    }
  }

  /** The first half of `mult_div`: the zero-divisor error, the early zero
      results, and the two gcd reductions, leaving factors `a`, `b` and
      divisor `e` with a * b / e equal to value1 * value2 / divisor. */
  datatype Prepared = Done(result: Result<int>) | Reduced(a: int, b: int, e: int)

  function Prepare(w: Width, v1: int, v2: int, d: int): (p: Prepared)
    requires InRange(w, v1) && InRange(w, v2) && InRange(w, d)
    ensures d == 0 ==> p == Done(Err(InvalidArgument))
    ensures d != 0 && (v1 == 0 || v2 == 0) ==> p == Done(Ok(0))
    ensures d != 0 && v1 != 0 && v2 != 0 ==> p.Reduced?
    ensures p.Reduced? ==>
              && p.a != 0 && p.b != 0 && p.e != 0
              && InRange(w, p.a) && InRange(w, p.b)
              && Abs(p.a) <= Abs(v1) && Abs(p.b) <= Abs(v2)
              && exists k: int :: k >= 1 && v1 * v2 == (p.a * p.b) * k && d == p.e * k
  {
    if d == 0 then
      Done(Err(InvalidArgument))
    else if v1 == 0 then
      Done(Ok(0))
    else
      var (a, d1) := ReduceBy(v1, d);
      if v2 == 0 then
        Done(Ok(0))
      else
        var (b, e) := ReduceBy(v2, d1);
        ReductionFacts(w, v1, v2, d);
        Reduced(a, b, e)
  }

  /** The common factor `Prepare` divided out of product and divisor. */
  lemma PrepareFactor(w: Width, v1: int, v2: int, d: int) returns (k: int)
    requires InRange(w, v1) && InRange(w, v2) && InRange(w, d)
    requires d != 0 && v1 != 0 && v2 != 0
    ensures var p := Prepare(w, v1, v2, d);
            k >= 1 && v1 * v2 == (p.a * p.b) * k && d == p.e * k
  {
    var p := Prepare(w, v1, v2, d);
    k :| k >= 1 && v1 * v2 == (p.a * p.b) * k && d == p.e * k;
  }

  /** What the two reductions preserve: each factor is an exact cofactor,
      and the product and divisor shrink by the same factor g1 * g2. */
  lemma ReductionFacts(w: Width, v1: int, v2: int, d: int)
    requires InRange(w, v1) && InRange(w, v2) && InRange(w, d)
    requires d != 0 && v1 != 0 && v2 != 0
    ensures var (a, d1) := ReduceBy(v1, d);
            var (b, e) := ReduceBy(v2, d1);
            && a != 0 && b != 0 && e != 0
            && InRange(w, a) && InRange(w, b)
            && Abs(a) <= Abs(v1) && Abs(b) <= Abs(v2)
            && exists k: int :: k >= 1 && v1 * v2 == (a * b) * k && d == e * k
  {
    var (a, d1) := ReduceBy(v1, d);
    var (b, e) := ReduceBy(v2, d1);
    var g1 := Gcd(Abs(v1), Abs(d));
    var g2 := Gcd(Abs(v2), Abs(d1));
    ReducedFactors(w, v1, v2, d, a, d1, b, e, g1, g2);
    var k := g1 * g2;
    assert k >= 1 && v1 * v2 == (a * b) * k && d == e * k;
  }

  /** The facts of `ReductionFacts`, over the cofactors and the two gcds. */
  lemma ReducedFactors(w: Width, v1: int, v2: int, d: int, a: int, d1: int, b: int, e: int, g1: int, g2: int)
    requires InRange(w, v1) && InRange(w, v2) && d != 0 && v1 != 0 && v2 != 0
    requires g1 >= 1 && g2 >= 1
    requires a * g1 == v1 && d1 * g1 == d && b * g2 == v2 && e * g2 == d1
    ensures a != 0 && b != 0 && e != 0
    ensures InRange(w, a) && InRange(w, b) && Abs(a) <= Abs(v1) && Abs(b) <= Abs(v2)
    ensures g1 * g2 >= 1 && v1 * v2 == (a * b) * (g1 * g2) && d == e * (g1 * g2)
  {
    CofactorInRange(w, v1, a, g1);
    CofactorInRange(w, v2, b, g2);
    Regroup(v1, v2, d, a, d1, b, e, g1, g2);
  }

  lemma Regroup(v1: int, v2: int, d: int, a: int, d1: int, b: int, e: int, g1: int, g2: int)
    requires g1 >= 1 && g2 >= 1
    requires a * g1 == v1 && d1 * g1 == d && b * g2 == v2 && e * g2 == d1
    ensures g1 * g2 >= 1 && v1 * v2 == (a * b) * (g1 * g2) && d == e * (g1 * g2)
  {
    FactorsRegroup(a, b, g1, g2);
    assert d == (e * g2) * g1;
    MulAtLeast(g1, g2);
  }

  lemma FactorsRegroup(a: int, b: int, g1: int, g2: int)
    ensures (a * g1) * (b * g2) == (a * b) * (g1 * g2)
  {
  }

  /** The product of the reduced factors as reduced by `Prepare`; the
      quantity that must fit 64 bits at the widest storage. */
  function ReducedProduct(w: Width, v1: int, v2: int, d: int): int
    requires InRange(w, v1) && InRange(w, v2) && InRange(w, d)
    requires d != 0 && v1 != 0 && v2 != 0
  {
    var p := Prepare(w, v1, v2, d);
    p.a * p.b
  }

  /** `mult_overflow_handler<T, next_storage_type<T>>::handle`: recompute
      the product in the next wider type, failing if it overflows there too.
      At 64 bits the handler only runs for a product that already overflowed
      64 bits, so it always fails: either the specialisation for a type that
      is its own next type throws, or (with `int64_t` as `long`) the
      `long long` product wraps and its read-back check throws. */
  function OverflowHandler(w: Width, a: int, b: int): (r: Result<int>)
    requires a != 0 && InRange(w, a) && InRange(w, b)
    ensures w != W64 ==> r == Ok(a * b)
    ensures w == W64 ==> r == Err(OutOfRange)
  {
    var next := NextWidth(w);
    if next == w then
      Err(OutOfRange)
    else
      var p := Wrap(next, a * b);
      ProductFitsNextWidth(w, a, b);
      QuotientCheckExact(next, a, b);
      if TruncDiv(p, a) != b then Err(OutOfRange) else Ok(p)
  }

  /** The product of two values of a width below 64 bits always fits the
      next wider width. */
  lemma ProductFitsNextWidth(w: Width, a: int, b: int)
    requires w != W64 && InRange(w, a) && InRange(w, b)
    ensures InRange(NextWidth(w), a * b)
  {
    var m := -Min(w);
    AbsMul(a, b);
    MulLe(Abs(a), m, Abs(b), m);
  }

  lemma MulLe(x: nat, x': nat, y: nat, y': nat)
    requires x <= x' && y <= y'
    ensures x * y <= x' * y'
  {
    MulMonotoneIff(x, x', y + 1);
    assert x * (y + 1) == x * y + x;
    assert x' * (y + 1) == x' * y + x';
    if y' > y {
      assert x' * y' == x' * y + x' * (y' - y);
    }
  }

  /** The product step of `mult_div`: computed in T and read back with
      `product / a == b`; when that shows wrap-around it is recomputed by
      `OverflowHandler`. The result carries the width of the type holding
      the product. */
  function Product(w: Width, a: int, b: int): (r: Result<(int, Width)>)
    requires a != 0 && InRange(w, a) && InRange(w, b)
    ensures r.Ok? <==> w != W64 || InRange(W64, a * b)
    ensures r.Ok? ==> r.value.0 == a * b && InRange(r.value.1, a * b)
    ensures r.Ok? ==> r.value.1 == w || (r.value.1 == NextWidth(w) && w != W64)
    ensures r.Err? ==> r.error == OutOfRange
  {
    var p := Wrap(w, a * b);
    QuotientCheckExact(w, a, b);
    if TruncDiv(p, a) != b then
      match OverflowHandler(w, a, b)
      case Err(err) => Err(err)
      case Ok(wide) =>
        ProductFitsNextWidth(w, a, b);
        Ok((wide, NextWidth(w)))
    else
      Ok((p, w))
  }

  /** The C++ operations in `mult_div` on 32- and 64-bit T that are
      undefined for some operands: `std::abs` of MIN (of value1, value2 and
      divisor) and `round_div` in T on the unwidened product (see
      `RoundDivDefined`). At 8 and 16 bits everything is promoted to `int`. */
  predicate MultDivDefined(w: Width, v1: int, v2: int, d: int)
    requires InRange(w, v1) && InRange(w, v2) && InRange(w, d)
  {
    || Promoted(w) || d == 0 || v1 == 0
    || (&& AbsDefined(w, v1) && AbsDefined(w, d)
        && (v2 == 0
            || (&& AbsDefined(w, v2)
                && var p := Prepare(w, v1, v2, d);
                   InRange(w, p.a * p.b) ==> RoundDivDefined(w, p.a * p.b, p.e))))
  }

  /** `mult_div` as written: `round_div` runs in the type holding the
      product and its final `static_cast` back to that type wraps. */
  function MultDivAsWritten(w: Width, v1: int, v2: int, d: int): (r: Result<int>)
    requires InRange(w, v1) && InRange(w, v2) && InRange(w, d)
    requires MultDivDefined(w, v1, v2, d)
    ensures r.Ok? ==> InRange(w, r.value)
  {
    match Prepare(w, v1, v2, d)
    case Done(r) => r
    case Reduced(a, b, e) =>
      match Product(w, a, b)
      case Err(err) => Err(err)
      case Ok((p, pw)) => RangeCheckedCast(w, Wrap(pw, RoundDiv(p, e).value))
  }

  /** `mult_div` with the rounded quotient range-checked exactly, as the
      design intends; the value type's `*=` and `/=` are modelled on this. */
  function MultDiv(w: Width, v1: int, v2: int, d: int): (r: Result<int>)
    requires InRange(w, v1) && InRange(w, v2) && InRange(w, d)
    requires MultDivDefined(w, v1, v2, d)
    ensures r.Ok? ==> InRange(w, r.value)
    ensures r.Err? ==> (r.error == InvalidArgument <==> d == 0)
    ensures r.Err? ==> r.error in {InvalidArgument, OutOfRange}
  {
    match Prepare(w, v1, v2, d)
    case Done(r) => r
    case Reduced(a, b, e) =>
      match Product(w, a, b)
      case Err(err) => Err(err)
      case Ok((p, _)) => RangeCheckedCast(w, RoundDiv(p, e).value)
  }

  /** The gcd reduction never changes the answer: `MultDiv` is the exact
      rounded quotient of value1 * value2 by divisor when that fits, and
      OutOfRange otherwise; the one exception is 64-bit storage, where a
      reduced product beyond 64 bits fails even if the quotient would fit. */
  lemma MultDivIsRoundedQuotient(w: Width, v1: int, v2: int, d: int)
    requires InRange(w, v1) && InRange(w, v2) && InRange(w, d)
    requires MultDivDefined(w, v1, v2, d)
    ensures d == 0 ==> MultDiv(w, v1, v2, d) == Err(InvalidArgument)
    ensures d != 0 && (v1 == 0 || v2 == 0) ==> MultDiv(w, v1, v2, d) == Ok(0)
    ensures d != 0 && v1 != 0 && v2 != 0 ==>
              var q := RoundDiv(v1 * v2, d).value;
              MultDiv(w, v1, v2, d)
                == if w == W64 && !InRange(W64, ReducedProduct(w, v1, v2, d)) then Err(OutOfRange)
                   else if InRange(w, q) then Ok(q)
                   else Err(OutOfRange)
  {
    if d != 0 && v1 != 0 && v2 != 0 {
      var p := Prepare(w, v1, v2, d);
      var k := PrepareFactor(w, v1, v2, d);
      RoundDivCancel(p.a * p.b, p.e, k);
    }
  }

  /** A reduced product is never larger than the unreduced one, so a product
      that fits needs no widening at all. */
  lemma ReducedProductBound(w: Width, v1: int, v2: int, d: int)
    requires InRange(w, v1) && InRange(w, v2) && InRange(w, d)
    requires d != 0 && v1 != 0 && v2 != 0
    ensures Abs(ReducedProduct(w, v1, v2, d)) <= Abs(v1 * v2)
  {
    var p := Prepare(w, v1, v2, d);
    AbsMul(p.a, p.b);
    AbsMul(v1, v2);
    MulLe(Abs(p.a), Abs(v1), Abs(p.b), Abs(v2));
  }

  /** Multiplying by `d` and dividing by `d` gives back the value: the
      first reduction leaves a divisor that divides `d`, the second cancels
      it, and the reduced product is the value itself. */
  lemma MultDivByDivisor(w: Width, v: int, d: int)
    requires InRange(w, v) && InRange(w, d) && d > 0
    requires AbsDefined(w, v)
    ensures MultDivDefined(w, v, d, d)
    ensures MultDiv(w, v, d, d) == Ok(v)
  {
    if v != 0 {
      var g1 := Gcd(Abs(v), d);
      var (a, d1) := ReduceBy(v, d);
      assert d1 * g1 == d;
      assert d1 > 0 by {
        MulMonotoneIff(d1, 0, g1);
      }
      assert Divides(d1, d) by {
        DivModUnique(d, d1, g1, 0);
      }
      GcdOfDivisor(d, d1);
      var (b, e) := ReduceBy(d, d1);
      assert b * d1 == d1 * g1 && e * d1 == d1;
      MulMonotoneIff(b, g1, d1);
      MulMonotoneIff(e, 1, d1);
      assert a * b == v;
      ReductionFacts(w, v, d, d);
      assert Prepare(w, v, d, d) == Reduced(a, b, e);
      assert RoundDivDefined(w, a * b, e);
      MultDivIsRoundedQuotient(w, v, d, d);
      RoundDivExact(v, d);
    }
  }

  /** Dividing `v * d` by `v` gives back `d`: the first reduction cancels
      `v` entirely. */
  lemma MultDivOfSelf(w: Width, v: int, d: int)
    requires InRange(w, v) && InRange(w, d) && v != 0 && d > 0
    requires AbsDefined(w, v)
    ensures MultDivDefined(w, v, d, v)
    ensures MultDiv(w, v, d, v) == Ok(d)
  {
    GcdOfDivisor(Abs(v), Abs(v));
    var (a, d1) := ReduceBy(v, v);
    assert a * Abs(v) == v && d1 * Abs(v) == v;
    var sign := if v > 0 then 1 else -1;
    assert sign * Abs(v) == v;
    MulMonotoneIff(a, sign, Abs(v));
    MulMonotoneIff(d1, sign, Abs(v));
    assert Divides(1, d);
    GcdOfDivisor(d, 1);
    var (b, e) := ReduceBy(d, d1);
    assert b == d && e == sign;
    ReductionFacts(w, v, d, v);
    assert Prepare(w, v, d, v) == Reduced(a, b, e);
    assert a * b == sign * d;
    assert RoundDivDefined(w, a * b, e);
    MultDivIsRoundedQuotient(w, v, d, v);
    assert v * d == d * v;
    RoundDivExact(d, v);
  }

  /** `mult_div` is free of undefined behaviour whenever no operand is MIN,
      twice the divisor fits, and the product is not negative or fits: the
      reduced product is then not MIN and its remainder is small. */
  lemma MultDivDefinedSmallDivisor(w: Width, v1: int, v2: int, d: int)
    requires InRange(w, v1) && InRange(w, v2) && InRange(w, d)
    requires AbsDefined(w, v1) && AbsDefined(w, v2)
    requires d != 0 && 2 * Abs(d) <= Max(w)
    requires v1 * v2 >= 0 || Abs(v1 * v2) <= Max(w)
    ensures MultDivDefined(w, v1, v2, d)
  {
    if !Promoted(w) && v1 != 0 && v2 != 0 {
      assert AbsDefined(w, d);
      var p := Prepare(w, v1, v2, d);
      var k := PrepareFactor(w, v1, v2, d);
      ReducedRoundDivDefined(w, v1 * v2, p.a, p.b, d, p.e, k);
    }
  }

  /** Dividing product and divisor by a common factor keeps the divisor
      small and a non-negative product positive, so rounding the reduced
      quotient is defined. */
  lemma ReducedRoundDivDefined(w: Width, v: int, a: int, b: int, d: int, e: int, k: int)
    requires k >= 1 && v == (a * b) * k && d == e * k && d != 0 && a != 0 && b != 0
    requires 2 * Abs(d) <= Max(w)
    requires v >= 0 || Abs(v) <= Max(w)
    ensures RoundDivDefined(w, a * b, e)
  {
    NonZeroProduct(a, b);
    ReducedSigns(v, a * b, d, e, k);
    SmallRemainder(w, a * b, e, d);
  }

  lemma NonZeroProduct(a: int, b: int)
    requires a != 0 && b != 0
    ensures a * b != 0
  {
    AbsMul(a, b);
    MulAtLeast(Abs(a), Abs(b));
  }

  /** When the raw product itself fits, `mult_div` never fails for range
      reasons other than the final quotient, and that quotient is no larger
      than the product: the result is exactly the rounded quotient. */
  lemma MultDivSmallProduct(w: Width, v1: int, v2: int, d: int)
    requires InRange(w, v1) && InRange(w, v2) && InRange(w, d)
    requires MultDivDefined(w, v1, v2, d)
    requires d != 0 && Abs(v1 * v2) <= Max(w)
    ensures MultDiv(w, v1, v2, d) == Ok(RoundDiv(v1 * v2, d).value)
  {
    MultDivIsRoundedQuotient(w, v1, v2, d);
    var q := RoundDiv(v1 * v2, d).value;
    RoundDivBound(v1 * v2, d);
    assert InRange(w, q);
    if v1 != 0 && v2 != 0 {
      ReducedProductBound(w, v1, v2, d);
      assert InRange(W64, ReducedProduct(w, v1, v2, d));
    }
  }

  /** Operands that fit 8 bits give the same answer in every storage width:
      the rounded quotient whenever it fits that width. */
  lemma MultDivNarrowOperands(w: Width, v1: int, v2: int, d: int)
    requires InRange(W8, v1) && InRange(W8, v2) && InRange(W8, d) && d != 0
    ensures InRange(w, v1) && InRange(w, v2) && InRange(w, d)
    ensures MultDivDefined(w, v1, v2, d)
    ensures InRange(w, RoundDiv(v1 * v2, d).value) ==>
              MultDiv(w, v1, v2, d) == Ok(RoundDiv(v1 * v2, d).value)
  {
    if Promoted(w) {
      MultDivIsRoundedQuotient(w, v1, v2, d);
    } else {
      AbsMul(v1, v2);
      MulLe(Abs(v1), 128, Abs(v2), 128);
      MultDivDefinedSmallDivisor(w, v1, v2, d);
      MultDivSmallProduct(w, v1, v2, d);
    }
  }

  /** Dividing the product and the divisor by k >= 1 keeps the product's
      magnitude and sign (a non-zero product stays away from MIN) and does
      not enlarge the divisor. */
  lemma ReducedSigns(v: int, ab: int, d: int, e: int, k: int)
    requires k >= 1 && v == ab * k && d == e * k && d != 0 && ab != 0
    ensures Abs(ab) <= Abs(v) && 0 < Abs(e) <= Abs(d)
    ensures v >= 0 ==> ab > 0
  {
    MulMonotoneIff(ab, 0, k);
    AbsMul(ab, k);
    AbsMul(e, k);
    MulAtLeast(k, Abs(ab));
    MulAtLeast(k, Abs(e));
    assert k * Abs(ab) == Abs(ab) * k;
    assert k * Abs(e) == Abs(e) * k;
  }

  lemma SmallRemainder(w: Width, v: int, e: int, d: int)
    requires v > 0 || Abs(v) <= Max(w)
    requires 0 < Abs(e) <= Abs(d) && 2 * Abs(d) <= Max(w)
    ensures RoundDivDefined(w, v, e)
  {
    assert Abs(v) % Abs(e) < Abs(e);
  }

  /** Where the two definitions part: `round_div` in an 8- or 16-bit type
      negates its quotient in `int` and narrows it back, so a quotient of
      MAX + 1 (MIN divided by -1) wraps to MIN and passes the range check.
      Everywhere else the as-written `mult_div` is the corrected one. */
  lemma AsWrittenDiffersOnlyByWrap(w: Width, v1: int, v2: int, d: int)
    requires InRange(w, v1) && InRange(w, v2) && InRange(w, d)
    requires MultDivDefined(w, v1, v2, d)
    ensures MultDivAsWritten(w, v1, v2, d) != MultDiv(w, v1, v2, d) ==>
              && Promoted(w)
              && MultDiv(w, v1, v2, d) == Err(OutOfRange)
              && MultDivAsWritten(w, v1, v2, d) == Ok(Min(w))
  {
    match Prepare(w, v1, v2, d)
    case Done(_) =>
    case Reduced(a, b, e) =>
      match Product(w, a, b)
      case Err(_) =>
      case Ok((p, pw)) =>
        var q := RoundDiv(p, e).value;
        RoundDivBound(p, e);
        if pw != w {
          WideQuotientFits(w, a, b, q);
        } else if !InRange(w, q) {
          NarrowQuotientEdge(w, p, q);
        }
  }

  /** The inputs the two definitions part on: the rounded quotient is
      exactly MAX + 1 and the divisor is negative. */
  lemma DifferenceIsWrappedQuotient(w: Width, v1: int, v2: int, d: int)
    requires InRange(w, v1) && InRange(w, v2) && InRange(w, d)
    requires MultDivDefined(w, v1, v2, d)
    ensures MultDivAsWritten(w, v1, v2, d) != MultDiv(w, v1, v2, d) ==>
              d < 0 && RoundDiv(v1 * v2, d).value == Max(w) + 1
  {
    match Prepare(w, v1, v2, d)
    case Done(_) =>
    case Reduced(a, b, e) =>
      match Product(w, a, b)
      case Err(_) =>
      case Ok((p, pw)) =>
        var q := RoundDiv(p, e).value;
        RoundDivBound(p, e);
        if pw != w {
          WideQuotientFits(w, a, b, q);
        } else if !InRange(w, q) {
          NarrowQuotientEdge(w, p, q);
          var k := PrepareFactor(w, v1, v2, d);
          WrappedQuotientOrigin(p, e, q, k, v1 * v2, d);
        }
  }

  /** A positive quotient of a negative reduced product needs a negative
      divisor, and cancelling the common factor k keeps the quotient. */
  lemma WrappedQuotientOrigin(p: int, e: int, q: int, k: int, v: int, d: int)
    requires p < 0 && q > 0 && e != 0 && q == RoundDiv(p, e).value
    requires k >= 1 && v == p * k && d == e * k
    ensures d < 0 && RoundDiv(v, d).value == q
  {
    QuotientSign(p, e, q);
    MulMonotoneIff(e, 0, k);
    RoundDivCancel(p, e, k);
  }

  /** A negative value divided by a positive divisor never rounds to a
      positive quotient. */
  lemma QuotientSign(p: int, e: int, q: int)
    requires p < 0 && NearestAwayFromZero(p, e, q)
    ensures e > 0 ==> q <= 0
  {
    if e > 0 && q >= 1 {
      MulAtLeast(q, e);
    }
  }

  /** With a positive divisor the two definitions agree on every input: the
      wrap needs a positive quotient of a negative product, which a positive
      divisor cannot give. `*=` divides by the scale, so it is the source's
      `mult_div` exactly. */
  lemma PositiveDivisorAgrees(w: Width, v1: int, v2: int, d: int)
    requires InRange(w, v1) && InRange(w, v2) && InRange(w, d)
    requires MultDivDefined(w, v1, v2, d)
    requires d > 0
    ensures MultDivAsWritten(w, v1, v2, d) == MultDiv(w, v1, v2, d)
  {
    DifferenceIsWrappedQuotient(w, v1, v2, d);
  }

  /** A quotient no larger than a product of two w-bit values fits the next
      wider type. */
  lemma WideQuotientFits(w: Width, a: int, b: int, q: int)
    requires w != W64 && InRange(w, a) && InRange(w, b) && Abs(q) <= Abs(a * b)
    ensures InRange(NextWidth(w), q)
  {
    AbsMul(a, b);
    MulLe(Abs(a), -Min(w), Abs(b), -Min(w));
  }

  /** A quotient no larger than an in-range value, yet out of range itself,
      is MAX + 1 and came from MIN; narrowing it back wraps to MIN. */
  lemma NarrowQuotientEdge(w: Width, p: int, q: int)
    requires InRange(w, p) && Abs(q) <= Abs(p) && !InRange(w, q)
    ensures q == Max(w) + 1 && p == Min(w)
    ensures Wrap(w, q) == Min(w)
  {
    WrapWindow(w, q, -1);
  }

  /** Once the reductions leave -64 * 2 over -1 at 8 bits, the product -128
      fits, and the quotient 128 wraps back to -128. */
  lemma WrapsAfterReduction(w: Width, v1: int, v2: int, d: int, a: int, b: int, e: int)
    requires w == W8 && InRange(w, v1) && InRange(w, v2) && InRange(w, d)
    requires Prepare(w, v1, v2, d) == Reduced(a, b, e)
    requires a == -64 && b == 2 && e == -1
    ensures MultDivAsWritten(w, v1, v2, d) == Ok(Min(w))
  {
    assert Product(w, a, b) == Ok((a * b, w));
    RoundDivExact(128, -1);
    WrapWindow(w, 128, -1);
  }

  /** The input that shows it: with 8-bit storage and no fraction digits,
      -128 / -1 is `mult_div(-128, 1, -1)`; the source yields -128 where
      the quotient 128 is out of range. */
  lemma MinOverMinusOneWraps()
    ensures MultDivAsWritten(W8, -128, 1, -1) == Ok(-128)
    ensures MultDiv(W8, -128, 1, -1) == Err(OutOfRange)
  {
    MultDivIsRoundedQuotient(W8, -128, 1, -1);
    assert Gcd(128, 1) == 1 by {
      assert Gcd(128, 1) == Gcd(1 % 128, 128);
    }
    assert Gcd(1, 1) == 1;
    assert Prepare(W8, -128, 1, -1) == Reduced(-128, 1, -1);
    WrapWindow(W8, 128, -1);
  }
}
