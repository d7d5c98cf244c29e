/** `default_round_policy::round_div`: integer division rounded to the
    nearest integer, halves away from zero, for either sign of either
    operand. */
module RoundPolicy {
  import opened Outcome
  import opened Storage

  /** The reference meaning of rounded division: `r` is within half a
      divisor of `value / divisor`, and a tie goes to the candidate of larger
      magnitude. */
  predicate NearestAwayFromZero(value: int, divisor: int, r: int) {
    divisor != 0 && NearestMultiple(value, divisor, r * divisor)
  }

  /** `p` is a multiple of `divisor` nearest to `value`, ties away from zero. */
  predicate NearestMultiple(value: int, divisor: int, p: int) {
    && 2 * Abs(p - value) <= Abs(divisor)
    && (2 * Abs(p - value) == Abs(divisor) ==> Abs(p) > Abs(value))
  }

  /** `round_div` over unbounded integers: a zero divisor is an invalid
      argument, a zero value short-cuts to 0, otherwise the truncated
      quotient by |divisor| is nudged one unit away from zero when twice the
      remainder reaches |divisor|, and the sign of the divisor is applied
      last. */
  function RoundDiv(value: int, divisor: int): (r: Result<int>)
    ensures r.Err? <==> divisor == 0
    ensures r.Err? ==> r.error == InvalidArgument
    ensures r.Ok? ==> NearestAwayFromZero(value, divisor, r.value)
  {
    if divisor == 0 then
      Err(InvalidArgument)
    else if value == 0 then
      assert 0 * divisor == 0;
      Ok(0)
    else
      var absDivisor := Abs(divisor);
      var divided := TruncDiv(value, absDivisor);
      var remainder := Abs(value) % absDivisor;
      TruncRemainder(value, absDivisor);
      var rounded := if remainder * 2 >= absDivisor then divided + (if value < 0 then -1 else 1) else divided;
      NudgeIsNearest(value, absDivisor, divided, remainder);
      if divisor < 0 then
        NegateBoth(value, absDivisor, rounded);
        Ok(-rounded)
      else
        Ok(rounded)
  }

  lemma NegateBoth(value: int, d: int, r: int)
    requires NearestAwayFromZero(value, d, r)
    ensures NearestAwayFromZero(value, -d, -r)
  {
    assert -r * -d == r * d;
  }

  lemma NegateValue(value: int, d: int, r: int)
    requires NearestAwayFromZero(value, d, r)
    ensures NearestAwayFromZero(-value, d, -r)
  {
    assert -r * d == -(r * d);
  }

  /** The remainder `round_div` computes from |value| is the magnitude of the
      truncating division's remainder. */
  lemma TruncRemainder(value: int, d: int)
    requires d > 0
    ensures Abs(value) % d == Abs(value - TruncDiv(value, d) * d)
  {
    var q := TruncDiv(value, d);
    var rem := value - q * d;
    if value >= 0 {
      DivModUnique(value, d, q, rem);
    } else {
      assert Abs(value) == d * -q + -rem;
      DivModUnique(Abs(value), d, -q, -rem);
    }
  }

  /** Nudging the truncated quotient away from zero exactly when twice the
      remainder reaches the divisor yields the nearest multiple. */
  lemma NudgeIsNearest(value: int, d: int, q: int, remainder: int)
    requires d > 0 && value != 0
    requires remainder == Abs(value - q * d) && remainder < d
    requires value > 0 ==> value - q * d >= 0
    requires value < 0 ==> value - q * d <= 0
    ensures NearestAwayFromZero(value, d,
              if remainder * 2 >= d then q + (if value < 0 then -1 else 1) else q)
  {
    var p := q * d;
    assert (q + 1) * d == p + d;
    assert (q - 1) * d == p - d;
  }

  /** At most one integer is the rounded quotient. */
  lemma NearestUnique(value: int, divisor: int, r1: int, r2: int)
    requires NearestAwayFromZero(value, divisor, r1)
    requires NearestAwayFromZero(value, divisor, r2)
    ensures r1 == r2
  {
    if r1 != r2 {
      var x1, x2 := r1 * divisor, r2 * divisor;
      assert x1 - x2 == (r1 - r2) * divisor;
      AbsMul(r1 - r2, divisor);
      MulAtLeast(Abs(r1 - r2), Abs(divisor));
      assert Abs(x1 - x2) >= Abs(divisor);
      // Both candidates are exactly half a divisor away, on either side of
      // `value`; the one nearer zero cannot be "away from zero".
      assert Abs(r1 - r2) == 1 by {
        if Abs(r1 - r2) > 1 {
          MulAtLeast(Abs(r1 - r2), Abs(divisor));
          assert Abs(r1 - r2) * Abs(divisor) == (Abs(r1 - r2) - 1) * Abs(divisor) + Abs(divisor);
          MulAtLeast(Abs(r1 - r2) - 1, Abs(divisor));
        }
      }
      SignsOfNeighbours(r1, r2, divisor);
    }
  }

  /** An exact quotient needs no rounding. */
  lemma RoundDivExact(k: int, d: int)
    requires d != 0
    ensures RoundDiv(k * d, d) == Ok(k)
  {
    assert NearestAwayFromZero(k * d, d, k);
    NearestUnique(k * d, d, k, RoundDiv(k * d, d).value);
  }

  /** Two adjacent multiples of `d` never lie strictly on opposite sides of
      zero, so the one of them nearer zero is at most as far from zero as any
      point between them. */
  lemma SignsOfNeighbours(r1: int, r2: int, d: int)
    requires Abs(r1 - r2) == 1
    ensures (r1 * d >= 0 && r2 * d >= 0) || (r1 * d <= 0 && r2 * d <= 0)
  {
    if r1 >= 0 && r2 >= 0 {
      SameSign(r1, r2, d);
    } else {
      assert r1 <= 0 && r2 <= 0;
      SameSign(-r1, -r2, d);
      assert r1 * d == -(-r1 * d) && r2 * d == -(-r2 * d);
    }
  }

  lemma SameSign(a: int, b: int, d: int)
    requires a >= 0 && b >= 0
    ensures (a * d >= 0 && b * d >= 0) || (a * d <= 0 && b * d <= 0)
  {
    if d < 0 {
      assert a * d == -(a * -d) && b * d == -(b * -d);
    }
  }

  /** Scaling value and divisor by the same positive factor does not change
      the rounded quotient. */
  lemma NearestScale(value: int, divisor: int, k: int, r: int)
    requires k > 0
    ensures NearestAwayFromZero(value * k, divisor * k, r) <==> NearestAwayFromZero(value, divisor, r)
  {
    Associate(r, divisor, k);
    MulMonotoneIff(divisor, 0, k);
    NearestMultipleScale(value, divisor, r * divisor, k);
  }

  lemma Associate(r: int, d: int, k: int)
    ensures r * (d * k) == (r * d) * k
  {
  }

  /** Being a nearest multiple is invariant under positive scaling. */
  lemma NearestMultipleScale(v: int, d: int, p: int, k: int)
    requires k > 0
    ensures NearestMultiple(v * k, d * k, p * k) <==> NearestMultiple(v, d, p)
  {
    var gap, dk, pk, vk := Abs(p * k - v * k), Abs(d * k), Abs(p * k), Abs(v * k);
    assert gap == Abs(p - v) * k by {
      assert p * k - v * k == (p - v) * k;
      AbsMul(p - v, k);
    }
    assert dk == Abs(d) * k && pk == Abs(p) * k && vk == Abs(v) * k by {
      AbsMul(d, k);
      AbsMul(p, k);
      AbsMul(v, k);
    }
    assert 2 * gap == (2 * Abs(p - v)) * k;
    MulMonotoneIff(2 * Abs(p - v), Abs(d), k);
    MulMonotoneIff(Abs(p), Abs(v), k);
    MulMonotoneIff(Abs(v), Abs(p), k);
  }

  lemma MulMonotoneIff(x: int, y: int, k: int)
    requires k > 0
    ensures x * k <= y * k <==> x <= y
    ensures x * k == y * k <==> x == y
  {
    assert y * k - x * k == (y - x) * k;
    if x < y {
      MulAtLeast(k, y - x);
      assert k * (y - x) == (y - x) * k;
    } else if x > y {
      MulAtLeast(k, x - y);
      assert k * (x - y) == (x - y) * k;
    }
  }

  /** The property the gcd pre-reduction in `mult_div` rests on: cancelling a
      common positive factor never changes the rounded result. */
  lemma RoundDivCancel(value: int, divisor: int, k: int)
    requires k > 0
    ensures RoundDiv(value * k, divisor * k) == RoundDiv(value, divisor)
  {
    if divisor != 0 {
      MulMonotoneIff(divisor, 0, k);
      var r := RoundDiv(value, divisor).value;
      NearestScale(value, divisor, k, r);
      NearestUnique(value * k, divisor * k, r, RoundDiv(value * k, divisor * k).value);
    } else {
      assert divisor * k == 0;
    }
  }

  /** Rounding is symmetric: negating the value or the divisor negates the
      result. */
  lemma RoundDivSymmetric(value: int, divisor: int)
    requires divisor != 0
    ensures RoundDiv(-value, divisor).value == -RoundDiv(value, divisor).value
    ensures RoundDiv(value, -divisor).value == -RoundDiv(value, divisor).value
  {
    var r := RoundDiv(value, divisor).value;
    NegateValue(value, divisor, r);
    NearestUnique(-value, divisor, -r, RoundDiv(-value, divisor).value);
    NegateBoth(value, divisor, r);
    NearestUnique(value, -divisor, -r, RoundDiv(value, -divisor).value);
  }

  /** The rounded quotient is never larger in magnitude than the value, so it
      fits wherever the value does, except for MIN divided by -1. */
  lemma RoundDivBound(value: int, divisor: int)
    requires divisor != 0
    ensures Abs(RoundDiv(value, divisor).value) <= Abs(value)
  {
    NearestBound(value, divisor, RoundDiv(value, divisor).value);
  }

  lemma NearestBound(value: int, divisor: int, r: int)
    requires NearestAwayFromZero(value, divisor, r)
    ensures Abs(r) <= Abs(value)
  {
    if Abs(r) > Abs(value) {
      ProductGrowth(r, divisor, Abs(value));
    }
  }

  lemma ProductGrowth(r: int, divisor: int, v: nat)
    requires divisor != 0 && Abs(r) > v
    ensures Abs(r * divisor) >= v + Abs(divisor)
  {
    var a, d := Abs(r), Abs(divisor);
    AbsMul(r, divisor);
    MulMonotoneIff(v + 1, a, d);
    assert (v + 1) * d == v * d + d;
    MulAtLeast(d, v);
    assert d * v == v * d;
  }

  /** The C++ `round_div<T>` works in T: for 32- and 64-bit T it takes
      `std::abs` of both operands and doubles the remainder in T, which is
      undefined for MIN or for a remainder above MAX / 2. 8- and 16-bit
      operands are promoted to `int` and have no such corner. */
  predicate RoundDivDefined(w: Width, value: int, divisor: int) {
    || divisor == 0
    || value == 0
    || Promoted(w)
    || (&& AbsDefined(w, value) && AbsDefined(w, divisor)
        && 2 * (Abs(value) % Abs(divisor)) <= Max(w))
  }

  /** The `round_div<int>` cases of the library's round-policy test with
      quotients of magnitude at most one, and the rejected zero divisor. */
  lemma RoundDivUnitExamples()
    ensures RoundDiv(0, 1) == Ok(0) && RoundDiv(0, -1) == Ok(0)
    ensures RoundDiv(1, 1) == Ok(1) && RoundDiv(1, -1) == Ok(-1) && RoundDiv(-1, 1) == Ok(-1)
    ensures RoundDiv(10, 10) == Ok(1) && RoundDiv(-10, 10) == Ok(-1)
    ensures RoundDiv(10, -10) == Ok(-1) && RoundDiv(-10, -10) == Ok(1)
    ensures RoundDiv(1, 10) == Ok(0) && RoundDiv(-1, 10) == Ok(0)
    ensures RoundDiv(1, -10) == Ok(0) && RoundDiv(-1, -10) == Ok(0)
    ensures RoundDiv(5, 0) == Err(InvalidArgument)
  {
  }

  /** Positive dividends on either side of the half: 1111.1 and 1111.4
      round down, 1111.5 and 1111.9 round up. */
  lemma RoundDivHalfwayExamples()
    ensures RoundDiv(11111, 10) == Ok(1111) && RoundDiv(11114, 10) == Ok(1111)
    ensures RoundDiv(11115, 10) == Ok(1112) && RoundDiv(11119, 10) == Ok(1112)
  {
  }

  /** The mirror image: negative halves round away from zero too. */
  lemma RoundDivNegativeHalfwayExamples()
    ensures RoundDiv(-11111, 10) == Ok(-1111) && RoundDiv(-11114, 10) == Ok(-1111)
    ensures RoundDiv(-11115, 10) == Ok(-1112) && RoundDiv(-11119, 10) == Ok(-1112)
  {
  }
}
