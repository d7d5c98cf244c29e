/** The scenarios of the library's unit tests, restated over the model
    for every storage width the tests instantiate (8, 16, 32 and 64 bits). */
module TestScenarios {
  import opened Outcome
  import opened Storage
  import opened Scale
  import opened RoundPolicy
  import opened MultDiv
  import opened FixedPoint

  /** With two fraction digits, a = 0.1 and b = 0.2 (raw 10 and 20). */
  lemma BasicArithmeticExamples(w: Width)
    ensures Add(Config(w, 2), Fixed(10), Fixed(20)) == Ok(Fixed(30))
    ensures Subtract(Config(w, 2), Fixed(10), Fixed(20)) == Ok(Fixed(-10))
    ensures Subtract(Config(w, 2), Fixed(20), Fixed(10)) == Ok(Fixed(10))
    ensures Negate(Config(w, 2), Fixed(10)) == Ok(Fixed(-10))
  {
    SmallSum(w, 10, 20);
    SmallSum(w, 10, -20);
    SmallSum(w, 20, -10);
  }

  /** Operands and a result that fit 8 bits add and subtract exactly in
      every storage width. */
  lemma SmallSum(w: Width, x: int, y: int)
    requires InRange(W8, x) && InRange(W8, y) && InRange(W8, x + y) && InRange(W8, -y)
    ensures Add(Config(w, 2), Fixed(x), Fixed(y)) == Ok(Fixed(x + y))
    ensures Subtract(Config(w, 2), Fixed(x), Fixed(-y)) == Ok(Fixed(x + y))
  {
  }

  /** The products of the same test: a * b = 0.02 ... */
  lemma MultiplyExample(w: Width)
    ensures MultDivDefined(w, 10, 20, 100) && Multiply(Config(w, 2), Fixed(10), Fixed(20)) == Ok(Fixed(2))
  {
    assert RoundDiv(200, 100) == Ok(2);
    MultiplyNarrow(w, 10, 20, 2);
  }

  /** ... and a * a = 0.01. */
  lemma SquareExample(w: Width)
    ensures MultDivDefined(w, 10, 10, 100) && Multiply(Config(w, 2), Fixed(10), Fixed(10)) == Ok(Fixed(1))
  {
    assert RoundDiv(100, 100) == Ok(1);
    MultiplyNarrow(w, 10, 10, 1);
  }

  /** a * -1 = -0.1. */
  lemma MultiplyByMinusOneExample(w: Width)
    ensures MultDivDefined(w, 10, -100, 100) && Multiply(Config(w, 2), Fixed(10), Fixed(-100)) == Ok(Fixed(-10))
  {
    assert RoundDiv(-1000, 100) == Ok(-10);
    MultiplyNarrow(w, 10, -100, -10);
  }

  lemma MultiplyNarrow(w: Width, x: int, y: int, q: int)
    requires InRange(W8, x) && InRange(W8, y) && InRange(W8, q)
    requires RoundDiv(x * y, 100) == Ok(q)
    ensures MultDivDefined(w, x, y, 100)
    ensures Multiply(Config(w, 2), Fixed(x), Fixed(y)) == Ok(Fixed(q))
  {
    assert Config(w, 2).Scale() == 100;
    MultDivNarrowOperands(w, x, y, 100);
  }

  /** The quotients of the same test: a / b = 0.5 ... */
  lemma DivideExample(w: Width)
    ensures MultDivDefined(w, 10, 100, 20) && Divide(Config(w, 2), Fixed(10), Fixed(20)) == Ok(Fixed(50))
  {
    assert RoundDiv(1000, 20) == Ok(50);
    DivideNarrow(w, 10, 20, 50);
  }

  /** ... and b / -1 = -0.2. */
  lemma DivideByMinusOneExample(w: Width)
    ensures MultDivDefined(w, 20, 100, -100) && Divide(Config(w, 2), Fixed(20), Fixed(-100)) == Ok(Fixed(-20))
  {
    assert RoundDiv(2000, -100) == Ok(-20);
    DivideNarrow(w, 20, -100, -20);
  }

  /** -b / b = -1. */
  lemma DivideNegatedExample(w: Width)
    ensures MultDivDefined(w, -20, 100, 20) && Divide(Config(w, 2), Fixed(-20), Fixed(20)) == Ok(Fixed(-100))
  {
    assert RoundDiv(-2000, 20) == Ok(-100);
    DivideNarrow(w, -20, 20, -100);
  }

  lemma DivideNarrow(w: Width, x: int, y: int, q: int)
    requires InRange(W8, x) && InRange(W8, y) && InRange(W8, q) && y != 0
    requires RoundDiv(x * 100, y) == Ok(q)
    ensures MultDivDefined(w, x, 100, y)
    ensures Divide(Config(w, 2), Fixed(x), Fixed(y)) == Ok(Fixed(q))
  {
    assert Config(w, 2).Scale() == 100;
    MultDivNarrowOperands(w, x, 100, y);
  }

  /** a = 0.57 and c = a * 1.11 at two fraction digits: c is 0.63 ... */
  lemma ComparisonProductExample(w: Width)
    ensures MultDivDefined(w, 57, 111, 100) && Multiply(Config(w, 2), Fixed(57), Fixed(111)) == Ok(Fixed(63))
  {
    assert RoundDiv(6327, 100) == Ok(63);
    MultiplyNarrow(w, 57, 111, 63);
  }

  /** ... d = a / 1.11 is 0.51 ... */
  lemma ComparisonQuotientExample(w: Width)
    ensures MultDivDefined(w, 57, 100, 111) && Divide(Config(w, 2), Fixed(57), Fixed(111)) == Ok(Fixed(51))
  {
    assert RoundDiv(5700, 111) == Ok(51);
    DivideNarrow(w, 57, 111, 51);
  }

  /** ... and the three order as d < a < c, with the derived relations
      agreeing. */
  lemma ComparisonOrderExample()
    ensures Lt(Fixed(51), Fixed(57)) && Lt(Fixed(57), Fixed(63)) && Lt(Fixed(51), Fixed(63))
    ensures Gt(Fixed(63), Fixed(51)) && Le(Fixed(51), Fixed(51)) && Ge(Fixed(63), Fixed(57))
    ensures Ne(Fixed(51), Fixed(57)) && Eq(Fixed(57), Fixed(57))
  {
  }

  /** From 0.1 at two fraction digits, `++` gives 1.1 and `--` gives -0.9;
      the postfix forms return 0.1. */
  lemma IncrementDecrementExamples(w: Width)
    ensures var c := Config(w, 2);
            && Increment(c, Fixed(10)) == Ok(Fixed(110))
            && PostIncrement(c, Fixed(10)) == Ok((Fixed(10), Fixed(110)))
            && Decrement(c, Fixed(10)) == Ok(Fixed(-90))
            && PostDecrement(c, Fixed(10)) == Ok((Fixed(10), Fixed(-90)))
  {
  }

  /** With no fraction digits, -(MIN + 1) succeeds and -MIN fails. */
  lemma UnaryMinusOverflowExamples(w: Width)
    ensures var c := Config(w, 0);
            && Add(c, Fixed(Min(w)), Fixed(1)) == Ok(Fixed(Min(w) + 1))
            && Negate(c, Fixed(Min(w) + 1)) == Ok(Fixed(Max(w)))
            && Negate(c, Fixed(Min(w))) == Err(OutOfRange)
  {
  }

  /** At one fraction digit, 1 and 1.1 both cast to the integer 1. */
  lemma CastToIntegerExamples(w: Width)
    ensures var c := Config(w, 1);
            && FromInteger(c, w, 1) == Ok(Fixed(10))
            && ToInteger(c, Fixed(10), w) == Ok(1)
            && ToInteger(c, Fixed(11), w) == Ok(1)
  {
    assert RoundDiv(10, 10) == Ok(1);
    assert RoundDiv(11, 10) == Ok(1);
  }

  /** The largest integer m whose scaled value fits: m * scale is at least
      one scale, and doubling it overshoots MAX + 1. MAX + 1 is a power of
      two of 8 or more bits, while 2 * m * scale is 2 * MAX (no fraction
      digits) or a multiple of 5, so the two never coincide. */
  lemma LargestScaledInteger(c: Config) returns (m: int)
    requires c.Valid()
    ensures m == Max(c.width) / c.Scale() && m >= 1
    ensures c.Scale() <= m * c.Scale() <= Max(c.width)
    ensures 2 * (m * c.Scale()) > Max(c.width) + 1
  {
    var s, mx := c.Scale(), Max(c.width);
    m := mx / s;
    QuotientBracket(mx, s);
    assert 2 * (m * s) != mx + 1 by {
      if c.digits == 0 {
        assert s == 1;
      } else {
        FactorFive(c.digits, m);
        MaxPlusOneModFive(c.width);
      }
    }
  }

  /** The quotient of x >= s > 0 by s: at least 1, and x lies in
      [q * s, q * s + s). */
  lemma QuotientBracket(x: int, s: int)
    requires 0 < s <= x
    ensures x / s >= 1
    ensures s <= (x / s) * s <= x < (x / s) * s + s
  {
    var q, r := x / s, x % s;
    assert x == q * s + r && 0 <= r < s by {
      assert s * q == q * s;
    }
    assert q >= 1 by {
      if q <= 0 {
        MulMonotoneIff(q, 0, s);
      }
    }
    MulMonotoneIff(1, q, s);
  }

  /** MAX + 1 is a power of two, 3 modulo 5 for every width. */
  lemma MaxPlusOneModFive(w: Width)
    ensures (Max(w) + 1) % 5 == 3
  {
  }

  lemma FactorFive(digits: nat, m: int)
    requires digits >= 1
    ensures (2 * (m * DecimalScale(digits))) % 5 == 0
  {
    var t := 4 * m * DecimalScale(digits - 1);
    assert 2 * (m * DecimalScale(digits)) == 5 * t;
  }

  /** The out-of-range test, additive part: with m the largest integer
      whose scaled value fits and a = m, both a + a and -a - a overflow. */
  lemma OutOfRangeAdditive(c: Config)
    requires c.Valid()
    ensures var a := Max(c.width) / c.Scale() * c.Scale();
            && FromInteger(c, c.width, Max(c.width) / c.Scale()) == Ok(Fixed(a))
            && Add(c, Fixed(a), Fixed(a)) == Err(OutOfRange)
            && Negate(c, Fixed(a)) == Ok(Fixed(-a))
            && Subtract(c, Fixed(-a), Fixed(a)) == Err(OutOfRange)
  {
    var m := LargestScaledInteger(c);
    var a := m * c.Scale();
    assert InRange(c.width, m);
    assert Fits(c, Fixed(a)) && Fits(c, Fixed(-a));
  }

  /** The out-of-range test, multiplicative part: a * a overflows unless
      m is 1, since the exact quotient m * m * scale is at least 2a. */
  lemma OutOfRangeMultiply(c: Config)
    requires c.Valid()
    ensures var a := Max(c.width) / c.Scale() * c.Scale();
            && MultDivDefined(c.width, a, a, c.Scale())
            && (a >= 2 * c.Scale() ==> Multiply(c, Fixed(a), Fixed(a)).Err?)
  {
    var m := LargestScaledInteger(c);
    var s := c.Scale();
    var a := m * s;
    assert a * a >= 0;
    MultiplyDefined(c, Fixed(a), Fixed(a));
    if a >= 2 * s {
      assert m >= 2 by {
        MulMonotoneIff(m, 1, s);
      }
      var r := Multiply(c, Fixed(a), Fixed(a));
      if r.Ok? {
        SquareQuotient(m, s);
        NearestUnique(a * a, s, r.value.raw, m * a);
        MulMonotoneIff(2, m, a);
        assert false;
      }
    }
  }

  /** The square of m * s, divided by s, is exactly m * (m * s). */
  lemma SquareQuotient(m: int, s: int)
    requires s > 0
    ensures NearestAwayFromZero((m * s) * (m * s), s, m * (m * s))
  {
    var a := m * s;
    assert a * a == (m * a) * s;
    RoundDivExact(m * a, s);
  }
}
