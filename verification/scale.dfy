/** The compile-time scale helpers: `decimal_scale` (10^n) and
    `max_decimal_digits_num` (how many decimal digits a value has). */
module Scale {
  import opened Storage

  /** `decimal_scale<value_t, n>::value`, the factor between a raw value and
      the decimal number it stands for. */
  function DecimalScale(n: nat): (s: nat)
    ensures s >= 1
  {
    if n == 0 then 1 else DecimalScale(n - 1) * 10
  }

  lemma {:induction false} DecimalScaleMonotone(i: nat, j: nat)
    requires i <= j
    ensures DecimalScale(i) <= DecimalScale(j)
    decreases j - i
  {
    if i < j {
      DecimalScaleMonotone(i, j - 1);
    }
  }

  /** `details::calc_max_decimal_digits_num`: one more than the number of
      times the value can be divided by ten (C++ truncating division) before
      it reaches zero, i.e. the count of its decimal digits (1 for zero). */
  function DecimalDigits(v: int): (r: nat)
    decreases Abs(v)
    ensures r >= 1
    ensures Abs(v) < DecimalScale(r)
    ensures v != 0 ==> DecimalScale(r - 1) <= Abs(v)
  {
    var q := TruncDiv(v, 10);
    assert Abs(v) == 10 * Abs(q) + Abs(v - q * 10) by {
      if v < 0 {
        assert q <= 0;
      }
    }
    if q == 0 then 1 else DecimalDigits(q) + 1
  }

  /** Two consecutive powers of ten bracketing `|v|` fix its digit count. */
  lemma DecimalDigitsBracket(v: int, k: nat)
    requires k >= 1 && DecimalScale(k - 1) <= Abs(v) < DecimalScale(k)
    ensures DecimalDigits(v) == k
  {
    var r := DecimalDigits(v);
    assert Abs(v) < DecimalScale(r);
    if r < k {
      DecimalScaleMonotone(r, k - 1);
      assert false;
    } else if r > k {
      assert v != 0 && DecimalScale(r - 1) <= Abs(v);
      DecimalScaleMonotone(k, r - 1);
      assert false;
    }
  }

  /** `max_decimal_digits_num<value_t>::value`: the digit count of the
      largest storable value. */
  function MaxDecimalDigits(w: Width): nat {
    DecimalDigits(Max(w))
  }

  /** A scale of 10^n is storable exactly when n is below the digit count of
      the storage maximum; the test harness enumerates precisely the digit
      counts 0 .. max_decimal_digits_num - 1. */
  lemma ScaleFitsIff(w: Width, n: nat)
    ensures DecimalScale(n) <= Max(w) <==> n < MaxDecimalDigits(w)
  {
    ScaleBelowIff(Max(w), n);
  }

  /** 10^n is at most a positive `v` exactly when n is below the digit
      count of `v`. */
  lemma ScaleBelowIff(v: int, n: nat)
    requires v >= 1
    ensures DecimalScale(n) <= v <==> n < DecimalDigits(v)
  {
    var d := DecimalDigits(v);
    if n < d {
      DecimalScaleMonotone(n, d - 1);
    } else {
      DecimalScaleMonotone(d, n);
    }
  }

  lemma DecimalScaleExamples()
    ensures DecimalScale(0) == 1 && DecimalScale(1) == 10 && DecimalScale(2) == 100
    ensures DecimalScale(3) == 1000 && DecimalScale(4) == 10000
    ensures DecimalScale(5) == 100000 && DecimalScale(6) == 1000000
  {
  }

  /** The powers of ten next to the 32- and 64-bit maxima. */
  lemma LargeScales()
    ensures DecimalScale(9) == 1_000_000_000 && DecimalScale(10) == 10_000_000_000
    ensures DecimalScale(18) == 1_000_000_000_000_000_000
    ensures DecimalScale(19) == 10_000_000_000_000_000_000
  {
    assert DecimalScale(6) == 1_000_000;
    assert DecimalScale(9) == 1000 * DecimalScale(6);
    assert DecimalScale(12) == 1000 * DecimalScale(9);
    assert DecimalScale(15) == 1000 * DecimalScale(12);
    assert DecimalScale(18) == 1000 * DecimalScale(15);
  }

  lemma DecimalDigitsExamples()
    ensures DecimalDigits(0) == 1 && DecimalDigits(1) == 1 && DecimalDigits(9) == 1
    ensures DecimalDigits(10) == 2 && DecimalDigits(100) == 3 && DecimalDigits(1000) == 4
  {
    DecimalDigitsBracket(1, 1);
    DecimalDigitsBracket(9, 1);
    DecimalDigitsBracket(10, 2);
    DecimalDigitsBracket(100, 3);
    DecimalDigitsBracket(1000, 4);
  }

  /** `max_decimal_digits_num` of the four storage widths: 3, 5, 10, 19. */
  lemma MaxDecimalDigitsExamples(w: Width)
    ensures MaxDecimalDigits(w) == match w
                                   case W8 => 3
                                   case W16 => 5
                                   case W32 => 10
                                   case W64 => 19
  {
    match w
    case W8 =>
      assert DecimalScale(2) == 100 && DecimalScale(3) == 1000;
      DecimalDigitsBracket(Max(W8), 3);
    case W16 =>
      assert DecimalScale(4) == 10000 && DecimalScale(5) == 100000;
      DecimalDigitsBracket(Max(W16), 5);
    case W32 =>
      LargeScales();
      assert DecimalScale(9) <= Abs(Max(W32)) < DecimalScale(10);
      DecimalDigitsBracket(Max(W32), 10);
    case W64 =>
      LargeScales();
      assert DecimalScale(18) <= Abs(Max(W64)) < DecimalScale(19);
      DecimalDigitsBracket(Max(W64), 19);
  }
}
