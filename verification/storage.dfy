/** Signed two's-complement storage types and the C++ integer operations
    the engine is built from, stated over unbounded integers. */
module Storage {

  /** The signed storage widths the number is instantiated with
      (`std::int8_t` .. `std::int64_t`). */
  datatype Width = W8 | W16 | W32 | W64

  /** `std::numeric_limits<T>::min()` */
  function Min(w: Width): int {
    match w
    case W8 => -0x80
    case W16 => -0x8000
    case W32 => -0x8000_0000
    case W64 => -0x8000_0000_0000_0000
  }

  /** `std::numeric_limits<T>::max()` */
  function Max(w: Width): int {
    -Min(w) - 1
  }

  /** 2^bits: the period of two's-complement wrap-around. */
  function Modulus(w: Width): int {
    -2 * Min(w)
  }

  predicate InRange(w: Width, x: int) {
    Min(w) <= x <= Max(w)
  }

  /** Operands of 8 and 16 bits are promoted to 32-bit `int` before any
      C++ arithmetic, so intermediate results at these widths never hit
      undefined behaviour; 32- and 64-bit arithmetic happens in the type. */
  predicate Promoted(w: Width) {
    w == W8 || w == W16
  }

  /** `std::abs(x)` on a value of width w is defined: always after promotion
      to `int`, and for 32- and 64-bit values unless x is MIN. */
  predicate AbsDefined(w: Width, x: int) {
    Promoted(w) || x != Min(w)
  }

  /** `details::next_storage_type`: the width a product is recomputed in
      after it overflowed. The 64-bit type maps to itself: there is no
      wider tier. (`short` maps to `long`, which is at least 32 bits.) */
  function NextWidth(w: Width): Width {
    match w
    case W8 => W16
    case W16 => W32
    case W32 => W64
    case W64 => W64
  }

  /** The type C++ evaluates `a * b` in for operands of widths `a` and `b`:
      the wider of the two after promotion to `int`. */
  function CommonWidth(a: Width, b: Width): (r: Width)
    ensures Max(a) <= Max(r) && Max(b) <= Max(r)
    ensures Max(W32) <= Max(r)
  {
    if a == W64 || b == W64 then W64 else W32
  }

  function Abs(x: int): nat {
    if x < 0 then -x else x
  }

  /** Conversion of an integer to a narrower two's-complement type: the
      unique representable value congruent to `x` modulo 2^bits. */
  function Wrap(w: Width, x: int): (r: int)
    ensures InRange(w, r)
    ensures (r - x) % Modulus(w) == 0
    ensures InRange(w, x) ==> r == x
  {
    var m := Modulus(w);
    var r := (x - Min(w)) % m + Min(w);
    DivModUnique(x - Min(w), m, (x - Min(w)) / m, (x - Min(w)) % m);
    MultipleMod(m, -((x - Min(w)) / m));
    assert r - x == m * -((x - Min(w)) / m);
    if InRange(w, x) then
      DivModUnique(x - Min(w), m, 0, x - Min(w));
      r
    else
      r
  }

  /** A value that lands in range after shifting by whole periods wraps to
      exactly that shifted value. */
  lemma WrapWindow(w: Width, x: int, k: int)
    requires InRange(w, x + k * Modulus(w))
    ensures Wrap(w, x) == x + k * Modulus(w)
  {
    var m := Modulus(w);
    DivModUnique(x - Min(w), m, -k, x + k * m - Min(w));
  }

  /** C++ integer division `a / b`: truncates toward zero. */
  function TruncDiv(a: int, b: int): (q: int)
    requires b != 0
    ensures Abs(a - q * b) < Abs(b)
    ensures a >= 0 ==> 0 <= a - q * b
    ensures a <= 0 ==> a - q * b <= 0
  {
    var n, m := Abs(a), Abs(b);
    var t := n / m;
    EuclidRemainder(n, m);
    Negations(t, b);
    if (a >= 0) == (b > 0) then t else -t
  }

  /** Euclidean division of naturals leaves a remainder below the divisor. */
  lemma EuclidRemainder(n: nat, m: int)
    requires m > 0
    ensures 0 <= n - (n / m) * m < m
  {
  }

  lemma Negations(t: int, b: int)
    ensures t * Abs(b) == (if b > 0 then t * b else -t * b)
    ensures -t * b == -(t * b)
  {
  }

  /** An integer division whose remainder is small and has the sign of
      the dividend is `TruncDiv`: the remainder properties pin the quotient. */
  lemma TruncDivUnique(a: int, b: int, q: int)
    requires b != 0
    requires Abs(a - q * b) < Abs(b)
    requires a > 0 ==> 0 <= a - q * b
    requires a < 0 ==> a - q * b <= 0
    ensures TruncDiv(a, b) == q
  {
    var t := TruncDiv(a, b);
    var r1, r2 := a - q * b, a - t * b;
    if t != q {
      Distribute(t, q, b);
      assert r1 - r2 == (t - q) * b;
      AbsMul(t - q, b);
      MulAtLeast(Abs(t - q), Abs(b));
      SameSignClose(r1, r2, Abs(b));
    }
  }

  /** Two remainders of the same sign, both smaller than `bound`, are
      closer than `bound`. */
  lemma SameSignClose(r1: int, r2: int, bound: int)
    requires Abs(r1) < bound && Abs(r2) < bound
    requires (r1 >= 0 && r2 >= 0) || (r1 <= 0 && r2 <= 0)
    ensures Abs(r1 - r2) < bound
  {
  }

  lemma Distribute(t: int, q: int, b: int)
    ensures t * b - q * b == (t - q) * b
  {
  }

  /** Dividing an exact multiple leaves no rounding. */
  lemma TruncDivExact(k: int, b: int)
    requires b != 0
    ensures TruncDiv(k * b, b) == k
  {
    TruncDivUnique(k * b, b, k);
  }

  /** Reading back the quotient detects wrap-around: `Wrap(a * b) / a == b`
      holds exactly when `a * b` is representable. The C++ code relies on
      this for the product in `mult_div` and for `convert_from_source`. */
  lemma QuotientCheckExact(w: Width, a: int, b: int)
    requires a != 0 && Abs(a) < Modulus(w)
    ensures TruncDiv(Wrap(w, a * b), a) == b <==> InRange(w, a * b)
  {
    if InRange(w, a * b) {
      assert a * b == b * a;
      TruncDivExact(b, a);
    }
    if TruncDiv(Wrap(w, a * b), a) == b {
      var r := Wrap(w, a * b);
      assert Abs(r - a * b) < Abs(a);
      SmallMultipleIsZero(r - a * b, Modulus(w));
    }
  }

  // ---------------------------------------------------------------------
  // Arithmetic helpers

  lemma DivModUnique(x: int, m: int, q: int, r: int)
    requires m > 0 && x == m * q + r && 0 <= r < m
    ensures x / m == q && x % m == r
  {
    var q' := x / m;
    var r' := x % m;
    assert m * q' + r' == m * q + r;
    assert m * (q' - q) == r - r';
    if q' > q {
      MulAtLeast(q' - q, m);
    } else if q' < q {
      MulAtLeast(q - q', m);
    }
  }

  lemma MultipleMod(m: int, k: int)
    requires m > 0
    ensures (m * k) % m == 0
  {
    DivModUnique(m * k, m, k, 0);
  }

  lemma MulAtLeast(k: int, m: int)
    requires k >= 1 && m >= 0
    ensures k * m >= m
  {
    assert k * m == (k - 1) * m + m;
  }

  lemma AbsMul(a: int, b: int)
    ensures Abs(a * b) == Abs(a) * Abs(b)
  {
    if a < 0 && b < 0 {
      assert a * b == (-a) * (-b);
    } else if a < 0 {
      assert a * b == -((-a) * b);
    } else if b < 0 {
      assert a * b == -(a * (-b));
    }
  }

  /** A multiple of `m` smaller than `m` in magnitude is zero. */
  lemma SmallMultipleIsZero(z: int, m: int)
    requires m > 0 && z % m == 0 && Abs(z) < m
    ensures z == 0
  {
    var k := z / m;
    assert z == m * k;
    if k >= 1 {
      MulAtLeast(k, m);
    }
  }
}
