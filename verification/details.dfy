/** `fixed_point_arithmetic::details`: Euclid's gcd and the post-hoc
    overflow predicates for addition and subtraction. */
module Details {
  import opened Storage

  /** `k` divides `n` (only 0 is divisible by 0). */
  predicate Divides(k: nat, n: nat) {
    if k == 0 then n == 0 else n % k == 0
  }

  /** `g` is the greatest common divisor of `a` and `b`: a common divisor
      that every common divisor divides. */
  ghost predicate IsGcd(a: nat, b: nat, g: nat) {
    && Divides(g, a)
    && Divides(g, b)
    && forall k: nat :: Divides(k, a) && Divides(k, b) ==> Divides(k, g)
  }

  /** One Euclid step keeps the common divisors: those of (a, b) are those
      of (b % a, a). */
  lemma CommonDivisorsStep(a: nat, b: nat, k: nat)
    requires a > 0
    ensures Divides(k, a) && Divides(k, b) <==> Divides(k, b % a) && Divides(k, a)
  {
    if k > 0 && a % k == 0 {
      var s := a / k;
      var t := b / a;
      assert a == k * s;
      assert b == k * (s * t) + b % a;
      DivModUnique(b, k, s * t + (b % a) / k, (b % a) % k);
    }
  }

  /** Two gcds of the same pair coincide. */
  lemma GcdUnique(a: nat, b: nat, g1: nat, g2: nat)
    requires IsGcd(a, b, g1) && IsGcd(a, b, g2)
    ensures g1 == g2
  {
    assert Divides(g1, g2) && Divides(g2, g1);
    if g1 != 0 && g2 != 0 {
      DividesBelow(g1, g2);
      DividesBelow(g2, g1);
    }
  }

  lemma DividesBelow(k: nat, n: nat)
    requires k > 0 && n > 0 && Divides(k, n)
    ensures k <= n
  {
    assert n == k * (n / k);
    MulAtLeast(n / k, k);
  }

  /** `details::gcd` written as the tail recursion its loop unrolls to; the
      pure `MultDiv` model uses this form. The result divides both
      arguments; that it is the greatest such is `GcdGreatest`. */
  function Gcd(a: nat, b: nat): (g: nat)
    decreases a
    ensures Divides(g, a) && Divides(g, b)
    ensures b != 0 ==> g > 0
  {
    if a == 0 then
      b
    else
      var g := Gcd(b % a, a);
      CommonDivisorsStep(a, b, g);
      g
  }

  /** Every common divisor of `a` and `b` divides `Gcd(a, b)`. */
  lemma {:induction false} GcdGreatest(a: nat, b: nat, k: nat)
    requires Divides(k, a) && Divides(k, b)
    ensures Divides(k, Gcd(a, b))
    decreases a
  {
    if a != 0 {
      CommonDivisorsStep(a, b, k);
      GcdGreatest(b % a, a, k);
    }
  }

  /** `Gcd` computes the greatest common divisor. */
  lemma GcdIsGcd(a: nat, b: nat)
    ensures IsGcd(a, b, Gcd(a, b))
  {
    forall k: nat | Divides(k, a) && Divides(k, b)
      ensures Divides(k, Gcd(a, b))
    {
      GcdGreatest(a, b, k);
    }
  }

  /** A positive divisor of `n` is its gcd with `n`. */
  lemma GcdOfDivisor(n: nat, m: nat)
    requires m > 0 && Divides(m, n)
    ensures Gcd(n, m) == m
  {
    assert IsGcd(n, m, m) by {
      assert m % m == 0;
    }
    GcdIsGcd(n, m);
    GcdUnique(n, m, m, Gcd(n, m));
  }

  /** `details::gcd` as the source writes it: the while loop replacing
      (a, b) by (b % a, a) until a is zero. The set of common divisors is
      the loop invariant. */
  method GcdLoop(a0: nat, b0: nat) returns (g: nat)
    ensures IsGcd(a0, b0, g)
    ensures b0 != 0 ==> g > 0
    ensures g == Gcd(a0, b0)
  {
    var a, b := a0, b0;
    while a != 0
      invariant forall k: nat :: Divides(k, a) && Divides(k, b) <==> Divides(k, a0) && Divides(k, b0)
      decreases a
    {
      forall k: nat
        ensures Divides(k, a) && Divides(k, b) <==> Divides(k, b % a) && Divides(k, a)
      {
        CommonDivisorsStep(a, b, k);
      }
      a, b := b % a, a;
    }
    g := b;
    assert Divides(g, a) && Divides(g, b);
    GcdIsGcd(a0, b0);
    GcdUnique(a0, b0, g, Gcd(a0, b0));
  }

  /** `details::is_add_overflow`: the sign test applied to a result that has
      already been computed (and wrapped) in the storage type. */
  predicate IsAddOverflow(a: int, b: int, result: int) {
    if a > 0 && b > 0 then result < 0
    else if a < 0 && b < 0 then result > 0
    else false
  }

  /** `details::is_subtract_overflow`: `result = a - b` means `a = b + result`. */
  predicate IsSubtractOverflow(a: int, b: int, result: int) {
    IsAddOverflow(b, result, a)
  }

  /** On the wrapped sum the add predicate flags exactly the sums outside
      the storage range, except MIN + MIN, which wraps to 0 unflagged. */
  lemma AddOverflowDetection(w: Width, a: int, b: int)
    requires InRange(w, a) && InRange(w, b)
    ensures IsAddOverflow(a, b, Wrap(w, a + b))
            <==> !InRange(w, a + b) && !(a == Min(w) && b == Min(w))
  {
    if a + b > Max(w) {
      WrapWindow(w, a + b, -1);
    } else if a + b < Min(w) {
      WrapWindow(w, a + b, 1);
    }
  }

  /** The gap in `is_add_overflow`: MIN + MIN is out of range, wraps to 0,
      and is not reported. */
  lemma AddOverflowMissesMinPlusMin(w: Width)
    ensures !InRange(w, Min(w) + Min(w))
    ensures Wrap(w, Min(w) + Min(w)) == 0
    ensures !IsAddOverflow(Min(w), Min(w), Wrap(w, Min(w) + Min(w)))
  {
    WrapWindow(w, Min(w) + Min(w), 1);
  }

  /** On the wrapped difference the subtract predicate flags exactly the
      differences outside the storage range, except 0 - MIN, which wraps to
      MIN unflagged. */
  lemma SubtractOverflowDetection(w: Width, a: int, b: int)
    requires InRange(w, a) && InRange(w, b)
    ensures IsSubtractOverflow(a, b, Wrap(w, a - b))
            <==> !InRange(w, a - b) && !(a == 0 && b == Min(w))
  {
    if a - b > Max(w) {
      WrapWindow(w, a - b, -1);
    } else if a - b < Min(w) {
      WrapWindow(w, a - b, 1);
    }
  }

  /** The gap in `is_subtract_overflow`: 0 - MIN is out of range, wraps to
      MIN, and is not reported. */
  lemma SubtractOverflowMissesZeroMinusMin(w: Width)
    ensures !InRange(w, 0 - Min(w))
    ensures Wrap(w, 0 - Min(w)) == Min(w)
    ensures !IsSubtractOverflow(0, Min(w), Wrap(w, 0 - Min(w)))
  {
    WrapWindow(w, 0 - Min(w), -1);
  }
}
