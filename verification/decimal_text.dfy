/** `std::to_string` on integers: the shortest decimal spelling of a value,
    with a leading '-' when it is negative. */
module DecimalText {
  import opened Storage
  import opened Scale

  predicate IsDigit(ch: char) {
    '0' <= ch <= '9'
  }

  predicate AllDigits(s: string) {
    forall i :: 0 <= i < |s| ==> IsDigit(s[i])
  }

  /** A spelling `std::to_string` can produce for a natural number: digits
      only, at least one, and no leading zero unless the number is zero. */
  predicate Canonical(s: string) {
    |s| >= 1 && AllDigits(s) && (|s| > 1 ==> s[0] != '0')
  }

  function DigitChar(d: int): (ch: char)
    requires 0 <= d < 10
    ensures IsDigit(ch) && ch as int - '0' as int == d
  {
    ('0' as int + d) as char
  }

  /** The number a string of decimal digits spells, most significant first. */
  function DigitsValue(s: string): nat
    requires AllDigits(s)
  {
    if |s| == 0 then 0
    else DigitsValue(s[..|s| - 1]) * 10 + (s[|s| - 1] as int - '0' as int)
  }

  /** The decimal spelling of a natural number. Its length is the digit
      count `calc_max_decimal_digits_num` computes. */
  function NatToString(n: nat): (s: string)
    decreases n
    ensures Canonical(s)
    ensures |s| == DecimalDigits(n)
    ensures DigitsValue(s) == n
  {
    if n < 10 then
      [DigitChar(n)]
    else
      var prefix := NatToString(n / 10);
      var s := prefix + [DigitChar(n % 10)];
      assert s[..|s| - 1] == prefix;
      assert TruncDiv(n, 10) == n / 10;
      s
  }

  /** `std::to_string` of a signed value. */
  function IntToString(i: int): (s: string)
    ensures |s| >= 1
    ensures AllDigits(s) <==> i >= 0
    ensures i >= 0 ==> Canonical(s) && DigitsValue(s) == i
    ensures i < 0 ==> s[0] == '-' && Canonical(s[1..]) && DigitsValue(s[1..]) == -i
  {
    if i < 0 then
      var s := "-" + NatToString(-i);
      assert s[1..] == NatToString(-i);
      assert !IsDigit(s[0]);
      s
    else
      NatToString(i)
  }

  /** Every canonical spelling is the one `NatToString` produces for its
      value: the spelling of a number is unique. */
  lemma {:induction false} NatToStringUnique(s: string)
    requires Canonical(s)
    ensures NatToString(DigitsValue(s)) == s
    decreases |s|
  {
    var n := DigitsValue(s);
    var d := s[|s| - 1] as int - '0' as int;
    var p := s[..|s| - 1];
    if |s| == 1 {
      assert p == [];
      assert [DigitChar(d)] == s;
    } else {
      assert p[0] == s[0];
      assert Canonical(p);
      NatToStringUnique(p);
      var m := DigitsValue(p);
      assert m >= 1;
      DivModUnique(n, 10, m, d);
      assert NatToString(n) == NatToString(m) + [DigitChar(d)];
      SplitLast(s);
    }
  }

  lemma SplitLast(s: string)
    requires |s| >= 1
    ensures s == s[..|s| - 1] + [s[|s| - 1]]
  {
  }

  /** `n` zero characters. */
  function Zeros(n: nat): (s: string)
    ensures |s| == n && AllDigits(s)
  {
    if n == 0 then "" else Zeros(n - 1) + "0"
  }

  lemma {:induction false} ZerosValue(n: nat)
    ensures DigitsValue(Zeros(n)) == 0
  {
    if n > 0 {
      var s := Zeros(n);
      assert s[..|s| - 1] == Zeros(n - 1);
      ZerosValue(n - 1);
    }
  }

  /** Appending digits shifts the value of the front part by one power of
      ten per appended digit. */
  lemma {:induction false} DigitsValueAppend(a: string, b: string)
    requires AllDigits(a) && AllDigits(b)
    ensures AllDigits(a + b)
    ensures DigitsValue(a + b) == DigitsValue(a) * DecimalScale(|b|) + DigitsValue(b)
    decreases |b|
  {
    if |b| == 0 {
      assert a + b == a;
    } else {
      var b' := b[..|b| - 1];
      var ab := a + b;
      assert ab[..|ab| - 1] == a + b';
      DigitsValueAppend(a, b');
      ShiftTen(DigitsValue(a), DecimalScale(|b'|), DigitsValue(b'));
    }
  }

  lemma ShiftTen(x: int, y: int, z: int)
    ensures (x * y + z) * 10 == x * (y * 10) + z * 10
  {
  }

  /** Zero padding on the left does not change the value. */
  lemma PaddedValue(n: nat, t: string)
    requires AllDigits(t)
    ensures AllDigits(Zeros(n) + t)
    ensures DigitsValue(Zeros(n) + t) == DigitsValue(t)
  {
    ZerosValue(n);
    DigitsValueAppend(Zeros(n), t);
  }

  /** `t` padded on the left with zeros to at least `width` characters. */
  function PadLeft(width: nat, t: string): (r: string)
    ensures |r| == if width > |t| then width else |t|
  {
    (if width > |t| then Zeros(width - |t|) else "") + t
  }

  lemma {:induction false} ZerosCons(n: nat)
    requires n >= 1
    ensures Zeros(n) == "0" + Zeros(n - 1)
  {
    if n > 1 {
      ZerosCons(n - 1);
      assert Zeros(n) == ("0" + Zeros(n - 2)) + "0";
    }
  }

  /** A digit string of some width is the zero-padded spelling of its
      value at that width: the padded spelling is unique. */
  lemma {:induction false} PaddedSpellingUnique(w: string)
    requires |w| >= 1 && AllDigits(w)
    ensures PadLeft(|w|, NatToString(DigitsValue(w))) == w
    decreases |w|
  {
    if |w| == 1 || w[0] != '0' {
      NatToStringUnique(w);
    } else {
      var rest := w[1..];
      LeadingZero(w);
      PaddedSpellingUnique(rest);
      PadOneMore(rest, NatToString(DigitsValue(rest)));
    }
  }

  /** A leading zero adds nothing to the value. */
  lemma LeadingZero(w: string)
    requires |w| >= 2 && AllDigits(w) && w[0] == '0'
    ensures w == "0" + w[1..]
    ensures DigitsValue(w) == DigitsValue(w[1..])
  {
    var z, r := w[..1], w[1..];
    assert w == z + r && z == "0";
    assert z[..0] == "";
    assert DigitsValue(z) == 0;
    DigitsValueAppend(z, r);
  }

  /** Padding one character wider puts one more zero in front. */
  lemma PadOneMore(rest: string, t: string)
    requires PadLeft(|rest|, t) == rest
    ensures PadLeft(|rest| + 1, t) == "0" + rest
  {
    ZerosCons(|rest| + 1 - |t|);
  }

  /** The value of a digit string is below ten to the power of its
      length. */
  lemma {:induction false} DigitsValueBound(s: string)
    requires AllDigits(s)
    ensures DigitsValue(s) < DecimalScale(|s|)
    decreases |s|
  {
    if |s| > 0 {
      DigitsValueBound(s[..|s| - 1]);
    }
  }

  function Digit(ch: char): int {
    ch as int - '0' as int
  }

  lemma DigitsValue1(w: string)
    requires |w| == 1 && AllDigits(w)
    ensures DigitsValue(w) == Digit(w[0])
  {
    assert w[..0] == "";
  }

  lemma DigitsValue3(w: string)
    requires |w| == 3 && AllDigits(w)
    ensures DigitsValue(w) == Digit(w[0]) * 100 + Digit(w[1]) * 10 + Digit(w[2])
  {
    var b, c := w[..2], w[..1];
    assert b[..1] == c && c[..0] == "";
    assert DigitsValue(c) == Digit(w[0]);
    assert DigitsValue(b) == DigitsValue(c) * 10 + Digit(w[1]);
  }

  lemma DigitsValue4(w: string)
    requires |w| == 4 && AllDigits(w)
    ensures DigitsValue(w) == Digit(w[0]) * 1000 + Digit(w[1]) * 100 + Digit(w[2]) * 10 + Digit(w[3])
  {
    var a, b, c := w[..3], w[..2], w[..1];
    assert a[..2] == b && b[..1] == c && c[..0] == "";
    assert DigitsValue(c) == Digit(w[0]);
    assert DigitsValue(b) == DigitsValue(c) * 10 + Digit(w[1]);
    assert DigitsValue(a) == DigitsValue(b) * 10 + Digit(w[2]);
  }
}
