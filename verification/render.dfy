/** `get_parts` and `to_string`: splitting a value into sign, integer part
    and fraction part, and spelling it as `[-]<integer>.<fraction>` with the
    fraction zero-padded to the digit count. */
module Render {
  import opened Outcome
  import opened Storage
  import opened Scale
  import opened RoundPolicy
  import opened FixedPoint
  import opened DecimalText

  /** `number_parts`. `integer` and `fractional` are magnitudes. */
  datatype Parts = Parts(negative: bool, integer: int, fractional: int)

  /** `get_parts`, with the integer part's magnitude kept exact: the
      truncated quotient by the scale, the distance from its multiple of the
      scale to the raw value, and the sign of the raw value. */
  function GetParts(c: Config, x: Fixed): (p: Parts)
    ensures p.negative <==> x.raw < 0
    ensures p.integer >= 0 && 0 <= p.fractional < c.Scale()
    ensures Abs(x.raw) == p.integer * c.Scale() + p.fractional
  {
    var s := c.Scale();
    var q := TruncDiv(x.raw, s);
    var scaled := q * s;
    var fractional := if x.raw > scaled then x.raw - scaled else scaled - x.raw;
    var negative := x.raw < 0;
    TruncatedParts(x.raw, s);
    Parts(negative, if negative then -q else q, fractional)
  }

  /** The sign and remainder facts `GetParts` is built on. */
  lemma TruncatedParts(a: int, s: int)
    requires s >= 1
    ensures var q := TruncDiv(a, s);
            && (a >= 0 ==> q >= 0 && 0 <= a - q * s < s)
            && (a < 0 ==> q <= 0 && 0 <= q * s - a < s && (-q) * s == -(q * s))
  {
  }

  /** `get_parts` as written: the magnitude of the integer part is negated
      in the storage type and cast back to it. For 8- and 16-bit storage
      the negation happens in `int` and the cast wraps; for 32 and 64 bits
      negating MIN is undefined, which is excluded here. */
  function GetPartsAsWritten(c: Config, x: Fixed): (p: Parts)
    requires Fits(c, x)
    requires Promoted(c.width) || x.raw != Min(c.width) || c.digits != 0
    ensures InRange(c.width, p.integer)
    ensures p.negative == GetParts(c, x).negative
    ensures p.fractional == GetParts(c, x).fractional
  {
    var p := GetParts(c, x);
    p.(integer := Wrap(c.width, p.integer))
  }

  /** The parts are the only ones with their properties: `GetParts` is the
      division of |raw| by the scale, with the sign kept aside. */
  lemma GetPartsUnique(c: Config, x: Fixed, p: Parts)
    requires p.negative <==> x.raw < 0
    requires p.integer >= 0 && 0 <= p.fractional < c.Scale()
    requires Abs(x.raw) == p.integer * c.Scale() + p.fractional
    ensures p == GetParts(c, x)
  {
    var g := GetParts(c, x);
    var s := c.Scale();
    assert s * p.integer == p.integer * s && s * g.integer == g.integer * s;
    DivModUnique(Abs(x.raw), s, p.integer, p.fractional);
    DivModUnique(Abs(x.raw), s, g.integer, g.fractional);
  }

  /** The exact integer part fits the storage type except for MIN with no
      fraction digits, whose magnitude is MAX + 1. */
  lemma IntegerPartFits(c: Config, x: Fixed)
    requires c.Valid() && Fits(c, x)
    ensures GetParts(c, x).integer <= Max(c.width) <==> !(x.raw == Min(c.width) && c.digits == 0)
  {
    var p := GetParts(c, x);
    var s, i := c.Scale(), p.integer;
    if c.digits == 0 {
      assert s == 1;
    }
  }

  /** The as-written parts differ from the exact ones only for MIN with no
      fraction digits at 8 and 16 bits, where the integer part 128 or 32768
      wraps to MIN. */
  lemma GetPartsAsWrittenDiffers(c: Config, x: Fixed)
    requires c.Valid() && Fits(c, x)
    requires Promoted(c.width) || x.raw != Min(c.width) || c.digits != 0
    ensures GetPartsAsWritten(c, x) != GetParts(c, x) <==> x.raw == Min(c.width) && c.digits == 0
    ensures x.raw == Min(c.width) && c.digits == 0 ==>
              && Promoted(c.width)
              && GetParts(c, x).integer == Max(c.width) + 1
              && GetPartsAsWritten(c, x).integer == Min(c.width)
  {
    IntegerPartFits(c, x);
    var i := GetParts(c, x).integer;
    if x.raw == Min(c.width) && c.digits == 0 {
      assert i == Max(c.width) + 1;
      WrapWindow(c.width, i, -1);
    }
  }

  // -----------------------------------------------------------------------
  // to_string

  /** The width of the fraction field: the digit count, but at least one
      (with no fraction digits the field is the single character '0'). */
  function FractionWidth(c: Config): nat {
    if c.digits == 0 then 1 else c.digits
  }

  /** The fraction field: the fraction part's decimal spelling, padded on
      the left with zeros up to the digit count. */
  function FractionText(c: Config, f: nat): string {
    PadLeft(c.digits, NatToString(f))
  }

  /** A fraction part below the scale fills the field exactly, and the
      field spells it. */
  lemma FractionTextFacts(c: Config, f: nat)
    requires f < c.Scale()
    ensures |FractionText(c, f)| == FractionWidth(c)
    ensures AllDigits(FractionText(c, f))
    ensures DigitsValue(FractionText(c, f)) == f
  {
    var t := NatToString(f);
    if f == 0 {
      assert t == "0";
    } else {
      ScaleBelowIff(f, c.digits);
    }
    if c.digits > |t| {
      PaddedValue(c.digits - |t|, t);
    } else {
      assert FractionText(c, f) == t;
    }
  }

  /** Conversely, every field of the right width is the fraction field of
      the value it spells. */
  lemma FractionTextUnique(c: Config, wf: string)
    requires AllDigits(wf) && |wf| == FractionWidth(c)
    requires c.digits == 0 ==> DigitsValue(wf) == 0
    ensures DigitsValue(wf) < c.Scale()
    ensures FractionText(c, DigitsValue(wf)) == wf
  {
    PaddedSpellingUnique(wf);
    DigitsValueBound(wf);
    var t := NatToString(DigitsValue(wf));
    assert PadLeft(FractionWidth(c), t) == wf;
  }

  /** The text `to_string` builds from the parts. */
  function Format(c: Config, p: Parts): string
    requires p.fractional >= 0
  {
    var sign := if p.negative then "-" else "";
    sign + IntToString(p.integer) + "." + FractionText(c, p.fractional)
  }

  /** `to_string` over the exact parts. */
  function ToString(c: Config, x: Fixed): (s: string)
    ensures |s| >= 3 && '.' in s
    ensures s[0] == '-' <==> x.raw < 0
  {
    var p := GetParts(c, x);
    var w := IntToString(p.integer);
    var s := Format(c, p);
    assert !p.negative ==> s[0] == w[0];
    assert p.negative ==> s[0] == '-';
    assert s[|Format(c, p)| - |FractionText(c, p.fractional)| - 1] == '.';
    s
  }

  /** `to_string` as written, over the as-written parts. */
  function ToStringAsWritten(c: Config, x: Fixed): string
    requires Fits(c, x)
    requires Promoted(c.width) || x.raw != Min(c.width) || c.digits != 0
  {
    Format(c, GetPartsAsWritten(c, x))
  }

  // -----------------------------------------------------------------------
  // Reading the text back

  /** The index of the first '.', or the length when there is none. */
  function DotIndex(s: string): (i: nat)
    ensures i <= |s|
    ensures i < |s| ==> s[i] == '.'
    ensures forall j :: 0 <= j < i ==> s[j] != '.'
  {
    if |s| == 0 || s[0] == '.' then 0 else DotIndex(s[1..]) + 1
  }

  /** Reads `<integer>.<fraction>` back into a magnitude: the integer part
      must be a canonical spelling and the fraction field exactly
      `FractionWidth` digits. Anything else is rejected. */
  function ParseUnsigned(c: Config, body: string): Option<int> {
    var dot := DotIndex(body);
    if dot == |body| then None
    else
      var whole, fraction := body[..dot], body[dot + 1..];
      if Canonical(whole) && AllDigits(fraction) && |fraction| == FractionWidth(c) then
        Some(DigitsValue(whole) * c.Scale() + DigitsValue(fraction))
      else
        None
  }

  /** Reads `[-]<integer>.<fraction>` back into a raw value. */
  function ParseRendered(c: Config, s: string): Option<Fixed> {
    if |s| >= 1 && s[0] == '-' then
      match ParseUnsigned(c, s[1..])
      case None => None
      case Some(m) => Some(Fixed(-m))
    else
      match ParseUnsigned(c, s)
      case None => None
      case Some(m) => Some(Fixed(m))
  }

  /** A canonical integer spelling, a point and anything: the text splits
      at that point and does not start with '-'. */
  lemma SplitAtDot(w: string, f: string)
    requires Canonical(w)
    ensures var body := w + "." + f;
            && DotIndex(body) == |w| && |w| < |body|
            && body[..|w|] == w && body[|w| + 1..] == f
            && body[0] != '-'
  {
    var t := w + "." + f;
    assert t[|w|] == '.';
    assert t[..|w|] == w;
    assert t[|w| + 1..] == f;
    assert t[0] == w[0];
  }

  /** The text of parts with a non-negative integer part: the optional
      sign, then the integer digits, the point and the fraction field. */
  lemma FormatShape(c: Config, p: Parts)
    requires p.integer >= 0 && p.fractional >= 0
    ensures Format(c, p) == (if p.negative then "-" else "")
                            + (NatToString(p.integer) + "." + FractionText(c, p.fractional))
  {
  }

  /** Reading a well-formed unsigned text, split at its point: the integer
      digits scaled, plus the fraction field. */
  lemma ParseAt(c: Config, w: string, f: string, body: string)
    requires Canonical(w) && AllDigits(f) && |f| == FractionWidth(c)
    requires DotIndex(body) == |w| && |w| < |body| && body[..|w|] == w && body[|w| + 1..] == f
    ensures ParseUnsigned(c, body) == Some(DigitsValue(w) * c.Scale() + DigitsValue(f))
  {
  }

  /** The unsigned part of `to_string`'s text reads back as the integer
      part scaled plus the fraction part. */
  lemma BodyReadsBack(c: Config, p: Parts, w: string, f: string, body: string, v: int)
    requires p.integer >= 0 && 0 <= p.fractional < c.Scale()
    requires w == NatToString(p.integer) && f == FractionText(c, p.fractional)
    requires body == w + "." + f
    requires v == p.integer * c.Scale() + p.fractional
    ensures ParseUnsigned(c, body) == Some(v)
    ensures |body| >= 1 && body[0] != '-'
  {
    FractionTextFacts(c, p.fractional);
    SplitAtDot(w, f);
    ParseAt(c, w, f, body);
  }

  /** The text is the sign followed by the unsigned body. */
  lemma ToStringBody(c: Config, x: Fixed, p: Parts, body: string)
    requires p == GetParts(c, x)
    requires body == NatToString(p.integer) + "." + FractionText(c, p.fractional)
    ensures ToString(c, x) == (if p.negative then "-" else "") + body
  {
    FormatShape(c, p);
  }

  /** A leading '-' negates what the rest reads as. */
  lemma ParseNegative(c: Config, body: string)
    ensures ParseRendered(c, "-" + body) == match ParseUnsigned(c, body)
                                            case None => None
                                            case Some(m) => Some(Fixed(-m))
  {
    assert ("-" + body)[1..] == body;
  }

  /** Without it, the text reads as its magnitude. */
  lemma ParseNonNegative(c: Config, body: string)
    requires |body| >= 1 && body[0] != '-'
    ensures ParseRendered(c, body) == match ParseUnsigned(c, body)
                                      case None => None
                                      case Some(m) => Some(Fixed(m))
  {
  }

  /** A sign in front of a text that reads as |raw| reads as raw. */
  lemma SignedReadsBack(c: Config, x: Fixed, t: string, body: string, negative: bool)
    requires negative <==> x.raw < 0
    requires t == (if negative then "-" else "") + body
    requires ParseUnsigned(c, body) == Some(Abs(x.raw))
    requires |body| >= 1 && body[0] != '-'
    ensures ParseRendered(c, t) == Some(x)
  {
    if negative {
      ParseNegative(c, body);
    } else {
      assert t == body;
      ParseNonNegative(c, body);
    }
  }

  /** `to_string` loses nothing: reading its text back gives the value. */
  lemma ToStringRoundTrip(c: Config, x: Fixed)
    ensures ParseRendered(c, ToString(c, x)) == Some(x)
  {
    var p := GetParts(c, x);
    var w, f := NatToString(p.integer), FractionText(c, p.fractional);
    var body := w + "." + f;
    BodyReadsBack(c, p, w, f, body, Abs(x.raw));
    ToStringBody(c, x, p, body);
    SignedReadsBack(c, x, ToString(c, x), body, p.negative);
  }

  /** Two values have the same text exactly when they are equal. */
  lemma ToStringInjective(c: Config, x: Fixed, y: Fixed)
    ensures ToString(c, x) == ToString(c, y) <==> x == y
  {
    ToStringRoundTrip(c, x);
    ToStringRoundTrip(c, y);
  }

  /** The as-written text is the exact one whenever the as-written parts
      are, i.e. everywhere but MIN with no fraction digits. */
  lemma ToStringAsWrittenAgrees(c: Config, x: Fixed)
    requires c.Valid() && Fits(c, x)
    requires !(x.raw == Min(c.width) && c.digits == 0)
    ensures ToStringAsWritten(c, x) == ToString(c, x)
  {
    GetPartsAsWrittenDiffers(c, x);
  }

  /** Parts with a negative integer field spell an extra minus sign. */
  lemma FormatNegated(c: Config, i: int, f: int)
    requires i > 0 && f >= 0
    ensures Format(c, Parts(true, -i, f)) == "-" + Format(c, Parts(true, i, f))
  {
    assert IntToString(-i) == "-" + IntToString(i);
  }

  /** A text whose integer field starts with '-' is rejected. */
  lemma ParseRejectsSign(c: Config, body: string)
    requires |body| >= 1 && body[0] == '-'
    ensures ParseUnsigned(c, body) == None
  {
    var dot := DotIndex(body);
    if dot < |body| {
      assert body[..dot][0] == '-';
    }
  }

  /** MIN with no fraction digits at 8 or 16 bits: the as-written text is
      the exact one with a second minus sign in front, and it reads back as
      nothing, where the exact text reads back as MIN. */
  lemma MinToStringAsWritten(c: Config, x: Fixed)
    requires Promoted(c.width) && c.digits == 0 && x.raw == Min(c.width)
    ensures ToStringAsWritten(c, x) == "-" + ToString(c, x)
    ensures ToString(c, x)[0] == '-'
    ensures ParseRendered(c, ToStringAsWritten(c, x)) == None
    ensures ParseRendered(c, ToString(c, x)) == Some(x)
  {
    MinSignDoubled(c, x);
    ToStringRoundTrip(c, x);
    var t := ToString(c, x);
    ParseNegative(c, t);
    ParseRejectsSign(c, t);
  }

  /** At MIN with no fraction digits the as-written text is the exact text
      with a second sign in front. */
  lemma MinSignDoubled(c: Config, x: Fixed)
    requires Promoted(c.width) && c.digits == 0 && x.raw == Min(c.width)
    ensures ToStringAsWritten(c, x) == "-" + ToString(c, x)
  {
    assert c.Valid();
    GetPartsAsWrittenDiffers(c, x);
    var p := GetParts(c, x);
    assert p.fractional == 0 && p.negative;
    assert GetPartsAsWritten(c, x) == Parts(true, -p.integer, 0);
    FormatNegated(c, p.integer, 0);
  }

  /** The text of a value from the spellings of its two parts. */
  lemma ToStringSpelled(c: Config, x: Fixed, negative: bool, i: nat, f: nat, wi: string, wf: string)
    requires GetParts(c, x) == Parts(negative, i, f)
    requires NatToString(i) == wi && FractionText(c, f) == wf
    ensures ToString(c, x) == (if negative then "-" else "") + (wi + "." + wf)
  {
    FormatShape(c, GetParts(c, x));
  }

  /** The text of a value whose integer part and fraction field are
      spelled `wi` and `wf`. */
  lemma ToStringFromSpellings(c: Config, x: Fixed, negative: bool, wi: string, wf: string)
    requires Canonical(wi) && AllDigits(wf) && |wf| == FractionWidth(c)
    requires c.digits == 0 ==> DigitsValue(wf) == 0
    requires negative <==> x.raw < 0
    requires Abs(x.raw) == DigitsValue(wi) * c.Scale() + DigitsValue(wf)
    ensures ToString(c, x) == (if negative then "-" else "") + (wi + "." + wf)
  {
    FractionTextUnique(c, wf);
    NatToStringUnique(wi);
    GetPartsUnique(c, x, Parts(negative, DigitsValue(wi), DigitsValue(wf)));
    ToStringSpelled(c, x, negative, DigitsValue(wi), DigitsValue(wf), wi, wf);
  }

  /** The counterexample at 8 bits: -128 with no fraction digits. */
  lemma Int8MinText(c: Config, x: Fixed)
    requires c == Config(W8, 0) && x.raw == -128
    ensures ToString(c, x) == "-128.0"
    ensures ToStringAsWritten(c, x) == "--128.0"
  {
    Int8MinSpelled(c, x, "128", "0", "-128.0");
    MinSignDoubledText(c, x, "-128.0", "--128.0");
  }

  /** The exact text of -128 at 8 bits, spelled from its digits. */
  lemma Int8MinSpelled(c: Config, x: Fixed, wi: string, wf: string, s: string)
    requires c == Config(W8, 0) && x.raw == -128
    requires wi == ['1', '2', '8'] && wf == ['0'] && s == "-" + (wi + "." + wf)
    ensures ToString(c, x) == s
  {
    DigitsValue3(wi);
    DigitsValue1(wf);
    ToStringFromSpellings(c, x, true, wi, wf);
  }

  /** `MinSignDoubled` for a given exact text. */
  lemma MinSignDoubledText(c: Config, x: Fixed, s: string, t: string)
    requires Promoted(c.width) && c.digits == 0 && x.raw == Min(c.width)
    requires ToString(c, x) == s && t == "-" + s
    ensures ToStringAsWritten(c, x) == t
  {
    MinSignDoubled(c, x);
  }
}
