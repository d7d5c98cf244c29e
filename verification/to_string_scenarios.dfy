/** The library's "Convert to string" scenarios: values with four fraction
    digits in 64-bit storage, given by their raw value. */
module ToStringScenarios {
  import opened Storage
  import opened FixedPoint
  import opened DecimalText
  import opened Render

  /** The text of a value whose integer digits `wi` and four fraction digits
      `wf` are given, at four fraction digits in 64-bit storage. */
  lemma Spelled(c: Config, x: Fixed, negative: bool, wi: string, wf: string, s: string)
    requires c == Config(W64, 4)
    requires Canonical(wi) && (|wi| == 1 || |wi| == 4) && |wf| == 4 && AllDigits(wf)
    requires negative <==> x.raw < 0
    requires Abs(x.raw) == (if |wi| == 1 then Digit(wi[0]) else
      Digit(wi[0]) * 1000 + Digit(wi[1]) * 100 + Digit(wi[2]) * 10 + Digit(wi[3])) * 10000
      + Digit(wf[0]) * 1000 + Digit(wf[1]) * 100 + Digit(wf[2]) * 10 + Digit(wf[3])
    requires s == (if negative then "-" else "") + (wi + "." + wf)
    ensures ToString(c, x) == s
  {
    if |wi| == 1 {
      DigitsValue1(wi);
    } else {
      DigitsValue4(wi);
    }
    DigitsValue4(wf);
    assert c.Scale() == 10000;
    ToStringFromSpellings(c, x, negative, wi, wf);
  }

  /** 1234.9876 */
  lemma WholeAndFractionText(c: Config, x: Fixed)
    requires c == Config(W64, 4) && x.raw == 12349876
    ensures ToString(c, x) == "1234.9876"
  {
    Spelled(c, x, false, "1234", "9876", "1234.9876");
  }

  /** 1234.0 */
  lemma WholeOnlyText(c: Config, x: Fixed)
    requires c == Config(W64, 4) && x.raw == 12340000
    ensures ToString(c, x) == "1234.0000"
  {
    Spelled(c, x, false, "1234", "0000", "1234.0000");
  }

  /** 0.1234 */
  lemma FractionOnlyText(c: Config, x: Fixed)
    requires c == Config(W64, 4) && x.raw == 1234
    ensures ToString(c, x) == "0.1234"
  {
    Spelled(c, x, false, "0", "1234", "0.1234");
  }

  /** -1234.9876 */
  lemma NegativeWholeAndFractionText(c: Config, x: Fixed)
    requires c == Config(W64, 4) && x.raw == -12349876
    ensures ToString(c, x) == "-1234.9876"
  {
    Spelled(c, x, true, "1234", "9876", "-1234.9876");
  }

  /** -0.1234 */
  lemma NegativeFractionOnlyText(c: Config, x: Fixed)
    requires c == Config(W64, 4) && x.raw == -1234
    ensures ToString(c, x) == "-0.1234"
  {
    Spelled(c, x, true, "0", "1234", "-0.1234");
  }

  /** 1234.0076 */
  lemma LeadingFractionZerosText(c: Config, x: Fixed)
    requires c == Config(W64, 4) && x.raw == 12340076
    ensures ToString(c, x) == "1234.0076"
  {
    Spelled(c, x, false, "1234", "0076", "1234.0076");
  }

  /** 1234.007 */
  lemma TrailingFractionZeroText(c: Config, x: Fixed)
    requires c == Config(W64, 4) && x.raw == 12340070
    ensures ToString(c, x) == "1234.0070"
  {
    Spelled(c, x, false, "1234", "0070", "1234.0070");
  }

  /** -1234.0076 */
  lemma NegativeLeadingFractionZerosText(c: Config, x: Fixed)
    requires c == Config(W64, 4) && x.raw == -12340076
    ensures ToString(c, x) == "-1234.0076"
  {
    Spelled(c, x, true, "1234", "0076", "-1234.0076");
  }

  /** -1234.007 */
  lemma NegativeTrailingFractionZeroText(c: Config, x: Fixed)
    requires c == Config(W64, 4) && x.raw == -12340070
    ensures ToString(c, x) == "-1234.0070"
  {
    Spelled(c, x, true, "1234", "0070", "-1234.0070");
  }
}
