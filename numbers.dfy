/**
  JavaScript's `parseFloat` and `Math.round`, over exact rationals (`real`)
  instead of IEEE-754 doubles.
*/
module Numbers {
  import opened Wrappers
  import opened Strings

  function Pow10(n: nat): (r: nat)
    ensures r >= 1
  {
    if n == 0 then 1 else 10 * Pow10(n - 1)
  }

  /** The number of decimal digits at the start of `s`. */
  function LeadingDigits(s: string): (n: nat)
    ensures n <= |s|
    ensures forall i :: 0 <= i < n ==> IsDigit(s[i])
    ensures n < |s| ==> !IsDigit(s[n])
  {
    if s != [] && IsDigit(s[0]) then 1 + LeadingDigits(s[1..]) else 0
  }

  /** The factor denoted by an exponent part `e[+|-]digits` at the start of `s`; 1 when there is none. */
  function ExponentScale(s: string): (r: real)
    ensures r > 0.0
  {
    if |s| >= 2 && (s[0] == 'e' || s[0] == 'E') then
      var signed := s[1] == '+' || s[1] == '-';
      var digits := if signed then s[2..] else s[1..];
      var n := LeadingDigits(digits);
      if n == 0 then 1.0
      else
        var e := DigitsValue(digits[..n]);
        if s[1] == '-' then 1.0 / (Pow10(e) as real) else Pow10(e) as real
    else 1.0
  }

  /** The value of the digits after a decimal point: 0.d1d2... is (d1 + 0.d2...) / 10. */
  function Fraction(digits: string): (r: real)
    requires AllDigits(digits)
    ensures 0.0 <= r < 1.0
  {
    if digits == [] then 0.0
    else ((digits[0] as int - '0' as int) as real + Fraction(digits[1..])) / 10.0
  }

  /** A non-negative mantissa times a positive exponent factor. */
  function Scale(mantissa: real, factor: real): (r: real)
    requires 0.0 <= mantissa && 0.0 < factor
    ensures 0.0 <= r
  {
    if factor == 1.0 then mantissa else mantissa * factor
  }

  /**
    The value of the longest prefix of `s` that is an unsigned decimal literal
    (digits, an optional fraction, an optional exponent); None when there is none.
  */
  function ParseUnsigned(s: string): (r: Option<real>)
    ensures r.Some? <==> (|s| > 0 && IsDigit(s[0])) || (|s| > 1 && s[0] == '.' && IsDigit(s[1]))
    ensures r.Some? ==> r.value >= 0.0
  {
    var a := LeadingDigits(s);
    var hasDot := a < |s| && s[a] == '.';
    var b := if hasDot then LeadingDigits(s[a + 1..]) else 0;
    if a == 0 && b == 0 then None
    else
      assert AllDigits(s[..a]);
      var whole := DigitsValue(s[..a]) as real;
      var frac := if hasDot then (assert AllDigits(s[a + 1..][..b]); Fraction(s[a + 1..][..b])) else 0.0;
      var rest := if hasDot then s[a + 1 + b..] else s[a..];
      Some(Scale(whole + frac, ExponentScale(rest)))
  }

  /** The text `parseFloat` reads after its leading whitespace and optional sign. */
  function Unsigned(s: string): string {
    var t := TrimStart(s);
    if |t| > 0 && (t[0] == '-' || t[0] == '+') then t[1..] else t
  }

  /**
    `parseFloat(s)`: skip leading whitespace, read an optional sign and the
    longest decimal prefix. None stands for NaN.
  */
  function ParseFloat(s: string): (r: Option<real>)
    ensures r.Some? <==> ParseUnsigned(Unsigned(s)).Some?
    ensures r.Some? && r.value < 0.0 ==> TrimStart(s)[0] == '-'
  {
    var t := TrimStart(s);
    if |t| > 0 && t[0] == '-' then
      match ParseUnsigned(t[1..])
      case None => None
      case Some(v) => Some(-v)
    else if |t| > 0 && t[0] == '+' then ParseUnsigned(t[1..])
    else ParseUnsigned(t)
  }

  /** A non-empty string of digits parses to its decimal value. */
  lemma ParseFloatDigits(s: string)
    requires |s| >= 1 && AllDigits(s)
    ensures ParseFloat(s) == Some(DigitsValue(s) as real)
  {
    assert !IsWhitespace(s[0]);
    assert TrimStart(s) == s;
    assert s[0] != '-' && s[0] != '+';
    ParseUnsignedDigits(s);
  }

  /** Digits with nothing after them are read whole, with no exponent. */
  lemma ParseUnsignedDigits(s: string)
    requires |s| >= 1 && AllDigits(s)
    ensures ParseUnsigned(s) == Some(DigitsValue(s) as real)
  {
    assert LeadingDigits(s) == |s|;
    assert s[|s|..] == [];
    assert ExponentScale([]) == 1.0;
    assert s[..|s|] == s;
  }

  /** A decimal "whole.frac" parses to the whole part plus the fraction. */
  lemma ParseFloatDecimal(whole: string, frac: string, p: real)
    requires |whole| >= 1 && AllDigits(whole) && AllDigits(frac)
    requires p == DigitsValue(whole) as real + Fraction(frac)
    ensures ParseFloat(whole + "." + frac) == Some(p)
  {
    ParseUnsignedDecimal(whole, frac, p);
    assert (whole + "." + frac)[0] == whole[0];
    ParseFloatFromDigit(whole + "." + frac);
  }

  /** The unsigned literal "whole.frac" is the whole part plus the fraction. */
  lemma ParseUnsignedDecimal(whole: string, frac: string, p: real)
    requires |whole| >= 1 && AllDigits(whole) && AllDigits(frac)
    requires p == DigitsValue(whole) as real + Fraction(frac)
    ensures ParseUnsigned(whole + "." + frac) == Some(p)
  {
    DecimalParts(whole, frac);
    ParseUnsignedParts(whole + "." + frac, whole, frac, p);
  }

  /** Text that starts with a digit is read by `parseFloat` as it stands. */
  lemma ParseFloatFromDigit(s: string)
    requires |s| >= 1 && IsDigit(s[0])
    ensures ParseFloat(s) == ParseUnsigned(s)
  {
    assert !IsWhitespace(s[0]);
    assert TrimStart(s) == s;
  }

  /** Where `parseFloat` finds the parts of "whole.frac". */
  lemma DecimalParts(whole: string, frac: string)
    requires |whole| >= 1 && AllDigits(whole) && AllDigits(frac)
    ensures var s := whole + "." + frac;
      && LeadingDigits(s) == |whole| && s[|whole|] == '.'
      && s[..|whole|] == whole
      && LeadingDigits(s[|whole| + 1..]) == |frac|
      && s[|whole| + 1..][..|frac|] == frac
      && s[|whole| + 1 + |frac|..] == []
  {
    var s := whole + "." + frac;
    var a := |whole|;
    assert forall i :: 0 <= i < a ==> s[i] == whole[i];
    assert s[a] == '.';
    assert LeadingDigits(s) == a;
    assert s[a + 1..] == frac;
    assert LeadingDigits(frac) == |frac|;
    assert s[..a] == whole;
    assert frac[..|frac|] == frac;
  }

  /** Digits, a point and digits, with nothing after them, are read with no exponent. */
  lemma ParseUnsignedPointed(s: string, a: nat, b: nat, p: real)
    requires 1 <= a < |s| && LeadingDigits(s) == a && s[a] == '.'
    requires LeadingDigits(s[a + 1..]) == b && s[a + 1 + b..] == []
    requires AllDigits(s[..a]) && AllDigits(s[a + 1..][..b])
    requires p == DigitsValue(s[..a]) as real + Fraction(s[a + 1..][..b])
    ensures ParseUnsigned(s) == Some(p)
  {
    assert ExponentScale(s[a + 1 + b..]) == 1.0;
  }

  /** The same, with the whole part and the fraction named. */
  lemma ParseUnsignedParts(s: string, whole: string, frac: string, p: real)
    requires 1 <= |whole| < |s| && AllDigits(whole) && AllDigits(frac)
    requires p == DigitsValue(whole) as real + Fraction(frac)
    requires LeadingDigits(s) == |whole| && s[|whole|] == '.' && s[..|whole|] == whole
    requires LeadingDigits(s[|whole| + 1..]) == |frac| && s[|whole| + 1..][..|frac|] == frac
    requires s[|whole| + 1 + |frac|..] == []
    ensures ParseUnsigned(s) == Some(p)
  {
    ParseUnsignedPointed(s, |whole|, |frac|, p);
  }

  /** Text that starts with neither whitespace, a sign, a digit nor a dot is NaN. */
  lemma ParseFloatNoNumber(s: string)
    requires |s| >= 1 && !IsWhitespace(s[0]) && !IsDigit(s[0])
    requires s[0] != '-' && s[0] != '+' && s[0] != '.'
    ensures ParseFloat(s).None?
  {
    assert TrimStart(s) == s;
  }

  /** A string of digits and dots never parses to a negative number. */
  lemma ParseFloatUnsignedText(s: string)
    requires forall i :: 0 <= i < |s| ==> IsDigit(s[i]) || s[i] == '.'
    ensures ParseFloat(s).Some? ==> ParseFloat(s).value >= 0.0
  {
    if s != [] {
      assert TrimStart(s) == s;
    }
  }

  /** `Math.round(x)`: the nearest integer, halves rounded up. */
  function MathRound(x: real): (r: int)
    ensures r as real - 0.5 <= x < r as real + 0.5
  {
    (x + 0.5).Floor
  }

  /** Rounding keeps the order of its arguments. */
  lemma MathRoundMonotone(x: real, y: real)
    requires x <= y
    ensures MathRound(x) <= MathRound(y)
  {
  }
}
