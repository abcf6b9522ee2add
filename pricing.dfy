/**
  The displayed price of a product: the feed's "Price + ship" text plus a 4%
  fee that is never less than 5 euro, rounded only after that minimum is
  applied (`adjustPrice`), and the number the sort buttons read back out of
  the displayed text (`extractPrice`).
*/
module Pricing {
  import opened Wrappers
  import opened Strings
  import opened Numbers

  function Max(a: real, b: real): real {
    if a < b then b else a
  }

  /** The adjusted price before rounding: a 4% fee, raised to 5 when it is less. */
  function AdjustedValue(original: real): (r: real)
    ensures r == Max(original + 5.0, original * 1.04)
    ensures r >= original + 5.0
  {
    var adjusted := original * 1.04;
    var increase := adjusted - original;
    if increase < 5.0 then original + 5.0 else adjusted
  }

  /** The text handed to `parseFloat`: first comma made a dot, first " €" removed. */
  function Cleaned(price: string): (r: string)
    ensures |r| <= |price|
    ensures !Contains(price, ",") && !Contains(price, " €") ==> r == price
  {
    if Contains(price, ",") then ReplaceFirst(ReplaceFirst(price, ",", "."), " €", "")
    else ReplaceFirst(price, " €", "")
  }

  /** The price a non-empty, parseable text stands for; None when `adjustPrice` shows "N/A". */
  function OriginalPrice(price: string): (r: Option<real>)
    ensures price == "" ==> r == None
    ensures r.Some? ==> r == ParseFloat(Cleaned(price))
  {
    if price == "" then None else ParseFloat(Cleaned(price))
  }

  /** `€${n}`. */
  function FormatPrice(n: int): (r: string)
    ensures |r| >= 2 && r[0] == '€'
  {
    "€" + IntToString(n)
  }

  /** `adjustPrice(price)`: "N/A", or "€" followed by the rounded adjusted price. */
  function AdjustPrice(price: string): (r: string)
    ensures r == "N/A" <==> OriginalPrice(price).None?
    ensures OriginalPrice(price).Some? ==>
      r == FormatPrice(MathRound(Max(OriginalPrice(price).value + 5.0, OriginalPrice(price).value * 1.04)))
  {
    match OriginalPrice(price)
    case None => "N/A"
    case Some(p) =>
      var adjusted := AdjustedValue(p);
      assert adjusted == Max(OriginalPrice(price).value + 5.0, OriginalPrice(price).value * 1.04);
      FormatPrice(MathRound(adjusted))
  }

  /** The displayed price is never less than 4.5 above the original (5, minus rounding). */
  lemma {:induction false} AdjustedAtLeastFiveMore(p: real)
    ensures MathRound(AdjustedValue(p)) as real > p + 4.5
  {
  }

  /** When 4% is at least 5, the fee is exactly 4%. */
  lemma {:induction false} PercentageFeeWhenLarge(p: real)
    requires p * 0.04 >= 5.0
    ensures AdjustedValue(p) == p * 1.04
  {
  }

  /** A higher original price never gives a lower displayed price. */
  lemma {:induction false} AdjustPriceMonotone(p: real, q: real)
    requires p <= q
    ensures AdjustedValue(p) <= AdjustedValue(q)
    ensures MathRound(AdjustedValue(p)) <= MathRound(AdjustedValue(q))
  {
    MathRoundMonotone(AdjustedValue(p), AdjustedValue(q));
  }

  /** A price written as digits followed by " €" is read as those digits. */
  lemma CleanedDigits(digits: string)
    requires AllDigits(digits)
    ensures Cleaned(digits + " €") == digits
  {
    var s := digits + " €";
    NotContainsByChar(s, ",", ',');
    assert OccursAt(s, " €", |digits|);
    var i := IndexOf(s, " €").value;
    assert i == |digits|;
    assert s[..i] == digits && s[i + 2..] == [];
  }

  /** `adjustPrice` of a whole number of euro written as `${v} €`. */
  lemma AdjustWholePrice(v: nat)
    ensures AdjustPrice(NatToString(v) + " €") == FormatPrice(MathRound(AdjustedValue(v as real)))
  {
    CleanedDigits(NatToString(v));
    ParseFloatDigits(NatToString(v));
  }

  lemma HundredValues()
    ensures NatToString(100) == "100" && MathRound(AdjustedValue(100.0)) == 105 && FormatPrice(105) == "€105"
  {
  }

  /** The minimum-increase path: `adjustPrice("100 €") == "€105"`. */
  lemma AdjustPriceHundred(price: string)
    requires price == "100 €"
    ensures AdjustPrice(price) == "€105"
  {
    HundredValues();
    assert price == "100" + " €";
    AdjustWholePrice(100);
  }

  lemma ThousandValues()
    ensures NatToString(1000) == "1000" && MathRound(AdjustedValue(1000.0)) == 1040 && FormatPrice(1040) == "€1040"
  {
  }

  /** The percentage path: `adjustPrice("1000 €") == "€1040"`. */
  lemma AdjustPriceThousand(price: string)
    requires price == "1000 €"
    ensures AdjustPrice(price) == "€1040"
  {
    ThousandValues();
    assert price == "1000" + " €";
    AdjustWholePrice(1000);
  }

  /** The first comma of "w,f €" is the one after the digits of `w`; it becomes a point. */
  lemma DecimalCommaReplaced(whole: string, frac: string)
    requires AllDigits(whole) && AllDigits(frac)
    ensures Contains(whole + "," + frac + " €", ",")
    ensures ReplaceFirst(whole + "," + frac + " €", ",", ".") == whole + "." + frac + " €"
  {
    var s := whole + "," + frac + " €";
    var a := |whole|;
    assert OccursAt(s, ",", a);
    var i := IndexOf(s, ",").value;
    OccursAtChar(s, ",", i, 0);
    assert forall j :: 0 <= j < a ==> s[j] == whole[j];
    assert i == a;
  }

  /** The first " €" of "w.f €" is the one at the end; it is dropped. */
  lemma DecimalPointEuroDropped(whole: string, frac: string)
    requires AllDigits(whole) && AllDigits(frac)
    ensures ReplaceFirst(whole + "." + frac + " €", " €", "") == whole + "." + frac
  {
    var t := whole + "." + frac + " €";
    var a := |whole|;
    var b := a + 1 + |frac|;
    assert OccursAt(t, " €", b);
    var k := IndexOf(t, " €").value;
    OccursAtChar(t, " €", k, 0);
    assert forall j :: 0 <= j < b ==> t[j] != ' ' by {
      forall j | 0 <= j < b
        ensures t[j] != ' '
      {
        if j < a {
          assert t[j] == whole[j];
        } else if j > a {
          assert t[j] == frac[j - a - 1];
        }
      }
    }
    assert k == b;
    assert t[..k] == whole + "." + frac && t[k + 2..] == [];
  }

  /** A price with a decimal comma, "w,f €", reaches `parseFloat` as "w.f". */
  lemma CleanedDecimalComma(whole: string, frac: string)
    requires AllDigits(whole) && AllDigits(frac)
    ensures Cleaned(whole + "," + frac + " €") == whole + "." + frac
  {
    DecimalCommaReplaced(whole, frac);
    DecimalPointEuroDropped(whole, frac);
  }

  /** What `adjustPrice` shows for a price text that `parseFloat` reads as `p`. */
  lemma AdjustPriceOf(price: string, p: real)
    requires OriginalPrice(price) == Some(p)
    ensures AdjustPrice(price) == FormatPrice(MathRound(AdjustedValue(p)))
  {
  }

  /** A price with a decimal comma is read as the same digits with a decimal point. */
  lemma OriginalDecimalComma(whole: string, frac: string)
    requires AllDigits(whole) && AllDigits(frac)
    ensures OriginalPrice(whole + "," + frac + " €") == ParseFloat(whole + "." + frac)
  {
    CleanedDecimalComma(whole, frac);
    assert |whole + "," + frac + " €"| >= 1;
  }

  /** `adjustPrice` of a price with a decimal comma, written as `${w},${f} €`. */
  lemma AdjustDecimalCommaPrice(whole: string, frac: string, p: real)
    requires |whole| >= 1 && AllDigits(whole) && AllDigits(frac)
    requires p == DigitsValue(whole) as real + Fraction(frac)
    ensures AdjustPrice(whole + "," + frac + " €") == FormatPrice(MathRound(AdjustedValue(p)))
  {
    ParseFloatDecimal(whole, frac, p);
    OriginalDecimalComma(whole, frac);
    AdjustPriceOf(whole + "," + frac + " €", p);
  }

  lemma DecimalCommaDigits()
    ensures DigitsValue("42") == 42 && Fraction("50") == 0.5
  {
    assert "42"[..1] == "4" && "4"[..0] == [];
    assert "50"[1..] == "0" && "0"[1..] == [];
  }

  lemma DecimalCommaRounded()
    ensures MathRound(AdjustedValue(42.5)) == 48 && FormatPrice(48) == "€48"
  {
    assert AdjustedValue(42.5) == 47.5;
    assert NatToString(48) == NatToString(4) + [DigitChar(8)];
  }

  /** The decimal-comma path: `adjustPrice("42,50 €") == "€48"` (47.5, rounded up). */
  lemma AdjustPriceDecimalComma(price: string)
    requires price == "42,50 €"
    ensures AdjustPrice(price) == "€48"
  {
    DecimalCommaDigits();
    DecimalCommaRounded();
    assert price == "42" + "," + "50" + " €";
    AdjustDecimalCommaPrice("42", "50", 42.5);
  }

  /** A price text with neither a comma nor a space reaches `parseFloat` unchanged. */
  lemma CleanedPlain(s: string)
    requires ',' !in s && ' ' !in s
    ensures Cleaned(s) == s
  {
    NotContainsByChar(s, ",", ',');
    NotContainsByChar(s, " €", ' ');
  }

  /** Empty prices, and prices that start with a letter (such as "abc"), are shown as "N/A". */
  lemma AdjustPriceNotANumber(price: string)
    requires price == "" || (',' !in price && ' ' !in price && ('a' <= price[0] <= 'z' || 'A' <= price[0] <= 'Z'))
    ensures AdjustPrice(price) == "N/A"
  {
    if price != "" {
      CleanedPlain(price);
      assert !IsWhitespace(price[0]) && !IsDigit(price[0]);
      ParseFloatNoNumber(price);
    }
  }

  // ---------------------------------------------------------------------------
  // extractPrice

  /** `s.replace(/[^\d.]/g, '')`: keeps only the digits and dots. */
  function KeepDigitsAndDots(s: string): (r: string)
    ensures forall i :: 0 <= i < |r| ==> IsDigit(r[i]) || r[i] == '.'
    ensures (forall i :: 0 <= i < |s| ==> IsDigit(s[i]) || s[i] == '.') ==> r == s
  {
    if s == [] then []
    else
      assert s == [s[0]] + s[1..];
      (if IsDigit(s[0]) || s[0] == '.' then [s[0]] else []) + KeepDigitsAndDots(s[1..])
  }

  /** `extractPrice(priceStr)`: the number in a displayed price; 0 for "N/A" and for no number. */
  function ExtractPrice(priceStr: string): (r: real)
    ensures 0.0 <= r
    ensures priceStr == "N/A" ==> r == 0.0
  {
    if priceStr == "" || priceStr == "N/A" then 0.0
    else
      var num := KeepDigitsAndDots(priceStr);
      ParseFloatUnsignedText(num);
      ParseFloat(num).GetOr(0.0)
  }

  /** Characters other than digits and dots in front of a text are dropped. */
  lemma {:induction false} KeepDigitsAndDotsSkip(prefix: string, t: string)
    requires forall i :: 0 <= i < |prefix| ==> !IsDigit(prefix[i]) && prefix[i] != '.'
    ensures KeepDigitsAndDots(prefix + t) == KeepDigitsAndDots(t)
  {
    if prefix != [] {
      KeepDigitsAndDotsSkip(prefix[1..], t);
      assert (prefix + t)[1..] == prefix[1..] + t;
      assert (prefix + t)[0] == prefix[0];
    } else {
      assert prefix + t == t;
    }
  }

  lemma KeepAfterPrefix(prefix: string, digits: string)
    requires prefix == "€" || prefix == "€-"
    requires AllDigits(digits)
    ensures KeepDigitsAndDots(prefix + digits) == digits
  {
    KeepDigitsAndDotsSkip(prefix, digits);
  }

  /** Reading back a displayed text: the sign and the euro sign are dropped. */
  lemma ExtractSigned(prefix: string, digits: string)
    requires prefix == "€" || prefix == "€-"
    requires |digits| >= 1 && AllDigits(digits)
    ensures ExtractPrice(prefix + digits) == DigitsValue(digits) as real
  {
    var s := prefix + digits;
    assert s[0] == '€';
    assert s != "N/A";
    KeepAfterPrefix(prefix, digits);
    ParseFloatDigits(digits);
  }

  /** Reading a displayed price back gives the magnitude of the integer it shows. */
  lemma ExtractFormattedPrice(n: int)
    ensures ExtractPrice(FormatPrice(n)) == (if n < 0 then -n else n) as real
  {
    if n < 0 {
      assert FormatPrice(n) == "€-" + NatToString(-n);
      ExtractSigned("€-", NatToString(-n));
    } else {
      ExtractSigned("€", NatToString(n));
    }
  }

  /** Sorting by the displayed price sorts by the rounded adjusted price (for non-negative prices). */
  lemma {:induction false} ExtractAdjustedPrice(price: string)
    requires OriginalPrice(price).Some?
    ensures var n := MathRound(AdjustedValue(OriginalPrice(price).value));
      ExtractPrice(AdjustPrice(price)) == (if n < 0 then -n else n) as real
  {
    ExtractFormattedPrice(MathRound(AdjustedValue(OriginalPrice(price).value)));
  }
}
