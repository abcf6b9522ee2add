/**
  Shoe-size equivalence (`matchSizes`): two size labels denote the same size
  when they agree after every comma is made a dot, the ends are trimmed and
  the text is lower-cased, so "42,5", " 42.5" and "42.5" are one size.
*/
module Sizes {
  import opened Strings

  /** `normalize(size)`: commas made dots, then trimmed, then lower-cased. */
  function Normalize(size: string): (r: string)
    ensures |r| <= |size|
    ensures ',' !in r
  {
    var dotted := ReplaceAllChar(size, ',', '.');
    var r := Lower(Trim(dotted));
    assert forall i :: 0 <= i < |r| ==> r[i] != ',' by {
      TrimKeepsChars(dotted);
      forall i | 0 <= i < |r|
        ensures r[i] != ','
      {
        assert Trim(dotted)[i] in Trim(dotted);
      }
    }
    r
  }

  /**
    `matchSizes(filterSize, itemSize)`: equal normal forms, or equal once the
    first dot of one normal form is written as a comma.
  */
  predicate MatchSizes(filterSize: string, itemSize: string)
    ensures Normalize(filterSize) == Normalize(itemSize) ==> MatchSizes(filterSize, itemSize)
  {
    var a := Normalize(filterSize);
    var b := Normalize(itemSize);
    || a == b
    || ReplaceFirst(a, ".", ",") == b
    || a == ReplaceFirst(b, ".", ",")
  }

  /** A normal form never equals a normal form with a dot turned into a comma. */
  lemma SwapNeverMatches(a: string, b: string)
    requires ',' !in a && ',' !in b
    ensures ReplaceFirst(a, ".", ",") == b ==> a == b
  {
    if '.' in a {
      ReplaceFirstCharAt(a, '.', ',');
      var i :| 0 <= i < |a| && a[i] == '.' && ReplaceFirst(a, ".", ",") == a[i := ','];
      assert a[i := ','][i] == ',';
    } else {
      NotContainsByChar(a, ".", '.');
    }
  }

  /**
    The separator-swapping branches never decide anything: two sizes match
    exactly when their normal forms are equal.
  */
  lemma MatchSizesIff(a: string, b: string)
    ensures MatchSizes(a, b) <==> Normalize(a) == Normalize(b)
  {
    SwapNeverMatches(Normalize(a), Normalize(b));
    SwapNeverMatches(Normalize(b), Normalize(a));
  }

  lemma MatchSizesReflexive(a: string)
    ensures MatchSizes(a, a)
  {
  }

  lemma MatchSizesSymmetric(a: string, b: string)
    ensures MatchSizes(a, b) <==> MatchSizes(b, a)
  {
    MatchSizesIff(a, b);
    MatchSizesIff(b, a);
  }

  lemma MatchSizesTransitive(a: string, b: string, c: string)
    requires MatchSizes(a, b) && MatchSizes(b, c)
    ensures MatchSizes(a, c)
  {
    MatchSizesIff(a, b);
    MatchSizesIff(b, c);
  }

  /** A decimal comma and a decimal point name the same size. */
  lemma MatchSizesDecimalComma(whole: string, frac: string)
    ensures MatchSizes(whole + "," + frac, whole + "." + frac)
  {
    var a, b := whole + "," + frac, whole + "." + frac;
    var da, db := ReplaceAllChar(a, ',', '.'), ReplaceAllChar(b, ',', '.');
    assert |da| == |db|;
    forall i | 0 <= i < |da|
      ensures da[i] == db[i]
    {
      if i != |whole| {
        assert a[i] == b[i];
      }
    }
    assert da == db;
    MatchSizesIff(a, b);
  }

  /** `matchSizes("42,5", "42.5")`. */
  lemma MatchSizesExample(a: string, b: string)
    requires a == "42,5" && b == "42.5"
    ensures MatchSizes(a, b)
  {
    assert a == "42" + "," + "5" && b == "42" + "." + "5";
    MatchSizesDecimalComma("42", "5");
  }

  /** A comma-free label with no whitespace at its ends keeps its length when normalized. */
  lemma NormalizeKeepsLength(s: string)
    requires ',' !in s
    requires s == [] || (!IsWhitespace(s[0]) && !IsWhitespace(s[|s| - 1]))
    ensures |Normalize(s)| == |s|
  {
    assert ReplaceAllChar(s, ',', '.') == s;
    TrimNoop(s);
  }

  /** Sizes that differ in more than their separators do not match: "42" is not "42.5". */
  lemma MatchSizesDistinct(a: string, b: string)
    requires a == "42" && b == "42.5"
    ensures !MatchSizes(a, b)
  {
    NormalizeKeepsLength(b);
    assert |Normalize(a)| < |Normalize(b)|;
    MatchSizesIff(a, b);
  }
}
