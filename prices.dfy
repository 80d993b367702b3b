/** `parsePriceToNumber`: a locale-tolerant reading of a money string. It
    trims, keeps only digits, ',', '.' and '-', and then rewrites the
    separators: with both present the dots are thousands separators and the
    first comma is the decimal point; with only commas the first comma is the
    decimal point. The result is read with `parseFloat`. */
module Prices {
  import opened Wrappers
  import opened Strings
  import opened Numbers

  predicate PriceChar(c: char) {
    IsDigit(c) || c == '.' || c == ',' || c == '-'
  }

  predicate PriceText(s: string) {
    forall i :: 0 <= i < |s| ==> PriceChar(s[i])
  }

  lemma PriceTextJoin(a: string, b: string)
    requires PriceText(a) && PriceText(b)
    ensures PriceText(a + b)
  {
    assert forall i :: |a| <= i < |a + b| ==> (a + b)[i] == b[i - |a|];
  }

  lemma DigitsArePriceText(w: string)
    requires AllDigits(w)
    ensures PriceText(w) && ',' !in w && '.' !in w
  {
  }

  // ---------------------------------------------------------------------
  // The three string rewrites
  // ---------------------------------------------------------------------

  /** `s.replace(/[^\d.,-]/g, "")`. */
  function StripPrice(s: string): (r: string)
    ensures |r| <= |s|
    ensures PriceText(r)
  {
    if s == [] then []
    else
      var rest := StripPrice(s[1..]);
      if PriceChar(s[0]) then [s[0]] + rest else rest
  }

  /** Every kept character survives as often as it occurs. */
  lemma {:induction false} StripCounts(s: string)
    ensures forall c :: PriceChar(c) ==> multiset(StripPrice(s))[c] == multiset(s)[c]
  {
    if s != [] {
      StripCounts(s[1..]);
      assert s == [s[0]] + s[1..];
    }
  }

  /** Stripping works piece by piece, so it keeps the order of what it keeps. */
  lemma {:induction false} StripConcat(a: string, b: string)
    ensures StripPrice(a + b) == StripPrice(a) + StripPrice(b)
  {
    if a != [] {
      calc {
        StripPrice(a + b);
        { assert (a + b)[0] == a[0] && (a + b)[1..] == a[1..] + b; }
        (if PriceChar(a[0]) then [a[0]] else []) + StripPrice(a[1..] + b);
        { StripConcat(a[1..], b); }
        (if PriceChar(a[0]) then [a[0]] else []) + StripPrice(a[1..]) + StripPrice(b);
        StripPrice(a) + StripPrice(b);
      }
    } else {
      assert a + b == b;
    }
  }

  /** Text made only of kept characters passes unchanged. */
  lemma {:induction false} StripKeepsPriceText(s: string)
    requires PriceText(s)
    ensures StripPrice(s) == s
  {
    if s != [] {
      assert PriceText(s[1..]) by {
        assert forall i :: 0 <= i < |s[1..]| ==> s[1..][i] == s[i + 1];
      }
      StripKeepsPriceText(s[1..]);
    }
  }

  /** `s.replace(/\./g, "")`, for the character `c`. */
  function RemoveAll(s: string, c: char): (r: string)
    ensures |r| <= |s|
    ensures c !in s ==> r == s
  {
    if s == [] then []
    else
      var rest := RemoveAll(s[1..], c);
      if s[0] == c then rest else [s[0]] + rest
  }

  /** Every `c` is gone and every other character survives as often as it
      occurs. */
  lemma {:induction false} RemoveAllCounts(s: string, c: char)
    ensures c !in RemoveAll(s, c)
    ensures forall d :: d != c ==> multiset(RemoveAll(s, c))[d] == multiset(s)[d]
  {
    if s != [] {
      RemoveAllCounts(s[1..], c);
      assert s == [s[0]] + s[1..];
    }
  }

  lemma {:induction false} RemoveAllConcat(a: string, b: string, c: char)
    ensures RemoveAll(a + b, c) == RemoveAll(a, c) + RemoveAll(b, c)
  {
    if a == [] {
      assert a + b == b;
    } else {
      assert (a + b)[0] == a[0] && (a + b)[1..] == a[1..] + b;
      RemoveAllConcat(a[1..], b, c);
    }
  }

  /** `s.replace(",", ".")` with a string pattern: only the first occurrence
      of `c` becomes `d`. */
  function ReplaceFirst(s: string, c: char, d: char): (r: string)
    ensures |r| == |s|
    ensures c !in s ==> r == s
  {
    if s == [] then []
    else if s[0] == c then [d] + s[1..]
    else [s[0]] + ReplaceFirst(s[1..], c, d)
  }

  /** Position by position: the first `c` becomes `d`, every other character
      stays. */
  lemma ReplaceFirstAt(s: string, c: char, d: char)
    ensures forall i :: 0 <= i < |s| ==>
              ReplaceFirst(s, c, d)[i] == (if s[i] == c && c !in s[..i] then d else s[i])
  {
    forall i | 0 <= i < |s|
      ensures ReplaceFirst(s, c, d)[i] == (if s[i] == c && c !in s[..i] then d else s[i])
    {
      ReplaceFirstAtIndex(s, c, d, i);
    }
  }

  lemma {:induction false} ReplaceFirstAtIndex(s: string, c: char, d: char, i: nat)
    requires i < |s|
    ensures ReplaceFirst(s, c, d)[i] == (if s[i] == c && c !in s[..i] then d else s[i])
  {
    if s[0] == c {
      if i > 0 {
        assert s[..i][0] == c;
      }
    } else if i > 0 {
      ReplaceFirstAtIndex(s[1..], c, d, i - 1);
      assert s[..i] == [s[0]] + s[1..][..i - 1];
    }
  }

  /** As a bag of characters: one `c` traded for one `d`. */
  lemma {:induction false} ReplaceFirstCounts(s: string, c: char, d: char)
    requires c in s
    ensures multiset(ReplaceFirst(s, c, d)) == multiset(s) - multiset{c} + multiset{d}
  {
    assert s == [s[0]] + s[1..];
    if s[0] != c {
      ReplaceFirstCounts(s[1..], c, d);
    }
  }

  /** The replacement skips a prefix that does not hold `c`. */
  lemma {:induction false} ReplaceFirstSkips(p: string, s: string, c: char, d: char)
    requires c !in p
    ensures ReplaceFirst(p + s, c, d) == p + ReplaceFirst(s, c, d)
  {
    if p == [] {
      assert p + s == s;
    } else {
      assert (p + s)[0] == p[0] && (p + s)[1..] == p[1..] + s;
      assert p[0] in p;
      ReplaceFirstSkips(p[1..], s, c, d);
    }
  }

  // ---------------------------------------------------------------------
  // parsePriceToNumber
  // ---------------------------------------------------------------------

  /** The separator rewrite applied to the stripped text: text without a
      comma is left alone; with a comma the result holds a point and is no
      longer (the exact counts are in `RewriteSeparators`). */
  function Rewrite(s: string): (r: string)
    ensures ',' !in s ==> r == s
    ensures ',' in s ==> '.' in r && |r| <= |s|
  {
    CommaLeavesPoint(s);
    if ',' in s && '.' in s then ReplaceFirst(RemoveAll(s, '.'), ',', '.')
    else if ',' in s then ReplaceFirst(s, ',', '.')
    else s
  }

  /** After the dots are removed (when there are some), replacing the first
      comma leaves a point. */
  lemma CommaLeavesPoint(s: string)
    ensures ',' in s ==> '.' in ReplaceFirst(if '.' in s then RemoveAll(s, '.') else s, ',', '.')
  {
    var u := if '.' in s then RemoveAll(s, '.') else s;
    if ',' in s {
      RemoveAllCounts(s, '.');
      assert multiset(u)[','] == multiset(s)[','] > 0;
      ReplaceFirstCounts(u, ',', '.');
      assert multiset(ReplaceFirst(u, ',', '.'))['.'] > 0;
    }
  }

  /** The string handed to `parseFloat`, or None where `parsePriceToNumber` returns
      NaN before parsing (blank input). */
  function Normalize(v: string): (r: Option<string>)
    ensures r.None? <==> Trim(v) == ""
  {
    var t := Trim(v);
    if t == "" then None else Some(Rewrite(StripPrice(t)))
  }

  /** `parsePriceToNumber(v)`: None stands for NaN. */
  function ParsePriceToNumber(v: string): (n: Option<real>)
    ensures Trim(v) == "" ==> n.None?
  {
    match Normalize(v)
    case None => None
    case Some(s) => ParseFloat(s)
  }

  /** What the separator rewrite does to text with a comma: exactly one '.'
      remains (the old first comma), there is one comma fewer, and digits and
      minus signs are untouched. Without a comma nothing changes. */
  lemma RewriteSeparators(s: string)
    requires ',' in s
    ensures multiset(Rewrite(s))['.'] == 1
    ensures multiset(Rewrite(s))[','] == multiset(s)[','] - 1
    ensures forall c :: IsDigit(c) || c == '-' ==> multiset(Rewrite(s))[c] == multiset(s)[c]
  {
    var u := if '.' in s then RemoveAll(s, '.') else s;
    if '.' in s {
      RemoveAllCounts(s, '.');
      assert multiset(u)[','] == multiset(s)[','];
      assert ',' in u by { assert multiset(u)[','] > 0; }
    }
    assert '.' !in u;
    assert multiset(u)['.'] == 0;
    assert forall c :: IsDigit(c) || c == '-' ==> multiset(u)[c] == multiset(s)[c];
    assert Rewrite(s) == ReplaceFirst(u, ',', '.');
    ReplaceFirstCounts(u, ',', '.');
  }

  /** Text made of price characters is neither trimmed nor stripped. */
  lemma PriceTextKept(s: string)
    requires s != [] && PriceText(s)
    ensures Normalize(s) == Some(Rewrite(s))
  {
    assert PriceChar(s[0]) && PriceChar(s[|s| - 1]);
    TrimOfTrimmed(s);
    StripKeepsPriceText(s);
  }

  /** A price whose normal form is the numeral `w.f` reads as its value. */
  lemma ReadsAsDecimal(v: string, w: string, f: string)
    requires AllDigits(w) && AllDigits(f) && |w| + |f| > 0
    requires Normalize(v) == Some(w + "." + f)
    ensures ParsePriceToNumber(v) == Some(DecimalValue(w, f))
  {
    assert w + "." + f == w + "." + f + "";
    ParseDecimal(w, f, "");
  }

  /** Only a comma: it is the decimal point. */
  lemma RewriteCommaDecimal(w: string, f: string)
    requires AllDigits(w) && AllDigits(f)
    ensures Rewrite(w + "," + f) == w + "." + f
  {
    DigitsArePriceText(w);
    DigitsArePriceText(f);
    var s := w + ("," + f);
    assert w + "," + f == s;
    assert s[|w|] == ',';
    assert '.' !in s by {
      assert forall i :: 0 <= i < |s| ==> s[i] == ',' || s[i] in w || s[i] in f;
    }
    ReplaceFirstSkips(w, "," + f, ',', '.');
  }

  /** Removing the dots from `a + "." + b` when neither part holds one. */
  lemma RemoveOneDot(a: string, b: string)
    requires '.' !in a && '.' !in b
    ensures RemoveAll(a + ("." + b), '.') == a + b
  {
    calc {
      RemoveAll(a + ("." + b), '.');
      { RemoveAllConcat(a, "." + b, '.'); }
      RemoveAll(a, '.') + RemoveAll("." + b, '.');
      { RemoveAllConcat(".", b, '.'); }
      a + (RemoveAll(".", '.') + RemoveAll(b, '.'));
      { assert RemoveAll(".", '.') == []; }
      a + ([] + b);
      { assert [] + b == b; }
      a + b;
    }
  }

  lemma DigitsJoin(a: string, b: string)
    requires AllDigits(a) && AllDigits(b)
    ensures AllDigits(a + b)
  {
    assert forall i :: |a| <= i < |a + b| ==> (a + b)[i] == b[i - |a|];
  }

  lemma NoDotAroundComma(a: string, b: string)
    requires AllDigits(a) && AllDigits(b)
    ensures '.' !in a + ("," + b)
  {
    DigitsArePriceText(a);
    DigitsArePriceText(b);
    var s := a + ("," + b);
    assert forall i :: 0 <= i < |s| ==> s[i] == ',' || s[i] in a || s[i] in b;
  }

  /** With both separators present the dots go and the first comma turns
      into the point. */
  lemma BothSeparators(s: string)
    requires ',' in s && '.' in s
    ensures Rewrite(s) == ReplaceFirst(RemoveAll(s, '.'), ',', '.')
  {
  }

  /** The first comma, after text without one, becomes the point. */
  lemma FirstCommaToPoint(a: string, b: string)
    requires ',' !in a
    ensures ReplaceFirst(a + ("," + b), ',', '.') == a + ("." + b)
  {
    ReplaceFirstSkips(a, "," + b, ',', '.');
    assert ("," + b)[0] == ',' && ("," + b)[1..] == b;
  }

  /** A dot before the comma: the dot groups thousands and the comma is the
      decimal point. */
  lemma RewriteEuropean(w1: string, w2: string, f: string)
    requires '.' !in w1 && '.' !in w2 && '.' !in f && ',' !in w1 + w2
    ensures Rewrite(w1 + "." + w2 + "," + f) == w1 + w2 + "." + f
  {
    var rest := w2 + ("," + f);
    assert '.' !in rest;
    var s := w1 + ("." + rest);
    ConcatAssoc(w1, ".", w2);
    ConcatAssoc(w1 + "." + w2, ",", f);
    ConcatAssoc(w1 + ".", w2, "," + f);
    ConcatAssoc(w1, ".", rest);
    assert s[|w1|] == '.' && s[|w1| + 1 + |w2|] == ',';
    BothSeparators(s);
    RemoveOneDot(w1, rest);
    ConcatAssoc(w1, w2, "," + f);
    FirstCommaToPoint(w1 + w2, f);
    ConcatAssoc(w1 + w2, ".", f);
  }

  /** A comma before the dot (the US grouping): the dot is still dropped as
      a thousands separator and the comma becomes the decimal point. */
  lemma RewriteUsGrouping(w1: string, w2: string, f: string)
    requires '.' !in w1 && '.' !in w2 && '.' !in f && ',' !in w1
    ensures Rewrite(w1 + "," + w2 + "." + f) == w1 + "." + (w2 + f)
  {
    var head := w1 + ("," + w2);
    assert '.' !in head;
    var s := head + ("." + f);
    ConcatAssoc(w1, ",", w2);
    ConcatAssoc(w1 + "," + w2, ".", f);
    assert s[|w1|] == ',' && s[|head|] == '.';
    BothSeparators(s);
    RemoveOneDot(head, f);
    ConcatAssoc(w1, "," + w2, f);
    ConcatAssoc(",", w2, f);
    FirstCommaToPoint(w1, w2 + f);
  }

  /** Price text in three shapes. */
  lemma CommaDecimalPrice(w: string, f: string)
    requires AllDigits(w) && AllDigits(f) && |w| + |f| > 0
    ensures ParsePriceToNumber(w + "," + f) == Some(DecimalValue(w, f))
  {
    DigitsArePriceText(w);
    DigitsArePriceText(f);
    PriceTextJoin(w, ",");
    PriceTextJoin(w + ",", f);
    PriceTextKept(w + "," + f);
    RewriteCommaDecimal(w, f);
    ReadsAsDecimal(w + "," + f, w, f);
  }

  lemma EuropeanPrice(w1: string, w2: string, f: string)
    requires AllDigits(w1) && AllDigits(w2) && AllDigits(f) && |w1| + |w2| + |f| > 0
    ensures ParsePriceToNumber(w1 + "." + w2 + "," + f) == Some(DecimalValue(w1 + w2, f))
  {
    DigitsArePriceText(w1);
    DigitsArePriceText(w2);
    DigitsArePriceText(f);
    PriceTextJoin(w1, ".");
    PriceTextJoin(w1 + ".", w2);
    PriceTextJoin(w1 + "." + w2, ",");
    PriceTextJoin(w1 + "." + w2 + ",", f);
    PriceTextKept(w1 + "." + w2 + "," + f);
    DigitsJoin(w1, w2);
    DigitsArePriceText(w1 + w2);
    RewriteEuropean(w1, w2, f);
    ReadsAsDecimal(w1 + "." + w2 + "," + f, w1 + w2, f);
  }

  lemma UsGroupedPrice(w1: string, w2: string, f: string)
    requires AllDigits(w1) && AllDigits(w2) && AllDigits(f) && |w1| + |w2| + |f| > 0
    ensures ParsePriceToNumber(w1 + "," + w2 + "." + f) == Some(DecimalValue(w1, w2 + f))
  {
    DigitsArePriceText(w1);
    DigitsArePriceText(w2);
    DigitsArePriceText(f);
    PriceTextJoin(w1, ",");
    PriceTextJoin(w1 + ",", w2);
    PriceTextJoin(w1 + "," + w2, ".");
    PriceTextJoin(w1 + "," + w2 + ".", f);
    PriceTextKept(w1 + "," + w2 + "." + f);
    RewriteUsGrouping(w1, w2, f);
    DigitsJoin(w2, f);
    ReadsAsDecimal(w1 + "," + w2 + "." + f, w1, w2 + f);
  }

  // ---------------------------------------------------------------------
  // Worked readings
  // ---------------------------------------------------------------------

  lemma SignStripped()
    ensures StripPrice("$ ") == []
  {
  }

  lemma CodeStripped()
    ensures StripPrice(" USD") == []
  {
  }

  /** The currency sign and code around a numeral are stripped. */
  lemma StripDecorations(n: string)
    requires PriceText(n)
    ensures StripPrice("$ " + n + " USD") == n
  {
    StripConcat("$ " + n, " USD");
    StripConcat("$ ", n);
    StripKeepsPriceText(n);
    SignStripped();
    CodeStripped();
  }

  /** Trimming leaves the decorated text alone: it starts with '$' and ends
      with 'D'. */
  lemma DecoratedUntrimmed(n: string)
    ensures Trim("$ " + n + " USD") == "$ " + n + " USD"
  {
    var s := "$ " + n + " USD";
    assert s[0] == '$' && s[|s| - 1] == 'D';
    TrimOfTrimmed(s);
  }

  /** A price written with a currency sign in front and a currency code
      after it reads as the numeral between them. */
  lemma DecoratedPrice(w: string, f: string)
    requires AllDigits(w) && AllDigits(f) && |w| + |f| > 0
    ensures ParsePriceToNumber("$ " + w + "." + f + " USD") == Some(DecimalValue(w, f))
  {
    var n := w + "." + f;
    assert "$ " + w + "." + f + " USD" == "$ " + n + " USD";
    DigitsArePriceText(w);
    DigitsArePriceText(f);
    PriceTextJoin(w, ".");
    PriceTextJoin(w + ".", f);
    StripDecorations(n);
    DecoratedUntrimmed(n);
    assert ',' !in n;
    assert Normalize("$ " + n + " USD") == Some(n);
    ReadsAsDecimal("$ " + n + " USD", w, f);
  }

  /** `"12,50"` reads as 12.5. */
  lemma DecimalComma()
    ensures ParsePriceToNumber("12" + "," + "50") == Some(12.5)
  {
    CommaDecimalPrice("12", "50");
    Value1250();
  }

  /** `"1.234,56"` reads as 1234.56. */
  lemma EuropeanThousands()
    ensures ParsePriceToNumber("1" + "." + "234" + "," + "56") == Some(1234.56)
  {
    EuropeanPrice("1", "234", "56");
    Value1234dot56();
  }

  /** `"1,234.56"` reads as 1.23456, not 1234.56: with both separators the
      dot is always the thousands separator. */
  lemma UsThousandsReadAsDecimal()
    ensures ParsePriceToNumber("1" + "," + "234" + "." + "56") == Some(1.23456)
  {
    UsGroupedPrice("1", "234", "56");
    Value1dot23456();
  }

  /** `"$ 12.00 USD"` reads as 12: symbols, codes and spaces are dropped. */
  lemma CurrencyDecorations()
    ensures ParsePriceToNumber("$ " + "12" + "." + "00" + " USD") == Some(12.0)
  {
    DecoratedPrice("12", "00");
    Value1200();
  }

  /** Blank input is NaN. */
  lemma BlankPrice()
    ensures ParsePriceToNumber("  ") == None
  {
    TrimEmptyIffAllSpace("  ");
  }

  lemma Value1250()
    ensures DecimalValue("12", "50") == 12.5
  {
    assert "12" + "50" == "1250";
    assert "1250"[..3] == "125" && "125"[..2] == "12" && "12"[..1] == "1" && "1"[..0] == [];
    assert DigitsValue("1250") == 1250;
    ShiftTwo(1250.0);
  }

  lemma Value1200()
    ensures DecimalValue("12", "00") == 12.0
  {
    assert "12" + "00" == "1200";
    assert "1200"[..3] == "120" && "120"[..2] == "12" && "12"[..1] == "1" && "1"[..0] == [];
    assert DigitsValue("1200") == 1200;
    ShiftTwo(1200.0);
  }

  lemma Digits123456()
    ensures AllDigits("123456") && DigitsValue("123456") == 123456
  {
    assert "123456"[..5] == "12345" && "12345"[..4] == "1234" && "1234"[..3] == "123";
    assert "123"[..2] == "12" && "12"[..1] == "1" && "1"[..0] == [];
  }

  lemma Value1234dot56()
    ensures DecimalValue("1" + "234", "56") == 1234.56
  {
    assert ("1" + "234") + "56" == "123456";
    Digits123456();
    ShiftTwo(123456.0);
  }

  lemma Value1dot23456()
    ensures DecimalValue("1", "234" + "56") == 1.23456
  {
    assert "1" + ("234" + "56") == "123456";
    Digits123456();
    ShiftFive(123456.0);
  }
}
