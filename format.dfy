/** Money formatting: `addCommas` (thousands grouping of the integer part of
    a numeral string, keeping the sign and the fraction), `toFixed(2)` and
    `fmtMoney` (a currency symbol, and 0 in place of a non-finite amount). */
module Format {
  import opened Wrappers
  import opened Strings
  import opened Numbers
  import opened Prices

  // ---------------------------------------------------------------------
  // Grouping the integer digits
  // ---------------------------------------------------------------------

  /** `d` with a comma before every group of three characters counted from
      the right, except at the very front. */
  function Group(d: string): (g: string)
    ensures |g| >= |d|
  {
    if |d| <= 3 then d
    else Group(d[..|d| - 3]) + [','] + d[|d| - 3..]
  }

  /** Growing the digits by one on the left: a comma follows the new digit
      exactly when the old digits fill whole groups. */
  lemma {:induction false} GroupCons(c: char, s: string)
    ensures Group([c] + s) == if s != [] && |s| % 3 == 0 then [c, ','] + Group(s) else [c] + Group(s)
    decreases |s|
  {
    var t := [c] + s;
    if |t| > 3 {
      var front, back := s[..|s| - 3], s[|s| - 3..];
      assert t[..|t| - 3] == [c] + front && t[|t| - 3..] == back;
      assert Group(t) == Group([c] + front) + [','] + back;
      if |s| == 3 {
        assert front == [] && back == s;
        assert [c] + [','] + s == [c, ','] + s;
      } else {
        GroupCons(c, front);
        assert (|s| - 3) % 3 == |s| % 3;
        var p := if |s| % 3 == 0 then [c, ','] else [c];
        assert Group([c] + front) == p + Group(front);
        assert Group(s) == Group(front) + [','] + back;
        ConcatAssoc(p + Group(front), [','], back);
        ConcatAssoc(p, Group(front), [','] + back);
        ConcatAssoc(Group(front), [','], back);
      }
    }
  }

  /** Deleting the commas gives the digits back. */
  lemma {:induction false} GroupRemoveCommas(d: string)
    requires ',' !in d
    ensures RemoveAll(Group(d), ',') == d
    decreases |d|
  {
    if |d| > 3 {
      var p, t := d[..|d| - 3], d[|d| - 3..];
      assert d == p + t;
      assert ',' !in p && ',' !in t;
      GroupRemoveCommas(p);
      RemoveAllConcat(Group(p) + [','], t, ',');
      RemoveAllConcat(Group(p), [','], ',');
      assert RemoveAll([','], ',') == [];
    }
  }

  /** Commas stand exactly at the positions whose distance to the end is a
      positive multiple of four (`1,234,567`), never first. */
  predicate CommasEveryFourth(g: string)
  {
    forall i :: 0 <= i < |g| ==> (g[i] == ',' <==> i > 0 && (|g| - i) % 4 == 0)
  }

  lemma {:induction false} GroupCommaPositions(d: string)
    requires ',' !in d
    ensures CommasEveryFourth(Group(d))
    decreases |d|
  {
    var g := Group(d);
    if |d| > 3 {
      var p, t := d[..|d| - 3], d[|d| - 3..];
      assert ',' !in p && ',' !in t;
      GroupCommaPositions(p);
      var gp := Group(p);
      assert g == gp + [','] + t;
      forall i | 0 <= i < |g| ensures g[i] == ',' <==> i > 0 && (|g| - i) % 4 == 0 {
        if i < |gp| {
          assert g[i] == gp[i];
          assert gp[i] == ',' <==> i > 0 && (|gp| - i) % 4 == 0;
        } else if i == |gp| {
          assert |gp| >= |p| > 0;
        } else {
          assert g[i] == t[i - |gp| - 1];
        }
      }
    } else {
      forall i | 0 <= i < |g| ensures g[i] != ',' && !(i > 0 && (|g| - i) % 4 == 0) {
        assert g[i] in d;
      }
    }
  }

  // ---------------------------------------------------------------------
  // addCommas
  // ---------------------------------------------------------------------

  /** The text before the first '.' of `x`. */
  function IntegerPart(x: string): string
  {
    Split(x, '.')[0]
  }

  /** The text between the first and the second '.' of `x`, if any. */
  function FractionPart(x: string): string
  {
    var parts := Split(x, '.');
    if |parts| > 1 then parts[1] else ""
  }

  function SignOf(integer: string): string
  {
    if integer != [] && integer[0] == '-' then "-" else ""
  }

  function Unsigned(integer: string): string
  {
    if integer != [] && integer[0] == '-' then integer[1..] else integer
  }

  /** What `addCommas(x)` returns: the part before the first '.', its sign
      kept in front and its digits grouped, then the part between the first
      and the second '.', if non-empty, after a '.'. */
  function CommaForm(x: string): (r: string)
    ensures ',' !in x ==> RemoveAll(r, ',') == IntegerPart(x) + (if FractionPart(x) != "" then "." + FractionPart(x) else "")
  {
    var integer := IntegerPart(x);
    var fraction := FractionPart(x);
    SplitKeepsOut(x, '.', ',');
    CommasRemoved(integer, fraction);
    SignOf(integer) + Group(Unsigned(integer)) + (if fraction != "" then "." + fraction else "")
  }

  /** Deleting the commas from the grouped integer part and the fraction
      after it gives back the integer part and the fraction. */
  lemma CommasRemoved(integer: string, fraction: string)
    ensures var tail := if fraction != "" then "." + fraction else "";
            ',' !in integer && ',' !in fraction ==>
              RemoveAll(SignOf(integer) + Group(Unsigned(integer)) + tail, ',') == integer + tail
  {
    var tail := if fraction != "" then "." + fraction else "";
    if ',' !in integer && ',' !in fraction {
      SignedGroupRemoveCommas(integer);
      assert ',' !in tail;
      RemoveAllConcat(SignOf(integer) + Group(Unsigned(integer)), tail, ',');
    }
  }

  /** The comma `addCommas` has put in front of the digits copied so far. */
  function Lead(rest: string, more: bool): string
  {
    if more && rest != [] && |rest| % 3 == 0 then "," else ""
  }

  /** What the copying loop of `addCommas` has built once the digits from
      index `i` on are copied. */
  function Copied(d: string, i: nat): string
    requires i <= |d|
  {
    Lead(d[i..], i > 0) + Group(d[i..])
  }

  /** The digits copied so far, behind their comma, grow by one digit. */
  lemma LeadGroup(c: char, rest: string)
    ensures [c] + (Lead(rest, true) + Group(rest)) == Group([c] + rest)
  {
    GroupCons(c, rest);
    if rest != [] && |rest| % 3 == 0 {
      assert [c] + ("," + Group(rest)) == [c, ','] + Group(rest);
    } else {
      assert Lead(rest, true) + Group(rest) == Group(rest);
    }
  }

  /** One step of the copying loop: prepend the next digit, then a comma
      after a third digit that is not the first. */
  lemma CopyStep(d: string, j: nat, count: nat, o: string)
    requires j < |d| && count == |d| - j && o == [d[j]] + Copied(d, j + 1)
    ensures (if count % 3 == 0 && j != 0 then "," + o else o) == Copied(d, j)
  {
    var i := j + 1;
    var c, rest, cur := d[j], d[i..], d[j..];
    assert cur == [c] + rest;
    assert Copied(d, i) == Lead(rest, true) + Group(rest);
    LeadGroup(c, rest);
    assert Copied(d, j) == Lead(cur, j > 0) + Group(cur);
    assert |cur| == count;
    if count % 3 == 0 && j != 0 {
      assert Lead(cur, j > 0) == ",";
    } else {
      assert Lead(cur, j > 0) == "";
      assert "" + Group(cur) == Group(cur);
    }
  }

  /** The loop of `addCommas`: the digits are copied from the right, a
      comma going in front after every third one unless it was the first
      digit. */
  method GroupDigits(integer: string) returns (out: string)
    ensures out == Group(integer)
  {
    out := "";
    var count := 0;
    var i := |integer|;
    while i > 0
      invariant 0 <= i <= |integer| && count == |integer| - i
      invariant out == Copied(integer, i)
    {
      out := [integer[i - 1]] + out;
      count := count + 1;
      i := i - 1;
      CopyStep(integer, i, count, out);
      if count % 3 == 0 && i != 0 {
        out := "," + out;
      }
    }
    assert integer[0..] == integer;
  }

  /** `addCommas(x)`: split at '.', keep the sign apart, group the digits and
      put the fraction back if there is one. */
  method AddCommas(x: string) returns (r: string)
    ensures r == CommaForm(x)
  {
    var parts := Split(x, '.');
    var integer := parts[0];
    var fraction := "";
    if |parts| > 1 {
      fraction := parts[1];
    }
    var sign := "";
    if integer != [] && integer[0] == '-' {
      sign := "-";
      integer := integer[1..];
    }
    assert sign == SignOf(IntegerPart(x)) && integer == Unsigned(IntegerPart(x));
    assert fraction == FractionPart(x);
    var out := GroupDigits(integer);
    ghost var tail := if fraction != "" then "." + fraction else "";
    if fraction != "" {
      ConcatAssoc(out, ".", fraction);
      out := out + "." + fraction;
    }
    assert out == Group(integer) + tail;
    r := sign + out;
    ConcatAssoc(sign, Group(integer), tail);
  }

  /** The integer part is everything before the first '.'. */
  lemma IntegerPartIsPrefix(x: string)
    ensures IntegerPart(x) == x[..IndexOf(x, '.')]
  {
    if IndexOf(x, '.') == |x| {
      assert x[..|x|] == x;
    }
  }

  /** Where the first '.' stands when the text before it has none. */
  lemma PointAfter(a: string, b: string)
    requires '.' !in a
    ensures IndexOf(a + "." + b, '.') == |a|
  {
    var s := a + "." + b;
    var k := IndexOf(s, '.');
    assert s[|a|] == '.';
    assert s[..|a|] == a;
    assert s[..k] == a[..k];
  }

  /** `addCommas` of a numeral without a point. */
  lemma CommaFormWhole(a: string)
    requires '.' !in a
    ensures CommaForm(a) == SignOf(a) + Group(Unsigned(a))
  {
    assert IndexOf(a, '.') == |a|;
    assert Split(a, '.') == [a];
  }

  /** `addCommas` of a numeral `a.b` with one point. */
  lemma CommaFormFraction(a: string, b: string)
    requires '.' !in a && '.' !in b
    ensures CommaForm(a + "." + b) == SignOf(a) + Group(Unsigned(a)) + (if b != "" then "." + b else "")
  {
    var s := a + "." + b;
    PointAfter(a, b);
    assert s[..|a|] == a && s[|a| + 1..] == b;
    assert Split(b, '.') == [b] by {
      assert IndexOf(b, '.') == |b|;
    }
    assert Split(s, '.') == [a, b];
  }

  /** Deleting the commas from the grouped integer part gives it back. */
  lemma SignedGroupRemoveCommas(a: string)
    requires ',' !in a
    ensures RemoveAll(SignOf(a) + Group(Unsigned(a)), ',') == a
  {
    var sign, digits := SignOf(a), Unsigned(a);
    assert a == sign + digits;
    GroupRemoveCommas(digits);
    RemoveAllConcat(sign, Group(digits), ',');
    assert RemoveAll(sign, ',') == sign;
  }

  /** Deleting the commas from `addCommas(x)` gives `x` back, for a numeral
      without commas or a point. A second point or a trailing point is not
      given back (`SecondPointDropped`, `TrailingPointDropped`), and a comma
      already in `x` would be deleted too. */
  lemma CommaFormRoundTrip(a: string)
    requires '.' !in a && ',' !in a
    ensures RemoveAll(CommaForm(a), ',') == a
  {
    SignedGroupRemoveCommas(a);
    CommaFormWhole(a);
  }

  /** The same for a numeral with one point and a non-empty fraction after
      it. */
  lemma CommaFormFractionRoundTrip(a: string, b: string)
    requires '.' !in a && '.' !in b && ',' !in a && ',' !in b && b != ""
    ensures RemoveAll(CommaForm(a + "." + b), ',') == a + "." + b
  {
    var x, head, tail := a + "." + b, SignOf(a) + Group(Unsigned(a)), "." + b;
    assert x == a + tail;
    CommaFormFraction(a, b);
    assert CommaForm(x) == head + tail;
    assert RemoveAll(head + tail, ',') == a + tail by {
      SignedGroupRemoveCommas(a);
      assert ',' !in tail;
      RemoveAllConcat(head, tail, ',');
    }
  }

  /** The sign stays at the very front and no comma follows it directly. */
  lemma CommaFormSign(x: string)
    requires ',' !in x && x != [] && x[0] == '-'
    ensures var r := CommaForm(x);
            r[0] == '-' && (|r| > 1 ==> r[1] != ',')
  {
    var k := IndexOf(x, '.');
    IntegerPartIsPrefix(x);
    var integer := IntegerPart(x);
    assert k > 0;
    assert integer[0] == x[0];
    var digits := integer[1..];
    assert digits == x[1..k];
    assert ',' !in digits;
    GroupCommaPositions(digits);
    var g := Group(digits);
    var fraction := FractionPart(x);
    var tail := if fraction != "" then "." + fraction else "";
    assert CommaForm(x) == "-" + g + tail;
    if |g| > 0 {
      assert ("-" + g + tail)[1] == g[0];
    }
  }

  // ---------------------------------------------------------------------
  // toFixed(2) and fmtMoney
  // ---------------------------------------------------------------------

  function DigitChar(k: nat): (c: char)
    requires k < 10
    ensures IsDigit(c) && c as int - '0' as int == k
  {
    ('0' as int + k) as char
  }

  /** The decimal numeral of `n`, without leading zeros. */
  function NatToString(n: nat): (s: string)
    ensures |s| >= 1 && AllDigits(s)
    ensures DigitsValue(s) == n
    ensures |s| > 1 ==> s[0] != '0'
  {
    if n < 10 then
      var s := [DigitChar(n)];
      assert s[..0] == [];
      s
    else
      var p, c := NatToString(n / 10), DigitChar(n % 10);
      var s := p + [c];
      assert s[..|s| - 1] == p && s[0] == p[0];
      AllDigitsConcat(p, [c]);
      assert DigitsValue(s) == 10 * (n / 10) + n % 10;
      assert p[0] != '0' by {
        if |p| == 1 {
          assert p[..0] == [];
        }
      }
      s
  }

  function TwoDigits(k: nat): (s: string)
    requires k < 100
    ensures |s| == 2 && AllDigits(s) && DigitsValue(s) == k
  {
    var s := [DigitChar(k / 10), DigitChar(k % 10)];
    assert s[..1] == [DigitChar(k / 10)] && [DigitChar(k / 10)][..0] == [];
    assert DigitsValue(s[..1]) == k / 10;
    assert DigitsValue(s) == 10 * (k / 10) + k % 10;
    s
  }

  /** The number of cents `toFixed(2)` writes: the magnitude times 100,
      rounded to the nearest whole number, halves up. */
  function FixedCents(v: real): (n: nat)
    ensures var m := if v < 0.0 then -v else v;
            m * 100.0 - 0.5 < n as real <= m * 100.0 + 0.5
  {
    var m := if v < 0.0 then -v else v;
    (m * 100.0 + 0.5).Floor
  }

  /** `n` cents written as whole units, a point and two digits. */
  function CentsNumeral(n: nat): string
  {
    NatToString(n / 100) + "." + TwoDigits(n % 100)
  }

  /** `v.toFixed(2)` for `|v| < 10^21`: a minus sign for a negative value,
      then the rounded magnitude with two fraction digits. */
  function ToFixed2(v: real): (s: string)
    ensures ParseFloat(s) == Some(RoundedToCent(v))
  {
    SignedNumeralReadsBack(v < 0.0, FixedCents(v));
    Signed(v < 0.0, CentsNumeral(FixedCents(v)))
  }

  /** A numeral, after a minus sign when `negative`. */
  function Signed(negative: bool, s: string): string
  {
    if negative then "-" + s else s
  }

  /** Appending digits shifts the value left by their number. */
  lemma {:induction false} DigitsValueAppend(a: string, b: string)
    requires AllDigits(a) && AllDigits(b)
    ensures AllDigits(a + b)
    ensures DigitsValue(a + b) == DigitsValue(a) * Pow10(|b|) + DigitsValue(b)
    decreases |b|
  {
    AllDigitsConcat(a, b);
    if b == [] {
      assert a + b == a;
    } else {
      var n := |b| - 1;
      var init := b[..n];
      assert AllDigits(init);
      var ab := a + b;
      assert ab[..|ab| - 1] == a + init;
      DigitsValueAppend(a, init);
      ShiftStep(DigitsValue(a), DigitsValue(init), Pow10(n), b[n] as int - '0' as int);
    }
  }

  lemma ShiftStep(va: nat, vi: nat, p: nat, last: int)
    ensures 10 * (va * p + vi) + last == va * (10 * p) + (10 * vi + last)
  {
  }

  /** The digits of `n` cents, read as a decimal numeral, are worth
      `n / 100`. */
  lemma CentsValue(n: nat)
    ensures DecimalValue(NatToString(n / 100), TwoDigits(n % 100)) == CentsAmount(n)
  {
    var w, f := NatToString(n / 100), TwoDigits(n % 100);
    DigitsValueAppend(w, f);
    assert Pow10(2) == 100;
    ShiftTwo(n as real);
    var q, r := n / 100, n % 100;
    assert q * 100 + r == n;
    assert DigitsValue(w + f) == n;
  }

  /** `v` rounded to the cent, halves away from zero. */
  function RoundedToCent(v: real): real
  {
    Negated(v < 0.0, CentsAmount(FixedCents(v)))
  }

  /** `n` cents, in whole units. */
  function CentsAmount(n: nat): real
  {
    n as real / 100.0
  }

  function Negated(negative: bool, x: real): real
  {
    if negative then -x else x
  }

  lemma NumeralReads(s: string, w: string, f: string, x: real)
    requires AllDigits(w) && AllDigits(f) && |w| >= 1
    requires s == w + "." + f && DecimalValue(w, f) == x
    ensures ParseFloat(s) == Some(x)
  {
    ParseWholeDecimal(w, f);
  }

  /** A numeral `toFixed(2)` writes starts with a digit. */
  lemma CentsNumeralLeads(n: nat)
    ensures CentsNumeral(n) != [] && IsDigit(CentsNumeral(n)[0])
  {
    var w := NatToString(n / 100);
    assert CentsNumeral(n)[0] == w[0];
  }

  /** Reading `n` cents back. */
  lemma CentsNumeralReadsBack(n: nat)
    ensures ParseFloat(CentsNumeral(n)) == Some(CentsAmount(n))
  {
    CentsValue(n);
    NumeralReads(CentsNumeral(n), NatToString(n / 100), TwoDigits(n % 100), CentsAmount(n));
  }

  /** Reading `n` cents back after a minus sign. */
  lemma NegativeCentsReadBack(n: nat)
    ensures ParseFloat("-" + CentsNumeral(n)) == Some(-CentsAmount(n))
  {
    CentsNumeralReadsBack(n);
    CentsNumeralLeads(n);
    NegatedNumeral(CentsNumeral(n), CentsAmount(n));
  }

  lemma SignedNumeralReadsBack(negative: bool, n: nat)
    ensures ParseFloat(Signed(negative, CentsNumeral(n))) == Some(Negated(negative, CentsAmount(n)))
  {
    var s := CentsNumeral(n);
    if negative {
      assert Signed(negative, s) == "-" + s && Negated(negative, CentsAmount(n)) == -CentsAmount(n);
      NegativeCentsReadBack(n);
    } else {
      assert Signed(negative, s) == s && Negated(negative, CentsAmount(n)) == CentsAmount(n);
      CentsNumeralReadsBack(n);
    }
  }

  /** The text `fmtMoney(n)` shows; `None` stands for a non-finite amount. */
  function MoneyText(symbol: string, n: Option<real>): string
  {
    symbol + CommaForm(ToFixed2(if n.Some? then n.value else 0.0))
  }

  /** `fmtMoney(n)` with the currency symbol as a parameter: a non-finite
      amount is written as 0, then `toFixed(2)` and `addCommas`. */
  method FmtMoney(symbol: string, n: Option<real>) returns (s: string)
    ensures s == MoneyText(symbol, n)
  {
    var v: real;
    if n.Some? {
      v := n.value;
    } else {
      v := 0.0;
    }
    var fixed := ToFixed2(v);
    var grouped := AddCommas(fixed);
    s := symbol + grouped;
  }

  lemma DigitsNoMarks(s: string)
    requires AllDigits(s)
    ensures '.' !in s && ',' !in s && '-' !in s
  {
  }

  /** `toFixed(2)` never writes a comma, and `addCommas` keeps it apart
      from its grouping commas. */
  lemma FixedGroupedRoundTrip(v: real)
    ensures RemoveAll(CommaForm(ToFixed2(v)), ',') == ToFixed2(v)
  {
    var n := FixedCents(v);
    var w, f := NatToString(n / 100), TwoDigits(n % 100);
    DigitsNoMarks(w);
    DigitsNoMarks(f);
    var a := if v < 0.0 then "-" + w else w;
    assert '.' !in a && ',' !in a;
    assert ToFixed2(v) == a + "." + f;
    CommaFormFractionRoundTrip(a, f);
  }

  /** What `fmtMoney` shows for a finite amount is the symbol followed by a
      numeral that, with its grouping commas taken out, reads back as the
      amount rounded to the cent. */
  lemma MoneyReadsBack(symbol: string, v: real)
    ensures var shown := MoneyText(symbol, Some(v));
            shown[..|symbol|] == symbol && ParseFloat(RemoveAll(shown[|symbol|..], ',')) == Some(RoundedToCent(v))
  {
    var body := CommaForm(ToFixed2(v));
    var shown := symbol + body;
    assert MoneyText(symbol, Some(v)) == shown;
    assert shown[..|symbol|] == symbol && shown[|symbol|..] == body;
    FixedGroupedRoundTrip(v);
  }

  /** A non-finite amount is shown as zero. */
  lemma NonFiniteShownAsZero(symbol: string)
    ensures MoneyText(symbol, None) == symbol + ("0" + "." + "00")
  {
    var zero := "0" + "." + "00";
    assert FixedCents(0.0) == 0;
    assert NatToString(0) == "0" && TwoDigits(0) == "00";
    assert ToFixed2(0.0) == zero;
    CommaFormFraction("0", "00");
    assert SignOf("0") == "" && Group(Unsigned("0")) == "0";
    ConcatAssoc("0", ".", "00");
    assert CommaForm(zero) == zero;
  }

  lemma GroupFour()
    ensures Group("1234") == "1,234"
  {
    GroupCons('1', "234");
    assert ['1'] + "234" == "1234";
  }

  /** `addCommas("1234.50")` is `"1,234.50"`. */
  lemma GroupedThousands()
    ensures CommaForm("1234" + "." + "50") == "1,234" + "." + "50"
  {
    assert SignOf("1234") == "" && Unsigned("1234") == "1234";
    CommaFormFraction("1234", "50");
    GroupFour();
  }

  /** Only the text up to a second point is kept: `addCommas("1.2.3")` is
      `"1.2"`. */
  lemma SecondPointDropped()
    ensures CommaForm("1" + "." + "2" + "." + "3") == "1" + "." + "2"
  {
    SplitAtFirst("1", "2" + "." + "3", '.');
    SplitAtFirst("2", "3", '.');
    assert Split("3", '.') == ["3"];
    assert "1" + "." + "2" + "." + "3" == "1" + ['.'] + ("2" + "." + "3");
    assert "2" + "." + "3" == "2" + ['.'] + "3";
  }

  /** A point with nothing after it is dropped: `addCommas("5.")` is `"5"`. */
  lemma TrailingPointDropped()
    ensures CommaForm("5" + ".") == "5"
  {
    SplitAtFirst("5", "", '.');
    assert "5" + "." == "5" + ['.'] + "";
    assert Split("", '.') == [""];
  }
}
