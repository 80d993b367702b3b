/** The quote arithmetic: discount tiers in basis points, list and cylinder
    prices converted to integer cents, the discounted subtotal rounded up to
    whole dollars, and manual adjustments added after that rounding. The
    form's inputs (the list and cylinder price fields, the tier selector and
    the adjustment rows) are parameters. */
module Quote {
  import opened Wrappers
  import opened Strings
  import opened Numbers

  /** `DISCOUNT_BPS`: the net multiplier of each tier, in basis points. */
  const DiscountTable: map<string, int> :=
    map["TierA" := 7100, "TierB" := 7800, "TierC" := 8500,
        "TierD" := 9200, "TierE" := 6500, "None" := 10000]

  /** `getDiscountBps(key)`: the tier's basis points, None for NaN. */
  function DiscountBps(key: string): (bps: Option<int>)
    ensures bps.Some? ==> 0 < bps.value <= 10000
  {
    if key in DiscountTable then Some(DiscountTable[key]) else None
  }

  /** The six tiers and nothing else. */
  lemma DiscountTiers(key: string)
    ensures DiscountBps("TierA") == Some(7100) && DiscountBps("TierB") == Some(7800)
    ensures DiscountBps("TierC") == Some(8500) && DiscountBps("TierD") == Some(9200)
    ensures DiscountBps("TierE") == Some(6500) && DiscountBps("None") == Some(10000)
    ensures DiscountBps(key).Some? <==>
              key in ["TierA", "TierB", "TierC", "TierD", "TierE", "None"]
  {
  }

  /** `toCents(n)`: `Math.round(n * 100)`. */
  function ToCents(x: real): (c: int)
    ensures x * 100.0 - 0.5 < c as real <= x * 100.0 + 0.5
  {
    Round(x * 100.0)
  }

  /** `fromCents(c)`: the amount whose hundredth part is `c`, so a whole
      number of cents survives the round trip through dollars. */
  function FromCents(c: int): (x: real)
    ensures x * 100.0 == c as real
    ensures ToCents(x) == c
  {
    var x := c as real / 100.0;
    assert x * 100.0 == c as real;
    x
  }

  /** `Math.floor((x + 999999) / 1000000)`: whole dollars, rounded up, for an
      amount `x` in millionths of a dollar (cents times basis points). */
  function CeilDollars(x: int): (d: int)
    ensures d * 1000000 >= x
    ensures (d - 1) * 1000000 < x
  {
    (x + 999999) / 1000000
  }

  // ---------------------------------------------------------------------
  // Adjustments
  // ---------------------------------------------------------------------

  /** `parseAdjAmountRaw(v)`: the number at the start of the trimmed entry,
      or 0 when there is none or it is beyond the range of a double. */
  function AdjAmount(v: string): (x: real)
    ensures IsFiniteDouble(x)
    ensures ParseFloat(Trim(v)).None? ==> x == 0.0
    ensures ParseFloat(Trim(v)).Some? && IsFiniteDouble(ParseFloat(Trim(v)).value) ==> x == ParseFloat(Trim(v)).value
    ensures ParseFloat(Trim(v)).Some? && !IsFiniteDouble(ParseFloat(Trim(v)).value) ==> x == 0.0
  {
    match ParseFloat(Trim(v))
    case None => 0.0
    case Some(x) => if IsFiniteDouble(x) then x else 0.0
  }

  /** The cents one adjustment entry contributes. */
  function AdjCents(v: string): int
  {
    ToCents(AdjAmount(v))
  }

  /** A blank or non-numeric entry adds nothing. */
  lemma InvalidAdjustment(v: string)
    requires ParseFloat(Trim(v)).None?
    ensures AdjCents(v) == 0
  {
  }

  /** The sum of `f` over `xs`. */
  function SumOf<T>(f: T -> int, xs: seq<T>): int
  {
    if xs == [] then 0 else SumOf(f, xs[..|xs| - 1]) + f(xs[|xs| - 1])
  }

  lemma {:induction false} SumOfAppend<T>(f: T -> int, a: seq<T>, b: seq<T>)
    ensures SumOf(f, a + b) == SumOf(f, a) + SumOf(f, b)
  {
    if b == [] {
      assert a + b == a;
    } else {
      var n := |b| - 1;
      assert (a + b)[..|a + b| - 1] == a + b[..n];
      SumOfAppend(f, a, b[..n]);
    }
  }

  /** Taking one element out of the sum. */
  lemma SumOfRemove<T>(f: T -> int, b: seq<T>, j: nat)
    requires j < |b|
    ensures SumOf(f, b) == SumOf(f, b[..j] + b[j + 1..]) + f(b[j])
  {
    var x, front, back := b[j], b[..j], b[j + 1..];
    var upTo := front + [x];
    assert b == upTo + back;
    SumOfAppend(f, upTo, back);
    SumOfAppend(f, front, [x]);
    SumOfAppend(f, front, back);
    SumOfOne(f, x);
  }

  lemma SumOfOne<T>(f: T -> int, x: T)
    ensures SumOf(f, [x]) == f(x)
  {
    assert [x][..0] == [];
  }

  /** Removing the last element of `a`, and the same element anywhere in a
      permutation `b` of `a`, leaves permutations of each other. */
  lemma SameAfterRemoval<T>(a: seq<T>, b: seq<T>, j: nat)
    requires multiset(a) == multiset(b) && a != [] && j < |b| && b[j] == a[|a| - 1]
    ensures multiset(a[..|a| - 1]) == multiset(b[..j] + b[j + 1..])
  {
    var x, front, back := b[j], b[..j], b[j + 1..];
    assert a == a[..|a| - 1] + [x];
    assert b == front + [x] + back;
    assert multiset(a) == multiset(a[..|a| - 1]) + multiset{x};
    assert multiset(b) == multiset(front) + multiset{x} + multiset(back);
    assert multiset(front + back) == multiset(front) + multiset(back);
    assert multiset(a[..|a| - 1]) == multiset(a) - multiset{x};
    assert multiset(front + back) == multiset(b) - multiset{x};
  }

  /** The sum does not depend on the order of the elements. */
  lemma {:induction false} SumOfPermutation<T>(f: T -> int, a: seq<T>, b: seq<T>)
    requires multiset(a) == multiset(b)
    ensures SumOf(f, a) == SumOf(f, b)
  {
    if a != [] {
      var n := |a| - 1;
      var x := a[n];
      assert x in b by {
        assert x in multiset(a);
      }
      var j :| 0 <= j < |b| && b[j] == x;
      var rest := b[..j] + b[j + 1..];
      SameAfterRemoval(a, b, j);
      SumOfPermutation(f, a[..n], rest);
      SumOfRemove(f, b, j);
    }
  }

  /** The sum of the rounded cents of the entries. */
  function SumAdj(values: seq<string>): int
  {
    SumOf(AdjCents, values)
  }

  lemma SumAdjAppend(a: seq<string>, b: seq<string>)
    ensures SumAdj(a + b) == SumAdj(a) + SumAdj(b)
  {
    SumOfAppend(AdjCents, a, b);
  }

  /** The sum does not depend on the order of the entries. */
  lemma SumAdjPermutation(a: seq<string>, b: seq<string>)
    requires multiset(a) == multiset(b)
    ensures SumAdj(a) == SumAdj(b)
  {
    SumOfPermutation(AdjCents, a, b);
  }

  /** `getAdjustmentsCents()` over the values of the adjustment rows. */
  method AdjustmentsCents(values: seq<string>) returns (sumC: int)
    ensures sumC == SumAdj(values)
  {
    sumC := 0;
    for i := 0 to |values|
      invariant sumC == SumAdj(values[..i])
    {
      sumC := sumC + Round(AdjAmount(values[i]) * 100.0);
      assert values[..i + 1][..i] == values[..i];
    }
    assert values[..|values|] == values;
  }

  // ---------------------------------------------------------------------
  // calculate
  // ---------------------------------------------------------------------

  const ListPriceMessage := "Enter a valid list price."
  const TierMessage := "Choose a discount tier."

  /** The `{ ok: true, subtotal, rate, total }` result. */
  datatype Quote = Quote(subtotal: real, rate: real, total: real)

  /** The arithmetic of `calculate` once the inputs have been read: cents,
      the discount rounded up to whole dollars, then the adjustments.
      Without the adjustments the total is a whole number of dollars, the
      smallest one not below the discounted subtotal. */
  function QuoteFor(list: real, cyl: real, bps: int, adjustments: seq<string>): (q: Quote)
    ensures q.subtotal == FromCents(ToCents(list) + ToCents(cyl))
    ensures q.rate * 10000.0 == bps as real
    ensures var base := q.total - FromCents(SumAdj(adjustments));
            base == base.Floor as real &&
            base >= q.subtotal * q.rate &&
            base - 1.0 < q.subtotal * q.rate
  {
    var subtotalC := ToCents(list) + ToCents(cyl);
    var totalDollars := CeilDollars(subtotalC * bps);
    var a := SumAdj(adjustments);
    CeilDollarsBounds(subtotalC, bps);
    assert FromCents(totalDollars * 100 + a) - FromCents(a) == totalDollars as real;
    assert (totalDollars as real).Floor == totalDollars;
    Quote(FromCents(subtotalC), bps as real / 10000.0, FromCents(totalDollars * 100 + a))
  }

  /** The cylinder price field: its number, or 0 when it holds none. */
  function CylinderAmount(cylRaw: string): (x: real)
    ensures ParseFloat(cylRaw).None? ==> x == 0.0
    ensures ParseFloat(cylRaw).Some? ==> ParseFloat(cylRaw) == Some(x)
  {
    match ParseFloat(cylRaw)
    case None => 0.0
    case Some(c) => c
  }

  /** `calculate()` with the list price field, the cylinder field, the tier
      key and the adjustment entries as parameters. */
  function Calculate(listRaw: string, cylRaw: string, tierKey: string, adjustments: seq<string>): (r: Result<Quote, string>)
    ensures r == Failure(ListPriceMessage) <==> ParseFloat(listRaw).None?
    ensures r == Failure(TierMessage) <==> ParseFloat(listRaw).Some? && DiscountBps(tierKey).None?
    ensures r.Success? ==> 0.0 < r.value.rate <= 1.0
  {
    match ParseFloat(listRaw)
    case None => Failure(ListPriceMessage)
    case Some(list) =>
      var cyl := CylinderAmount(cylRaw);
      match DiscountBps(tierKey)
      case None => Failure(TierMessage)
      case Some(bps) => Success(QuoteFor(list, cyl, bps, adjustments))
  }

  /** Whole dollars rounded up from `subtotalC` cents at `bps` basis
      points: the smallest whole number not below the discounted amount. */
  lemma CeilDollarsBounds(subtotalC: int, bps: int)
    ensures var d := CeilDollars(subtotalC * bps) as real;
            var amount := FromCents(subtotalC) * (bps as real / 10000.0);
            d >= amount && d - 1.0 < amount
  {
    var x := subtotalC * bps;
    var d := CeilDollars(x);
    assert FromCents(subtotalC) * (bps as real / 10000.0) == x as real / 1000000.0 by {
      assert (subtotalC as real / 100.0) * (bps as real / 10000.0) == (subtotalC as real * bps as real) / 1000000.0;
    }
    assert (d * 1000000) as real >= x as real;
    assert ((d - 1) * 1000000) as real < x as real;
  }

  /** `calculate` succeeds exactly with the quote of the numbers it read. */
  lemma CalculateReads(listRaw: string, cylRaw: string, tierKey: string, adjustments: seq<string>)
    requires ParseFloat(listRaw).Some? && DiscountBps(tierKey).Some?
    ensures Calculate(listRaw, cylRaw, tierKey, adjustments) ==
              Success(QuoteFor(ParseFloat(listRaw).value,
                               CylinderAmount(cylRaw),
                               DiscountBps(tierKey).value, adjustments))
  {
  }

  /** With no discount and a whole-dollar subtotal, the base is the
      subtotal itself. */
  lemma NoDiscountQuote(list: real, cyl: real, adjustments: seq<string>)
    requires (ToCents(list) + ToCents(cyl)) % 100 == 0
    ensures var q := QuoteFor(list, cyl, 10000, adjustments);
            q.total - FromCents(SumAdj(adjustments)) == q.subtotal
  {
    var c := ToCents(list) + ToCents(cyl);
    var a := SumAdj(adjustments);
    CeilWhole(c);
    var q := QuoteFor(list, cyl, 10000, adjustments);
    assert q.total == FromCents(CeilDollars(c * 10000) * 100 + a);
    assert CeilDollars(c * 10000) * 100 == c;
    assert FromCents(c + a) - FromCents(a) == FromCents(c);
  }

  /** A whole number of dollars needs no rounding up. */
  lemma CeilWhole(c: int)
    requires c % 100 == 0
    ensures CeilDollars(c * 10000) == c / 100
    ensures (c / 100) * 100 == c
  {
    var d := c / 100;
    assert c == d * 100;
    assert c * 10000 == d * 1000000;
  }

  /** A cylinder field that does not hold a number counts as 0, rather than
      failing the quote. */
  lemma NonNumericCylinderIsZero(listRaw: string, cylRaw: string, tierKey: string, adjustments: seq<string>)
    requires ParseFloat(listRaw).Some? && DiscountBps(tierKey).Some?
    requires ParseFloat(cylRaw).None?
    ensures Calculate(listRaw, cylRaw, tierKey, adjustments).Success?
    ensures Calculate(listRaw, cylRaw, tierKey, adjustments).value.subtotal ==
              FromCents(ToCents(ParseFloat(listRaw).value))
  {
    assert ToCents(0.0) == 0;
  }

  /** The order of the adjustment rows does not change the quote. */
  lemma AdjustmentOrderIrrelevant(listRaw: string, cylRaw: string, tierKey: string, a: seq<string>, b: seq<string>)
    requires multiset(a) == multiset(b)
    ensures Calculate(listRaw, cylRaw, tierKey, a) == Calculate(listRaw, cylRaw, tierKey, b)
  {
    if ParseFloat(listRaw).Some? && DiscountBps(tierKey).Some? {
      var list := ParseFloat(listRaw).value;
      var cyl := CylinderAmount(cylRaw);
      var bps := DiscountBps(tierKey).value;
      CalculateReads(listRaw, cylRaw, tierKey, a);
      CalculateReads(listRaw, cylRaw, tierKey, b);
      SumAdjPermutation(a, b);
      assert QuoteFor(list, cyl, bps, a) == QuoteFor(list, cyl, bps, b);
    }
  }

  /** The adjustments move the total by exactly their sum in cents. */
  lemma AdjustmentsAddAfterRounding(list: real, cyl: real, bps: int, a: seq<string>)
    ensures QuoteFor(list, cyl, bps, a).total == QuoteFor(list, cyl, bps, []).total + FromCents(SumAdj(a))
  {
    var d := CeilDollars((ToCents(list) + ToCents(cyl)) * bps);
    assert SumAdj([]) == 0;
    FromCentsAdd(d * 100, SumAdj(a));
  }

  lemma FromCentsAdd(x: int, y: int)
    ensures FromCents(x + y) == FromCents(x) + FromCents(y)
  {
  }

  // ---------------------------------------------------------------------
  // A worked quote
  // ---------------------------------------------------------------------

  lemma ReadTen()
    ensures ParseFloat("10" + "." + "00") == Some(10.0)
  {
    ParseDecimal("10", "00", "");
    assert "10" + "." + "00" + "" == "10" + "." + "00";
    ValueTen();
  }

  lemma ValueTen()
    ensures DecimalValue("10", "00") == 10.0
  {
    assert "10" + "00" == "1000";
    assert "1000"[..3] == "100" && "100"[..2] == "10" && "10"[..1] == "1" && "1"[..0] == [];
    assert DigitsValue("1000") == 1000;
    ShiftTwo(1000.0);
  }

  lemma ReadPlusAdjustment()
    ensures AdjCents("5" + "." + "25") == 525
  {
    var s := "5" + "." + "25";
    assert s[0] == '5' && s[|s| - 1] == '5';
    TrimOfTrimmed(s);
    ParseDecimal("5", "25", "");
    assert s + "" == s;
    ValueFiveTwentyFive();
  }

  lemma ValueFiveTwentyFive()
    ensures DecimalValue("5", "25") == 5.25
  {
    assert "5" + "25" == "525";
    assert "525"[..2] == "52" && "52"[..1] == "5" && "5"[..0] == [];
    assert DigitsValue("525") == 525;
    ShiftTwo(525.0);
  }

  lemma ReadMinusAdjustment()
    ensures AdjCents("-" + "1" + "." + "10") == -110
  {
    var n := "1" + "." + "10";
    var s := "-" + "1" + "." + "10";
    ConcatAssoc("-", "1", ".");
    ConcatAssoc("-", "1" + ".", "10");
    assert s == "-" + (n + "");
    assert s[0] == '-' && s[|s| - 1] == '0';
    TrimOfTrimmed(s);
    ParseNegativeDecimal("1", "10", "");
    ValueOneTen();
  }

  lemma ValueOneTen()
    ensures DecimalValue("1", "10") == 1.1
  {
    assert "1" + "10" == "110";
    assert "110"[..2] == "11" && "11"[..1] == "1" && "1"[..0] == [];
    assert DigitsValue("110") == 110;
    ShiftTwo(110.0);
  }

  lemma TwoAdjustments(x: string, y: string)
    ensures SumAdj([x, y]) == AdjCents(x) + AdjCents(y)
  {
    assert [x, y] == [x] + [y];
    SumOfAppend(AdjCents, [x], [y]);
    SumOfOne(AdjCents, x);
    SumOfOne(AdjCents, y);
  }

  /** A $10.00 list price, no cylinder, tier B (78%) and adjustments of
      +5.25 and -1.10: 7.80 rounds up to 8 dollars, then 4.15 is added. */
  lemma WorkedQuote()
    ensures Calculate("10" + "." + "00", "", "TierB", ["5" + "." + "25", "-" + "1" + "." + "10"]) ==
              Success(Quote(10.0, 0.78, 12.15))
  {
    ReadTen();
    assert ParseFloat("").None?;
    assert DiscountBps("TierB") == Some(7800);
    CalculateReads("10" + "." + "00", "", "TierB", ["5" + "." + "25", "-" + "1" + "." + "10"]);
    ReadPlusAdjustment();
    ReadMinusAdjustment();
    TwoAdjustments("5" + "." + "25", "-" + "1" + "." + "10");
    assert ToCents(10.0) == 1000 && ToCents(0.0) == 0;
    assert CeilDollars(1000 * 7800) == 8;
  }
}
