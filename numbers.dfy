/** JavaScript number parsing and rounding as the quoting form uses them:
    `parseFloat` and `Math.round`. Numbers are exact reals here; NaN, and the
    non-finite values the form never keeps, are `None`. */
module Numbers {
  import opened Wrappers
  import opened Strings

  predicate IsDigit(c: char) {
    '0' <= c <= '9'
  }

  predicate AllDigits(s: string) {
    forall i :: 0 <= i < |s| ==> IsDigit(s[i])
  }

  /** Length of the run of decimal digits that `s` starts with. */
  function DigitRun(s: string): (n: nat)
    ensures n <= |s| && AllDigits(s[..n])
    ensures n < |s| ==> !IsDigit(s[n])
  {
    if s != [] && IsDigit(s[0]) then 1 + DigitRun(s[1..]) else 0
  }

  /** The value of a string of decimal digits, most significant first. */
  function DigitsValue(d: string): nat
    requires AllDigits(d)
  {
    if d == [] then 0 else 10 * DigitsValue(d[..|d| - 1]) + (d[|d| - 1] as int - '0' as int)
  }

  lemma AllDigitsConcat(a: string, b: string)
    requires AllDigits(a) && AllDigits(b)
    ensures AllDigits(a + b)
  {
    forall i | 0 <= i < |a + b| ensures IsDigit((a + b)[i]) {
      if i >= |a| {
        assert (a + b)[i] == b[i - |a|];
      }
    }
  }

  function Pow10(n: nat): (p: nat)
    ensures p >= 1
  {
    if n == 0 then 1 else 10 * Pow10(n - 1)
  }

  /** `x / 10^k`, one decimal place at a time. */
  function Shift(x: real, k: nat): (r: real)
    ensures x >= 0.0 ==> r >= 0.0
  {
    if k == 0 then x else Shift(x, k - 1) / 10.0
  }

  /** `m * 10^k`, one decimal place at a time. */
  function Times10(m: nat, k: nat): nat
  {
    if k == 0 then m else 10 * Times10(m, k - 1)
  }

  /** Shifting by `k` places divides by `10^k`. */
  lemma {:induction false} ShiftDivides(x: real, k: nat)
    ensures Shift(x, k) == x / Pow10(k) as real
  {
    if k > 0 {
      ShiftDivides(x, k - 1);
      assert Pow10(k) as real == 10.0 * Pow10(k - 1) as real;
    }
  }

  /** Two places: cents. */
  lemma ShiftTwo(x: real)
    ensures Shift(x, 2) == x / 100.0
  {
    assert Shift(x, 1) == x / 10.0;
  }

  /** Five places. */
  lemma ShiftFive(x: real)
    ensures Shift(x, 5) == x / 100000.0
  {
    assert Shift(x, 1) == x / 10.0;
    assert Shift(x, 3) == x / 1000.0;
  }

  /** The value of the decimal numeral `w.f`: its digits, shifted right by
      the number of fraction digits (see `ShiftDivides`). */
  function DecimalValue(w: string, f: string): real
    requires AllDigits(w) && AllDigits(f)
  {
    AllDigitsConcat(w, f);
    Shift(DigitsValue(w + f) as real, |f|)
  }

  /** `m * 10^(e - f)`, the value of a mantissa with `f` fraction digits and
      decimal exponent `e`. */
  function Scaled(m: nat, f: nat, e: int): (r: real)
    ensures r >= 0.0
  {
    if e >= f then Times10(m, e - f) as real
    else Shift(m as real, f - e)
  }

  /** The ExponentPart of a StrDecimalLiteral at the start of `s`: `e` or `E`,
      an optional sign and at least one digit; 0 when `s` does not start with
      one (the letter is then not part of the number). */
  function Exponent(s: string): int
  {
    if s != [] && (s[0] == 'e' || s[0] == 'E') then
      var t := s[1..];
      var neg := t != [] && t[0] == '-';
      var u := if t != [] && (t[0] == '+' || t[0] == '-') then t[1..] else t;
      var k := DigitRun(u);
      if k == 0 then 0
      else if neg then -(DigitsValue(u[..k]) as int)
      else DigitsValue(u[..k])
    else 0
  }

  /** Whether an unsigned decimal literal starts `u`: a digit, or a `.`
      followed by a digit. */
  predicate StartsUnsigned(u: string) {
    (u != [] && IsDigit(u[0])) || (|u| >= 2 && u[0] == '.' && IsDigit(u[1]))
  }

  /** Whether `parseFloat` finds a finite number at the start of `t`, which has
      no leading white space: an optional sign, then an unsigned literal. */
  predicate StartsNumeric(t: string) {
    StartsUnsigned(t) || (t != [] && (t[0] == '+' || t[0] == '-') && StartsUnsigned(t[1..]))
  }

  /** The value of the longest StrUnsignedDecimalLiteral prefix of `u`
      (digits, an optional `.` and digits, an optional exponent). */
  function UnsignedPrefix(u: string): (r: Option<real>)
    ensures r.Some? <==> StartsUnsigned(u)
    ensures r.Some? ==> r.value >= 0.0
  {
    var k := DigitRun(u);
    var rest := u[k..];
    var f := if rest != [] && rest[0] == '.' then DigitRun(rest[1..]) else 0;
    var frac := if rest != [] && rest[0] == '.' then rest[1..][..f] else "";
    var after := if rest != [] && rest[0] == '.' then rest[1..][f..] else rest;
    if k + f == 0 then None
    else
      AllDigitsConcat(u[..k], frac);
      Some(Scaled(DigitsValue(u[..k] + frac), f, Exponent(after)))
  }

  /** `parseFloat(s)`: leading white space is skipped, then the longest prefix
      that is a decimal literal is read; `None` stands for NaN. */
  function ParseFloat(s: string): (r: Option<real>)
    ensures r.Some? <==> StartsNumeric(TrimStart(s))
  {
    var t := TrimStart(s);
    if t != [] && (t[0] == '+' || t[0] == '-') then
      match UnsignedPrefix(t[1..])
      case None => None
      case Some(v) => Some(if t[0] == '-' then -v else v)
    else
      UnsignedPrefix(t)
  }

  /** The least magnitude a double rounds to Infinity: 2^1024 - 2^970, half
      a unit in the last place above the largest finite double. */
  const DoubleOverflow: real := 179769313486231580793728971405303415079934132710037826936173778980444968292764750946649017977587207096330286416692887910946555547851940402630657488671505820681908902000708383676273854845817711531764475730270069855571366959622842914819860834936475292719074168444365510704342711559699508093042880177904174497792.0

  /** A value that `parseFloat` reads as a finite double (`Number.isFinite`). */
  predicate IsFiniteDouble(x: real)
  {
    -DoubleOverflow < x < DoubleOverflow
  }

  /** `Math.round`: the nearest integer, halves rounded up. */
  function Round(x: real): (n: int)
    ensures x - 0.5 < n as real <= x + 0.5
  {
    (x + 0.5).Floor
  }

  /** Reading a numeral with a fraction: `w.f`, followed by something that
      cannot continue a number, is worth `wf / 10^|f|`. */
  lemma {:induction false} ParseDecimal(w: string, f: string, tail: string)
    requires AllDigits(w) && AllDigits(f) && |w| + |f| > 0
    requires tail == [] || (!IsDigit(tail[0]) && tail[0] != 'e' && tail[0] != 'E' && tail[0] != '.')
    ensures ParseFloat(w + "." + f + tail) == Some(DecimalValue(w, f))
  {
    var u := w + "." + f + tail;
    UnsignedDecimal(w, f, tail);
    ParseUnsigned(u);
  }

  /** The same numeral after a minus sign is worth the negated value. */
  lemma {:induction false} ParseNegativeDecimal(w: string, f: string, tail: string)
    requires AllDigits(w) && AllDigits(f) && |w| + |f| > 0
    requires tail == [] || (!IsDigit(tail[0]) && tail[0] != 'e' && tail[0] != 'E' && tail[0] != '.')
    ensures ParseFloat("-" + (w + "." + f + tail)) == Some(-DecimalValue(w, f))
  {
    UnsignedDecimal(w, f, tail);
    NegatedPrefix(w + "." + f + tail, DecimalValue(w, f));
  }

  /** A numeral `w.f` with nothing after it. */
  lemma ParseWholeDecimal(w: string, f: string)
    requires AllDigits(w) && AllDigits(f) && |w| + |f| > 0
    ensures ParseFloat(w + "." + f) == Some(DecimalValue(w, f))
  {
    var u := w + "." + f;
    assert u + "" == u;
    ParseDecimal(w, f, "");
  }

  /** A minus sign in front of a numeral that starts with a digit negates
      what it reads as. */
  lemma NegatedNumeral(s: string, x: real)
    requires ParseFloat(s) == Some(x) && s != [] && IsDigit(s[0])
    ensures ParseFloat("-" + s) == Some(-x)
  {
    ParseUnsigned(s);
    NegatedPrefix(s, x);
  }

  lemma NegatedPrefix(u: string, v: real)
    requires UnsignedPrefix(u) == Some(v)
    ensures ParseFloat("-" + u) == Some(-v)
  {
    ParseSigned(u);
  }

  lemma ParseUnsigned(u: string)
    requires u != [] && (u[0] == '.' || IsDigit(u[0]))
    ensures ParseFloat(u) == UnsignedPrefix(u)
  {
    assert TrimStart(u) == u;
  }

  lemma ParseSigned(u: string)
    ensures ParseFloat("-" + u) == match UnsignedPrefix(u) case None => None case Some(v) => Some(-v)
  {
    var s := "-" + u;
    assert TrimStart(s) == s;
    assert s[1..] == u;
  }

  lemma {:induction false} UnsignedDecimal(w: string, f: string, tail: string)
    requires AllDigits(w) && AllDigits(f) && |w| + |f| > 0
    requires tail == [] || (!IsDigit(tail[0]) && tail[0] != 'e' && tail[0] != 'E' && tail[0] != '.')
    ensures UnsignedPrefix(w + "." + f + tail) == Some(DecimalValue(w, f))
  {
    var u := w + "." + f + tail;
    DigitRunOf(w, "." + f + tail);
    assert u == w + ("." + f + tail);
    var rest := u[|w|..];
    assert rest == "." + f + tail;
    assert rest[1..] == f + tail;
    DigitRunOf(f, tail);
    assert (f + tail)[..|f|] == f;
    assert (f + tail)[|f|..] == tail;
    assert u[..|w|] == w;
    assert Exponent(tail) == 0;
    ScaledNoExponent(DigitsValue(w + f), |f|);
  }

  lemma ScaledNoExponent(m: nat, f: nat)
    ensures Scaled(m, f, 0) == Shift(m as real, f)
  {
  }

  lemma {:induction false} DigitRunOf(d: string, tail: string)
    requires AllDigits(d)
    requires tail == [] || !IsDigit(tail[0])
    ensures DigitRun(d + tail) == |d|
  {
    if d != [] {
      assert (d + tail)[1..] == d[1..] + tail;
      DigitRunOf(d[1..], tail);
    } else {
      assert d + tail == tail;
    }
  }
}
