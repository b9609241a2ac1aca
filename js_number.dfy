/**
 * Numbers written as text: the decimal digits, the value of a digit string,
 * exact decoding of plain decimal text, and the test `isNaN(text)` performs
 * (ECMAScript's StringToNumber grammar).
 */
module JsNumber {
  import opened Wrappers
  import opened JsText

  predicate IsDigit(c: char) {
    '0' <= c <= '9'
  }

  predicate AllDigits(s: string) {
    forall k :: 0 <= k < |s| ==> IsDigit(s[k])
  }

  function Pow10(n: nat): (p: nat)
    ensures p >= 1
  {
    if n == 0 then 1 else 10 * Pow10(n - 1)
  }

  /** The value of a string of decimal digits, most significant first ("" is 0). */
  function DigitsValue(s: string): nat
    requires AllDigits(s)
    decreases |s|
  {
    if s == [] then 0 else DigitsValue(s[..|s| - 1]) * 10 + (s[|s| - 1] as int - '0' as int)
  }

  /** The digits of `b` follow those of `a`: they shift `a` left by `|b|` places. */
  lemma {:induction false} DigitsValueAppend(a: string, b: string)
    requires AllDigits(a) && AllDigits(b)
    ensures AllDigits(a + b)
    ensures DigitsValue(a + b) == DigitsValue(a) * Pow10(|b|) + DigitsValue(b)
    decreases |b|
  {
    var ab := a + b;
    assert AllDigits(ab);
    if b != [] {
      var b' := b[..|b| - 1];
      assert ab[..|ab| - 1] == a + b';
      assert ab[|ab| - 1] == b[|b| - 1];
      DigitsValueAppend(a, b');
      var d := b[|b| - 1] as int - '0' as int;
      assert DigitsValue(ab) == DigitsValue(a + b') * 10 + d;
      assert DigitsValue(b) == DigitsValue(b') * 10 + d;
      ShiftDigit(DigitsValue(a), Pow10(|b'|), DigitsValue(b'), d);
    } else {
      assert ab == a;
    }
  }

  lemma ShiftDigit(x: int, p: int, y: int, d: int)
    ensures (x * p + y) * 10 + d == x * (p * 10) + (y * 10 + d)
  {
  }

  /** The number of consecutive digits of `s` from index `p` on. */
  function DigitRun(s: string, p: nat): (r: nat)
    requires p <= |s|
    ensures p + r <= |s|
    ensures forall k :: p <= k < p + r ==> IsDigit(s[k])
    ensures p + r == |s| || !IsDigit(s[p + r])
    decreases |s| - p
  {
    if p < |s| && IsDigit(s[p]) then 1 + DigitRun(s, p + 1) else 0
  }

  // ---- plain decimal text ----

  /**
   * An exact decimal number: `units` divided by ten to the power `scale`
   * ("1500.50" is Decimal(150050, 2)). It stands for the IEEE double that
   * `parseFloat` would produce. The form is not canonical: Decimal(100, 2)
   * and Decimal(1, 0) are the same number but different values, so the
   * contracts that compare decimals always fix the scale they expect.
   */
  datatype Decimal = Decimal(units: int, scale: nat) {
    predicate IsZero() { units == 0 }
    function Abs(): Decimal { Decimal(if units < 0 then -units else units, scale) }
    function Negate(): Decimal { Decimal(-units, scale) }
  }

  /** Text of the form digits, optionally followed by a point and more digits. */
  ghost predicate IsUnsignedDecimalText(s: string) {
    || (|s| > 0 && AllDigits(s))
    || exists k :: 0 < k < |s| - 1 && s[k] == '.' && AllDigits(s[..k]) && AllDigits(s[k + 1..])
  }

  /** Exact value of unsigned decimal text; None for every other text. */
  function ParseUnsignedDecimal(s: string): Option<Decimal> {
    var k := IndexOf(s, '.');
    var whole := s[..k];
    if |whole| == 0 || !AllDigits(whole) then None
    else if k == |s| then Some(Decimal(DigitsValue(whole), 0))
    else
      var frac := s[k + 1..];
      if |frac| == 0 || !AllDigits(frac) then None
      else Some(Decimal(DigitsValue(whole + frac), |frac|))
  }

  /**
   * Exact value of text `-?digits(.digits)?`, the form a cleaned amount
   * takes; None (JavaScript's NaN) for every other text.
   */
  function ParseDecimal(s: string): Option<Decimal> {
    if |s| > 0 && s[0] == '-' then Negated(ParseUnsignedDecimal(s[1..]))
    else ParseUnsignedDecimal(s)
  }

  /** The sign applied to a decoded value; NaN stays NaN. */
  function Negated(x: Option<Decimal>): Option<Decimal> {
    match x
    case None => None
    case Some(d) => Some(d.Negate())
  }

  /** The decoder accepts exactly the unsigned decimal texts, and their values are never negative. */
  lemma ParseUnsignedDecimalDefined(s: string)
    ensures ParseUnsignedDecimal(s).Some? <==> IsUnsignedDecimalText(s)
    ensures ParseUnsignedDecimal(s).Some? ==> ParseUnsignedDecimal(s).value.units >= 0
  {
    var k := IndexOf(s, '.');
    if IsUnsignedDecimalText(s) {
      if |s| > 0 && AllDigits(s) {
        assert k == |s|;
        assert s[..k] == s;
      } else {
        var k' :| 0 < k' < |s| - 1 && s[k'] == '.' && AllDigits(s[..k']) && AllDigits(s[k' + 1..]);
        forall m | 0 <= m < k' ensures s[m] != '.' {
          assert s[..k'][m] == s[m];
        }
      }
    }
    if ParseUnsignedDecimal(s).Some? && k < |s| {
      assert 0 < k < |s| - 1 && s[k] == '.' && AllDigits(s[..k]) && AllDigits(s[k + 1..]);
    }
  }

  /** Whole digits, a point and more digits decode to all those digits over ten to the number of digits after the point. */
  lemma ParsePoint(whole: string, frac: string)
    requires |whole| > 0 && AllDigits(whole) && |frac| > 0 && AllDigits(frac)
    ensures AllDigits(whole + frac)
    ensures ParseDecimal(whole + "." + frac) == Some(Decimal(DigitsValue(whole + frac), |frac|))
  {
    PointIndex(whole, frac);
    PointParts(whole, frac);
  }

  lemma PointIndex(whole: string, frac: string)
    requires AllDigits(whole)
    ensures IndexOf(whole + "." + frac, '.') == |whole|
  {
    assert '.' !in whole;
    IndexOfConcat(whole, "." + frac, '.');
    assert whole + "." + frac == whole + ("." + frac);
  }

  lemma PointParts(whole: string, frac: string)
    requires |whole| > 0
    ensures (whole + "." + frac)[..|whole|] == whole
    ensures (whole + "." + frac)[|whole| + 1..] == frac
    ensures (whole + "." + frac)[0] == whole[0]
  {
  }

  /** Digits without a point decode to a whole number. */
  lemma ParseWhole(digits: string)
    requires |digits| > 0 && AllDigits(digits)
    ensures ParseDecimal(digits) == Some(Decimal(DigitsValue(digits), 0))
  {
    assert '.' !in digits;
    assert IndexOf(digits, '.') == |digits|;
    assert digits[..|digits|] == digits;
  }

  /** A leading minus sign negates the value of unsigned decimal text. */
  lemma ParseNegative(s: string)
    requires s == [] || s[0] != '-'
    ensures ParseDecimal("-" + s) == Negated(ParseDecimal(s))
  {
    assert ("-" + s)[1..] == s;
  }

  // ---- parseFloat ----

  /**
   * A number `parseFloat` can produce, NaN aside (NaN is None): an exact
   * decimal, or an infinity.
   */
  datatype Number = Finite(decimal: Decimal) | Infinite(negative: bool) {
    /** `x === 0`: true for a zero decimal of any scale, including one read from "-0". */
    predicate IsZero() { Finite? && decimal.IsZero() }
    /** Greater than zero. */
    predicate IsPositive() { if Finite? then decimal.units > 0 else !negative }
    /** `Math.abs`. */
    function Abs(): Number {
      match this
      case Finite(d) => Finite(d.Abs())
      case Infinite(_) => Infinite(false)
    }
    function Negate(): Number {
      match this
      case Finite(d) => Finite(d.Negate())
      case Infinite(n) => Infinite(!n)
    }
  }

  /** `Math.abs` of a non-zero number is positive and is the number or its negation. */
  lemma AbsPositive(n: Number)
    requires !n.IsZero()
    ensures n.Abs().IsPositive()
    ensures n.Abs() == n || n.Abs() == n.Negate()
  {
  }

  /** The sign applied to a number read; NaN stays NaN. */
  function NegatedNumber(x: Option<Number>): Option<Number> {
    match x
    case None => None
    case Some(n) => Some(n.Negate())
  }

  /** `d` times ten to the power `e`, kept exact. */
  function Scaled(d: Decimal, e: int): Decimal {
    if e >= d.scale then Decimal(d.units * Pow10(e - d.scale), 0) else Decimal(d.units, d.scale - e)
  }

  lemma {:induction false} Pow10Add(a: nat, b: nat)
    ensures Pow10(a + b) == Pow10(a) * Pow10(b)
    decreases a
  {
    if a > 0 {
      Pow10Add(a - 1, b);
    }
  }

  /**
   * Scaling multiplies the value by `10^e`: the result over `10^scale` equals
   * `d`'s units over `10^(d.scale - e)`, written without division.
   */
  lemma ScaledValue(d: Decimal, e: int)
    ensures Scaled(d, e).scale + e >= 0
    ensures Scaled(d, e).units * Pow10(d.scale) == d.units * Pow10(Scaled(d, e).scale + e)
  {
    if e >= d.scale {
      Pow10Add(e - d.scale, d.scale);
      assert d.units * Pow10(e - d.scale) * Pow10(d.scale) == d.units * (Pow10(e - d.scale) * Pow10(d.scale));
    }
  }

  /** A zero exponent leaves the number as it is. */
  lemma ScaledZero(d: Decimal)
    ensures Scaled(d, 0) == d
  {
  }

  /**
   * `parseFloat(s)`: after leading white space and an optional sign, either
   * `Infinity`, or the longest prefix made of digits, a point and digits
   * (with at least one digit) and an optional exponent part; None (NaN) when
   * there is no such prefix.
   */
  function ParseFloat(s: string): Option<Number> {
    var t := TrimStart(s);
    if |t| > 0 && t[0] == '-' then NegatedNumber(ParseUnsignedPrefix(t[1..]))
    else if |t| > 0 && t[0] == '+' then ParseUnsignedPrefix(t[1..])
    else ParseUnsignedPrefix(t)
  }

  const InfinityText: string := "Infinity"

  /** The number `u` starts with, without a sign. */
  function ParseUnsignedPrefix(u: string): Option<Number> {
    if InfinityText <= u then Some(Infinite(false))
    else
      match Mantissa(u)
      case None => None
      case Some(d) => Some(Finite(Scaled(d, ExponentAt(u, MantissaEnd(u)))))
  }

  /** The value of the longest prefix of `u` made of digits, then a point and digits; None without any digit. */
  function Mantissa(u: string): Option<Decimal> {
    PrefixNumber(LeadingDigits(u), FractionDigits(u))
  }

  /** Where the digits and the point at the start of `u` end. */
  function MantissaEnd(u: string): (m: nat)
    ensures m <= |u|
  {
    var w := DigitRun(u, 0);
    if w < |u| && u[w] == '.' then w + 1 + DigitRun(u, w + 1) else w
  }

  /**
   * The exponent written at index `m`: `e` or `E`, an optional sign and at
   * least one digit; 0 when there is none, which leaves the `e` unread.
   */
  function ExponentAt(u: string, m: nat): int
    requires m <= |u|
  {
    if m < |u| && (u[m] == 'e' || u[m] == 'E') then
      var signed := m + 1 < |u| && (u[m + 1] == '+' || u[m + 1] == '-');
      var digits := DigitsFrom(u, if signed then m + 2 else m + 1);
      if digits == [] then 0
      else if signed && u[m + 1] == '-' then -(DigitsValue(digits) as int)
      else DigitsValue(digits)
    else 0
  }

  /** The digits `u` starts with. */
  function LeadingDigits(u: string): (d: string)
    ensures AllDigits(d)
  {
    DigitsFrom(u, 0)
  }

  /** The digits after the point that follows the leading digits; empty when there is no such point. */
  function FractionDigits(u: string): (d: string)
    ensures AllDigits(d)
  {
    var w := DigitRun(u, 0);
    if w < |u| && u[w] == '.' then DigitsFrom(u, w + 1) else []
  }

  /** The run of digits that starts at `p`. */
  function DigitsFrom(u: string, p: nat): (d: string)
    requires p <= |u|
    ensures AllDigits(d)
  {
    u[p..p + DigitRun(u, p)]
  }

  /** The number written with the digits `whole`, a point and the digits `frac`; None without any digit. */
  function PrefixNumber(whole: string, frac: string): Option<Decimal>
    requires AllDigits(whole) && AllDigits(frac)
  {
    if whole == [] && frac == [] then None else Some(Decimal(DigitsValue(whole + frac), |frac|))
  }

  /** On unsigned decimal text the mantissa read is the whole text. */
  lemma UnsignedPrefixAgrees(u: string)
    requires ParseUnsignedDecimal(u).Some?
    ensures Mantissa(u) == ParseUnsignedDecimal(u)
    ensures IsDigit(u[0])
  {
    var k := IndexOf(u, '.');
    UnsignedRuns(u);
    assert u[..k][0] == u[0];
    assert LeadingDigits(u) == u[..k];
    if k < |u| {
      FractionDigitsAt(u, k);
      assert DigitsFrom(u, k + 1) == u[k + 1..];
    } else {
      assert u[..k] + [] == u[..k];
    }
  }

  /** On unsigned decimal text the leading digit run stops at the point, and the second run reaches the end. */
  lemma UnsignedRuns(u: string)
    requires ParseUnsignedDecimal(u).Some?
    ensures DigitRun(u, 0) == IndexOf(u, '.') > 0
    ensures IndexOf(u, '.') < |u| ==> |u| - IndexOf(u, '.') - 1 == DigitRun(u, IndexOf(u, '.') + 1) > 0
  {
    var k := IndexOf(u, '.');
    assert 0 < k && AllDigits(u[..k]);
    assert k < |u| ==> k + 1 < |u| && AllDigits(u[k + 1..]);
    PartsRuns(u, k);
  }

  /** Digits up to `k`, then a point and digits to the end: the two digit runs are exactly those parts. */
  lemma PartsRuns(u: string, k: nat)
    requires 0 < k <= |u| && AllDigits(u[..k])
    requires k < |u| ==> u[k] == '.' && k + 1 < |u| && AllDigits(u[k + 1..])
    ensures DigitRun(u, 0) == k
    ensures k < |u| ==> DigitRun(u, k + 1) == |u| - k - 1
  {
    forall m | 0 <= m < k ensures IsDigit(u[m]) {
      assert u[..k][m] == u[m];
    }
    if k < |u| {
      forall m | k + 1 <= m < |u| ensures IsDigit(u[m]) {
        assert u[k + 1..][m - k - 1] == u[m];
      }
    }
  }

  /** Text that cannot continue a number: no digit, no point and no exponent mark at its start. */
  predicate EndsNumber(r: string) {
    r == [] || (!IsDigit(r[0]) && r[0] != '.' && r[0] != 'e' && r[0] != 'E')
  }

  /**
   * Text after a number is ignored: `parseFloat` reads "1500.50 ARS" as
   * 1500.50, where the exact decoder rejects the whole text.
   */
  lemma ParseFloatTrailing(s: string, r: string)
    requires ParseDecimal(s).Some?
    requires EndsNumber(r)
    ensures ParseFloat(s + r) == Some(Finite(ParseDecimal(s).value))
  {
    if s[0] == '-' {
      var u := s[1..];
      assert s == "-" + u;
      NegativeTrailing(u, r);
    } else {
      UnsignedTrailing(s, r);
    }
  }

  /** Unsigned decimal text followed by text that ends the number reads as its own value. */
  lemma UnsignedPrefixEnds(u: string, r: string)
    requires ParseUnsignedDecimal(u).Some?
    requires EndsNumber(r)
    ensures ParseUnsignedPrefix(u + r) == Some(Finite(ParseUnsignedDecimal(u).value))
    ensures IsDigit((u + r)[0])
  {
    var v := u + r;
    UnsignedPrefixAgrees(u);
    UnsignedPrefixTrailing(u, r);
    assert v[0] == u[0];
    assert !(InfinityText <= v) by {
      assert InfinityText[0] == 'I';
    }
    assert ExponentAt(v, |u|) == 0 by {
      if r != [] {
        assert v[|u|] == r[0];
      }
    }
    ScaledZero(ParseUnsignedDecimal(u).value);
  }

  lemma UnsignedTrailing(u: string, r: string)
    requires ParseUnsignedDecimal(u).Some?
    requires EndsNumber(r)
    ensures ParseFloat(u + r) == Some(Finite(ParseUnsignedDecimal(u).value))
  {
    UnsignedPrefixEnds(u, r);
    ParseFloatUnsigned(u + r, u + r);
  }

  lemma NegativeTrailing(u: string, r: string)
    requires ParseUnsignedDecimal(u).Some?
    requires EndsNumber(r)
    ensures ParseFloat("-" + u + r) == Some(Finite(ParseDecimal("-" + u).value))
  {
    var v := u + r;
    UnsignedPrefixEnds(u, r);
    MinusPrefix(v);
    AppendAssoc("-", u, r);
    ParseNegative(u);
    assert u[0] != '-' by {
      UnsignedPrefixAgrees(u);
    }
  }

  /** A minus sign before text that starts with a digit negates the number read. */
  lemma MinusPrefix(v: string)
    requires |v| > 0 && IsDigit(v[0])
    ensures ParseFloat("-" + v) == NegatedNumber(ParseUnsignedPrefix(v))
  {
    var t := "-" + v;
    assert t[1..] == v;
    ParseFloatUnsigned(t, v);
  }

  /** On text of the form `-?digits(.digits)?` the prefix is the whole text: `parseFloat` agrees with the exact decoder. */
  lemma ParseFloatDecimal(s: string)
    requires ParseDecimal(s).Some?
    ensures ParseFloat(s) == Some(Finite(ParseDecimal(s).value))
  {
    ParseFloatTrailing(s, []);
    assert s + [] == s;
  }

  /** Text that starts with a digit, or with a minus sign and a digit, is read from its first character. */
  lemma ParseFloatUnsigned(t: string, u: string)
    requires |u| > 0 && IsDigit(u[0])
    requires t == u || (|t| > 0 && t[0] == '-' && t[1..] == u)
    ensures ParseFloat(t) == if t[0] == '-' then NegatedNumber(ParseUnsignedPrefix(u)) else ParseUnsignedPrefix(u)
  {
    assert !IsJsSpace(t[0]);
    assert TrimStart(t) == t;
  }

  /** Appending text that cannot continue the digits and point leaves the mantissa and where it ends unchanged. */
  lemma UnsignedPrefixTrailing(u: string, r: string)
    requires ParseUnsignedDecimal(u).Some?
    requires r == [] || (!IsDigit(r[0]) && r[0] != '.')
    ensures Mantissa(u + r) == Mantissa(u)
    ensures MantissaEnd(u + r) == |u|
  {
    var k := IndexOf(u, '.');
    UnsignedRuns(u);
    assert k < |u| ==> u[k] == '.';
    PrefixTrailing(u, r, k);
  }

  lemma PrefixTrailing(u: string, r: string, k: nat)
    requires 0 < k <= |u| && DigitRun(u, 0) == k
    requires k < |u| ==> u[k] == '.' && DigitRun(u, k + 1) == |u| - k - 1 > 0
    requires r == [] || (!IsDigit(r[0]) && r[0] != '.')
    ensures Mantissa(u + r) == Mantissa(u)
    ensures MantissaEnd(u + r) == |u|
  {
    assert DigitRun(u + r, 0) == k by {
      DigitRunAppend(u, r, 0);
    }
    if k < |u| {
      FractionTrailing(u, r, k);
      assert (u + r)[k] == '.';
    } else {
      WholeTrailing(u, r);
      if r != [] {
        assert (u + r)[k] == r[0];
      }
    }
  }

  lemma WholeTrailing(u: string, r: string)
    requires 0 < |u| && DigitRun(u, 0) == |u| && DigitRun(u + r, 0) == |u|
    requires r == [] || r[0] != '.'
    ensures Mantissa(u + r) == Mantissa(u)
  {
    LeadingAppend(u, r, |u|);
    assert FractionDigits(u + r) == [] == FractionDigits(u) by {
      if r != [] {
        assert (u + r)[|u|] == r[0];
      }
    }
  }

  lemma FractionTrailing(u: string, r: string, k: nat)
    requires 0 < k < |u| && DigitRun(u, 0) == k && DigitRun(u + r, 0) == k
    requires u[k] == '.' && DigitRun(u, k + 1) == |u| - k - 1 > 0
    requires r == [] || !IsDigit(r[0])
    ensures Mantissa(u + r) == Mantissa(u)
    ensures DigitRun(u + r, k + 1) == |u| - k - 1
  {
    LeadingAppend(u, r, k);
    FractionAppend(u, r, k);
  }

  /** The leading digits are those of `u` when the run in `u + r` stops at the same place. */
  lemma LeadingAppend(u: string, r: string, k: nat)
    requires DigitRun(u, 0) == k && DigitRun(u + r, 0) == k
    ensures LeadingDigits(u + r) == LeadingDigits(u)
  {
    DigitsFromAppend(u, r, 0);
  }

  /** The digits after the point are those of `u` when they run to its end and `r` starts with no digit. */
  lemma FractionAppend(u: string, r: string, k: nat)
    requires 0 < k < |u| && DigitRun(u, 0) == k && DigitRun(u + r, 0) == k
    requires u[k] == '.' && DigitRun(u, k + 1) == |u| - k - 1
    requires r == [] || !IsDigit(r[0])
    ensures FractionDigits(u + r) == FractionDigits(u)
    ensures DigitRun(u + r, k + 1) == |u| - k - 1
  {
    FractionDigitsAt(u, k);
    assert (u + r)[k] == '.';
    FractionDigitsAt(u + r, k);
    DigitRunAppend(u, r, k + 1);
    DigitsFromAppend(u, r, k + 1);
  }

  lemma FractionDigitsAt(v: string, k: nat)
    requires DigitRun(v, 0) == k < |v| && v[k] == '.'
    ensures FractionDigits(v) == DigitsFrom(v, k + 1)
  {
  }

  /** A digit run that ends inside `u` is read the same from `u + r`. */
  lemma DigitsFromAppend(u: string, r: string, p: nat)
    requires p <= |u| && DigitRun(u + r, p) == DigitRun(u, p)
    ensures DigitsFrom(u + r, p) == DigitsFrom(u, p)
  {
    AppendSlice(u, r, p, p + DigitRun(u, p));
  }

  /** A slice inside `a` is the same slice of `a + b`. */
  lemma AppendSlice(a: string, b: string, i: nat, j: nat)
    requires i <= j <= |a|
    ensures (a + b)[i..j] == a[i..j]
  {
    assert forall m :: 0 <= m < j - i ==> (a + b)[i..j][m] == a[i + m];
  }

  /** A digit run that stops inside `a`, or at its end before a non-digit, is unchanged by appending `b`. */
  lemma {:induction false} DigitRunAppend(a: string, b: string, p: nat)
    requires p <= |a|
    requires b == [] || !IsDigit(b[0]) || p + DigitRun(a, p) < |a|
    ensures DigitRun(a + b, p) == DigitRun(a, p)
    decreases |a| - p
  {
    if p < |a| {
      assert (a + b)[p] == a[p];
      if IsDigit(a[p]) {
        DigitRunAppend(a, b, p + 1);
      }
    } else if b != [] {
      assert (a + b)[p] == b[0];
    }
  }

  /** From `p` to the end every character is a digit: the run reaches the end. */
  lemma {:induction false} DigitRunToEnd(s: string, p: nat)
    requires p <= |s| && forall k :: p <= k < |s| ==> IsDigit(s[k])
    ensures DigitRun(s, p) == |s| - p
    decreases |s| - p
  {
    if p < |s| {
      DigitRunToEnd(s, p + 1);
    }
  }

  /** The digits `x` written at index `|a|`, before text that starts with no digit, are read whole. */
  lemma DigitsBetween(a: string, x: string, b: string)
    requires AllDigits(x) && (b == [] || !IsDigit(b[0]))
    ensures DigitsFrom(a + x + b, |a|) == x
  {
    var ax := a + x;
    forall k | |a| <= k < |ax| ensures IsDigit(ax[k]) {
      assert ax[k] == x[k - |a|];
    }
    DigitRunToEnd(ax, |a|);
    DigitRunAppend(ax, b, |a|);
    AppendSlice(ax, b, |a|, |ax|);
    assert ax[|a|..|ax|] == x;
  }

  /** The exponent part `mark sign x` written at index `|a|` is read as plus or minus the value of `x`. */
  lemma ExponentAtMark(a: string, mark: char, sign: string, x: string, r: string)
    requires (mark == 'e' || mark == 'E') && (sign == "" || sign == "+" || sign == "-")
    requires |x| > 0 && AllDigits(x) && (r == [] || !IsDigit(r[0]))
    ensures ExponentAt(a + [mark] + sign + x + r, |a|) == if sign == "-" then -(DigitsValue(x) as int) else DigitsValue(x)
  {
    var v := a + [mark] + sign + x + r;
    var b := a + [mark] + sign;
    assert v == b + x + r;
    assert v[|a|] == mark;
    DigitsBetween(b, x, r);
    if sign == "" {
      assert v[|a| + 1] == x[0];
    } else {
      assert v[|a| + 1] == sign[0];
    }
  }

  /**
   * Unsigned decimal text followed by an exponent part, `e` or `E` with an
   * optional sign and digits, reads as its value times ten to that power:
   * `parseFloat("2.5e3")` is 2500.
   */
  lemma ParseFloatExponent(u: string, mark: char, sign: string, x: string, r: string)
    requires ParseUnsignedDecimal(u).Some?
    requires (mark == 'e' || mark == 'E') && (sign == "" || sign == "+" || sign == "-")
    requires |x| > 0 && AllDigits(x) && (r == [] || !IsDigit(r[0]))
    ensures ParseFloat(u + [mark] + sign + x + r)
            == Some(Finite(Scaled(ParseUnsignedDecimal(u).value, if sign == "-" then -(DigitsValue(x) as int) else DigitsValue(x))))
  {
    var v := u + [mark] + sign + x + r;
    UnsignedExponent(u, mark, sign, x, r);
    assert v[0] == u[0];
    ParseFloatUnsigned(v, v);
  }

  /** The same, without the sign handling of `parseFloat`: the unsigned reader takes mantissa and exponent. */
  lemma UnsignedExponent(u: string, mark: char, sign: string, x: string, r: string)
    requires ParseUnsignedDecimal(u).Some?
    requires (mark == 'e' || mark == 'E') && (sign == "" || sign == "+" || sign == "-")
    requires |x| > 0 && AllDigits(x) && (r == [] || !IsDigit(r[0]))
    ensures IsDigit(u[0])
    ensures ParseUnsignedPrefix(u + [mark] + sign + x + r)
            == Some(Finite(Scaled(ParseUnsignedDecimal(u).value, if sign == "-" then -(DigitsValue(x) as int) else DigitsValue(x))))
  {
    var tail := [mark] + sign + x + r;
    var v := u + tail;
    AppendAssoc(u, [mark] + sign + x, r);
    AppendAssoc(u, [mark] + sign, x);
    AppendAssoc(u, [mark], sign);
    UnsignedPrefixAgrees(u);
    UnsignedPrefixTrailing(u, tail);
    ExponentAtMark(u, mark, sign, x, r);
    assert v[0] == u[0];
    DigitPrefixRead(v, |u|);
  }

  /** Text that starts with a digit is read as its mantissa scaled by the exponent after it. */
  lemma DigitPrefixRead(v: string, m: nat)
    requires |v| > 0 && IsDigit(v[0]) && MantissaEnd(v) == m
    ensures Mantissa(v).Some?
    ensures ParseUnsignedPrefix(v) == Some(Finite(Scaled(Mantissa(v).value, ExponentAt(v, m))))
  {
    assert !(InfinityText <= v) by {
      assert InfinityText[0] == 'I';
    }
    assert DigitRun(v, 0) > 0;
  }

  /** `Infinity`, signed or not, reads as an infinity whatever follows it. */
  lemma ParseFloatInfinity(sign: string, r: string)
    requires sign == "" || sign == "+" || sign == "-"
    ensures ParseFloat(sign + InfinityText + r) == Some(Infinite(sign == "-"))
  {
    var t := sign + InfinityText + r;
    assert !IsJsSpace(t[0]);
    assert TrimStart(t) == t;
    var u := InfinityText + r;
    assert InfinityText <= u;
    if sign != "" {
      assert t[1..] == u;
    } else {
      assert t == u;
    }
  }

  /**
   * Text that starts with a character no number can start with (not white
   * space, a digit, a sign, a point or the `I` of `Infinity`) reads as NaN.
   */
  lemma ParseFloatNonNumeric(s: string)
    requires |s| > 0 && !IsJsSpace(s[0]) && !IsDigit(s[0])
    requires s[0] != '+' && s[0] != '-' && s[0] != '.' && s[0] != 'I'
    ensures ParseFloat(s) == None
  {
    assert TrimStart(s) == s;
    assert !(InfinityText <= s) by {
      assert InfinityText[0] == 'I';
    }
    assert DigitRun(s, 0) == 0;
    assert Mantissa(s) == None;
  }

  /**
   * Text without a digit holds no decimal number: `parseFloat` reads NaN,
   * or an infinity when the text spells `Infinity`.
   */
  lemma ParseFloatNoDigits(s: string)
    requires forall k :: 0 <= k < |s| ==> !IsDigit(s[k])
    ensures ParseFloat(s) == None || ParseFloat(s).value.Infinite?
  {
    var t := TrimStart(s);
    TrimStartSpec(s);
    var body := if |t| > 0 && (t[0] == '-' || t[0] == '+') then t[1..] else t;
    assert forall k :: 0 <= k < |body| ==> !IsDigit(body[k]) by {
      forall k | 0 <= k < |body| ensures !IsDigit(body[k]) {
        if |t| > 0 && (t[0] == '-' || t[0] == '+') {
          assert body[k] == t[k + 1] == s[|s| - |t| + k + 1];
        } else {
          assert body[k] == s[|s| - |t| + k];
        }
      }
    }
    assert Mantissa(body) == None;
  }

  // ---- isNaN ----

  predicate IsHexDigit(c: char) {
    IsDigit(c) || 'a' <= c <= 'f' || 'A' <= c <= 'F'
  }

  predicate AllHexDigits(s: string) {
    forall k :: 0 <= k < |s| ==> IsHexDigit(s[k])
  }

  predicate AllOctalDigits(s: string) {
    forall k :: 0 <= k < |s| ==> '0' <= s[k] <= '7'
  }

  predicate AllBinaryDigits(s: string) {
    forall k :: 0 <= k < |s| ==> s[k] == '0' || s[k] == '1'
  }

  /** `0x…`, `0o…` or `0b…` with at least one digit of that base. */
  predicate IsNonDecimalIntegerLiteral(t: string) {
    && |t| > 2 && t[0] == '0'
    && (|| ((t[1] == 'x' || t[1] == 'X') && AllHexDigits(t[2..]))
        || ((t[1] == 'o' || t[1] == 'O') && AllOctalDigits(t[2..]))
        || ((t[1] == 'b' || t[1] == 'B') && AllBinaryDigits(t[2..])))
  }

  /** `digits`, `digits.`, `digits.digits` or `.digits`. */
  predicate IsMantissa(u: string) {
    var p := IndexOf(u, '.');
    if p == |u| then |u| > 0 && AllDigits(u)
    else AllDigits(u[..p]) && AllDigits(u[p + 1..]) && (p > 0 || p + 1 < |u|)
  }

  /** What follows `e` or `E`: an optional sign and at least one digit. */
  predicate IsExponentBody(v: string) {
    var w := if |v| > 0 && (v[0] == '+' || v[0] == '-') then v[1..] else v;
    |w| > 0 && AllDigits(w)
  }

  /** `Infinity`, or a mantissa with an optional exponent part. */
  predicate IsUnsignedDecimalLiteral(t: string) {
    var m := if IndexOf(t, 'e') < IndexOf(t, 'E') then IndexOf(t, 'e') else IndexOf(t, 'E');
    || t == "Infinity"
    || (IsMantissa(t[..m]) && (m == |t| || IsExponentBody(t[m + 1..])))
  }

  predicate IsDecimalLiteral(t: string) {
    if |t| > 0 && (t[0] == '+' || t[0] == '-') then IsUnsignedDecimalLiteral(t[1..])
    else IsUnsignedDecimalLiteral(t)
  }

  /** Trimmed text that `Number()` reads as a number: empty, or a numeric literal. */
  predicate IsNumericText(t: string) {
    t == [] || IsNonDecimalIntegerLiteral(t) || IsDecimalLiteral(t)
  }

  /**
   * `Number(s)` is not NaN: leading white space is skipped, and what is left
   * without its trailing white space is numeric text. `isNaN(s)` is the
   * negation.
   */
  predicate IsNumericJS(s: string)
    decreases |s|
  {
    if |s| > 0 && IsJsSpace(s[0]) then IsNumericJS(s[1..])
    else IsNumericText(TrimEnd(s))
  }

  /** `isNaN` looks at the trimmed text only. */
  lemma {:induction false} NumericTrim(s: string)
    ensures IsNumericJS(s) == IsNumericText(Trim(s))
    decreases |s|
  {
    if |s| > 0 && IsJsSpace(s[0]) {
      NumericTrim(s[1..]);
    }
  }

  /**
   * Text that starts with a character no numeric literal can start with
   * (not white space, a digit, a sign, a point or the `I` of `Infinity`) is
   * not a number, so `isNaN` holds for it.
   */
  lemma NonNumericLead(s: string)
    requires |s| > 0 && !IsJsSpace(s[0]) && !IsDigit(s[0])
    requires s[0] != '+' && s[0] != '-' && s[0] != '.' && s[0] != 'I'
    ensures !IsNumericJS(s)
  {
    var t := TrimEnd(s);
    TrimEndSpec(s);
    assert t[0] == s[0];
    var m := if IndexOf(t, 'e') < IndexOf(t, 'E') then IndexOf(t, 'e') else IndexOf(t, 'E');
    var u := t[..m];
    if m > 0 {
      assert u[0] == t[0];
      var p := IndexOf(u, '.');
      if 0 < p < |u| {
        assert u[..p][0] == u[0];
      }
    }
    assert !IsMantissa(u);
    assert t != "Infinity";
  }

  /** Digits with no point and no exponent form a decimal literal. */
  lemma DigitsLiteral(u: string)
    requires |u| > 0 && AllDigits(u)
    ensures IsUnsignedDecimalLiteral(u)
  {
    assert 'e' !in u && 'E' !in u && '.' !in u;
    assert IndexOf(u, 'e') == |u| && IndexOf(u, 'E') == |u|;
    assert u[..|u|] == u;
    assert IsMantissa(u);
  }

  /** Text whose ends are digits is left alone by `trim`. */
  lemma TrimDigitEnds(s: string)
    requires |s| > 0 && IsDigit(s[0]) && IsDigit(s[|s| - 1])
    ensures Trim(s) == s
  {
    assert !IsJsSpace(s[0]) && !IsJsSpace(s[|s| - 1]);
    TrimIdentity(s);
  }

  lemma LiteralNumeric(s: string)
    requires Trim(s) == s && IsDecimalLiteral(s)
    ensures IsNumericJS(s)
  {
    NumericTrim(s);
  }

  lemma DigitsDecimalLiteral(s: string)
    requires |s| > 0 && AllDigits(s)
    ensures IsDecimalLiteral(s)
  {
    DigitsLiteral(s);
    assert s[0] != '+' && s[0] != '-';
  }

  /** A line made only of digits counts as a number, so `isNaN` is false for it. */
  lemma AllDigitsNumeric(s: string)
    requires |s| > 0 && AllDigits(s)
    ensures IsNumericJS(s)
  {
    TrimDigitEnds(s);
    DigitsDecimalLiteral(s);
    LiteralNumeric(s);
  }

  /** Unsigned decimal text is a literal to `Number()`: it has no exponent. */
  lemma DecimalTextLiteral(u: string)
    requires IsUnsignedDecimalText(u)
    ensures IsUnsignedDecimalLiteral(u)
  {
    if |u| > 0 && AllDigits(u) {
      DigitsLiteral(u);
    } else {
      var k :| 0 < k < |u| - 1 && u[k] == '.' && AllDigits(u[..k]) && AllDigits(u[k + 1..]);
      forall m | 0 <= m < |u| ensures u[m] != 'e' && u[m] != 'E' {
        if m < k { assert u[..k][m] == u[m]; }
        else if m > k { assert u[k + 1..][m - k - 1] == u[m]; }
      }
      assert IndexOf(u, 'e') == |u| && IndexOf(u, 'E') == |u|;
      assert u[..|u|] == u;
      forall m | 0 <= m < k ensures u[m] != '.' {
        assert u[..k][m] == u[m];
      }
      assert IndexOf(u, '.') == k;
      assert IsMantissa(u);
    }
  }

  /** Unsigned decimal text starts and ends with a digit. */
  lemma DecimalTextEnds(u: string)
    requires IsUnsignedDecimalText(u)
    ensures |u| > 0 && IsDigit(u[0]) && IsDigit(u[|u| - 1])
  {
    if !AllDigits(u) {
      var k :| 0 < k < |u| - 1 && u[k] == '.' && AllDigits(u[..k]) && AllDigits(u[k + 1..]);
      assert u[k + 1..][|u| - k - 2] == u[|u| - 1];
      assert u[..k][0] == u[0];
    }
  }

  /** Every text the decimal decoder accepts is also a number to `Number()`. */
  lemma DecimalTextNumeric(s: string)
    requires ParseDecimal(s).Some?
    ensures IsNumericJS(s)
  {
    var u := if |s| > 0 && s[0] == '-' then s[1..] else s;
    ParseUnsignedDecimalDefined(u);
    DecimalTextLiteral(u);
    DecimalTextEnds(u);
    SignedDecimalText(s, u);
    LiteralNumeric(s);
  }

  /** With an optional minus sign in front, unsigned decimal text is a trimmed decimal literal. */
  lemma SignedDecimalText(s: string, u: string)
    requires s == u || (|s| > 0 && s[0] == '-' && s[1..] == u)
    requires |u| > 0 && IsDigit(u[0]) && IsDigit(u[|u| - 1]) && IsUnsignedDecimalLiteral(u)
    ensures Trim(s) == s && IsDecimalLiteral(s)
  {
    assert s[|s| - 1] == u[|u| - 1];
    if s != u {
      assert !IsJsSpace(s[0]) && !IsJsSpace(s[|s| - 1]);
      TrimIdentity(s);
    } else {
      TrimDigitEnds(s);
    }
  }
}
