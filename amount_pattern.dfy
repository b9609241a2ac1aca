/**
 * The amount pattern of the card-statement scanner, written as a grammar:
 * one to three digits, any number of groups of a point and three digits,
 * then a comma and two digits ("28.600,00", "10,00"). The pattern is not
 * anchored, so a line "has an amount" when the token occurs anywhere in it,
 * and the amount taken is the leftmost occurrence.
 */
module AmountPattern {
  import opened Wrappers
  import opened JsText
  import opened JsNumber

  // ---- the language of the pattern ----

  /** The closing part: a comma and exactly two digits. */
  predicate IsCentsPart(u: string) {
    |u| == 3 && u[0] == ',' && IsDigit(u[1]) && IsDigit(u[2])
  }

  /** Thousands groups (each a point and three digits) followed by the closing part. */
  predicate IsGroupsTail(u: string)
    decreases |u|
  {
    || IsCentsPart(u)
    || (|u| > 4 && u[0] == '.' && IsDigit(u[1]) && IsDigit(u[2]) && IsDigit(u[3]) && IsGroupsTail(u[4..]))
  }

  /** `t` starts with `lead` digits and continues with a groups tail. */
  predicate LeadThenTail(t: string, lead: nat) {
    1 <= lead <= 3 && lead < |t| && AllDigits(t[..lead]) && IsGroupsTail(t[lead..])
  }

  /** `t` is exactly one amount token. */
  predicate IsAmountToken(t: string) {
    LeadThenTail(t, 1) || LeadThenTail(t, 2) || LeadThenTail(t, 3)
  }

  // ---- matching at a given start ----

  /** Where a groups tail starting at index `q` of `s` ends, if one starts there. */
  function TailEnd(s: string, q: nat): (r: Option<nat>)
    requires q <= |s|
    ensures r.Some? ==> q < r.value <= |s|
    decreases |s| - q
  {
    if q + 3 <= |s| && s[q] == ',' && IsDigit(s[q + 1]) && IsDigit(s[q + 2]) then Some(q + 3)
    else if q + 4 <= |s| && s[q] == '.' && IsDigit(s[q + 1]) && IsDigit(s[q + 2]) && IsDigit(s[q + 3]) then TailEnd(s, q + 4)
    else None
  }

  /**
   * Where the pattern's match starting at index `p` ends. The lead takes the
   * whole digit run: a shorter lead would be followed by a digit, which
   * neither a group nor the closing part can start with.
   */
  function MatchAt(s: string, p: nat): (r: Option<nat>)
    requires p <= |s|
    ensures r.Some? ==> p < r.value <= |s|
  {
    var lead := DigitRun(s, p);
    if 1 <= lead <= 3 then TailEnd(s, p + lead) else None
  }

  lemma {:induction false} TailEndIff(s: string, q: nat, e: int)
    requires q <= |s|
    ensures TailEnd(s, q) == Some(e) <==> q <= e <= |s| && IsGroupsTail(s[q..e])
    decreases |s| - q
  {
    if q <= e <= |s| {
      var u := s[q..e];
      if |u| >= 3 {
        assert u[0] == s[q] && u[1] == s[q + 1] && u[2] == s[q + 2];
      }
      if |u| > 4 {
        assert u[3] == s[q + 3] && u[4..] == s[q + 4..e];
      }
    }
    if q + 4 <= |s| && s[q] == '.' && IsDigit(s[q + 1]) && IsDigit(s[q + 2]) && IsDigit(s[q + 3]) {
      TailEndIff(s, q + 4, e);
    }
  }

  /** A match of the pattern starts at `p` and ends at `e` exactly when `s[p..e]` is a token. */
  lemma MatchAtIff(s: string, p: nat, e: int)
    requires p <= |s|
    ensures MatchAt(s, p) == Some(e) <==> p <= e <= |s| && IsAmountToken(s[p..e])
  {
    var lead := DigitRun(s, p);
    if 1 <= lead <= 3 {
      TailEndIff(s, p + lead, e);
      if p + lead <= e <= |s| {
        var t := s[p..e];
        assert t[lead..] == s[p + lead..e];
        assert forall k :: 0 <= k < lead ==> t[..lead][k] == s[p + k];
      }
    }
    if p <= e <= |s| && IsAmountToken(s[p..e]) {
      var t := s[p..e];
      var l :| LeadThenTail(t, l);
      LeadIsRun(s, p, e, l);
    }
  }

  /** The lead of a token found at `p` is the whole digit run at `p`. */
  lemma LeadIsRun(s: string, p: nat, e: int, lead: nat)
    requires p <= e <= |s| && LeadThenTail(s[p..e], lead)
    ensures DigitRun(s, p) == lead
    ensures TailEnd(s, p + lead) == Some(e)
  {
    var t := s[p..e];
    assert t[lead..][0] == s[p + lead];
    forall k | p <= k < p + lead ensures IsDigit(s[k]) {
      assert t[..lead][k - p] == s[k];
    }
    DigitRunExact(s, p, lead);
    TailEndIff(s, p + lead, e);
    assert t[lead..] == s[p + lead..e];
  }

  /** A digit run of length `n` stopped by a non-digit has length `n`. */
  lemma {:induction false} DigitRunExact(s: string, p: nat, n: nat)
    requires p + n < |s| && !IsDigit(s[p + n])
    requires forall k :: p <= k < p + n ==> IsDigit(s[k])
    ensures DigitRun(s, p) == n
    decreases n
  {
    if n > 0 {
      DigitRunExact(s, p + 1, n - 1);
    }
  }

  /** At most one token starts at a given index. */
  lemma TokenAtUnique(s: string, p: nat, e1: int, e2: int)
    requires p <= e1 <= |s| && p <= e2 <= |s|
    requires IsAmountToken(s[p..e1]) && IsAmountToken(s[p..e2])
    ensures e1 == e2
  {
    MatchAtIff(s, p, e1);
    MatchAtIff(s, p, e2);
  }

  // ---- the leftmost match ----

  /** The first start index at or after `p` where the pattern matches, with the match's end. */
  function FirstMatchFrom(s: string, p: nat): (r: Option<(nat, nat)>)
    requires p <= |s|
    ensures r.Some? ==> p <= r.value.0 < r.value.1 <= |s|
    decreases |s| - p
  {
    match MatchAt(s, p)
    case Some(e) => Some((p, e))
    case None => if p == |s| then None else FirstMatchFrom(s, p + 1)
  }

  /** `regexMonto.exec(line)`: the leftmost match, as start and end indices. */
  function FirstMatch(s: string): Option<(nat, nat)> {
    FirstMatchFrom(s, 0)
  }

  /** `regexMonto.test(line)`. */
  predicate HasAmount(s: string) {
    FirstMatch(s).Some?
  }

  /** `s[p..e]` is a token and no token starts before `p`. */
  ghost predicate IsLeftmostToken(s: string, p: int, e: int) {
    && 0 <= p <= e <= |s| && IsAmountToken(s[p..e])
    && forall p', e' :: 0 <= p' < p && p' <= e' <= |s| ==> !IsAmountToken(s[p'..e'])
  }

  lemma {:induction false} FirstMatchFromSpec(s: string, p: nat)
    requires p <= |s|
    ensures FirstMatchFrom(s, p).Some? ==>
              && IsAmountToken(s[FirstMatchFrom(s, p).value.0..FirstMatchFrom(s, p).value.1])
              && NoTokenStartsIn(s, p, FirstMatchFrom(s, p).value.0)
    ensures FirstMatchFrom(s, p).None? ==> NoTokenStartsIn(s, p, |s| + 1)
    decreases |s| - p
  {
    MatchAtAll(s, p);
    if MatchAt(s, p).None? {
      if p < |s| {
        FirstMatchFromSpec(s, p + 1);
      }
      NoTokenStartsInStep(s, p, if FirstMatchFrom(s, p).Some? then FirstMatchFrom(s, p).value.0 else |s| + 1);
    }
  }

  /** No token of `s` starts at an index in `[lo, hi)`. */
  ghost predicate NoTokenStartsIn(s: string, lo: int, hi: int) {
    forall p', e' :: 0 <= lo <= p' < hi && p' <= e' <= |s| ==> !IsAmountToken(s[p'..e'])
  }

  lemma NoTokenStartsInStep(s: string, p: nat, hi: int)
    requires p <= |s| && p < hi
    requires forall e :: p <= e <= |s| ==> !IsAmountToken(s[p..e])
    requires p < |s| ==> NoTokenStartsIn(s, p + 1, hi)
    ensures NoTokenStartsIn(s, p, hi)
  {
  }

  /** `MatchAt` reports the token starting at `p`, and reports none when none starts there. */
  lemma MatchAtAll(s: string, p: nat)
    requires p <= |s|
    ensures MatchAt(s, p).Some? ==> IsAmountToken(s[p..MatchAt(s, p).value])
    ensures MatchAt(s, p).None? ==> forall e :: p <= e <= |s| ==> !IsAmountToken(s[p..e])
  {
    forall e | p <= e <= |s| {
      MatchAtIff(s, p, e);
    }
  }

  /**
   * The leftmost match: it is a token, no token starts further left, and
   * there is no match exactly when no token occurs in the line.
   */
  lemma FirstMatchIsLeftmost(s: string)
    ensures forall p, e :: FirstMatch(s) == Some((p, e)) <==> IsLeftmostToken(s, p, e)
    ensures FirstMatch(s).None? <==> forall p, e :: 0 <= p <= e <= |s| ==> !IsAmountToken(s[p..e])
  {
    FirstMatchFromSpec(s, 0);
    forall p, e | FirstMatch(s) == Some((p, e)) ensures IsLeftmostToken(s, p, e) {
    }
    forall p, e | IsLeftmostToken(s, p, e) ensures FirstMatch(s) == Some((p, e)) {
      var (b, e2) := FirstMatch(s).value;
      assert b == p;
      TokenAtUnique(s, p, e, e2);
    }
  }

  // ---- the amount a token stands for ----

  /** The digits of the thousands groups of a tail, without the points. */
  function GroupDigits(u: string): (d: string)
    requires IsGroupsTail(u)
    ensures AllDigits(d)
    decreases |u|
  {
    if IsCentsPart(u) then [] else u[1..4] + GroupDigits(u[4..])
  }

  /** The two digits after the comma. */
  function CentsDigits(u: string): (d: string)
    requires IsGroupsTail(u)
    ensures |d| == 2 && AllDigits(d)
    decreases |u|
  {
    if IsCentsPart(u) then u[1..] else CentsDigits(u[4..])
  }

  /** The length of a token's lead. */
  function LeadLength(t: string): (n: nat)
    requires IsAmountToken(t)
    ensures LeadThenTail(t, n)
  {
    if LeadThenTail(t, 1) then 1 else if LeadThenTail(t, 2) then 2 else 3
  }

  /** The amount a groups tail stands for, in hundredths, given the value `acc` of what precedes it. */
  function TailCents(acc: nat, u: string): nat
    requires IsGroupsTail(u)
    decreases |u|
  {
    if IsCentsPart(u) then acc * 100 + DigitsValue(u[1..])
    else TailCents(acc * 1000 + DigitsValue(u[1..4]), u[4..])
  }

  /** The amount a token stands for, in hundredths: "28.600,00" is 2860000. */
  function TokenCents(t: string): nat
    requires IsAmountToken(t)
  {
    var n := LeadLength(t);
    TailCents(DigitsValue(t[..n]), t[n..])
  }

  /**
   * The clean-up the scanner applies to a matched token before `parseFloat`:
   * every point removed, then the first comma replaced by a point.
   */
  function CleanToken(t: string): string {
    ReplaceFirst(RemoveAll(t, '.'), ',', ".")
  }

  /** Removing the points of a tail leaves its group digits, the comma and the cents. */
  lemma {:induction false} TailWithoutPoints(u: string)
    requires IsGroupsTail(u)
    ensures RemoveAll(u, '.') == GroupDigits(u) + "," + CentsDigits(u)
    decreases |u|
  {
    if IsCentsPart(u) {
      CentsWithoutPoints(u);
    } else {
      GroupWithoutPoint(u[..4], u[4..]);
      assert u == u[..4] + u[4..];
      TailWithoutPoints(u[4..]);
      assert GroupDigits(u) == u[..4][1..] + GroupDigits(u[4..]);
    }
  }

  lemma CentsWithoutPoints(u: string)
    requires IsCentsPart(u)
    ensures RemoveAll(u, '.') == "," + u[1..]
  {
    assert u[1..][1..] == [u[2]];
    assert RemoveAll(u[1..], '.') == [u[1]] + RemoveAll([u[2]], '.');
  }

  lemma GroupWithoutPoint(g: string, rest: string)
    requires |g| == 4 && g[0] == '.' && IsDigit(g[1]) && IsDigit(g[2]) && IsDigit(g[3])
    ensures RemoveAll(g + rest, '.') == g[1..] + RemoveAll(rest, '.')
  {
    RemoveAllAppend(g, rest, '.');
    assert '.' !in g[1..];
    RemoveAllAbsent(g[1..], '.');
  }

  /** The value of the tail digits, lead value `DigitsValue(a)` included, is what the grammar assigns. */
  lemma {:induction false} TailCentsDigits(a: string, u: string)
    requires AllDigits(a) && IsGroupsTail(u)
    ensures AllDigits(a + GroupDigits(u) + CentsDigits(u))
    ensures TailCents(DigitsValue(a), u) == DigitsValue(a + GroupDigits(u) + CentsDigits(u))
    decreases |u|
  {
    if IsCentsPart(u) {
      DigitsValueAppend(a, u[1..]);
      assert a + GroupDigits(u) + CentsDigits(u) == a + u[1..];
    } else {
      var g := u[1..4];
      DigitsValueAppend(a, g);
      TailCentsDigits(a + g, u[4..]);
      GroupDigitsShift(a, u);
    }
  }

  lemma GroupDigitsShift(a: string, u: string)
    requires IsGroupsTail(u) && !IsCentsPart(u)
    ensures a + GroupDigits(u) + CentsDigits(u) == (a + u[1..4]) + GroupDigits(u[4..]) + CentsDigits(u[4..])
  {
  }

  /** The digits of a token before the comma, points dropped. */
  function WholeDigits(t: string): (d: string)
    requires IsAmountToken(t)
    ensures AllDigits(d)
  {
    var n := LeadLength(t);
    t[..n] + GroupDigits(t[n..])
  }

  /** Removing the points of a token leaves its whole digits, the comma and the cents. */
  lemma TokenWithoutPoints(t: string)
    requires IsAmountToken(t)
    ensures RemoveAll(t, '.') == WholeDigits(t) + ("," + CentsDigits(t[LeadLength(t)..]))
  {
    var n := LeadLength(t);
    var lead, u := t[..n], t[n..];
    LeadTailWithoutPoints(t, n);
    assert WholeDigits(t) == lead + GroupDigits(u);
    AppendAssoc(lead, GroupDigits(u), "," + CentsDigits(u));
  }

  lemma LeadTailWithoutPoints(t: string, n: nat)
    requires LeadThenTail(t, n)
    ensures RemoveAll(t, '.') == t[..n] + (GroupDigits(t[n..]) + "," + CentsDigits(t[n..]))
  {
    var lead, u := t[..n], t[n..];
    assert RemoveAll(lead, '.') == lead by {
      assert '.' !in lead;
      RemoveAllAbsent(lead, '.');
    }
    assert RemoveAll(u, '.') == GroupDigits(u) + "," + CentsDigits(u) by {
      TailWithoutPoints(u);
    }
    assert t == lead + u;
    RemoveAllAppend(lead, u, '.');
  }

  /** A cleaned token is its whole digits, a point and the cents. */
  lemma CleanTokenForm(t: string)
    requires IsAmountToken(t)
    ensures CleanToken(t) == WholeDigits(t) + "." + CentsDigits(t[LeadLength(t)..])
  {
    var digits, cents := WholeDigits(t), CentsDigits(t[LeadLength(t)..]);
    TokenWithoutPoints(t);
    CommaToPoint(digits, cents);
  }

  /** Replacing the first comma of digits, a comma and cents gives the digits, a point and the cents. */
  lemma CommaToPoint(digits: string, cents: string)
    requires AllDigits(digits)
    ensures ReplaceFirst(digits + ("," + cents), ',', ".") == digits + "." + cents
  {
    var x := digits + ("," + cents);
    assert ',' !in digits;
    IndexOfConcat(digits, "," + cents, ',');
    assert IndexOf(x, ',') == |digits|;
    assert x[..|digits|] == digits;
    assert x[|digits| + 1..] == cents;
  }

  /** Cleaning a token and parsing it as a decimal yields its value in hundredths, exactly. */
  lemma CleanTokenValue(t: string)
    requires IsAmountToken(t)
    ensures ParseDecimal(CleanToken(t)) == Some(Decimal(TokenCents(t), 2))
  {
    var n := LeadLength(t);
    CleanTokenForm(t);
    ParsePoint(WholeDigits(t), CentsDigits(t[n..]));
    TailCentsDigits(t[..n], t[n..]);
  }

  /**
   * The amount the scanner records for a line: the leftmost token, cleaned
   * and parsed; None when the line has no token.
   */
  function LineAmount(s: string): Option<Number> {
    match FirstMatch(s)
    case None => None
    case Some((p, e)) => ParseFloat(CleanToken(s[p..e]))
  }

  /**
   * A line has an amount exactly when the pattern occurs in it, and the
   * amount is the value in hundredths of the leftmost token.
   */
  lemma LineAmountSpec(s: string)
    ensures LineAmount(s).Some? <==> HasAmount(s)
    ensures LineAmount(s).Some? ==>
              var (p, e) := FirstMatch(s).value;
              IsAmountToken(s[p..e]) && LineAmount(s).value == Finite(Decimal(TokenCents(s[p..e]), 2))
  {
    FirstMatchIsLeftmost(s);
    match FirstMatch(s)
    case None =>
    case Some((p, e)) =>
      CleanTokenValue(s[p..e]);
      ParseFloatDecimal(CleanToken(s[p..e]));
  }

  /** A line's amount is a non-negative number of hundredths. */
  lemma LineAmountCents(s: string)
    ensures LineAmount(s).Some? ==>
              LineAmount(s).value.Finite? && LineAmount(s).value.decimal.scale == 2 && LineAmount(s).value.decimal.units >= 0
  {
    LineAmountSpec(s);
  }

  /** Every amount token starts with a digit, so a line without digits has no amount. */
  lemma NoDigitNoAmount(s: string)
    requires forall k :: 0 <= k < |s| ==> !IsDigit(s[k])
    ensures !HasAmount(s) && LineAmount(s) == None
  {
    FirstMatchIsLeftmost(s);
    LineAmountSpec(s);
  }

  // ---- examples ----

  /** A thousands amount is matched whole. */
  lemma ExampleThousandsMatch()
    ensures FirstMatch("28.600,00") == Some((0, 9))
  {
    var s := "28.600,00";
    assert MatchAt(s, 0) == Some(9) by {
      ExampleTokenValue();
      assert s[0..9] == s;
      MatchAtIff(s, 0, 9);
    }
  }

  /** Four digits before the comma: the match starts one digit in, at "234,56". */
  lemma ExampleLeftmostInRun()
    ensures FirstMatch("1234,56") == Some((1, 7))
  {
  }

  /** "28.600,00" stands for 28600.00. */
  lemma ExampleTokenValue()
    ensures IsAmountToken("28.600,00") && TokenCents("28.600,00") == 2860000
  {
    var t := "28.600,00";
    assert LeadThenTail(t, 2);
    assert t[1..][0] == '8';
    assert LeadLength(t) == 2;
    assert t[..2] == "28" && t[2..] == ".600,00";
    assert DigitsValue("28") == 28;
    assert ".600,00"[1..4] == "600" && ".600,00"[4..] == ",00";
    assert DigitsValue("600") == 600;
    assert ",00"[1..] == "00";
    assert DigitsValue("00") == 0;
  }

  lemma ExampleLineAmount()
    ensures LineAmount("28.600,00") == Some(Finite(Decimal(2860000, 2)))
  {
    ExampleThousandsMatch();
    ExampleTokenValue();
    WholeLineAmount("28.600,00");
  }

  /** "10,00" needs no thousands group and reads as 10.00. */
  lemma ExampleTenAmount()
    ensures LineAmount("10,00") == Some(Finite(Decimal(1000, 2)))
  {
    var s := "10,00";
    assert IsAmountToken(s) && TokenCents(s) == 1000 by {
      assert s[1..][0] == '0';
      assert LeadThenTail(s, 2) && LeadLength(s) == 2;
      assert s[..2] == "10" && s[2..] == ",00" && ",00"[1..] == "00";
      assert DigitsValue("10") == 10 && DigitsValue("00") == 0;
    }
    assert FirstMatch(s) == Some((0, 5)) by {
      assert s[0..5] == s;
      MatchAtIff(s, 0, 5);
    }
    WholeLineAmount(s);
  }

  /** A line that is one amount token from end to end reads as that token's value. */
  lemma WholeLineAmount(s: string)
    requires FirstMatch(s) == Some((0, |s|)) && IsAmountToken(s)
    ensures LineAmount(s) == Some(Finite(Decimal(TokenCents(s), 2)))
  {
    LineAmountSpec(s);
    assert s[0..|s|] == s;
  }

  /** A plain description has no amount. */
  lemma ExampleDescriptionNoAmount()
    ensures !HasAmount("COTO SUPER")
  {
    NoCommaNoAmount("COTO SUPER");
  }

  /** A date line has no amount: its points are not followed by a comma part. */
  lemma ExampleDateNoAmount()
    ensures !HasAmount("02.01.26")
  {
    NoCommaNoAmount("02.01.26");
  }

  /** The pattern's closing part needs a comma: a line without one has no amount. */
  lemma NoCommaNoAmount(s: string)
    requires ',' !in s
    ensures !HasAmount(s)
  {
    NoCommaFrom(s, 0);
  }

  lemma {:induction false} NoCommaFrom(s: string, p: nat)
    requires p <= |s| && ',' !in s
    ensures FirstMatchFrom(s, p).None?
    decreases |s| - p
  {
    var lead := DigitRun(s, p);
    if 1 <= lead <= 3 {
      NoCommaTail(s, p + lead);
    }
    if p < |s| {
      NoCommaFrom(s, p + 1);
    }
  }

  lemma {:induction false} NoCommaTail(s: string, q: nat)
    requires q <= |s| && ',' !in s
    ensures TailEnd(s, q).None?
    decreases |s| - q
  {
    if q < |s| {
      assert s[q] != ',';
    }
    if q + 4 <= |s| {
      NoCommaTail(s, q + 4);
    }
  }
}
