/**
 * The multi-line card-statement scanner. A line that is exactly a date
 * (dd.mm.yy) opens an expense; the next five lines at most are searched for
 * the first line holding an amount; the lines passed over on the way, except
 * dates and numbers, make up the description. When an amount turns up the
 * expense is recorded and scanning resumes after the amount line; otherwise
 * it resumes at the line after the date.
 *
 * The scan is written over any amount reader and line filter, so that its
 * properties are proved once, independently of the two line tests;
 * `Statement` and `ProcessStatementText` use it with LineAmount and
 * IsDescriptionLine.
 */
module StatementScanner {
  import opened Wrappers
  import opened JsText
  import opened JsNumber
  import opened AmountPattern
  import opened Categorizer
  import opened Expenses
  import opened StatementLines

  const Card: string := "Visa Macro"
  const DefaultDescription: string := "Consumo Visa"

  /** How many lines after a date are searched for its amount. */
  const LookaheadLimit: nat := 5

  /** The date pattern, anchored at both ends: two digits, a point, two digits, a point, two digits. */
  predicate IsDateLine(l: string) {
    && |l| == 8 && l[2] == '.' && l[5] == '.'
    && IsDigit(l[0]) && IsDigit(l[1]) && IsDigit(l[3]) && IsDigit(l[4]) && IsDigit(l[6]) && IsDigit(l[7])
  }

  /** A line passed over during the search joins the description unless it is a date or a number. */
  predicate IsDescriptionLine(l: string) {
    !IsDateLine(l) && !IsNumericJS(l)
  }

  /** The outcome of the search after a date line: the amount, the offset of its line, and the description. */
  datatype Lookahead = Lookahead(amount: Option<Number>, skipped: nat, description: string)

  /** Reads the amount of a line, if it holds one. */
  type AmountReader = string -> Option<Number>

  /** Says whether a line passed over during the search joins the description. */
  type LineFilter = string -> bool

  /** The search from offset `j` on, with the description gathered so far. */
  function SearchFrom(read: AmountReader, keep: LineFilter, lines: seq<string>, i: nat, j: nat, description: string): Lookahead
    requires i < |lines| && 1 <= j <= LookaheadLimit + 1
    decreases LookaheadLimit + 1 - j
  {
    if j > LookaheadLimit || i + j >= |lines| then Lookahead(None, 0, description)
    else
      var l := lines[i + j];
      if read(l).Some? then Lookahead(read(l), j, description)
      else SearchFrom(read, keep, lines, i, j + 1, if keep(l) then description + l + " " else description)
  }

  /** The search after the date line at index `i`. */
  function Search(read: AmountReader, keep: LineFilter, lines: seq<string>, i: nat): Lookahead
    requires i < |lines|
  {
    SearchFrom(read, keep, lines, i, 1, "")
  }

  /** What the scan finds for one expense: the date line, the gathered description and the amount. */
  datatype Entry = Entry(date: string, description: string, amount: Number)

  /** The expense recorded for an entry. */
  function Record(e: Entry): Expense {
    var text := Trim(e.description);
    Expense(Some(e.date), if text == [] then DefaultDescription else text, e.amount, Categorize(e.description), Card)
  }

  /**
   * The record keeps the date and the amount, carries the card name, has
   * the trimmed description or "Consumo Visa" when that is blank, and is
   * categorised on the untrimmed description.
   */
  lemma RecordSpec(e: Entry)
    ensures var r := Record(e);
      && r.date == Some(e.date) && r.amount == e.amount && r.card == Card
      && r.description != [] && IsTrimmed(r.description)
      && (!AllSpace(e.description) ==> r.description == Trim(e.description))
      && (AllSpace(e.description) ==> r.description == DefaultDescription)
      && r.category == Categorize(e.description) && r.category in Labels
  {
    TrimSpec(e.description);
    CategorizeInLabels(e.description);
  }

  /** Makes the expense recorded for an entry. */
  type RecordMaker = Entry -> Expense

  /** The records of a run of entries, in order. */
  function Records(make: RecordMaker, es: seq<Entry>): seq<Expense>
    decreases |es|
  {
    if es == [] then [] else [make(es[0])] + Records(make, es[1..])
  }

  /** Records are made entry by entry: one record per entry, in the same position. */
  lemma {:induction false} RecordsAt(make: RecordMaker, es: seq<Entry>)
    ensures |Records(make, es)| == |es|
    ensures forall k :: 0 <= k < |es| ==> Records(make, es)[k] == make(es[k])
    decreases |es|
  {
    if es != [] {
      RecordsAt(make, es[1..]);
      forall k | 0 < k < |es| ensures Records(make, es)[k] == make(es[k]) {
        assert Records(make, es)[k] == Records(make, es[1..])[k - 1];
        assert es[1..][k - 1] == es[k];
      }
    }
  }

  /** One more entry adds its record at the end. */
  lemma RecordsSnoc(make: RecordMaker, es: seq<Entry>, e: Entry)
    ensures Records(make, es + [e]) == Records(make, es) + [make(e)]
  {
    RecordsAppend(make, es, [e]);
    assert [e][1..] == [];
  }

  /** Making records commutes with concatenating runs of entries. */
  lemma {:induction false} RecordsAppend(make: RecordMaker, a: seq<Entry>, b: seq<Entry>)
    ensures Records(make, a + b) == Records(make, a) + Records(make, b)
    decreases |a|
  {
    if a != [] {
      assert (a + b)[1..] == a[1..] + b;
      RecordsAppend(make, a[1..], b);
      AppendAssoc([make(a[0])], Records(make, a[1..]), Records(make, b));
    } else {
      assert a + b == b;
    }
  }

  /**
   * Every record carries the card name, a non-empty trimmed description and
   * one of the eight categories, and keeps its entry's amount.
   */
  lemma RecordsSpec(es: seq<Entry>)
    ensures |Records(Record, es)| == |es|
    ensures forall k :: 0 <= k < |es| ==>
              && Records(Record, es)[k].card == Card && Records(Record, es)[k].amount == es[k].amount
              && Records(Record, es)[k].date == Some(es[k].date)
              && Records(Record, es)[k].description != [] && IsTrimmed(Records(Record, es)[k].description)
              && Records(Record, es)[k].category in Labels
  {
    RecordsAt(Record, es);
    forall k | 0 <= k < |es|
      ensures && Records(Record, es)[k].card == Card && Records(Record, es)[k].amount == es[k].amount
              && Records(Record, es)[k].date == Some(es[k].date)
              && Records(Record, es)[k].description != [] && IsTrimmed(Records(Record, es)[k].description)
              && Records(Record, es)[k].category in Labels
    {
      RecordSpec(es[k]);
    }
  }

  /** What the scanner finds from index `i` on. */
  function ScanFrom(read: AmountReader, keep: LineFilter, lines: seq<string>, i: nat): seq<Entry>
    decreases |lines| - i
  {
    if i >= |lines| then []
    else if IsDateLine(lines[i]) then
      var look := Search(read, keep, lines, i);
      if look.amount.Some? then
        SearchBounds(read, keep, lines, i, 1, "");
        [Entry(lines[i], look.description, look.amount.value)] + ScanFrom(read, keep, lines, i + look.skipped + 1)
      else ScanFrom(read, keep, lines, i + 1)
    else ScanFrom(read, keep, lines, i + 1)
  }

  /** The entries of a statement's normalised lines. */
  function Statement(lines: seq<string>): seq<Entry> {
    ScanFrom(LineAmount, IsDescriptionLine, lines, 0)
  }

  /** A date line whose search finds an amount yields its entry, and scanning resumes after the amount line. */
  lemma ScanFromRecord(read: AmountReader, keep: LineFilter, lines: seq<string>, i: nat)
    requires i < |lines| && IsDateLine(lines[i]) && Search(read, keep, lines, i).amount.Some?
    ensures i + Search(read, keep, lines, i).skipped < |lines|
    ensures ScanFrom(read, keep, lines, i)
            == [Entry(lines[i], Search(read, keep, lines, i).description, Search(read, keep, lines, i).amount.value)]
               + ScanFrom(read, keep, lines, i + Search(read, keep, lines, i).skipped + 1)
  {
    SearchBounds(read, keep, lines, i, 1, "");
  }

  /** Any other line is passed over. */
  lemma ScanFromSkip(read: AmountReader, keep: LineFilter, lines: seq<string>, i: nat)
    requires i < |lines| && !(IsDateLine(lines[i]) && Search(read, keep, lines, i).amount.Some?)
    ensures ScanFrom(read, keep, lines, i) == ScanFrom(read, keep, lines, i + 1)
  {
  }

  /** The loop of `procesarPDF` over the normalised lines, with the amount reader, line filter and record maker it uses. */
  method ScanStatement(read: AmountReader, keep: LineFilter, make: RecordMaker, lines: seq<string>) returns (records: seq<Expense>)
    ensures records == Records(make, ScanFrom(read, keep, lines, 0))
  {
    records := [];
    ghost var entries: seq<Entry> := [];
    var i := 0;
    while i < |lines|
      invariant 0 <= i <= |lines|
      invariant records == Records(make, entries)
      invariant entries + ScanFrom(read, keep, lines, i) == ScanFrom(read, keep, lines, 0)
      decreases |lines| - i
    {
      var line := lines[i];
      if IsDateLine(line) {
        var look := SearchAfterDate(read, keep, lines, i);
        if look.amount.Some? {
          var entry := Entry(line, look.description, look.amount.value);
          ScanRecordStep(read, keep, make, lines, i, entries, records);
          records := records + [make(entry)];
          entries := entries + [entry];
          i := i + look.skipped;
        } else {
          ScanFromSkip(read, keep, lines, i);
        }
      } else {
        ScanFromSkip(read, keep, lines, i);
      }
      i := i + 1;
    }
    assert entries + [] == entries;
  }

  /** One recorded entry keeps the loop's invariant: the records so far, then the scan of the rest. */
  lemma ScanRecordStep(read: AmountReader, keep: LineFilter, make: RecordMaker, lines: seq<string>, i: nat, entries: seq<Entry>, records: seq<Expense>)
    requires i < |lines| && IsDateLine(lines[i]) && Search(read, keep, lines, i).amount.Some?
    requires records == Records(make, entries)
    requires entries + ScanFrom(read, keep, lines, i) == ScanFrom(read, keep, lines, 0)
    ensures i + Search(read, keep, lines, i).skipped < |lines|
    ensures records + [make(Entry(lines[i], Search(read, keep, lines, i).description, Search(read, keep, lines, i).amount.value))]
            == Records(make, entries + [Entry(lines[i], Search(read, keep, lines, i).description, Search(read, keep, lines, i).amount.value)])
    ensures entries + [Entry(lines[i], Search(read, keep, lines, i).description, Search(read, keep, lines, i).amount.value)]
              + ScanFrom(read, keep, lines, i + Search(read, keep, lines, i).skipped + 1)
            == ScanFrom(read, keep, lines, 0)
  {
    var look := Search(read, keep, lines, i);
    var entry := Entry(lines[i], look.description, look.amount.value);
    ScanFromRecord(read, keep, lines, i);
    AppendAssoc(entries, [entry], ScanFrom(read, keep, lines, i + look.skipped + 1));
    RecordsSnoc(make, entries, entry);
  }

  /** The inner loop of `procesarPDF`: the search for the amount below the date line at index `i`. */
  method SearchAfterDate(read: AmountReader, keep: LineFilter, lines: seq<string>, i: nat) returns (look: Lookahead)
    requires i < |lines|
    ensures look == Search(read, keep, lines, i)
  {
    var description := "";
    var j := 1;
    while j <= LookaheadLimit
      invariant 1 <= j <= LookaheadLimit + 1
      invariant SearchFrom(read, keep, lines, i, j, description) == Search(read, keep, lines, i)
      decreases LookaheadLimit + 1 - j
    {
      if i + j >= |lines| {
        break;
      }
      var next := lines[i + j];
      var found := read(next);
      if found.Some? {
        return Lookahead(found, j, description);
      } else if keep(next) {
        description := description + next + " ";
      }
      j := j + 1;
    }
    return Lookahead(None, 0, description);
  }

  /** `procesarPDF` after the PDF text has been extracted. */
  method ProcessStatementText(text: string) returns (records: seq<Expense>)
    ensures records == Records(Record, Statement(NormalizeLines(text)))
  {
    var lines := NormalizeLines(text);
    records := ScanStatement(LineAmount, IsDescriptionLine, Record, lines);
  }

  // ---- the search ----

  /** The lines the search passed over, from offset `j` up to where it stopped. */
  function Passed(lines: seq<string>, i: nat, j: nat, look: Lookahead): seq<string>
    requires i < |lines| && 1 <= j
  {
    var stop := if look.amount.Some? then i + look.skipped
                else if i + LookaheadLimit + 1 < |lines| then i + LookaheadLimit + 1 else |lines|;
    if i + j <= stop <= |lines| then lines[i + j..stop] else []
  }

  /** The description a run of passed-over lines contributes: each kept line followed by a space. */
  function Describe(keep: LineFilter, ls: seq<string>): string
    decreases |ls|
  {
    if ls == [] then []
    else (if keep(ls[0]) then ls[0] + " " else []) + Describe(keep, ls[1..])
  }

  /**
   * The search stops at the first line within the limit that holds an
   * amount and returns that amount, never reads past the last line, and
   * otherwise finds nothing.
   */
  lemma {:induction false} SearchBounds(read: AmountReader, keep: LineFilter, lines: seq<string>, i: nat, j: nat, description: string)
    requires i < |lines| && 1 <= j <= LookaheadLimit + 1
    ensures var look := SearchFrom(read, keep, lines, i, j, description);
      && (look.amount.Some? ==>
            && j <= look.skipped <= LookaheadLimit && i + look.skipped < |lines|
            && look.amount == read(lines[i + look.skipped])
            && forall m :: i + j <= m < i + look.skipped ==> read(lines[m]).None?)
      && (look.amount.None? ==>
            && look.skipped == 0
            && forall m :: i + j <= m <= i + LookaheadLimit && m < |lines| ==> read(lines[m]).None?)
    decreases LookaheadLimit + 1 - j
  {
    if j <= LookaheadLimit && i + j < |lines| && read(lines[i + j]).None? {
      var l := lines[i + j];
      SearchBounds(read, keep, lines, i, j + 1, if keep(l) then description + l + " " else description);
    }
  }

  /** The description is what was gathered before plus the kept lines among those passed over. */
  lemma {:induction false} SearchDescription(read: AmountReader, keep: LineFilter, lines: seq<string>, i: nat, j: nat, description: string)
    requires i < |lines| && 1 <= j <= LookaheadLimit + 1
    ensures SearchFrom(read, keep, lines, i, j, description).description
            == description + Describe(keep, Passed(lines, i, j, SearchFrom(read, keep, lines, i, j, description)))
    decreases LookaheadLimit + 1 - j
  {
    var look := SearchFrom(read, keep, lines, i, j, description);
    if j <= LookaheadLimit && i + j < |lines| && read(lines[i + j]).None? {
      var l := lines[i + j];
      var d' := if keep(l) then description + l + " " else description;
      SearchStep(read, keep, lines, i, j, description);
      SearchDescription(read, keep, lines, i, j + 1, d');
      SearchBounds(read, keep, lines, i, j + 1, d');
      PassedStep(lines, i, j, look);
      GatherLine(keep, l, description, Passed(lines, i, j + 1, look));
    } else {
      assert look.description == description;
      assert Passed(lines, i, j, look) == [];
      assert description + [] == description;
    }
  }

  /** A passed-over line without an amount: the search goes on with the line's contribution to the description. */
  lemma SearchStep(read: AmountReader, keep: LineFilter, lines: seq<string>, i: nat, j: nat, description: string)
    requires 1 <= j <= LookaheadLimit && i + j < |lines| && read(lines[i + j]).None?
    ensures SearchFrom(read, keep, lines, i, j, description)
            == SearchFrom(read, keep, lines, i, j + 1, if keep(lines[i + j]) then description + lines[i + j] + " " else description)
  {
  }

  /** A line with an amount ends the search. */
  lemma SearchFound(read: AmountReader, keep: LineFilter, lines: seq<string>, i: nat, j: nat, description: string)
    requires 1 <= j <= LookaheadLimit && i + j < |lines| && read(lines[i + j]).Some?
    ensures SearchFrom(read, keep, lines, i, j, description) == Lookahead(read(lines[i + j]), j, description)
  {
  }

  /** One more line passed over. */
  lemma PassedStep(lines: seq<string>, i: nat, j: nat, look: Lookahead)
    requires 1 <= j <= LookaheadLimit && i + j < |lines|
    requires look.amount.Some? ==> j < look.skipped && i + look.skipped < |lines|
    ensures Passed(lines, i, j, look) == [lines[i + j]] + Passed(lines, i, j + 1, look)
  {
  }

  /** Gathering a passed-over line, then the rest, is describing the line and the rest together. */
  lemma GatherLine(keep: LineFilter, l: string, description: string, rest: seq<string>)
    ensures (if keep(l) then description + l + " " else description) + Describe(keep, rest) == description + Describe(keep, [l] + rest)
  {
    DescribeCons(keep, l, rest);
    if keep(l) {
      assert description + l + " " == description + (l + " ");
      AppendAssoc(description, l + " ", Describe(keep, rest));
    } else {
      assert [] + Describe(keep, rest) == Describe(keep, rest);
    }
  }

  lemma DescribeCons(keep: LineFilter, l: string, rest: seq<string>)
    ensures Describe(keep, [l] + rest) == (if keep(l) then l + " " else []) + Describe(keep, rest)
  {
    assert ([l] + rest)[1..] == rest;
  }

  /**
   * The search after a date finds the first amount line within five lines,
   * and gathers the kept lines before it as the description.
   */
  lemma SearchSpec(read: AmountReader, keep: LineFilter, lines: seq<string>, i: nat)
    requires i < |lines|
    ensures var look := Search(read, keep, lines, i);
      && (look.amount.Some? <==> exists m :: i < m <= i + LookaheadLimit && m < |lines| && read(lines[m]).Some?)
      && (look.amount.Some? ==>
            && 1 <= look.skipped <= LookaheadLimit && i + look.skipped < |lines|
            && look.amount == read(lines[i + look.skipped])
            && (forall m :: i < m < i + look.skipped ==> read(lines[m]).None?)
            && look.description == Describe(keep, lines[i + 1..i + look.skipped]))
  {
    var look := Search(read, keep, lines, i);
    SearchBounds(read, keep, lines, i, 1, "");
    SearchDescription(read, keep, lines, i, 1, "");
    if look.amount.Some? {
      var passed := Passed(lines, i, 1, look);
      assert passed == lines[i + 1..i + look.skipped];
      assert [] + Describe(keep, passed) == Describe(keep, passed);
    }
  }

  // ---- what the scanner finds ----

  /** The number of date lines in `lines[i..]`. */
  function DatesFrom(lines: seq<string>, i: nat): nat
    decreases |lines| - i
  {
    if i >= |lines| then 0 else (if IsDateLine(lines[i]) then 1 else 0) + DatesFrom(lines, i + 1)
  }

  lemma {:induction false} DatesFromMonotone(lines: seq<string>, a: nat, b: nat)
    requires a <= b
    ensures DatesFrom(lines, b) <= DatesFrom(lines, a)
    decreases b - a
  {
    if a < b {
      DatesFromMonotone(lines, a + 1, b);
    }
  }

  /** Every entry uses up one date line, so there are never more entries than date lines. */
  lemma {:induction false} ScanCount(read: AmountReader, keep: LineFilter, lines: seq<string>, i: nat)
    ensures |ScanFrom(read, keep, lines, i)| <= DatesFrom(lines, i)
    decreases |lines| - i
  {
    if i < |lines| {
      var look := Search(read, keep, lines, i);
      if IsDateLine(lines[i]) && look.amount.Some? {
        var j := i + look.skipped + 1;
        assert |ScanFrom(read, keep, lines, i)| == 1 + |ScanFrom(read, keep, lines, j)| by {
          ScanFromRecord(read, keep, lines, i);
        }
        assert DatesFrom(lines, i) == 1 + DatesFrom(lines, i + 1);
        ScanCount(read, keep, lines, j);
        DatesFromMonotone(lines, i + 1, j);
      } else {
        assert ScanFrom(read, keep, lines, i) == ScanFrom(read, keep, lines, i + 1) by {
          ScanFromSkip(read, keep, lines, i);
        }
        assert DatesFrom(lines, i + 1) <= DatesFrom(lines, i);
        ScanCount(read, keep, lines, i + 1);
      }
    }
  }

  /**
   * The entry for the date at index `d` whose amount sits `k` lines further
   * down: no line in between holds an amount, and the description is made
   * of the kept lines in between.
   */
  ghost predicate IsEntryFor(read: AmountReader, keep: LineFilter, lines: seq<string>, e: Entry, d: nat, k: nat) {
    && d < d + k < |lines| && k <= LookaheadLimit
    && IsDateLine(lines[d]) && e.date == lines[d]
    && Some(e.amount) == read(lines[d + k])
    && (forall m :: d < m < d + k ==> read(lines[m]).None?)
    && e.description == Describe(keep, lines[d + 1..d + k])
  }

  /** Every entry comes from a date line of the input and the first amount line at most five lines below it. */
  lemma {:induction false} ScanEntries(read: AmountReader, keep: LineFilter, lines: seq<string>, i: nat)
    ensures forall e :: e in ScanFrom(read, keep, lines, i) ==> exists d, k :: i <= d && IsEntryFor(read, keep, lines, e, d, k)
    decreases |lines| - i
  {
    if i < |lines| {
      if IsDateLine(lines[i]) && Search(read, keep, lines, i).amount.Some? {
        var look := Search(read, keep, lines, i);
        ScanFromRecord(read, keep, lines, i);
        var e := Entry(lines[i], look.description, look.amount.value);
        var rest := ScanFrom(read, keep, lines, i + look.skipped + 1);
        SearchSpec(read, keep, lines, i);
        assert IsEntryFor(read, keep, lines, e, i, look.skipped);
        ScanEntries(read, keep, lines, i + look.skipped + 1);
        forall e' | e' in ScanFrom(read, keep, lines, i)
          ensures exists d, k :: i <= d && IsEntryFor(read, keep, lines, e', d, k)
        {
          if e' != e {
            assert e' in rest;
          }
        }
      } else {
        ScanFromSkip(read, keep, lines, i);
        ScanEntries(read, keep, lines, i + 1);
      }
    }
  }

  /** A statement's entries have non-negative amounts in hundredths. */
  lemma StatementAmounts(lines: seq<string>)
    ensures forall e :: e in Statement(lines) ==> e.amount.Finite? && e.amount.decimal.scale == 2 && e.amount.decimal.units >= 0
  {
    ScanEntries(LineAmount, IsDescriptionLine, lines, 0);
    forall e | e in Statement(lines) ensures e.amount.Finite? && e.amount.decimal.scale == 2 && e.amount.decimal.units >= 0 {
      var d, k :| 0 <= d && IsEntryFor(LineAmount, IsDescriptionLine, lines, e, d, k);
      LineAmountCents(lines[d + k]);
    }
  }

  /**
   * Every expense of a statement carries the card name, a non-empty trimmed
   * description, one of the eight categories and a non-negative amount in
   * hundredths, and there are never more expenses than date lines.
   */
  lemma StatementRecords(lines: seq<string>)
    ensures |Records(Record, Statement(lines))| <= DatesFrom(lines, 0)
    ensures forall r :: r in Records(Record, Statement(lines)) ==>
              && r.card == Card && r.description != [] && IsTrimmed(r.description)
              && r.amount.Finite? && r.amount.decimal.scale == 2 && r.amount.decimal.units >= 0 && r.category in Labels
  {
    var es := Statement(lines);
    ScanCount(LineAmount, IsDescriptionLine, lines, 0);
    StatementAmounts(lines);
    RecordsSpec(es);
    forall r | r in Records(Record, es)
      ensures && r.card == Card && r.description != [] && IsTrimmed(r.description)
              && r.amount.Finite? && r.amount.decimal.scale == 2 && r.amount.decimal.units >= 0 && r.category in Labels
    {
      var k :| 0 <= k < |es| && Records(Record, es)[k] == r;
      assert es[k] in es;
    }
  }

  /** Input without a date line from index `i` on yields no entry from there. */
  lemma NoDatesNoEntries(read: AmountReader, keep: LineFilter, lines: seq<string>, i: nat)
    requires forall m :: i <= m < |lines| ==> !IsDateLine(lines[m])
    ensures ScanFrom(read, keep, lines, i) == []
  {
    ScanCount(read, keep, lines, i);
    NoDatesCount(lines, i);
  }

  lemma {:induction false} NoDatesCount(lines: seq<string>, i: nat)
    requires forall m :: i <= m < |lines| ==> !IsDateLine(lines[m])
    ensures DatesFrom(lines, i) == 0
    decreases |lines| - i
  {
    if i < |lines| {
      NoDatesCount(lines, i + 1);
    }
  }

  /**
   * Over normalised lines, "Consumo Visa" is used exactly when none of the
   * passed-over lines is kept for the description.
   */
  lemma {:induction false} DescribeBlank(keep: LineFilter, ls: seq<string>)
    requires forall l :: l in ls ==> IsNormalLine(l)
    ensures AllSpace(Describe(keep, ls)) <==> forall l :: l in ls ==> !keep(l)
    decreases |ls|
  {
    if ls != [] {
      DescribeBlank(keep, ls[1..]);
      var h := if keep(ls[0]) then ls[0] + " " else [];
      AllSpaceAppend(h, Describe(keep, ls[1..]));
      if keep(ls[0]) {
        assert ls[0] in ls;
        assert h[0] == ls[0][0];
      }
      if forall l :: l in ls[1..] ==> !keep(l) {
        if !keep(ls[0]) {
          forall l | l in ls ensures !keep(l) {
            if l != ls[0] {
              assert l in ls[1..];
            }
          }
        }
      }
    }
  }

  lemma AllSpaceAppend(a: string, b: string)
    ensures AllSpace(a + b) <==> AllSpace(a) && AllSpace(b)
  {
    if AllSpace(a) && AllSpace(b) {
      forall k | 0 <= k < |a + b| ensures IsJsSpace((a + b)[k]) {
        if k >= |a| {
          assert (a + b)[k] == b[k - |a|];
        }
      }
    }
    if AllSpace(a + b) {
      forall k | 0 <= k < |b| ensures IsJsSpace(b[k]) {
        assert (a + b)[|a| + k] == b[k];
      }
      forall k | 0 <= k < |a| ensures IsJsSpace(a[k]) {
        assert (a + b)[k] == a[k];
      }
    }
  }
}
