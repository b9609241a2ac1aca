/** Worked examples of the statement scanner on short excerpts of a card statement. */
module ScannerExamples {
  import opened Wrappers
  import opened JsText
  import opened JsNumber
  import opened AmountPattern
  import opened Categorizer
  import opened CategorizerExamples
  import opened Expenses
  import opened StatementScanner

  /** The excerpt "02.01.26", "COTO SUPER", "28.600,00" gives one supermarket expense of 28600.00. */
  lemma ExampleOneExpense(lines: seq<string>)
    requires |lines| == 3 && lines[0] == "02.01.26" && lines[1] == "COTO SUPER" && lines[2] == "28.600,00"
    ensures Statement(lines) == [Entry("02.01.26", "COTO SUPER" + " ", Finite(Decimal(2860000, 2)))]
    ensures Records(Record, Statement(lines))
            == [Expense(Some("02.01.26"), "COTO SUPER", Finite(Decimal(2860000, 2)), "Supermercado", Card)]
  {
    var e := Entry("02.01.26", "COTO SUPER" + " ", Finite(Decimal(2860000, 2)));
    OneExpenseEntry(lines);
    RecordsSnoc(Record, [], e);
    RecordCotoSuper();
  }

  lemma OneExpenseEntry(lines: seq<string>)
    requires |lines| == 3 && lines[0] == "02.01.26" && lines[1] == "COTO SUPER" && lines[2] == "28.600,00"
    ensures Statement(lines) == [Entry("02.01.26", "COTO SUPER" + " ", Finite(Decimal(2860000, 2)))]
  {
    LookCotoSuper(lines);
    DateExample(lines[0]);
    LastLineAmount(LineAmount, IsDescriptionLine, lines, 0);
  }

  /** A date line whose amount is on the last line gives exactly one entry, and the scan ends there. */
  lemma LastLineAmount(read: AmountReader, keep: LineFilter, lines: seq<string>, i: nat)
    requires i < |lines| && IsDateLine(lines[i]) && Search(read, keep, lines, i).amount.Some?
    requires i + Search(read, keep, lines, i).skipped + 1 == |lines|
    ensures ScanFrom(read, keep, lines, i)
            == [Entry(lines[i], Search(read, keep, lines, i).description, Search(read, keep, lines, i).amount.value)]
  {
    ScanFromRecord(read, keep, lines, i);
  }

  lemma DateExample(l: string)
    requires l == "02.01.26"
    ensures IsDateLine(l)
  {
  }

  lemma LookCotoSuper(lines: seq<string>)
    requires |lines| == 3 && lines[1] == "COTO SUPER" && lines[2] == "28.600,00"
    ensures Search(LineAmount, IsDescriptionLine, lines, 0) == Lookahead(Some(Finite(Decimal(2860000, 2))), 2, "COTO SUPER" + " ")
  {
    CotoSuperLine();
    ExampleLineAmount();
    DescriptionThenAmount(LineAmount, IsDescriptionLine, lines, Finite(Decimal(2860000, 2)));
  }

  /** A kept line with no amount, then a line with one: the search stops at the second, with the first as description. */
  lemma DescriptionThenAmount(read: AmountReader, keep: LineFilter, lines: seq<string>, a: Number)
    requires |lines| == 3 && read(lines[1]).None? && keep(lines[1]) && read(lines[2]) == Some(a)
    ensures Search(read, keep, lines, 0) == Lookahead(Some(a), 2, lines[1] + " ")
  {
    SearchStep(read, keep, lines, 0, 1, "");
    assert [] + lines[1] + " " == lines[1] + " ";
    SearchFound(read, keep, lines, 0, 2, lines[1] + " ");
  }

  lemma RecordCotoSuper()
    ensures Record(Entry("02.01.26", "COTO SUPER" + " ", Finite(Decimal(2860000, 2))))
            == Expense(Some("02.01.26"), "COTO SUPER", Finite(Decimal(2860000, 2)), "Supermercado", Card)
  {
    TrimCotoSuper();
    CategorizeCotoSuper();
  }

  /** An amount six lines below the date is out of reach: no expense. */
  lemma ExampleAmountTooFar(lines: seq<string>)
    requires |lines| == 7 && lines[0] == "02.01.26" && lines[6] == "10,00"
    requires lines[1] == "a" && lines[2] == "b" && lines[3] == "c" && lines[4] == "d" && lines[5] == "e"
    ensures Statement(lines) == []
  {
    NothingWithinReach(lines);
    NoLaterDates(lines);
    ScanFromSkip(LineAmount, IsDescriptionLine, lines, 0);
    NoDatesNoEntries(LineAmount, IsDescriptionLine, lines, 1);
  }

  lemma NoLaterDates(lines: seq<string>)
    requires |lines| == 7 && lines[6] == "10,00"
    requires lines[1] == "a" && lines[2] == "b" && lines[3] == "c" && lines[4] == "d" && lines[5] == "e"
    ensures forall m :: 1 <= m < |lines| ==> !IsDateLine(lines[m])
  {
    forall m | 1 <= m < |lines| ensures |lines[m]| != 8 {
    }
  }

  lemma NothingWithinReach(lines: seq<string>)
    requires |lines| == 7
    requires lines[1] == "a" && lines[2] == "b" && lines[3] == "c" && lines[4] == "d" && lines[5] == "e"
    ensures Search(LineAmount, IsDescriptionLine, lines, 0).amount.None?
  {
    forall m | 1 <= m <= LookaheadLimit ensures LineAmount(lines[m]).None? {
      NoDigitNoAmount(lines[m]);
    }
    SearchSpec(LineAmount, IsDescriptionLine, lines, 0);
  }

  /** "COTO SUPER" has no amount and is kept for the description. */
  lemma CotoSuperLine()
    ensures LineAmount("COTO SUPER").None? && IsDescriptionLine("COTO SUPER")
  {
    NoDigitNoAmount("COTO SUPER");
    NonNumericLead("COTO SUPER");
  }

  lemma TrimCotoSuper()
    ensures Trim("COTO SUPER" + " ") == "COTO SUPER"
  {
    assert TrimStart("COTO SUPER" + " ") == "COTO SUPER" + " ";
    assert ("COTO SUPER" + " ")[..10] == "COTO SUPER";
    assert TrimEnd("COTO SUPER") == "COTO SUPER";
  }

  lemma CategorizeCotoSuper()
    ensures Categorize("COTO SUPER" + " ") == "Supermercado"
  {
    CotoSuperSpace("COTO SUPER" + " ");
  }

  lemma CotoSuperSpace(text: string)
    requires text == "COTO SUPER" + " "
    ensures Categorize(text) == "Supermercado"
  {
    assert text == "COTO " + "SUPER ";
    LowerCotoSuperSpace();
    CotoAtStart();
    SupermercadoFromKeyword(text, "coto " + "super ", "coto", 0);
  }

  lemma LowerCotoSuperSpace()
    ensures Lower("COTO " + "SUPER ") == "coto " + "super "
  {
    LowerCoto();
    LowerSuperSpace();
    LowerAppend("COTO ", "SUPER ");
  }

  lemma LowerSuperSpace() ensures Lower("SUPER ") == "super " {}

  lemma CotoAtStart()
    ensures OccursAt("coto " + "super ", "coto", 0)
  {
    assert ("coto " + "super ")[0..4] == "coto";
  }
}
