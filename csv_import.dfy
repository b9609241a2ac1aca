/**
 * The CSV import: every row the CSV reader delivers is normalised on its
 * own. The description, the amount text and the date are each taken from
 * a named column when it holds a non-empty cell, else from a column by
 * position, else from a default. The amount text loses its first `$`,
 * every point and its first comma (which becomes a point), is trimmed and
 * read with `parseFloat`. A row whose amount is not a number or is zero is
 * dropped; the others become expenses on the card "CSV", with the
 * absolute value of the amount and the category of the description.
 */
module CsvImport {
  import opened Wrappers
  import opened JsText
  import opened JsNumber
  import opened AmountPattern
  import opened Categorizer
  import opened Expenses
  import opened JsObjects

  /** The card every imported row is recorded on. */
  const Card: string := "CSV"
  /** The description of a row with no description cell. */
  const DefaultDescription: string := "Gasto"
  /** The amount text of a row with no amount cell. */
  const DefaultAmount: string := "0"

  /** One cell of a parsed row, with the header of its column. */
  datatype Column = Column(header: string, cell: string)

  /** A parsed row: its cells in the order of the file, each with its column's header. */
  type Row = seq<Column>

  // ---- reading a row ----

  /** The object `data` the reader hands over: each cell assigned to its header's key, from the first column on. */
  function RowObject(row: Row): (o: Object)
    ensures WellFormed(o)
    decreases |row|
  {
    if row == [] then Empty
    else
      var last := row[|row| - 1];
      Assign(RowObject(row[..|row| - 1]), last.header, last.cell)
  }

  /** `data[key]`. */
  function Field(row: Row, key: string): Option<string> {
    Get(RowObject(row), key)
  }

  /** `Object.values(data)[k]`. */
  function Value(row: Row, k: nat): Option<string> {
    var values := Values(RowObject(row));
    if k < |values| then Some(values[k]) else None
  }

  /** A cell that JavaScript treats as true: present and not the empty string. */
  predicate Truthy(o: Option<string>) {
    o.Some? && o.value != []
  }

  /** `o1 || o2 || ... || fallback` over cells that may be missing. */
  function FirstTruthy(options: seq<Option<string>>, fallback: string): string
    decreases |options|
  {
    if options == [] then fallback
    else if Truthy(options[0]) then options[0].value
    else FirstTruthy(options[1..], fallback)
  }

  /** `data.Descripcion || data.Concepto || valores[1] || 'Gasto'`. */
  function Description(row: Row): string {
    FirstTruthy([Field(row, "Descripcion"), Field(row, "Concepto"), Value(row, 1)], DefaultDescription)
  }

  /** `data.Importe || data.Monto || valores[2] || '0'`. */
  function AmountText(row: Row): string {
    FirstTruthy([Field(row, "Importe"), Field(row, "Monto"), Value(row, 2)], DefaultAmount)
  }

  /** `data.Fecha || valores[0]`: may be missing or empty, as in the source. */
  function DateOf(row: Row): Option<string> {
    if Truthy(Field(row, "Fecha")) then Field(row, "Fecha") else Value(row, 0)
  }

  /** The clean-up of the amount text: first `$` dropped, then the token clean-up, then `trim`. */
  function CleanAmountText(s: string): string {
    Trim(CleanToken(ReplaceFirst(s, '$', "")))
  }

  /** `parseFloat` of the cleaned amount text; None stands for NaN. */
  function RowAmount(row: Row): Option<Number> {
    ParseFloat(CleanAmountText(AmountText(row)))
  }

  /** The body of the `data` handler: the expense a row becomes, or None when it is dropped. */
  function NormalizeRow(row: Row): Option<Expense> {
    var amount := RowAmount(row);
    if amount.None? || amount.value.IsZero() then None
    else
      var description := Description(row);
      Some(Expense(DateOf(row), description, amount.value.Abs(), Categorize(description), Card))
  }

  // ---- the whole file ----

  /** Turns one row into an expense or into nothing. */
  type RowReader = Row -> Option<Expense>

  /** The expenses of the handler's calls on `rows`, in order: what `resultados` holds at the end. */
  function Collected(normalize: RowReader, rows: seq<Row>): seq<Expense>
    decreases |rows|
  {
    if rows == [] then []
    else
      var last := normalize(rows[|rows| - 1]);
      Collected(normalize, rows[..|rows| - 1]) + (if last.Some? then [last.value] else [])
  }

  /** The expenses the CSV path stores for a file whose rows are `rows`. */
  function Imported(rows: seq<Row>): seq<Expense> {
    Collected(NormalizeRow, rows)
  }

  /** The `data` handler run on every row in turn, each kept row pushed onto the results. */
  method ImportRows(normalize: RowReader, rows: seq<Row>) returns (results: seq<Expense>)
    ensures results == Collected(normalize, rows)
  {
    results := [];
    var i := 0;
    while i < |rows|
      invariant 0 <= i <= |rows|
      invariant results == Collected(normalize, rows[..i])
    {
      var expense := normalize(rows[i]);
      if expense.Some? {
        results := results + [expense.value];
      }
      assert rows[..i + 1][..i] == rows[..i];
      i := i + 1;
    }
    assert rows[..|rows|] == rows;
  }

  /** The CSV path of the upload handler, over the rows the reader produced. */
  method ImportCsv(rows: seq<Row>) returns (results: seq<Expense>)
    ensures results == Imported(rows)
  {
    results := ImportRows(NormalizeRow, rows);
  }

  // ---- what a row reads as ----

  /** The index of the first column with the header `key`; `|row|` when there is none. */
  function FirstColumn(row: Row, key: string): (k: nat)
    ensures k <= |row|
    ensures k < |row| ==> row[k].header == key
    ensures forall j :: 0 <= j < k ==> row[j].header != key
    decreases |row|
  {
    if row == [] then 0 else if row[0].header == key then 0 else 1 + FirstColumn(row[1..], key)
  }

  /** The keys of `data` are the row's headers. */
  lemma {:induction false} RowKeysMembers(row: Row)
    ensures forall key :: key in RowObject(row).keys <==> exists k :: 0 <= k < |row| && row[k].header == key
    decreases |row|
  {
    if row != [] {
      var init, last := row[..|row| - 1], row[|row| - 1];
      RowKeysMembers(init);
      forall key ensures key in RowObject(row).keys <==> exists k :: 0 <= k < |row| && row[k].header == key {
        if exists k :: 0 <= k < |init| && init[k].header == key {
          var k :| 0 <= k < |init| && init[k].header == key;
          assert row[k] == init[k];
        }
        if exists k :: 0 <= k < |row| && row[k].header == key {
          var k :| 0 <= k < |row| && row[k].header == key;
          if k < |init| {
            assert init[k] == row[k];
          }
        }
      }
    }
  }

  /** A header is a key of `data` exactly when it has a first column. */
  lemma RowKeyFirstColumn(row: Row, key: string)
    ensures key in RowObject(row).keys <==> FirstColumn(row, key) < |row|
  {
    RowKeysMembers(row);
  }

  /** Each header appears once among the keys of `data`, and the keys follow the order of their first columns. */
  lemma {:induction false} RowKeysOrder(row: Row)
    ensures forall i, j :: 0 <= i < j < |RowObject(row).keys| ==>
              FirstColumn(row, RowObject(row).keys[i]) < FirstColumn(row, RowObject(row).keys[j])
    decreases |row|
  {
    if row != [] {
      var init, last := row[..|row| - 1], row[|row| - 1];
      RowKeysOrder(init);
      assert row == init + [last];
      RowKeysOrderStep(init, last);
    }
  }

  /** One more column keeps the keys ordered by first column. */
  lemma RowKeysOrderStep(init: Row, last: Column)
    requires forall i, j :: 0 <= i < j < |RowObject(init).keys| ==>
               FirstColumn(init, RowObject(init).keys[i]) < FirstColumn(init, RowObject(init).keys[j])
    ensures forall i, j :: 0 <= i < j < |RowObject(init + [last]).keys| ==>
              FirstColumn(init + [last], RowObject(init + [last]).keys[i]) < FirstColumn(init + [last], RowObject(init + [last]).keys[j])
  {
    var row := init + [last];
    var keys := RowObject(init).keys;
    assert row[..|row| - 1] == init && row[|row| - 1] == last;
    forall key | key in keys ensures FirstColumn(row, key) == FirstColumn(init, key) < |init| {
      FirstColumnPrefix(init, last, key);
    }
    if last.header !in keys {
      FirstColumnPrefix(init, last, last.header);
    }
  }

  /** Adding a column at the end does not move the first column of a header the row already had. */
  lemma FirstColumnPrefix(init: Row, last: Column, key: string)
    ensures key in RowObject(init).keys ==> FirstColumn(init + [last], key) == FirstColumn(init, key) < |init|
    ensures key !in RowObject(init).keys && last.header == key ==> FirstColumn(init + [last], key) == |init|
  {
    RowKeyFirstColumn(init, key);
    var row := init + [last];
    var f := FirstColumn(row, key);
    if f < |init| {
      assert row[f] == init[f];
    }
    var g := FirstColumn(init, key);
    if g < |init| {
      assert row[g] == init[g];
    }
    if key !in RowObject(init).keys && last.header == key {
      assert row[|init|] == last;
    }
  }

  /**
   * `data[key]` is defined exactly when some column has that header, and it
   * holds the cell of the last such column: a later cell overwrites an
   * earlier one.
   */
  lemma FieldSpec(row: Row, key: string)
    ensures Field(row, key).Some? <==> exists k :: 0 <= k < |row| && row[k].header == key
    ensures forall k :: 0 <= k < |row| && row[k].header == key && (forall j :: k < j < |row| ==> row[j].header != key)
              ==> Field(row, key) == Some(row[k].cell)
  {
    RowKeysMembers(row);
    FieldLast(row, key);
  }

  /** A later cell overwrites an earlier one: the last column with the header gives the field. */
  lemma FieldLast(row: Row, key: string)
    ensures forall k :: 0 <= k < |row| && row[k].header == key && (forall j :: k < j < |row| ==> row[j].header != key)
              ==> Field(row, key) == Some(row[k].cell)
  {
    forall k | 0 <= k < |row| && row[k].header == key && (forall j :: k < j < |row| ==> row[j].header != key)
      ensures Field(row, key) == Some(row[k].cell)
    {
      FieldLastAt(row, key, k);
    }
  }

  lemma {:induction false} FieldLastAt(row: Row, key: string, k: nat)
    requires k < |row| && row[k].header == key
    requires forall j :: k < j < |row| ==> row[j].header != key
    ensures Field(row, key) == Some(row[k].cell)
    decreases |row|
  {
    var init, last := row[..|row| - 1], row[|row| - 1];
    AssignGet(RowObject(init), last.header, last.cell, key);
    if k < |init| {
      assert init[k] == row[k];
      forall j | k < j < |init| ensures init[j].header != key {
        assert init[j] == row[j];
      }
      FieldLastAt(init, key, k);
    }
  }

  /**
   * With distinct headers none of which is an array index, `Object.values`
   * lists the cells in the order of the file: `valores[k]` is the cell of
   * the `k`-th column.
   */
  lemma ValuesFileOrder(row: Row)
    requires forall i, j :: 0 <= i < j < |row| ==> row[i].header != row[j].header
    requires forall i :: 0 <= i < |row| ==> !IsArrayIndex(row[i].header)
    ensures forall k :: 0 <= k < |row| ==> Value(row, k) == Some(row[k].cell)
    ensures Value(row, |row|) == None
  {
    var o := RowObject(row);
    DistinctRowKeys(row);
    ValuesCreationOrder(o);
    forall k | 0 <= k < |row| ensures Value(row, k) == Some(row[k].cell) {
      FieldSpec(row, row[k].header);
    }
  }

  /** With distinct headers the keys of `data` are the headers in file order. */
  lemma {:induction false} DistinctRowKeys(row: Row)
    requires forall i, j :: 0 <= i < j < |row| ==> row[i].header != row[j].header
    ensures |RowObject(row).keys| == |row|
    ensures forall k :: 0 <= k < |row| ==> RowObject(row).keys[k] == row[k].header
    decreases |row|
  {
    if row != [] {
      var init, last := row[..|row| - 1], row[|row| - 1];
      DistinctRowKeys(init);
      assert last.header !in RowObject(init).props by {
        forall k | 0 <= k < |init| ensures init[k].header != last.header {
          assert init[k] == row[k];
        }
        RowKeyFirstColumn(init, last.header);
      }
    }
  }

  /** The `||` chain yields the first truthy option. */
  lemma {:induction false} FirstTruthyPicks(options: seq<Option<string>>, fallback: string, k: nat)
    requires k < |options| && Truthy(options[k])
    requires forall j :: 0 <= j < k ==> !Truthy(options[j])
    ensures FirstTruthy(options, fallback) == options[k].value
    decreases k
  {
    if k > 0 {
      assert !Truthy(options[0]);
      assert forall j :: 0 <= j < k - 1 ==> options[1..][j] == options[j + 1];
      FirstTruthyPicks(options[1..], fallback, k - 1);
    }
  }

  /** When no option is truthy the `||` chain yields the fallback. */
  lemma {:induction false} FirstTruthyFallback(options: seq<Option<string>>, fallback: string)
    requires forall j :: 0 <= j < |options| ==> !Truthy(options[j])
    ensures FirstTruthy(options, fallback) == fallback
    decreases |options|
  {
    if options != [] {
      assert forall j :: 0 <= j < |options| - 1 ==> options[1..][j] == options[j + 1];
      FirstTruthyFallback(options[1..], fallback);
    }
  }

  /** The `||` chain never yields an empty string when its fallback is not empty. */
  lemma {:induction false} FirstTruthyNonEmpty(options: seq<Option<string>>, fallback: string)
    requires fallback != []
    ensures FirstTruthy(options, fallback) != []
    decreases |options|
  {
    if options != [] {
      FirstTruthyNonEmpty(options[1..], fallback);
    }
  }

  /** A row always has a non-empty description and amount text. */
  lemma TextsNonEmpty(row: Row)
    ensures Description(row) != [] && AmountText(row) != []
  {
    FirstTruthyNonEmpty([Field(row, "Descripcion"), Field(row, "Concepto"), Value(row, 1)], DefaultDescription);
    FirstTruthyNonEmpty([Field(row, "Importe"), Field(row, "Monto"), Value(row, 2)], DefaultAmount);
  }

  /**
   * A row is kept exactly when its amount reads as a non-zero number, and
   * then it is recorded with a positive amount of the same size, the card
   * "CSV", its description and date, and a category the categoriser can give.
   */
  lemma NormalizeRowSpec(row: Row)
    ensures NormalizeRow(row).Some? <==> RowAmount(row).Some? && !RowAmount(row).value.IsZero()
    ensures NormalizeRow(row).Some? ==>
              var e, a := NormalizeRow(row).value, RowAmount(row).value;
              && e.amount.IsPositive() && (e.amount == a || e.amount == a.Negate())
              && e.card == Card && e.description == Description(row) && e.description != []
              && e.date == DateOf(row)
              && e.category == Categorize(e.description) && e.category in Labels
  {
    TextsNonEmpty(row);
    CategorizeInLabels(Description(row));
    if NormalizeRow(row).Some? {
      AbsPositive(RowAmount(row).value);
    }
  }

  // ---- what an amount cell reads as ----

  /** The amount text of a row whose amount cell is missing or empty, in every place it is looked for. */
  lemma MissingAmountDropped(row: Row)
    requires !Truthy(Field(row, "Importe")) && !Truthy(Field(row, "Monto")) && !Truthy(Value(row, 2))
    ensures AmountText(row) == DefaultAmount
    ensures NormalizeRow(row) == None
  {
    assert AmountText(row) == DefaultAmount by {
      FirstTruthyFallback([Field(row, "Importe"), Field(row, "Monto"), Value(row, 2)], DefaultAmount);
    }
    DefaultAmountDropped(row);
  }

  /** A row whose amount text is the default "0" is dropped. */
  lemma DefaultAmountDropped(row: Row)
    requires AmountText(row) == DefaultAmount
    ensures NormalizeRow(row) == None
  {
    ZeroText();
    assert RowAmount(row) == Some(Finite(Decimal(0, 0)));
  }

  lemma ZeroText()
    ensures ParseFloat(CleanAmountText(DefaultAmount)) == Some(Finite(Decimal(0, 0)))
  {
    assert IndexOf("0", '$') == 1;
    assert RemoveAll("0", '.') == "0";
    assert IndexOf("0", ',') == 1;
    TrimDigitEnds("0");
  }

  /** A digit of the cleaned text is a digit of the raw text. */
  lemma CleanKeepsDigits(s: string, x: char)
    requires IsDigit(x) && x in CleanAmountText(s)
    ensures x in s
  {
    var a := ReplaceFirst(s, '$', "");
    var b := RemoveAll(a, '.');
    TrimKeeps(ReplaceFirst(b, ',', "."), x);
    ReplaceFirstKeeps(b, ',', ".", x);
    RemoveAllKeeps(a, '.', x);
    ReplaceFirstKeeps(s, '$', "", x);
  }

  /**
   * An amount text without a single digit holds no decimal number: the row
   * is dropped, unless the text spells `Infinity`, and then the expense's
   * amount is positive infinity.
   */
  lemma NoDigitAmount(row: Row)
    requires forall k :: 0 <= k < |AmountText(row)| ==> !IsDigit(AmountText(row)[k])
    ensures NormalizeRow(row).Some? ==> NormalizeRow(row).value.amount == Infinite(false)
  {
    var c := CleanAmountText(AmountText(row));
    forall k | 0 <= k < |c| ensures !IsDigit(c[k]) {
      if IsDigit(c[k]) {
        CleanKeepsDigits(AmountText(row), c[k]);
      }
    }
    ParseFloatNoDigits(c);
  }

  /** A cell "Infinity" or "-Infinity" is kept, with positive infinity as its amount. */
  lemma InfinityRowKept(row: Row, sign: string)
    requires sign == "" || sign == "-"
    requires AmountText(row) == sign + InfinityText
    ensures NormalizeRow(row).Some? && NormalizeRow(row).value.amount == Infinite(false)
  {
    var x := sign + InfinityText;
    assert '$' !in x && '.' !in x && ',' !in x && IsTrimmed(x) by {
      InfinityChars(sign);
    }
    CleanUntouched(x);
    ParseFloatInfinity(sign, []);
    assert x + [] == x;
  }

  lemma InfinityChars(sign: string)
    requires sign == "" || sign == "-"
    ensures var x := sign + InfinityText; '$' !in x && '.' !in x && ',' !in x && IsTrimmed(x)
  {
  }

  /** Trimmed text without `$`, point or comma comes through the clean-up unchanged. */
  lemma CleanUntouched(x: string)
    requires '$' !in x && '.' !in x && ',' !in x && IsTrimmed(x)
    ensures CleanAmountText(x) == x
  {
    assert IndexOf(x, '$') == |x| && IndexOf(x, ',') == |x|;
    RemoveAllAbsent(x, '.');
    TrimIdentity(x);
  }

  /**
   * A cell written with a decimal comma and an exponent, such as "2,5e3",
   * is cleaned to "2.5e3" and read with its exponent: the digits over ten to
   * the number of decimals, times ten to the exponent.
   */
  lemma ExponentCommaCell(whole: string, frac: string, x: string)
    requires |whole| > 0 && AllDigits(whole) && |frac| > 0 && AllDigits(frac) && |x| > 0 && AllDigits(x)
    ensures ParseFloat(CleanAmountText(whole + "," + frac + "e" + x))
            == Some(Finite(Scaled(Decimal(DigitsValue(whole + frac), |frac|), DigitsValue(x))))
  {
    var u := whole + "." + frac;
    ExponentCommaCleaned(whole, frac, x);
    PointMantissa(whole, frac);
    ExponentPieces(u, x);
    ParseFloatExponent(u, 'e', "", x, []);
  }

  /** The exponent part with no sign and nothing after it. */
  lemma ExponentPieces(u: string, x: string)
    ensures u + ['e'] + "" + x + [] == u + "e" + x
  {
  }

  /** `whole.frac` is unsigned decimal text: its digits over ten to the number of decimals. */
  lemma PointMantissa(whole: string, frac: string)
    requires |whole| > 0 && AllDigits(whole) && |frac| > 0 && AllDigits(frac)
    ensures ParseUnsignedDecimal(whole + "." + frac) == Some(Decimal(DigitsValue(whole + frac), |frac|))
  {
    ParsePoint(whole, frac);
    assert (whole + "." + frac)[0] == whole[0];
  }

  lemma ExponentCommaCleaned(whole: string, frac: string, x: string)
    requires |whole| > 0 && AllDigits(whole) && |frac| > 0 && AllDigits(frac) && |x| > 0 && AllDigits(x)
    ensures CleanAmountText(whole + "," + frac + "e" + x) == whole + "." + frac + "e" + x
  {
    var w := whole + ".";
    var d := w + (frac + "e" + x);
    ExponentCommaToken(whole, frac, x);
    assert d[0] == whole[0] && d[|d| - 1] == x[|x| - 1];
    TrimDigitEnds(d);
    AppendAssoc(w, frac + "e", x);
    AppendAssoc(w, frac, "e");
  }

  /** The clean-up before trimming: no `$` to drop, no point to remove, and the comma becomes a point. */
  lemma ExponentCommaToken(whole: string, frac: string, x: string)
    requires AllDigits(whole) && AllDigits(frac) && AllDigits(x)
    ensures CleanToken(ReplaceFirst(whole + "," + frac + "e" + x, '$', "")) == whole + "." + (frac + "e" + x)
  {
    var c := whole + "," + frac + "e" + x;
    var tail := frac + "e" + x;
    assert c == whole + "," + tail;
    ExponentCommaChars(whole, frac, x);
    assert ReplaceFirst(c, '$', "") == c;
    RemoveAllAbsent(c, '.');
    assert c[..|whole|] == whole && c[|whole| + 1..] == tail;
  }

  /** Such a cell holds no `$` and no point, and its first comma follows the whole digits. */
  lemma ExponentCommaChars(whole: string, frac: string, x: string)
    requires AllDigits(whole) && AllDigits(frac) && AllDigits(x)
    ensures var c := whole + "," + frac + "e" + x; '$' !in c && '.' !in c && IndexOf(c, ',') == |whole|
  {
    var rest := "," + frac + "e" + x;
    assert whole + "," + frac + "e" + x == whole + rest;
    assert '$' !in whole && '.' !in whole && ',' !in whole;
    assert '$' !in frac && '.' !in frac;
    assert '$' !in x && '.' !in x;
    IndexOfConcat(whole, rest, ',');
  }

  /** "2,5e3" reads as 2500. */
  lemma ExampleExponentCell()
    ensures ParseFloat(CleanAmountText("2,5e3")) == Some(Finite(Decimal(2500, 0)))
  {
    assert "2,5e3" == "2" + "," + "5" + "e" + "3";
    ExponentCommaCell("2", "5", "3");
    ExampleExponentValue();
  }

  /** 2.5 times ten to the third is 2500. */
  lemma ExampleExponentValue()
    ensures Scaled(Decimal(DigitsValue("2" + "5"), |"5"|), DigitsValue("3")) == Decimal(2500, 0)
  {
    assert "2" + "5" == "25";
    assert DigitsValue("25") == 25 && DigitsValue("3") == 3;
    assert Pow10(2) == 100;
  }

  /** A cleaned token is already trimmed. */
  lemma CleanTokenTrimmed(t: string)
    requires IsAmountToken(t)
    ensures Trim(CleanToken(t)) == CleanToken(t)
  {
    var n := LeadLength(t);
    var digits, cents := WholeDigits(t), CentsDigits(t[n..]);
    CleanTokenForm(t);
    assert digits[0] == t[0] && IsDigit(t[..n][0]);
    TrimDigitEnds(CleanToken(t));
  }

  /** An amount token holds no `$`. */
  lemma TokenHasNoDollar(t: string)
    requires IsAmountToken(t)
    ensures '$' !in t
  {
    TokenWithoutPoints(t);
    var r := WholeDigits(t) + ("," + CentsDigits(t[LeadLength(t)..]));
    assert forall k :: 0 <= k < |r| ==> r[k] != '$';
    RemoveAllKeeps(t, '.', '$');
  }

  /** A cell holding an amount token, with or without a leading `$`, reads as the token's value. */
  lemma TokenCellAmount(t: string)
    requires IsAmountToken(t)
    ensures ParseFloat(CleanAmountText(t)) == Some(Finite(Decimal(TokenCents(t), 2)))
    ensures ParseFloat(CleanAmountText("$" + t)) == Some(Finite(Decimal(TokenCents(t), 2)))
  {
    TokenHasNoDollar(t);
    assert ReplaceFirst("$" + t, '$', "") == t;
    assert ReplaceFirst(t, '$', "") == t;
    CleanTokenTrimmed(t);
    CleanTokenValue(t);
    ParseFloatDecimal(CleanToken(t));
  }

  /** A cell holding a minus sign and an amount token reads as the token's value negated. */
  lemma NegativeTokenCellAmount(t: string)
    requires IsAmountToken(t)
    ensures ParseFloat(CleanAmountText("-" + t)) == Some(Finite(Decimal(-(TokenCents(t) as int), 2)))
  {
    var c, v := CleanToken(t), TokenCents(t);
    assert CleanAmountText("-" + t) == "-" + c && (c == [] || c[0] != '-') by {
      NegativeClean(t);
    }
    assert ParseDecimal(c) == Some(Decimal(v, 2)) by {
      CleanTokenValue(t);
    }
    NegativeCell("-" + t, c, v);
    assert Decimal(-(v as int), 2) == Decimal(-(TokenCents(t) as int), 2);
  }

  lemma NegativeCell(s: string, c: string, v: nat)
    requires CleanAmountText(s) == "-" + c
    requires ParseDecimal(c) == Some(Decimal(v, 2))
    requires c == [] || c[0] != '-'
    ensures ParseFloat(CleanAmountText(s)) == Some(Finite(Decimal(-(v as int), 2)))
  {
    NegativeDecimal(c, v);
  }

  /** So does a cell holding a minus sign, a `$` and an amount token. */
  lemma NegativeDollarCellAmount(t: string)
    requires IsAmountToken(t)
    ensures ParseFloat(CleanAmountText("-$" + t)) == Some(Finite(Decimal(-(TokenCents(t) as int), 2)))
  {
    assert ReplaceFirst("-$" + t, '$', "") == "-" + t by {
      MinusDollar(t);
    }
    assert ReplaceFirst("-" + t, '$', "") == "-" + t by {
      MinusCleanToken(t);
    }
    assert CleanAmountText("-$" + t) == CleanAmountText("-" + t);
    NegativeTokenCellAmount(t);
  }

  /** `parseFloat` of a minus and an unsigned decimal text is that text's value negated. */
  lemma NegativeDecimal(c: string, v: nat)
    requires ParseDecimal(c) == Some(Decimal(v, 2))
    requires c == [] || c[0] != '-'
    ensures ParseFloat("-" + c) == Some(Finite(Decimal(-(v as int), 2)))
  {
    assert ParseDecimal("-" + c) == Some(Decimal(-(v as int), 2)) by {
      ParseNegative(c);
    }
    ParseFloatDecimal("-" + c);
  }

  /** Only the `$` of a cell "-$..." is dropped. */
  lemma MinusDollar(t: string)
    ensures ReplaceFirst("-$" + t, '$', "") == "-" + t
  {
    var x := "-$" + t;
    assert IndexOf(x, '$') == 1 by {
      assert x[0] != '$' && x[1..][0] == '$';
    }
    assert x[..1] == "-" && x[2..] == t;
  }

  lemma NegativeClean(t: string)
    requires IsAmountToken(t)
    ensures CleanAmountText("-" + t) == "-" + CleanToken(t)
    ensures CleanToken(t) == [] || CleanToken(t)[0] != '-'
  {
    MinusCleanToken(t);
    CleanTokenDigitEnds(t);
    MinusTrimmed(CleanToken(t));
  }

  /** A cleaned token starts and ends with a digit. */
  lemma CleanTokenDigitEnds(t: string)
    requires IsAmountToken(t)
    ensures |CleanToken(t)| > 0 && IsDigit(CleanToken(t)[0]) && IsDigit(CleanToken(t)[|CleanToken(t)| - 1])
  {
    var n := LeadLength(t);
    CleanTokenForm(t);
    assert |WholeDigits(t)| >= n;
    DigitsAroundPoint(WholeDigits(t), CentsDigits(t[n..]));
  }

  lemma DigitsAroundPoint(whole: string, cents: string)
    requires |whole| > 0 && AllDigits(whole) && |cents| > 0 && AllDigits(cents)
    ensures IsDigit((whole + "." + cents)[0]) && IsDigit((whole + "." + cents)[|whole| + |cents|])
  {
    assert (whole + "." + cents)[|whole| + |cents|] == cents[|cents| - 1];
  }

  /** A minus sign in front of text that ends in a digit leaves nothing to trim. */
  lemma MinusTrimmed(c: string)
    requires |c| > 0 && IsDigit(c[|c| - 1])
    ensures Trim("-" + c) == "-" + c
  {
    assert IsTrimmed("-" + c);
    TrimIdentity("-" + c);
  }

  /** The token clean-up passes a leading minus through. */
  lemma MinusCleanToken(t: string)
    requires IsAmountToken(t)
    ensures ReplaceFirst("-" + t, '$', "") == "-" + t
    ensures CleanToken("-" + t) == "-" + CleanToken(t)
  {
    TokenHasNoDollar(t);
    assert ReplaceFirst("-" + t, '$', "") == "-" + t;
    RemoveAllAppend("-", t, '.');
    assert RemoveAll("-", '.') == "-";
    var r := RemoveAll(t, '.');
    MinusReplace(r);
  }

  lemma MinusReplace(r: string)
    ensures ReplaceFirst("-" + r, ',', ".") == "-" + ReplaceFirst(r, ',', ".")
  {
    ReplaceFirstAfter('-', r, ',', ".");
  }

  /**
   * A cell that writes its decimals after a point, such as "12.50", loses
   * the point with the thousands separators: it reads as the whole number
   * made of all its digits, `10^|frac|` times the value the text denotes.
   */
  lemma PointDecimalCell(whole: string, frac: string)
    requires |whole| > 0 && AllDigits(whole) && |frac| > 0 && AllDigits(frac)
    ensures ParseDecimal(whole + "." + frac) == Some(Decimal(DigitsValue(whole + frac), |frac|))
    ensures ParseFloat(CleanAmountText(whole + "." + frac)) == Some(Finite(Decimal(DigitsValue(whole + frac), 0)))
  {
    var s, d := whole + "." + frac, whole + frac;
    assert d == whole + frac;
    assert ParseDecimal(s) == Some(Decimal(DigitsValue(d), |frac|)) by {
      ParsePoint(whole, frac);
    }
    assert CleanAmountText(s) == d by {
      PointDecimalCleaned(whole, frac);
    }
    assert ParseFloat(d) == Some(Finite(Decimal(DigitsValue(d), 0))) by {
      ParseWhole(d);
      ParseFloatDecimal(d);
    }
  }

  lemma PointDecimalCleaned(whole: string, frac: string)
    requires |whole| > 0 && AllDigits(whole) && |frac| > 0 && AllDigits(frac)
    ensures AllDigits(whole + frac)
    ensures CleanAmountText(whole + "." + frac) == whole + frac
  {
    var s, d := whole + "." + frac, whole + frac;
    assert ReplaceFirst(s, '$', "") == s by {
      assert '$' !in s;
    }
    assert RemoveAll(s, '.') == d by {
      PointRemoved(whole, frac);
    }
    assert ReplaceFirst(d, ',', ".") == d by {
      assert ',' !in d;
    }
    TrimDigitEnds(d);
  }

  lemma PointRemoved(whole: string, frac: string)
    requires AllDigits(whole) && AllDigits(frac)
    ensures RemoveAll(whole + "." + frac, '.') == whole + frac
  {
    var tail := "." + frac;
    assert RemoveAll(tail, '.') == frac by {
      assert tail[0] == '.' && tail[1..] == frac;
      assert '.' !in frac;
      RemoveAllAbsent(frac, '.');
    }
    assert RemoveAll(whole, '.') == whole by {
      assert '.' !in whole;
      RemoveAllAbsent(whole, '.');
    }
    RemoveAllAppend(whole, tail, '.');
    assert whole + "." + frac == whole + tail;
  }

  /**
   * A row whose amount cell is an amount token, with or without a sign and
   * a `$`, is kept with the token's value as its amount, unless the token
   * is zero.
   */
  lemma TokenRowAmount(row: Row, t: string)
    requires IsAmountToken(t) && IsTokenCell(AmountText(row), t)
    ensures NormalizeRow(row).Some? <==> TokenCents(t) != 0
    ensures NormalizeRow(row).Some? ==> NormalizeRow(row).value.amount == Finite(Decimal(TokenCents(t), 2))
  {
    TokenRowRead(row, t);
    NormalizeRowSpec(row);
  }

  /** The amount such a row reads is the token's value, up to sign. */
  lemma TokenRowRead(row: Row, t: string)
    requires IsAmountToken(t) && IsTokenCell(AmountText(row), t)
    ensures || RowAmount(row) == Some(Finite(Decimal(TokenCents(t), 2)))
            || RowAmount(row) == Some(Finite(Decimal(-(TokenCents(t) as int), 2)))
  {
    TokenCellSigned(AmountText(row), t);
  }

  /** A cell holding the amount token `t`, with or without a leading minus sign and a `$`. */
  predicate IsTokenCell(x: string, t: string) {
    x == t || x == "$" + t || x == "-" + t || x == "-$" + t
  }

  /** A cell holding an amount token, signed or not, reads as plus or minus the token's value. */
  lemma TokenCellSigned(x: string, t: string)
    requires IsAmountToken(t)
    requires IsTokenCell(x, t)
    ensures || ParseFloat(CleanAmountText(x)) == Some(Finite(Decimal(TokenCents(t), 2)))
            || ParseFloat(CleanAmountText(x)) == Some(Finite(Decimal(-(TokenCents(t) as int), 2)))
  {
    if x == t || x == "$" + t {
      TokenCellAmount(t);
    } else if x == "-" + t {
      NegativeTokenCellAmount(t);
    } else {
      NegativeDollarCellAmount(t);
    }
  }

  // ---- what the whole file yields ----

  /** Importing rows one after the other is importing them together. */
  lemma {:induction false} CollectedAppend(normalize: RowReader, a: seq<Row>, b: seq<Row>)
    ensures Collected(normalize, a + b) == Collected(normalize, a) + Collected(normalize, b)
    decreases |b|
  {
    if b == [] {
      assert a + b == a;
    } else {
      var b' := b[..|b| - 1];
      assert (a + b)[..|a + b| - 1] == a + b';
      assert (a + b)[|a + b| - 1] == b[|b| - 1];
      CollectedAppend(normalize, a, b');
    }
  }

  /** There are never more expenses than rows. */
  lemma {:induction false} CollectedLength(normalize: RowReader, rows: seq<Row>)
    ensures |Collected(normalize, rows)| <= |rows|
    decreases |rows|
  {
    if rows != [] {
      CollectedLength(normalize, rows[..|rows| - 1]);
    }
  }

  /** An expense is collected exactly when some row normalises to it. */
  lemma {:induction false} CollectedMembers(normalize: RowReader, rows: seq<Row>, e: Expense)
    ensures e in Collected(normalize, rows) <==> exists k :: 0 <= k < |rows| && normalize(rows[k]) == Some(e)
    decreases |rows|
  {
    if rows != [] {
      var init := rows[..|rows| - 1];
      CollectedMembers(normalize, init, e);
      if exists k :: 0 <= k < |init| && normalize(init[k]) == Some(e) {
        var k :| 0 <= k < |init| && normalize(init[k]) == Some(e);
        assert rows[k] == init[k];
      }
      if exists k :: 0 <= k < |rows| && normalize(rows[k]) == Some(e) {
        var k :| 0 <= k < |rows| && normalize(rows[k]) == Some(e);
        if k < |init| {
          assert init[k] == rows[k];
        }
      }
    }
  }

  /**
   * Every imported expense comes from a row, is on the card "CSV", has a
   * positive amount, a non-empty description and one of the categoriser's
   * labels; there are at most as many as rows.
   */
  lemma ImportedSpec(rows: seq<Row>)
    ensures |Imported(rows)| <= |rows|
    ensures forall e :: e in Imported(rows) <==> exists k :: 0 <= k < |rows| && NormalizeRow(rows[k]) == Some(e)
    ensures forall e :: e in Imported(rows) ==>
              e.card == Card && e.amount.IsPositive() && e.description != [] && e.category in Labels
  {
    CollectedLength(NormalizeRow, rows);
    forall e ensures e in Imported(rows) <==> exists k :: 0 <= k < |rows| && NormalizeRow(rows[k]) == Some(e) {
      CollectedMembers(NormalizeRow, rows, e);
    }
    forall e | e in Imported(rows)
      ensures e.card == Card && e.amount.IsPositive() && e.description != [] && e.category in Labels
    {
      var k :| 0 <= k < |rows| && NormalizeRow(rows[k]) == Some(e);
      NormalizeRowSpec(rows[k]);
    }
  }
}
