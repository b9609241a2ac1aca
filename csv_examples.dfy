/**
 * Worked examples of the CSV import on concrete rows. Descriptions and
 * amounts are written in the same pieces the categoriser and amount-token
 * examples lower and decode, so those lemmas apply as they stand.
 */
module CsvExamples {
  import opened Wrappers
  import opened JsText
  import opened JsNumber
  import opened AmountPattern
  import opened Categorizer
  import opened CategorizerExamples
  import opened Expenses
  import opened JsObjects
  import opened CsvImport

  /**
   * A row with the named columns: the description and the amount come from
   * "Descripcion" and "Importe", the `$` and the thousands point are dropped,
   * and the fuel keyword makes it "Transporte".
   */
  lemma ExampleNamedColumns(row: Row)
    requires |row| == 3
    requires row[0] == Column("Fecha", "15/01/2026")
    requires row[1] == Column("Descripcion", "YPF " + "COMB" + "USTIBLE")
    requires row[2] == Column("Importe", "$" + "1.500,50")
    ensures NormalizeRow(row) == Some(Expense(Some("15/01/2026"), "YPF " + "COMB" + "USTIBLE", Finite(Decimal(150050, 2)), "Transporte", Card))
  {
    NamedTexts(row);
    ExampleThousandsToken();
    TokenRowAmount(row, "1.500,50");
    NormalizeRowSpec(row);
    ExampleFuel();
  }

  /** The date, description and amount text of that row come from the named fields. */
  lemma NamedTexts(row: Row)
    requires |row| == 3
    requires row[0] == Column("Fecha", "15/01/2026")
    requires row[1] == Column("Descripcion", "YPF " + "COMB" + "USTIBLE")
    requires row[2] == Column("Importe", "$" + "1.500,50")
    ensures DateOf(row) == Some("15/01/2026")
    ensures Description(row) == "YPF " + "COMB" + "USTIBLE"
    ensures AmountText(row) == "$" + "1.500,50"
  {
    NamedFields(row);
    FirstTruthyPicks([Field(row, "Descripcion"), Field(row, "Concepto"), Value(row, 1)], DefaultDescription, 0);
    FirstTruthyPicks([Field(row, "Importe"), Field(row, "Monto"), Value(row, 2)], DefaultAmount, 0);
  }

  /** Each header of that row reads as its cell. */
  lemma NamedFields(row: Row)
    requires |row| == 3
    requires row[0] == Column("Fecha", "15/01/2026")
    requires row[1] == Column("Descripcion", "YPF " + "COMB" + "USTIBLE")
    requires row[2] == Column("Importe", "$" + "1.500,50")
    ensures Field(row, "Fecha") == Some("15/01/2026")
    ensures Field(row, "Descripcion") == Some("YPF " + "COMB" + "USTIBLE")
    ensures Field(row, "Importe") == Some("$" + "1.500,50")
  {
    FieldLastAt(row, "Fecha", 0);
    FieldLastAt(row, "Descripcion", 1);
    FieldLastAt(row, "Importe", 2);
  }

  /**
   * Header names are matched exactly: lower-case headers miss "Descripcion"
   * and "Importe", so the cells are taken by position; the minus sign is
   * dropped by the absolute value.
   */
  lemma ExamplePositionalColumns(row: Row)
    requires |row| == 3
    requires row[0] == Column("fecha", "03/02/2026")
    requires row[1] == Column("detalle", "COTO " + "SUPER")
    requires row[2] == Column("importe", "-" + "2.500,00")
    ensures NormalizeRow(row) == Some(Expense(Some("03/02/2026"), "COTO " + "SUPER", Finite(Decimal(250000, 2)), "Supermercado", Card))
  {
    PositionalTexts(row);
    ExampleNegativeToken();
    TokenRowAmount(row, "2.500,00");
    NormalizeRowSpec(row);
    ExampleCotoSuper();
  }

  /** That row's date, description and amount text are its cells, taken by position. */
  lemma PositionalTexts(row: Row)
    requires |row| == 3
    requires row[0] == Column("fecha", "03/02/2026")
    requires row[1] == Column("detalle", "COTO " + "SUPER")
    requires row[2] == Column("importe", "-" + "2.500,00")
    ensures DateOf(row) == Some("03/02/2026")
    ensures Description(row) == "COTO " + "SUPER"
    ensures AmountText(row) == "-" + "2.500,00"
  {
    PositionalValues(row);
    NoSuchHeader(row, "Fecha");
    NoSuchHeader(row, "Descripcion");
    NoSuchHeader(row, "Concepto");
    FirstTruthyPicks([Field(row, "Descripcion"), Field(row, "Concepto"), Value(row, 1)], DefaultDescription, 2);
    NoSuchHeader(row, "Importe");
    NoSuchHeader(row, "Monto");
    FirstTruthyPicks([Field(row, "Importe"), Field(row, "Monto"), Value(row, 2)], DefaultAmount, 2);
  }

  /** No header of that row is an array index, so `Object.values` lists its cells in file order. */
  lemma PositionalValues(row: Row)
    requires |row| == 3
    requires row[0] == Column("fecha", "03/02/2026")
    requires row[1] == Column("detalle", "COTO " + "SUPER")
    requires row[2] == Column("importe", "-" + "2.500,00")
    ensures Value(row, 0) == Some("03/02/2026")
    ensures Value(row, 1) == Some("COTO " + "SUPER")
    ensures Value(row, 2) == Some("-" + "2.500,00")
  {
    assert !IsArrayIndex("fecha") && !IsArrayIndex("detalle") && !IsArrayIndex("importe") by {
      assert !IsDigit('f') && !IsDigit('d') && !IsDigit('i');
    }
    ValuesFileOrder(row);
  }

  /**
   * A file without a header line: its first line becomes the headers, and
   * the header "1500" is an array index, so `Object.values` lists its cell
   * first. The description is then the date and the amount text is the
   * description, which is not a number: the row is dropped.
   */
  lemma ExampleIndexHeaderFirst(row: Row)
    requires |row| == 3
    requires row[0] == Column("05/01/2026", "06/01/2026")
    requires row[1] == Column("YPF", "COTO " + "SUPER")
    requires row[2] == Column("1500", "2000")
    ensures Value(row, 0) == Some("2000") && Value(row, 1) == Some("06/01/2026") && Value(row, 2) == Some("COTO " + "SUPER")
    ensures Description(row) == "06/01/2026" && AmountText(row) == "COTO " + "SUPER"
    ensures NormalizeRow(row) == None
  {
    IndexHeaderValues(row);
    assert Description(row) == "06/01/2026" by {
      NoSuchHeader(row, "Descripcion");
      NoSuchHeader(row, "Concepto");
      FirstTruthyPicks([Field(row, "Descripcion"), Field(row, "Concepto"), Value(row, 1)], DefaultDescription, 2);
    }
    assert AmountText(row) == "COTO " + "SUPER" by {
      NoSuchHeader(row, "Importe");
      NoSuchHeader(row, "Monto");
      FirstTruthyPicks([Field(row, "Importe"), Field(row, "Monto"), Value(row, 2)], DefaultAmount, 2);
    }
    WordAmountNaN("COTO " + "SUPER");
  }

  /** The values of that row, the array-index key's cell first. */
  lemma IndexHeaderValues(row: Row)
    requires |row| == 3
    requires row[0] == Column("05/01/2026", "06/01/2026")
    requires row[1] == Column("YPF", "COTO " + "SUPER")
    requires row[2] == Column("1500", "2000")
    ensures Value(row, 0) == Some("2000") && Value(row, 1) == Some("06/01/2026") && Value(row, 2) == Some("COTO " + "SUPER")
  {
    var o := RowObject(row);
    IndexHeaderObject(row);
    IndexHeaderOrder();
    ValuesSpec(o);
  }

  /** The object built from that row: its keys are the headers in file order, each holding its cell. */
  lemma IndexHeaderObject(row: Row)
    requires |row| == 3
    requires row[0] == Column("05/01/2026", "06/01/2026")
    requires row[1] == Column("YPF", "COTO " + "SUPER")
    requires row[2] == Column("1500", "2000")
    ensures RowObject(row).keys == ["05/01/2026", "YPF", "1500"]
    ensures Field(row, "05/01/2026") == Some("06/01/2026")
    ensures Field(row, "YPF") == Some("COTO " + "SUPER")
    ensures Field(row, "1500") == Some("2000")
  {
    IndexHeaderKeys(row);
    FieldLastAt(row, "05/01/2026", 0);
    FieldLastAt(row, "YPF", 1);
    FieldLastAt(row, "1500", 2);
  }

  lemma IndexHeaderKeys(row: Row)
    requires |row| == 3
    requires row[0] == Column("05/01/2026", "06/01/2026")
    requires row[1] == Column("YPF", "COTO " + "SUPER")
    requires row[2] == Column("1500", "2000")
    ensures RowObject(row).keys == ["05/01/2026", "YPF", "1500"]
  {
    assert row[0].header != row[1].header && row[0].header != row[2].header && row[1].header != row[2].header;
    DistinctRowKeys(row);
  }

  lemma IndexHeaderOrder()
    ensures OwnKeys(["05/01/2026", "YPF", "1500"]) == ["1500", "05/01/2026", "YPF"]
  {
    var keys := ["05/01/2026", "YPF", "1500"];
    assert !IsArrayIndex("05/01/2026") by {
      assert !IsDigit("05/01/2026"[2]);
    }
    assert !IsArrayIndex("YPF") by {
      assert !IsDigit('Y');
    }
    assert IsArrayIndex("1500") by {
      assert DigitsValue("1500") == 1500 by {
        assert "1500"[..3] == "150" && "150"[..2] == "15" && "15"[..1] == "1";
      }
    }
    assert keys[1..] == ["YPF", "1500"] && keys[1..][1..] == ["1500"];
    assert IndexKeys(keys) == ["1500"];
    assert NamedKeys(keys) == ["05/01/2026", "YPF"];
  }

  /** An amount cell holding a word reads as NaN, and the row is dropped. */
  lemma WordAmountNaN(text: string)
    requires text == "COTO " + "SUPER"
    ensures ParseFloat(CleanAmountText(text)) == None
  {
    assert '$' !in text && '.' !in text && ',' !in text && IsTrimmed(text);
    CleanUntouched(text);
    ParseFloatNonNumeric(text);
  }

  /** A zero amount drops the row, however it is written. */
  lemma ExampleZeroDropped(row: Row)
    requires AmountText(row) == "$" + "0,00"
    ensures NormalizeRow(row) == None
  {
    ExampleZeroToken();
    TokenRowAmount(row, "0,00");
  }

  lemma NoSuchHeader(row: Row, key: string)
    requires |row| == 3 && row[0].header != key && row[1].header != key && row[2].header != key
    ensures Field(row, key) == None
  {
    FieldSpec(row, key);
  }

  /** "1.500,50" is an amount token worth 1500.50. */
  lemma ExampleThousandsToken()
    ensures IsAmountToken("1.500,50") && TokenCents("1.500,50") == 150050
  {
    var t := "1.500,50";
    assert t[..1] == "1" && t[1..] == ".500,50";
    assert ".500,50"[1..4] == "500" && ".500,50"[4..] == ",50";
    assert ",50"[1..] == "50";
    assert IsGroupsTail(",50");
    assert LeadThenTail(t, 1);
    assert DigitsValue("1") == 1 && DigitsValue("500") == 500 && DigitsValue("50") == 50;
  }

  /** "2.500,00" is an amount token worth 2500.00. */
  lemma ExampleNegativeToken()
    ensures IsAmountToken("2.500,00") && TokenCents("2.500,00") == 250000
  {
    var t := "2.500,00";
    assert t[..1] == "2" && t[1..] == ".500,00";
    assert ".500,00"[1..4] == "500" && ".500,00"[4..] == ",00";
    assert ",00"[1..] == "00";
    assert IsGroupsTail(",00");
    assert LeadThenTail(t, 1);
    assert DigitsValue("2") == 2 && DigitsValue("500") == 500 && DigitsValue("00") == 0;
  }

  /** "0,00" is an amount token worth nothing. */
  lemma ExampleZeroToken()
    ensures IsAmountToken("0,00") && TokenCents("0,00") == 0
  {
    var t := "0,00";
    assert t[..1] == "0" && t[1..] == ",00";
    assert LeadThenTail(t, 1);
    assert DigitsValue("0") == 0 && DigitsValue("00") == 0;
  }
}
