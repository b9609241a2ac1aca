# finance-tracker: the statement scanner, the CSV row normaliser and the categoriser

This project models, in Dafny, the three pieces of `index.js` that turn
bank data into expense records:

- **The categoriser** `categorizar` (`index.js:15-28`). The description is
  lower-cased and checked against seven keyword groups, always in the same
  order: Supermercado, Transporte, Suscripciones, Comida, Salud,
  MercadoPago/Compras, Impuestos. The first group with a keyword anywhere
  in the text gives the label. An empty text, or a text no group hits,
  gives "Varios". Module `Categorizer`.
- **The Visa Macro statement scanner** inside `procesarPDF`
  (`index.js:40-104`). Its input is the text the PDF extraction produced.
  - The text is split at line feeds, each piece is trimmed, and empty
    pieces are dropped (module `StatementLines`).
  - A line that is exactly `dd.mm.yy` opens an expense.
  - The next five lines at most are searched for the first line holding an
    amount such as `28.600,00`.
  - The lines passed over on the way become the description, except date
    lines and numbers.
  - The amount is read from the leftmost amount token of its line.
  - When an amount is found, scanning resumes after the amount line;
    otherwise it resumes at the line after the date.

  The loops are `while` loops in `StatementScanner.ScanStatement` and
  `StatementScanner.SearchAfterDate`. Each loop is proved equal to a
  recursive definition (`ScanFrom`, `SearchFrom`), and the properties are
  proved about those definitions. The amount pattern is a grammar with a
  leftmost-match search (module `AmountPattern`).
- **The CSV row normaliser**, the `data` handler of the CSV upload
  (`index.js:138-153`). Each column is taken from a named field, else from
  a field by position, else from a default:
  - the description is `Descripcion`, then `Concepto`, then the second
    cell, then "Gasto";
  - the amount text is `Importe`, then `Monto`, then the third cell,
    then "0".

  The amount text is cleaned: the first `$` is dropped, every point is
  removed, the first comma becomes a point, and the result is trimmed.
  Then it is read with `parseFloat`. Rows whose amount is NaN or zero are
  dropped. The other rows become expenses on the card "CSV" with the
  absolute value of the amount. `CsvImport.ImportRows` is the loop that
  pushes each kept row onto the results. Module `CsvImport`.

  A row reaches the handler as the object `data`: each cell is assigned
  to its header in file order, so with a repeated header the last cell
  wins. The positional fallback reads `Object.values(data)`, which lists
  the keys that are array indices (such as `1500`) first, in ascending
  order, and then the other keys in creation order. A file whose first
  line is an expense rather than a header line is therefore read out of
  order.

Supporting modules:

- `JsText` models the JavaScript string operations used: `trim`,
  `toLowerCase`, `includes`, `split`, `replace` with a string pattern, and
  `replace(/c/g, '')`.
- `JsNumber` models `parseFloat` on the texts the code gives it, and the
  `isNaN` coercion of a line (`Number()` on a string).
- `JsObjects` models the plain objects the CSV reader builds: assignment
  by key, reading by key, and the key order of `Object.values`
  (section 10.1.11.1 of ECMA-262, OrdinaryOwnPropertyKeys).
- Amounts are exact: `Finite(Decimal(units, scale))` stands for
  `units / 10^scale`, and `Infinite(negative)` for plus or minus
  `Infinity`, which `parseFloat` reads from the text `Infinity`. NaN is
  `None`.

The modules `ScannerExamples`, `CategorizerExamples` and `CsvExamples`
work through concrete inputs. For example:

- the excerpt `02.01.26` / `COTO SUPER` / `28.600,00` gives one
  Supermercado expense of 28600.00;
- the row `Descripcion = "YPF COMBUSTIBLE"`, `Importe = "$1.500,50"` gives a
  Transporte expense of 1500.50.

One consequence of the cleaning is proved as `CsvImport.PointDecimalCell`.
A CSV amount written with a decimal point, such as `12.50`, loses the point
together with the thousands separators. It is read as 1250. The code
assumes amounts written with a decimal comma.

## Model

| member | source | states |
|---|---|---|
| Categorizer.CategorizeIsFirstHit | index.js:19-27 | the label of group g comes out exactly when g is the first group, in the fixed order, with a keyword occurring in the lower-cased text; "Varios" exactly when no group has one |
| Categorizer.CategorizeLabelOf | index.js:19-25 | for one group g: its label is the result if and only if g hits and no earlier group hits |
| Categorizer.CategorizeFallback | index.js:16-27 | "Varios" is the result if and only if no keyword of any group occurs in the lower-cased text (the empty text included) |
| Categorizer.EmptyHitsNothing | index.js:16 | no keyword occurs in the empty text, so the early return for a falsy text agrees with the group scan |
| Categorizer.CategorizeInLabels | index.js:15-27 | the result is always one of the eight labels |
| Categorizer.CaseInsensitive | index.js:17 | categorising the lower-cased text gives the same label as the original text |
| Categorizer.AnyIncludedIff | index.js:19 | a group's chain of `includes` tests holds exactly when one of its keywords occurs at some index of the text |
| Categorizer.FirstHitLabelOf | index.js:19-25 | for any groups with distinct labels: a group's label is returned if and only if it is the first group that hits |
| Categorizer.LabelsDistinct | index.js:19-25 | the seven group labels differ from each other and from "Varios" |
| CategorizerExamples.ExampleCotoSuper | index.js:19 | "COTO SUPER" is Supermercado |
| CategorizerExamples.ExampleOrder | index.js:19-20 | "YPF SUPER" is Supermercado: the earlier group wins over "ypf" |
| CategorizerExamples.ExampleInsideWord | index.js:19 | "Media" is Supermercado, because "dia" occurs inside the word |
| CategorizerExamples.ExampleFuel | index.js:19-20 | "YPF COMBUSTIBLE" is Transporte: no supermarket keyword occurs and "ypf" does |
| CategorizerExamples.NoSupermarket | index.js:19 | a text lacking the letters r, d, j, v and holding at most one 'o' contains no supermarket keyword |
| JsText.TrimSpec | index.js:40 | `trim` leaves no white space at either end, and gives the empty string exactly when the text is all white space |
| JsText.TrimIdentity | index.js:94 | `trim` changes a text exactly when one of its ends is white space; trimming twice is trimming once |
| JsText.TrimKeeps | index.js:40 | every character of a trimmed text was in the text |
| JsText.LowerIdempotent | index.js:17 | lower-casing an already lower-cased text changes nothing |
| JsText.LowerLength | index.js:17 | lower-casing never shortens a text, so only the empty text lowers to the empty text |
| JsText.LowerAppend | index.js:17 | lower-casing works character by character: it distributes over concatenation |
| JsText.IncludesIff | index.js:19-25 | `includes` holds exactly when the keyword occurs at some index |
| JsText.IncludesChars | index.js:19-25 | every character of an included keyword occurs in the text |
| JsText.IndexOf | index.js:76 | the result is the index of the first occurrence of the character, or the length when there is none |
| JsText.SplitJoin | index.js:40 | `split` gives at least one piece, no piece holds the separator, and joining the pieces gives back the text |
| JsText.SplitAppend | index.js:40 | splitting `a + "\n" + b` gives the pieces of `a` followed by the pieces of `b` |
| JsText.RemoveAll | index.js:75 | removing every point leaves no point and never lengthens the text |
| JsText.RemoveAllKeeps | index.js:142 | removing one character keeps every other character and brings in none |
| JsText.RemoveAllAppend | index.js:75 | removing a character distributes over concatenation |
| JsText.ReplaceFirstKeeps | index.js:142 | every character after replacing the first comma comes from the text or from the replacement |
| JsText.ReplaceFirstAfter | index.js:142 | a first character other than the one replaced stays in front of the replacement |
| JsNumber.DigitsValueAppend | index.js:78 | the value of concatenated digit strings is the first value shifted left by the length of the second, plus the second |
| JsNumber.ParseUnsignedDecimalDefined | index.js:143 | the exact decoder accepts exactly the texts `digits` or `digits.digits`, and their values are never negative |
| JsNumber.ParseNegative | index.js:143 | a leading minus negates the decoded value, and NaN stays NaN |
| JsNumber.ParseFloatDecimal | index.js:143 | on a text `-?digits(.digits)?`, `parseFloat` gives the exact decoded value |
| JsNumber.ParseFloatTrailing | index.js:143 | text after a well-formed number is ignored when it starts with neither a digit, a point nor an exponent mark |
| JsNumber.ParseFloatExponent | index.js:143 | a decimal followed by `e` or `E`, an optional sign and digits reads as the decimal times ten to that power |
| JsNumber.ParseFloatInfinity | index.js:143 | `Infinity`, with or without a sign, reads as the infinity of that sign whatever follows it |
| JsNumber.ParseFloatNonNumeric | index.js:143 | a text starting with a character that cannot start a number (not white space, a digit, a sign, a point or `I`) is NaN |
| JsNumber.ScaledValue | index.js:143 | applying an exponent multiplies the value by ten to that power |
| JsNumber.ParseFloatNoDigits | index.js:143 | a text with no digit is NaN or an infinity |
| JsNumber.NumericTrim | index.js:84 | `isNaN` of a line depends only on the line's trimmed text |
| JsNumber.AllDigitsNumeric | index.js:84 | a non-empty all-digit line is a number, so it is never added to the description |
| JsNumber.NonNumericLead | index.js:84 | a line starting with a character that cannot start a numeric literal is NaN, so it joins the description |
| JsNumber.DecimalTextNumeric | index.js:84 | every text `-?digits(.digits)?` is a number for `isNaN` |
| AmountPattern.MatchAtIff | index.js:48 | the pattern matched from index p ends at e exactly when `s[p..e]` is an amount token |
| AmountPattern.TokenAtUnique | index.js:48 | at most one amount token starts at a given index |
| AmountPattern.FirstMatchIsLeftmost | index.js:74 | the match found is the token with the least start index, and there is none exactly when no token occurs in the line |
| AmountPattern.CleanTokenForm | index.js:75-76 | removing the points and turning the comma into a point gives the whole digits, a point and the two cents digits |
| AmountPattern.CleanTokenValue | index.js:74-78 | the cleaned token decodes to its value in hundredths, with two decimals |
| AmountPattern.LineAmountSpec | index.js:71-78 | a line has an amount exactly when the pattern occurs in it, and the amount is the value in hundredths of the leftmost token: a match always decodes |
| AmountPattern.LineAmountCents | index.js:78 | a line's amount has two decimals and is never negative |
| AmountPattern.NoDigitNoAmount | index.js:71 | a line without a digit has no amount |
| AmountPattern.NoCommaNoAmount | index.js:48 | a line without a comma has no amount |
| AmountPattern.ExampleLeftmostInRun | index.js:74 | in "1234,56" the match is "234,56" |
| AmountPattern.ExampleLineAmount | index.js:74-78 | "28.600,00" reads as 28600.00 |
| AmountPattern.ExampleTenAmount | index.js:74-78 | "10,00" reads as 10.00 |
| AmountPattern.ExampleDateNoAmount | index.js:71 | a date line such as "02.01.26" holds no amount |
| AmountPattern.ExampleDescriptionNoAmount | index.js:71 | a description line such as "COTO SUPER" holds no amount |
| StatementLines.NormalizedLinesAreNormal | index.js:40 | every line the scanner sees is non-empty, trimmed and holds no line feed |
| StatementLines.NormalizeAppend | index.js:40 | text joined at a line feed yields the lines of the first part, then those of the second: order is kept |
| StatementLines.NormalizeEmpty | index.js:40 | the empty text yields no lines |
| StatementLines.NormalizeSingle | index.js:40 | a piece without a line feed yields its trimmed self, or nothing when it is all white space |
| StatementLines.NormalizeJoin | index.js:40 | lines that are already normal come back unchanged after joining them with line feeds |
| StatementLines.NormalizeIdempotent | index.js:40 | normalising the joined normal lines again gives the same lines |
| StatementScanner.ScanStatement | index.js:51-104 | the outer loop, with its cursor moved past the amount line, returns the records of the recursive scan, in order |
| StatementScanner.SearchAfterDate | index.js:64-88 | the inner loop, with its breaks, returns the result of the recursive search |
| StatementScanner.ProcessStatementText | index.js:40-104 | the scanner on extracted text returns the records of the scan of its normalised lines |
| StatementScanner.SearchSpec | index.js:64-88 | an amount is found exactly when one of the next five lines that exist holds one; it is the first such line; no line before it holds one; the description is made of the kept lines in between |
| StatementScanner.SearchBounds | index.js:64-80 | the search never looks beyond five lines or past the last line, and reports the offset of the amount line |
| StatementScanner.SearchDescription | index.js:84-85 | the description is what was gathered before, then each kept passed-over line followed by a space |
| StatementScanner.ScanFromRecord | index.js:91-101 | a date with an amount yields its entry, and scanning resumes after the amount line |
| StatementScanner.ScanFromSkip | index.js:55-103 | any other line, including a date without an amount, is passed over and scanning resumes at the next line |
| StatementScanner.ScanCount | index.js:55-101 | there are never more entries than date lines |
| StatementScanner.ScanEntries | index.js:55-88 | every entry comes from a date line and the first amount line at most five lines below it, with the kept lines in between as its description |
| StatementScanner.NoDatesNoEntries | index.js:55 | lines without a date line yield no entry |
| StatementScanner.RecordSpec | index.js:92-98 | the record keeps the date and amount, has the card "Visa Macro", the trimmed description or "Consumo Visa" when it is blank, and the category of the untrimmed description |
| StatementScanner.RecordsAt | index.js:92 | one record per entry, in the same position |
| StatementScanner.RecordsAppend | index.js:92 | the records of two runs of entries are the records of each, in order |
| StatementScanner.StatementAmounts | index.js:78-91 | every amount of a statement has two decimals and is never negative |
| StatementScanner.StatementRecords | index.js:91-98 | a statement has at most as many records as date lines, each with card "Visa Macro", a non-empty trimmed description, a non-negative amount and one of the eight labels |
| StatementScanner.DescribeBlank | index.js:94 | the description is blank exactly when no passed-over line is kept |
| ScannerExamples.ExampleOneExpense | index.js:51-101 | "02.01.26", "COTO SUPER", "28.600,00" gives exactly one expense: 28600.00, "COTO SUPER", Supermercado |
| ScannerExamples.ExampleAmountTooFar | index.js:64-66 | an amount six lines below the date is out of reach, and no expense is recorded |
| ScannerExamples.LastLineAmount | index.js:91-101 | any date line whose amount line is the last line yields exactly one entry, with that date, the gathered description and the amount, and the scan stops there |
| CsvImport.ImportRows | index.js:138-153 | pushing each kept row in turn gives the kept expenses of the rows, in order |
| CsvImport.ImportCsv | index.js:136-153 | the CSV path stores exactly the expenses the handler makes from the rows |
| CsvImport.ImportedSpec | index.js:138-153 | no more expenses than rows; an expense is stored exactly when some row normalises to it; every one has card "CSV", a positive amount, a description and one of the eight labels |
| CsvImport.CollectedMembers | index.js:145-146 | an expense is collected exactly when some row yields it |
| CsvImport.CollectedAppend | index.js:146 | collecting two runs of rows gives the expenses of the first run, then those of the second |
| CsvImport.CollectedLength | index.js:145-146 | each row yields at most one expense |
| CsvImport.FieldSpec | index.js:140 | a named field is found exactly when a column has that header, and it is the cell of the last such column: a later cell overwrites an earlier one |
| CsvImport.RowKeysMembers | index.js:139 | the keys of the row object are exactly the row's headers |
| CsvImport.RowKeysOrder | index.js:139 | each header is a key once, and the keys are ordered by the first column carrying each header |
| CsvImport.ValuesFileOrder | index.js:139-141 | with distinct headers none of which is an array index, the k-th value is the k-th column's cell, and there is no value past the last column |
| JsObjects.Assign | index.js:139 | an assignment keeps an object well formed: each key listed once, and exactly the keys holding a value listed |
| CsvImport.RowObject | index.js:139 | the object built from a row's cells is well formed |
| JsObjects.AssignGet | index.js:139 | after an assignment the key reads as the new value and every other key reads as before; a new key is appended to the keys, an existing one keeps its place |
| JsObjects.SortIndicesSpec | index.js:139 | the array-index keys are sorted: same keys, ascending numeric order |
| JsObjects.OwnKeysSpec | index.js:139 | `Object.values` visits every key once: the array indices first, ascending, then the other keys in creation order; without array indices, creation order throughout |
| JsObjects.ValuesSpec | index.js:139 | `Object.values` holds one value per key, each the value of the key at that position of the key order |
| JsObjects.ValuesCreationOrder | index.js:139 | with no array-index key, `Object.values` lists the values in creation order |
| CsvImport.FirstTruthyPicks | index.js:140-141 | the `\|\|` chain yields the first cell that is present and not empty |
| CsvImport.FirstTruthyFallback | index.js:140-141 | with no such cell the chain yields its default |
| CsvImport.TextsNonEmpty | index.js:140-141 | the description and the amount text are never empty |
| CsvImport.NormalizeRowSpec | index.js:143-153 | a row is kept exactly when its amount is a non-zero number (an infinity included); it then has a positive amount equal to the read amount or its negation, the card "CSV", its description and date, and the category of its description |
| CsvImport.MissingAmountDropped | index.js:141-145 | a row without an amount cell reads as "0" and is dropped |
| CsvImport.ZeroText | index.js:141-143 | the default amount text "0" reads as zero |
| CsvImport.NoDigitAmount | index.js:142-145 | a row whose amount text has no digit is dropped unless the text spells `Infinity`; a kept one has positive infinity as its amount |
| CsvImport.InfinityRowKept | index.js:142-149 | the amount cell "Infinity" or "-Infinity" is kept, with positive infinity as its amount |
| CsvImport.ExponentCommaCell | index.js:142-143 | a cell such as "2,5e3" is cleaned to "2.5e3" and read with its exponent: its digits over ten to the number of decimals, times ten to the exponent |
| CsvImport.ExampleExponentCell | index.js:142-143 | "2,5e3" reads as 2500 |
| CsvImport.CleanKeepsDigits | index.js:142 | the clean-up brings in no digit |
| CsvImport.TokenCellAmount | index.js:142-143 | an amount such as "1.500,50" or "$1.500,50" reads as its value in hundredths |
| CsvImport.NegativeTokenCellAmount | index.js:142-143 | "-1.500,50" reads as minus its value |
| CsvImport.NegativeDollarCellAmount | index.js:142-143 | "-$1.500,50" reads as minus its value |
| CsvImport.TokenCellSigned | index.js:142-143 | an amount token with or without a sign or `$` reads as plus or minus the token's value |
| CsvImport.TokenRowAmount | index.js:141-149 | a row whose amount cell is such a token is kept exactly when the token is not zero, with the token's value as its amount |
| CsvImport.PointDecimalCell | index.js:142-143 | "12.50" decodes to 12.50 as text, but the clean-up removes its point and it reads as 1250 |
| CsvExamples.ExampleNamedColumns | index.js:139-153 | the row Fecha "15/01/2026", Descripcion "YPF COMBUSTIBLE", Importe "$1.500,50" gives a Transporte expense of 1500.50 |
| CsvExamples.ExamplePositionalColumns | index.js:139-153 | lower-case headers miss the named fields, so the cells are taken by position, and "-2.500,00" becomes 2500.00 |
| CsvExamples.ExampleIndexHeaderFirst | index.js:139-145 | with the expense line "05/01/2026,YPF,1500" taken as headers, the row "06/01/2026,COTO SUPER,2000" has the values "2000", "06/01/2026", "COTO SUPER" in that order, its description is the date, its amount text is "COTO SUPER", and it is dropped |
| CsvExamples.ExampleZeroDropped | index.js:142-145 | the amount "$0,00" drops the row |

## Left out

- The upload route, multer, static serving, the HTTP responses and `app.listen` (`index.js:8-12`, `115-177`) are I/O plumbing and are not modelled.
- `fs.readFileSync`, `fs.unlinkSync` and the `pdf()` text extraction are foreign calls. The extracted text is the input of `ProcessStatementText`. The `try`/`catch` that turns an extraction error into no records is outside the model.
- The `csv-parser` stream and its events are not modelled. The parsed rows are the input of `ImportCsv`: each row is its header/cell pairs, assigned to `data` in file order. The parser's own options are not modelled: keys it invents for cells beyond the header line, header mapping and skipped columns.
- `RowObject`: a header `__proto__` is treated as an ordinary key; JavaScript ignores a string assigned to `__proto__`.
- `database.js` is not part of this model. Saving with `Gasto.bulkCreate` is left out, and so is the mismatch between the record key `descripcion` and the column `description` (`database.js:15`).
- `console.log` and `console.error` are left out.
- Amounts are exact decimals, not IEEE doubles. Rounding in `parseFloat` and `Math.abs` is not modelled.
- `ParseFloat`: reads the sign, `Infinity`, the digits, the point, the fraction and the exponent part as JavaScript does, but the value is exact. A finite text whose double overflows to `Infinity` (`1e400`) or underflows to zero (`1e-400`) stays finite and non-zero here, so such a CSV row is kept where the code would store `Infinity` or drop it.
- `LowerChar`: covers ASCII, Latin-1, U+0130 and U+212A. U+0130 and U+212A are the only other code points that lower to ASCII letters. Every other code point is left unchanged, so text outside these ranges is not lowered as `toLowerCase` would lower it.
- Line endings: the text is split only at line feeds, as the code does. A carriage return before a line feed is removed by `trim`. A bare carriage return does not end a line.
- The scanner's check `monto !== null && !isNaN(monto)` (`index.js:91`) is modelled as "an amount was found". `LineAmountSpec` proves that a found token never reads as NaN.
- User-taught keyword rules and the re-categorisation of stored expenses do not appear in `index.js` and are not part of this model.
