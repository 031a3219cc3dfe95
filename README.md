# Spreadsheet import and row validation, modelled in Dafny

This project models the React component `ExcelImportExport`
(`reactexcelcsv/src/component/Excelimportexport.js`). The component imports a
spreadsheet and checks each sheet against the fixed schema
`REQUIRED_COLUMNS = ["Name", "Amount", "Date", "Verified"]`. It then shows the
rows that pass as a table, and the user can delete rows from it.

The model covers:

- **Validation of one sheet (`updateTable`)**. A grid with fewer than two
  rows is "no data". Otherwise the header (row 0) is checked for every required
  column, and a header that lacks one rejects the whole sheet. If the header is
  complete, each data row becomes a record, built the way `Object.fromEntries`
  builds it. A record is accepted when every required field is neither
  undefined nor `""` and `Amount` coerces to a number greater than 0. An
  accepted record has its `Date` field normalised by `formatDate`. A rejected
  row gives one error message, of the form
  `Sheet: <name>, Row: <k+2>, Errors: <reasons>`.
- **The date normaliser `formatDate`**. Its branch structure is modelled: a
  falsy value gives `""`, a number is read as a serial date, and a string that
  does not parse as a date is returned unchanged.
- **The session state**. This is the class `ImportSession`, with the fields
  `file`, `sheets`, `selectedSheet`, `columns` and `employees`, and one method
  per handler. `SelectFile` enforces the 2 MiB cap. `Import` refuses to run
  with no file and selects the first sheet of the workbook. `ChangeSheet`
  switches sheets. `UpdateTable` applies a validation outcome to the state.
  `Delete` removes a row by its display index.

Modules, one per file: `Wrappers` (Option), `Text` (decimal rendering of row
numbers, `join`), `Cells` (cell values, JavaScript coercions, the workbook),
`Dates` (`formatDate`), `Records` (`Object.fromEntries`), `Validation` (the
pipeline), `Session` (the component's state and handlers), `Scenarios` (worked
examples).

Foreign behaviour is passed in as the `Host` datatype of function values. It
covers `Number(string)`, `String(number)`, `new Date(string)`,
`Intl.DateTimeFormat("en-GB").format` and the spreadsheet library's `read`. An
`ImportSession` holds one `Host` for its lifetime. The `Undefined` cell stands
for a missing value: a blank cell, or a position past the end of a row.

Some behaviour of the code that is easy to miss:

- Choosing a new file only replaces `file`. The sheets, columns and rows on
  display are not cleared until the next import.
- A file over 2 MiB leaves the previously selected file in place. It does not
  return the session to a "no file" state.
- `read` is called without a guard, so a file the library cannot parse throws
  inside the load callback. Nothing is alerted and the state stays as it was.
  The model gives `readWorkbook` an `Option` result, and `None` stands for
  that throw (`Session.ImportSession.Import`, `Session.ImportSession.ChangeSheet`).
- The Amount check is JavaScript's `Number` coercion, so a boolean `true` in
  the Amount column passes (it coerces to 1).
- A `Date` cell holding the number 0 passes validation, because 0 is neither
  undefined nor `""`. `formatDate` then turns it into `""`, because 0 is falsy.
  So the accepted record can show an empty date (`Dates.FormatDate`, `Validation.AcceptedRecordFields`).

## Model

| member | source | states |
|---|---|---|
| `Text.NatToString` | reactexcelcsv/src/component/Excelimportexport.js:91 | the row number in a message is a non-empty string of decimal digits, with no leading zero unless the number is 0 |
| `Text.ParseNatToString` | reactexcelcsv/src/component/Excelimportexport.js:91 | reading the rendered row number back as digits gives the number (round trip) |
| `Text.Join` | reactexcelcsv/src/component/Excelimportexport.js:71 | `join` of no parts is `""`, of one part is that part, and otherwise starts with the first part |
| `Cells.SheetNames` | reactexcelcsv/src/component/Excelimportexport.js:34 | `wb.SheetNames` lists the workbook's sheet names in workbook order |
| `Cells.RowsOf` | reactexcelcsv/src/component/Excelimportexport.js:58-59 | the named sheet's rows. The first sheet with that name is used (its rows, whatever its position), and a name the workbook lacks gives no rows |
| `Cells.IsFalsy` | reactexcelcsv/src/component/Excelimportexport.js:45 | `!value` for a cell: undefined, the number 0, `""` and `false` are falsy, and every other number, string and boolean is not |
| `Cells.ToNumber` | reactexcelcsv/src/component/Excelimportexport.js:83 | `Number(x)` with NaN as None: undefined gives NaN, a number gives itself, a boolean gives 1 or 0, and a string is converted by the host |
| `Cells.KeyOf` | reactexcelcsv/src/component/Excelimportexport.js:81 | a string header cell is used verbatim as its property key |
| `Dates.SerialToTime` | reactexcelcsv/src/component/Excelimportexport.js:47 | serial 25569 (1 January 1970) is time 0, and later serials give positive times |
| `Dates.FormatDate` | reactexcelcsv/src/component/Excelimportexport.js:44-55 | the result is always a string. A falsy value gives `""`, a non-zero number is formatted as a serial date, a parseable string is formatted, and an unparseable string is returned unchanged |
| `Records.CellAt` | reactexcelcsv/src/component/Excelimportexport.js:81 | `row[i]` past the end of the row is undefined |
| `Records.Lookup` | reactexcelcsv/src/component/Excelimportexport.js:81-83 | `rowData[col]`: a key the record lacks reads as undefined, and a present key reads its value |
| `Records.Entries` | reactexcelcsv/src/component/Excelimportexport.js:81 | `fileColumns.map((col, i) => [col, row[i]])`: one entry per header column, in header order, pairing the column's key with the row's cell at the same position |
| `Records.FromEntries` | reactexcelcsv/src/component/Excelimportexport.js:81 | `Object.fromEntries`: no entries give the empty record, and the last entry's key holds the last entry's value |
| `Records.FromEntriesKeys` | reactexcelcsv/src/component/Excelimportexport.js:81 | the keys of `Object.fromEntries` are exactly the keys of its entries |
| `Records.FromEntriesLastWins` | reactexcelcsv/src/component/Excelimportexport.js:81 | a key's value comes from the last entry with that key (a duplicate header column overwrites an earlier one) |
| `Records.FromEntriesSnoc` | reactexcelcsv/src/component/Excelimportexport.js:81 | adding one more entry sets exactly that key |
| `Records.RowRecord` | reactexcelcsv/src/component/Excelimportexport.js:81 | a data row's record has exactly the keys of the header's columns |
| `Records.RowRecordKeys` | reactexcelcsv/src/component/Excelimportexport.js:81 | a row's record has exactly the header's keys, whatever the row's length |
| `Records.RowRecordField` | reactexcelcsv/src/component/Excelimportexport.js:81 | a field holds the cell under the last header column with that key, or undefined when the row is too short |
| `Validation.MissingFrom` | reactexcelcsv/src/component/Excelimportexport.js:69 | a name is missing iff it is required and no header cell is that string |
| `Validation.MissingColumns` | reactexcelcsv/src/component/Excelimportexport.js:11-69 | `missingColumns` holds exactly those names of `REQUIRED_COLUMNS` that the header lacks |
| `Validation.MissingInSchemaOrder` | reactexcelcsv/src/component/Excelimportexport.js:69 | the missing columns are a subsequence of the schema, so they are listed in schema order |
| `Validation.MissingDependsOnMembershipOnly` | reactexcelcsv/src/component/Excelimportexport.js:69 | two headers that contain the same required names give the same missing list |
| `Validation.MissingColumnsIgnoreHeaderOrder` | reactexcelcsv/src/component/Excelimportexport.js:68-69 | reordering the header's columns does not change `missingColumns` |
| `Validation.Includes` | reactexcelcsv/src/component/Excelimportexport.js:69 | `fileColumns.includes(col)` holds iff some header cell is the string `col` |
| `Validation.HasAllRequired` | reactexcelcsv/src/component/Excelimportexport.js:82 | when the presence check passes, every required column is a key of the record and its value is not `""` |
| `Validation.AmountValid` | reactexcelcsv/src/component/Excelimportexport.js:83 | a passing Amount check means the record has an Amount. A number Amount passes iff it is greater than 0, and a boolean Amount passes iff it is `true` |
| `Validation.Accepts` | reactexcelcsv/src/component/Excelimportexport.js:85 | a row is accepted only when the header names every required column |
| `Validation.Normalize` | reactexcelcsv/src/component/Excelimportexport.js:86 | `{...rowData, Date: formatDate(rowData.Date)}` keeps every other key and value and sets `Date` to a string |
| `Validation.Reasons` | reactexcelcsv/src/component/Excelimportexport.js:88-90 | "Missing required fields" is listed iff the presence check fails, and the Amount reason iff the Amount check fails. The list is empty iff both checks pass |
| `Validation.ReasonsInFixedOrder` | reactexcelcsv/src/component/Excelimportexport.js:88-90 | the reasons come in a fixed order, each at most once: both failed gives [missing fields, Amount], and one failure gives just its reason |
| `Validation.MessageHead` | reactexcelcsv/src/component/Excelimportexport.js:91 | the text before the row number is `Sheet: `, then the sheet name, then `, Row: ` |
| `Validation.ErrorMessage` | reactexcelcsv/src/component/Excelimportexport.js:91 | a message starts with its sheet's head, followed by the decimal digits of the spreadsheet row number `rowIndex + 2`, which read back as that number |
| `Validation.ErrorMessageIdentifiesRow` | reactexcelcsv/src/component/Excelimportexport.js:91 | two equal messages for the same sheet are about the same row and carry the same reasons, so distinct rows give distinct messages |
| `Validation.RowError` | reactexcelcsv/src/component/Excelimportexport.js:87-91 | a rejected row's message starts with its sheet's head, followed by the digits of the spreadsheet row number `rowIndex + 2` |
| `Validation.RowOutcome` | reactexcelcsv/src/component/Excelimportexport.js:85-91 | a row is accepted iff it passes both checks. An accepted row gives its normalised record, whose Date is a string. A rejected row gives its message, which starts with the sheet's head |
| `Validation.Outcomes` | reactexcelcsv/src/component/Excelimportexport.js:80 | `rows.slice(1).forEach`: one outcome per data row |
| `Validation.AcceptedOf` | reactexcelcsv/src/component/Excelimportexport.js:77-86 | `validRows` never holds more records than there are rows |
| `Validation.ErrorsOf` | reactexcelcsv/src/component/Excelimportexport.js:78-91 | `errors` never holds more messages than there are rows |
| `Validation.Step` | reactexcelcsv/src/component/Excelimportexport.js:80-92 | one more row appends its record to `validRows` if accepted, or its message to `errors` if rejected, and leaves the other list unchanged |
| `Validation.PartitionCount` | reactexcelcsv/src/component/Excelimportexport.js:80-93 | every data row gives exactly one outcome: the accepted count plus the error count is the row count |
| `Validation.UpToPrefix` | reactexcelcsv/src/component/Excelimportexport.js:80-93 | the loop only appends: the two lists after a prefix of the rows are prefixes of the final lists |
| `Validation.AcceptedPlaced` | reactexcelcsv/src/component/Excelimportexport.js:86 | an accepted outcome's record comes in `validRows` right after the records of the rows before it |
| `Validation.RejectedPlaced` | reactexcelcsv/src/component/Excelimportexport.js:91 | a rejected outcome's message comes in `errors` right after the messages of the rows before it |
| `Validation.AcceptedFrom` | reactexcelcsv/src/component/Excelimportexport.js:86 | every record in `validRows` is the record of an accepted outcome, with exactly as many accepted outcomes before it as records before it |
| `Validation.ErrorFrom` | reactexcelcsv/src/component/Excelimportexport.js:91 | every message in `errors` is the message of a rejected outcome, with exactly as many rejected outcomes before it as messages before it |
| `Validation.AcceptedRowPlaced` | reactexcelcsv/src/component/Excelimportexport.js:82-86 | a row that passes both checks is accepted. Its normalised record comes right after the records of the rows before it |
| `Validation.RejectedRowPlaced` | reactexcelcsv/src/component/Excelimportexport.js:87-92 | a row that fails a check is rejected. Its message, naming spreadsheet row k+2, comes right after the messages of the rows before it |
| `Validation.AcceptedKeepRowOrder` | reactexcelcsv/src/component/Excelimportexport.js:80-86 | of two rows where the earlier one is accepted, the earlier one's record comes before any record of the later rows |
| `Validation.AcceptedFromRow` | reactexcelcsv/src/component/Excelimportexport.js:80-86 | every accepted record is the normalised record of a row that passes both checks |
| `Validation.ErrorFromRow` | reactexcelcsv/src/component/Excelimportexport.js:87-92 | every error message is the message of a row that fails a check |
| `Validation.RejectedRowReasons` | reactexcelcsv/src/component/Excelimportexport.js:88-91 | a rejected row's reasons are never empty, and they name exactly the checks that failed |
| `Validation.AcceptedRecordFields` | reactexcelcsv/src/component/Excelimportexport.js:81-86 | an accepted record is the row's record with only `Date` replaced by its formatted value. Its Amount still coerces to a positive number, and its other required fields are present and non-empty |
| `Validation.AcceptedRecordKeys` | reactexcelcsv/src/component/Excelimportexport.js:81-86 | with a Date column in the header, a row's normalised record has exactly the header's keys |
| `Validation.AcceptedKeys` | reactexcelcsv/src/component/Excelimportexport.js:81-86 | when the header has a Date column, every accepted record has exactly the header's keys |
| `Validation.ValidateRows` | reactexcelcsv/src/component/Excelimportexport.js:77-93 | the `forEach` loop returns the records of the accepted rows and the messages of the rejected rows, each in row order, one outcome per row |
| `Validation.ValidateGrid` | reactexcelcsv/src/component/Excelimportexport.js:57-100 | fewer than 2 rows is no data. A non-empty missing list rejects the sheet and names the missing columns. Otherwise the columns are the header row verbatim and the outcomes number the data rows |
| `Validation.SheetAlerts` | reactexcelcsv/src/component/Excelimportexport.js:61-97 | at most one alert per run, and none exactly when the sheet loads without row errors |
| `Session.FilterOutIndexShifted` | reactexcelcsv/src/component/Excelimportexport.js:117 | filtering by position drops exactly the element at the index, if it is in range |
| `Session.RemoveIndexSpec` | reactexcelcsv/src/component/Excelimportexport.js:117 | deleting index i gives the list before i followed by the list after i. An out-of-range index leaves the list unchanged |
| `Session.FilterOutIndex` | reactexcelcsv/src/component/Excelimportexport.js:117 | filtering by position never lengthens the list and keeps only elements of the list |
| `Session.RemoveIndex` | reactexcelcsv/src/component/Excelimportexport.js:117 | deleting an in-range index shortens the list by one, an out-of-range index keeps its length, and only elements of the list remain |
| `Session.LoadedSheet` | reactexcelcsv/src/component/Excelimportexport.js:68-100 | a sheet with a data row and every required column loads with its header as the columns and its accepted records as the rows, and every such record has exactly the header's keys |
| `Session.ImportSession.Valid` | reactexcelcsv/src/component/Excelimportexport.js:99-100 | every displayed record has the keys of the displayed header, so all displayed records have the same keys |
| `Session.ImportSession.constructor` | reactexcelcsv/src/component/Excelimportexport.js:5-9 | the initial state: no file, no sheets, selected sheet `""`, no columns, no rows |
| `Session.ImportSession.SelectFile` | reactexcelcsv/src/component/Excelimportexport.js:13-23 | a file over 2·1024·1024 bytes (its content length) is refused with an alert and `file` is unchanged. Otherwise the first chosen file is selected, and an empty choice changes nothing |
| `Session.ImportSession.UpdateTable` | reactexcelcsv/src/component/Excelimportexport.js:57-101 | columns and rows become the sheet's header and accepted records when it loads, and are cleared otherwise. Alerts follow the outcome. Every displayed record keeps the displayed header's keys |
| `Session.ImportSession.Import` | reactexcelcsv/src/component/Excelimportexport.js:25-42 | with no file: one alert and nothing changes. With a file: when `read` throws, or the workbook has no sheets, nothing changes. Otherwise the sheet list is set, and the first sheet is selected and displayed |
| `Session.ImportSession.ChangeSheet` | reactexcelcsv/src/component/Excelimportexport.js:103-113 | the chosen sheet is selected. If a file is selected and `read` does not throw, that sheet of the file is displayed; otherwise the display is unchanged |
| `Session.ImportSession.Delete` | reactexcelcsv/src/component/Excelimportexport.js:115-119 | when confirmed, exactly the record at the index is removed and the others keep their order. When not confirmed, or for an out-of-range index, nothing changes |
| `Scenarios.SerialOfNewYear2021` | reactexcelcsv/src/component/Excelimportexport.js:47 | serial date 44197 converts to the time value of 1 January 2021 |
| `Scenarios.SchemaRowRecord` | reactexcelcsv/src/component/Excelimportexport.js:81 | under the schema header, a four-cell row maps each schema column to its cell |
| `Scenarios.AcceptedRowExample` | reactexcelcsv/src/component/Excelimportexport.js:81-86 | `["Alice", 100, 44197, "Yes"]` is accepted, with Date formatted from 1 January 2021 and the other fields copied |
| `Scenarios.NegativeAmountExample` | reactexcelcsv/src/component/Excelimportexport.js:83-90 | `["Bob", -5, "2021-01-01", "No"]` is rejected with only the Amount reason |
| `Scenarios.MissingVerifiedExample` | reactexcelcsv/src/component/Excelimportexport.js:68-71 | a header without "Verified" rejects the sheet, naming only "Verified" |

## Left out

- Rendering (lines 121-166) is presentation only. This includes the second `formatDate` applied at display time (line 150), which reformats an already formatted date.
- The asynchronous `FileReader` reads (lines 31-41, 106-111) are not modelled. Each read is applied synchronously, when its event happens. A read that completes after a newer selection (the stale-completion hazard) is not modelled.
- The spreadsheet library is outside the model. `read` is the host's `readWorkbook`, a function of the file's bytes, so the same file always gives the same workbook. `sheet_to_json(sheet, { header: 1 })` is taken as the grid stored in the workbook. A sheet name the workbook lacks is assumed to give no rows, as the library returns an empty list for a missing sheet.
- `sheet_to_json` can return sparse rows, with holes for blank cells. The model reads a hole as an undefined cell. A hole in the header row would make `Object.fromEntries` throw a TypeError, and that throw is not modelled.
- The calendar arithmetic and `Intl.DateTimeFormat` formatting are the host's `formatTime`. `(value - 25569) * 86400 * 1000` is exact real arithmetic here: floating-point rounding is not modelled. The RangeError that formatting throws for an out-of-range date is not modelled either.
- JavaScript's `Number` and `String` coercions of strings, and `Date` parsing, are host functions: their exact rules are not modelled.
- Numeric cells are real numbers: NaN and infinite cell values are not modelled.
- The exception that `read` throws for an unreadable file (lines 33 and 108) is not modelled as an exception. `readWorkbook` gives `None` instead, and the handler does nothing further, as the uncaught throw leaves the state.
- `alert` is modelled as the returned list of alert texts, and `window.confirm` as the boolean argument of `Delete`.
- Cells.ToNumber: for a string, the result is whatever the host's `Number` conversion gives. Only the undefined, number and boolean cases are pinned down.
