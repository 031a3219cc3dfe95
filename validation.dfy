/** `updateTable`'s validation of one sheet: the header check against the fixed
    schema, the per-row checks, and the split of the data rows into accepted
    records and error messages. */
module Validation {
  import opened Wrappers
  import opened Text
  import opened Cells
  import opened Dates
  import opened Records

  /** REQUIRED_COLUMNS: the fixed schema, in its own order. */
  const RequiredColumns: seq<string> := ["Name", "Amount", "Date", "Verified"]

  const MissingFieldsReason: string := "Missing required fields"
  const AmountReason: string := "Amount must be a number greater than zero"

  /** `fileColumns.includes(col)`: some header cell is the string `col`. */
  predicate Includes(header: seq<Cell>, col: string)
    ensures Includes(header, col) <==> exists i :: 0 <= i < |header| && header[i] == Str(col)
  {
    Str(col) in header
  }

  /** `required.filter(col => !header.includes(col))`. */
  function MissingFrom(required: seq<string>, header: seq<Cell>): (missing: seq<string>)
    ensures forall c :: c in missing <==> c in required && !Includes(header, c)
    ensures |missing| <= |required|
  {
    if required == [] then []
    else (if Includes(header, required[0]) then [] else [required[0]]) + MissingFrom(required[1..], header)
  }

  /** `missingColumns`: the required columns the header lacks. */
  function MissingColumns(header: seq<Cell>): (missing: seq<string>)
    ensures forall c :: c in missing <==> c in RequiredColumns && !Includes(header, c)
  {
    MissingFrom(RequiredColumns, header)
  }

  /** `m` is `s` with some elements left out, the rest kept in order. */
  predicate IsSubsequence(m: seq<string>, s: seq<string>)
    decreases |s|
  {
    m == [] ||
    (s != [] &&
     ((m[0] == s[0] && IsSubsequence(m[1..], s[1..])) || IsSubsequence(m, s[1..])))
  }

  /** The missing columns are the schema's columns with the present ones left
      out, in the schema's order. */
  lemma {:induction false} MissingInSchemaOrder(required: seq<string>, header: seq<Cell>)
    ensures IsSubsequence(MissingFrom(required, header), required)
  {
    if required != [] {
      var rest := required[1..];
      var m := MissingFrom(required, header);
      MissingInSchemaOrder(rest, header);
      if Includes(header, required[0]) {
        assert m == MissingFrom(rest, header);
      } else {
        assert m == [required[0]] + MissingFrom(rest, header);
        assert m[1..] == MissingFrom(rest, header);
      }
    }
  }

  /** The result depends only on which names the header contains. */
  lemma {:induction false} MissingDependsOnMembershipOnly(required: seq<string>, h1: seq<Cell>, h2: seq<Cell>)
    requires forall c :: c in required ==> (Includes(h1, c) <==> Includes(h2, c))
    ensures MissingFrom(required, h1) == MissingFrom(required, h2)
  {
    if required != [] {
      MissingDependsOnMembershipOnly(required[1..], h1, h2);
    }
  }

  /** Reordering the header's columns does not change `missingColumns`. */
  lemma MissingColumnsIgnoreHeaderOrder(h1: seq<Cell>, h2: seq<Cell>)
    requires multiset(h1) == multiset(h2)
    ensures MissingColumns(h1) == MissingColumns(h2)
  {
    forall c | c in RequiredColumns ensures Includes(h1, c) <==> Includes(h2, c) {
      assert Str(c) in h1 <==> Str(c) in multiset(h1);
      assert Str(c) in h2 <==> Str(c) in multiset(h2);
    }
    MissingDependsOnMembershipOnly(RequiredColumns, h1, h2);
  }

  /** `hasAllRequired`: every required field is neither undefined nor "". */
  predicate HasAllRequired(rec: Record)
    ensures HasAllRequired(rec) ==> forall c :: c in RequiredColumns ==> c in rec && rec[c] != Str("")
  {
    forall c :: c in RequiredColumns ==> Lookup(rec, c) != Undefined && Lookup(rec, c) != Str("")
  }

  /** `isAmountValid`: Amount is not NaN as a number, and that number is > 0. */
  predicate AmountValid(rec: Record, host: Host)
    ensures AmountValid(rec, host) ==> "Amount" in rec
    ensures Lookup(rec, "Amount").Num? ==> (AmountValid(rec, host) <==> Lookup(rec, "Amount").n > 0.0)
    ensures Lookup(rec, "Amount").Bool? ==> (AmountValid(rec, host) <==> Lookup(rec, "Amount").b)
  {
    var x := ToNumber(Lookup(rec, "Amount"), host);
    x.Some? && x.value > 0.0
  }

  /** Whether a data row is accepted. */
  predicate Accepts(header: seq<Cell>, row: seq<Cell>, host: Host)
    ensures Accepts(header, row, host) ==> forall c :: c in RequiredColumns ==> c in ColumnKeys(header, host)
  {
    var rec := RowRecord(header, row, host);
    HasAllRequired(rec) && AmountValid(rec, host)
  }

  /** `{ ...rowData, Date: formatDate(rowData.Date) }`. */
  function Normalize(rec: Record, host: Host): (r: Record)
    ensures r.Keys == rec.Keys + {"Date"}
    ensures forall k :: k in rec && k != "Date" ==> r[k] == rec[k]
    ensures r["Date"] == FormatDate(Lookup(rec, "Date"), host) && r["Date"].Str?
  {
    rec["Date" := FormatDate(Lookup(rec, "Date"), host)]
  }

  /** The record an accepted data row contributes. */
  function AcceptedRecord(header: seq<Cell>, row: seq<Cell>, host: Host): Record {
    Normalize(RowRecord(header, row, host), host)
  }

  /** `errorDescription`: the failed checks, missing fields first. */
  function Reasons(hasAllRequired: bool, isAmountValid: bool): (r: seq<string>)
    ensures MissingFieldsReason in r <==> !hasAllRequired
    ensures AmountReason in r <==> !isAmountValid
    ensures r == [] <==> hasAllRequired && isAmountValid
  {
    (if hasAllRequired then [] else [MissingFieldsReason]) +
    (if isAmountValid then [] else [AmountReason])
  }

  /** The reasons come in a fixed order, each at most once: the missing-fields
      reason first, then the Amount reason. */
  lemma ReasonsInFixedOrder(hasAllRequired: bool, isAmountValid: bool)
    ensures var r := Reasons(hasAllRequired, isAmountValid);
            |r| <= 2 &&
            (!hasAllRequired && !isAmountValid ==> r == [MissingFieldsReason, AmountReason]) &&
            (!hasAllRequired && isAmountValid ==> r == [MissingFieldsReason]) &&
            (hasAllRequired && !isAmountValid ==> r == [AmountReason])
  {
  }

  /** The text before the row number. */
  function MessageHead(sheet: string): (head: string)
    ensures |head| == |sheet| + 14
    ensures head[..7] == "Sheet: " && head[7..7 + |sheet|] == sheet
  {
    "Sheet: " + sheet + ", Row: "
  }

  /** The message for the data row at 0-based index `rowIndex`, which is
      spreadsheet row `rowIndex + 2` (the header is row 1). */
  function ErrorMessage(sheet: string, rowIndex: nat, reasons: seq<string>): (msg: string)
    ensures MessageHead(sheet) <= msg
    ensures var start, digits := |MessageHead(sheet)|, NatToString(rowIndex + 2);
            start + |digits| <= |msg| && msg[start..start + |digits|] == digits &&
            ParseDigits(digits) == rowIndex + 2
  {
    ParseNatToString(rowIndex + 2);
    MessageHead(sheet) + (NatToString(rowIndex + 2) + (", Errors: " + Join(reasons, ", ")))
  }

  /** A message names its row: two messages for the same sheet that are equal
      are about the same row and list the same reasons. */
  lemma ErrorMessageIdentifiesRow(sheet: string, k1: nat, k2: nat, r1: seq<string>, r2: seq<string>)
    requires ErrorMessage(sheet, k1, r1) == ErrorMessage(sheet, k2, r2)
    ensures k1 == k2 && Join(r1, ", ") == Join(r2, ", ")
  {
    var head := MessageHead(sheet);
    var d1, d2 := NatToString(k1 + 2), NatToString(k2 + 2);
    var t1, t2 := ", Errors: " + Join(r1, ", "), ", Errors: " + Join(r2, ", ");
    assert d1 + t1 == (head + (d1 + t1))[|head|..];
    assert d2 + t2 == (head + (d2 + t2))[|head|..];
    DigitsPrefixUnique(d1, d2, t1, t2);
    NatToStringInjective(k1 + 2, k2 + 2);
    assert Join(r1, ", ") == t1[|", Errors: "|..];
    assert Join(r2, ", ") == t2[|", Errors: "|..];
  }

  /** The error message of a rejected data row. */
  function RowError(sheet: string, rowIndex: nat, header: seq<Cell>, row: seq<Cell>, host: Host): (msg: string)
    ensures MessageHead(sheet) <= msg
    ensures var start, digits := |MessageHead(sheet)|, NatToString(rowIndex + 2);
            start + |digits| <= |msg| && msg[start..start + |digits|] == digits &&
            ParseDigits(digits) == rowIndex + 2
  {
    var rec := RowRecord(header, row, host);
    ErrorMessage(sheet, rowIndex, Reasons(HasAllRequired(rec), AmountValid(rec, host)))
  }

  /** What checking one data row gives: its normalised record, or its message. */
  datatype Outcome = Accepted(record: Record) | Rejected(message: string)

  /** The outcome of the data row at 0-based index `rowIndex`. */
  function RowOutcome(sheet: string, header: seq<Cell>, row: seq<Cell>, rowIndex: nat, host: Host): (o: Outcome)
    ensures o.Accepted? <==> Accepts(header, row, host)
    ensures o.Accepted? ==> o.record == AcceptedRecord(header, row, host) && "Date" in o.record && o.record["Date"].Str?
    ensures o.Rejected? ==> o.message == RowError(sheet, rowIndex, header, row, host) && MessageHead(sheet) <= o.message
  {
    if Accepts(header, row, host) then Accepted(AcceptedRecord(header, row, host))
    else Rejected(RowError(sheet, rowIndex, header, row, host))
  }

  /** The outcome of every data row, in row order. */
  function Outcomes(sheet: string, header: seq<Cell>, data: seq<seq<Cell>>, host: Host): (os: seq<Outcome>)
    ensures |os| == |data|
  {
    seq(|data|, k requires 0 <= k < |data| => RowOutcome(sheet, header, data[k], k, host))
  }

  /** `validRows` after the outcomes `os`: the records of the accepted rows, in order. */
  function AcceptedOf(os: seq<Outcome>): (accepted: seq<Record>)
    ensures |accepted| <= |os|
  {
    if os == [] then []
    else
      var last := os[|os| - 1];
      AcceptedOf(os[..|os| - 1]) + (if last.Accepted? then [last.record] else [])
  }

  /** `errors` after the outcomes `os`: the messages of the rejected rows, in order. */
  function ErrorsOf(os: seq<Outcome>): (errors: seq<string>)
    ensures |errors| <= |os|
  {
    if os == [] then []
    else
      var last := os[|os| - 1];
      ErrorsOf(os[..|os| - 1]) + (if last.Rejected? then [last.message] else [])
  }

  /** One more row appends its outcome to one of the two lists. */
  lemma Step(os: seq<Outcome>, k: nat)
    requires k < |os|
    ensures AcceptedOf(os[..k + 1]) == AcceptedOf(os[..k]) + (if os[k].Accepted? then [os[k].record] else [])
    ensures ErrorsOf(os[..k + 1]) == ErrorsOf(os[..k]) + (if os[k].Rejected? then [os[k].message] else [])
  {
    assert os[..k + 1][..k] == os[..k];
  }

  /** Every data row gives exactly one outcome. */
  lemma {:induction false} PartitionCount(os: seq<Outcome>)
    ensures |AcceptedOf(os)| + |ErrorsOf(os)| == |os|
  {
    if os != [] {
      PartitionCount(os[..|os| - 1]);
    }
  }

  /** Later rows only append: the lists after a prefix of the rows are
      prefixes of the final lists. */
  lemma {:induction false} UpToPrefix(os: seq<Outcome>, m: nat)
    requires m <= |os|
    ensures AcceptedOf(os[..m]) <= AcceptedOf(os)
    ensures ErrorsOf(os[..m]) <= ErrorsOf(os)
  {
    if m < |os| {
      var init := os[..|os| - 1];
      UpToPrefix(init, m);
      assert init[..m] == os[..m];
    } else {
      assert os[..m] == os;
    }
  }

  /** An accepted row's record sits in `validRows` right after the records of
      the rows before it. */
  lemma AcceptedPlaced(os: seq<Outcome>, k: nat)
    requires k < |os| && os[k].Accepted?
    ensures var j := |AcceptedOf(os[..k])|;
            j < |AcceptedOf(os)| && AcceptedOf(os)[j] == os[k].record
  {
    var through := os[..k + 1];
    assert through[..k] == os[..k];
    assert AcceptedOf(through) == AcceptedOf(os[..k]) + [os[k].record];
    UpToPrefix(os, k + 1);
  }

  /** A rejected row's message sits in `errors` right after the messages of
      the rows before it. */
  lemma RejectedPlaced(os: seq<Outcome>, k: nat)
    requires k < |os| && os[k].Rejected?
    ensures var j := |ErrorsOf(os[..k])|;
            j < |ErrorsOf(os)| && ErrorsOf(os)[j] == os[k].message
  {
    var through := os[..k + 1];
    assert through[..k] == os[..k];
    assert ErrorsOf(through) == ErrorsOf(os[..k]) + [os[k].message];
    UpToPrefix(os, k + 1);
  }

  /** Accepted records keep the rows' order: the record of an accepted row
      comes before the record of any accepted row after it. */
  lemma AcceptedKeepRowOrder(os: seq<Outcome>, k1: nat, k2: nat)
    requires k1 < k2 <= |os| && os[k1].Accepted?
    ensures |AcceptedOf(os[..k1])| < |AcceptedOf(os[..k2])|
  {
    var prefix := os[..k2];
    assert prefix[..k1] == os[..k1];
    AcceptedPlaced(prefix, k1);
  }

  /** Every record in `validRows` comes from an accepted row. */
  lemma {:induction false} AcceptedFrom(os: seq<Outcome>, j: nat)
    requires j < |AcceptedOf(os)|
    ensures exists k :: 0 <= k < |os| && os[k].Accepted? &&
                        |AcceptedOf(os[..k])| == j && AcceptedOf(os)[j] == os[k].record
  {
    var init := os[..|os| - 1];
    if j < |AcceptedOf(init)| {
      AcceptedFrom(init, j);
      var k :| 0 <= k < |init| && init[k].Accepted? &&
               |AcceptedOf(init[..k])| == j && AcceptedOf(init)[j] == init[k].record;
      assert init[..k] == os[..k];
    } else {
      assert os[..|os| - 1] == init;
    }
  }

  /** Every message in `errors` comes from a rejected row. */
  lemma {:induction false} ErrorFrom(os: seq<Outcome>, j: nat)
    requires j < |ErrorsOf(os)|
    ensures exists k :: 0 <= k < |os| && os[k].Rejected? &&
                        |ErrorsOf(os[..k])| == j && ErrorsOf(os)[j] == os[k].message
  {
    var init := os[..|os| - 1];
    if j < |ErrorsOf(init)| {
      ErrorFrom(init, j);
      var k :| 0 <= k < |init| && init[k].Rejected? &&
               |ErrorsOf(init[..k])| == j && ErrorsOf(init)[j] == init[k].message;
      assert init[..k] == os[..k];
    } else {
      assert os[..|os| - 1] == init;
    }
  }

  /** A row that passes both checks is accepted: its normalised record sits in
      the accepted list right after the records of the rows before it. */
  lemma AcceptedRowPlaced(sheet: string, header: seq<Cell>, data: seq<seq<Cell>>, host: Host, k: nat)
    requires k < |data| && Accepts(header, data[k], host)
    ensures var os := Outcomes(sheet, header, data, host);
            var j := |AcceptedOf(os[..k])|;
            j < |AcceptedOf(os)| && AcceptedOf(os)[j] == AcceptedRecord(header, data[k], host)
  {
    AcceptedPlaced(Outcomes(sheet, header, data, host), k);
  }

  /** A row that fails a check is rejected: its message, naming spreadsheet row
      k + 2, sits in the error list right after the messages of the rows before it. */
  lemma RejectedRowPlaced(sheet: string, header: seq<Cell>, data: seq<seq<Cell>>, host: Host, k: nat)
    requires k < |data| && !Accepts(header, data[k], host)
    ensures var os := Outcomes(sheet, header, data, host);
            var j := |ErrorsOf(os[..k])|;
            j < |ErrorsOf(os)| && ErrorsOf(os)[j] == RowError(sheet, k, header, data[k], host)
  {
    RejectedPlaced(Outcomes(sheet, header, data, host), k);
  }

  /** Every accepted record is the normalised record of a row that passes both checks. */
  lemma AcceptedFromRow(sheet: string, header: seq<Cell>, data: seq<seq<Cell>>, host: Host, j: nat)
    requires j < |AcceptedOf(Outcomes(sheet, header, data, host))|
    ensures exists k :: 0 <= k < |data| && Accepts(header, data[k], host) &&
                        AcceptedOf(Outcomes(sheet, header, data, host))[j] == AcceptedRecord(header, data[k], host)
  {
    var os := Outcomes(sheet, header, data, host);
    AcceptedFrom(os, j);
    var k :| 0 <= k < |os| && os[k].Accepted? && AcceptedOf(os)[j] == os[k].record;
    assert os[k] == RowOutcome(sheet, header, data[k], k, host);
  }

  /** Every error message is the message of a row that fails a check. */
  lemma ErrorFromRow(sheet: string, header: seq<Cell>, data: seq<seq<Cell>>, host: Host, j: nat)
    requires j < |ErrorsOf(Outcomes(sheet, header, data, host))|
    ensures exists k :: 0 <= k < |data| && !Accepts(header, data[k], host) &&
                        ErrorsOf(Outcomes(sheet, header, data, host))[j] == RowError(sheet, k, header, data[k], host)
  {
    var os := Outcomes(sheet, header, data, host);
    ErrorFrom(os, j);
    var k :| 0 <= k < |os| && os[k].Rejected? && ErrorsOf(os)[j] == os[k].message;
    assert os[k] == RowOutcome(sheet, header, data[k], k, host);
  }

  /** A rejected row's message lists exactly the failed checks, missing
      fields first, and so never has an empty reason text. */
  lemma RejectedRowReasons(header: seq<Cell>, row: seq<Cell>, host: Host)
    requires !Accepts(header, row, host)
    ensures var rec := RowRecord(header, row, host);
            var reasons := Reasons(HasAllRequired(rec), AmountValid(rec, host));
            reasons == (if !HasAllRequired(rec) && !AmountValid(rec, host) then [MissingFieldsReason, AmountReason]
                        else if !HasAllRequired(rec) then [MissingFieldsReason]
                        else [AmountReason]) &&
            Join(reasons, ", ") != ""
  {
    ReasonsInFixedOrder(HasAllRequired(RowRecord(header, row, host)), AmountValid(RowRecord(header, row, host), host));
  }

  /** What an accepted record holds: the row's record with only Date
      replaced by its formatted value, so the Amount still coerces to a
      positive number and every other required field is still present and
      non-empty. */
  lemma AcceptedRecordFields(header: seq<Cell>, row: seq<Cell>, host: Host)
    requires Accepts(header, row, host)
    ensures var rec, r := RowRecord(header, row, host), AcceptedRecord(header, row, host);
            r.Keys == rec.Keys &&
            (forall k :: k in rec && k != "Date" ==> r[k] == rec[k]) &&
            r["Date"] == FormatDate(rec["Date"], host) &&
            AmountValid(r, host) &&
            (forall c :: c in RequiredColumns && c != "Date" ==> Lookup(r, c) != Undefined && Lookup(r, c) != Str(""))
  {
  }

  /** With the Date column in the header, a row's normalised record has
      exactly the header's keys. */
  lemma AcceptedRecordKeys(header: seq<Cell>, row: seq<Cell>, host: Host)
    requires Includes(header, "Date")
    ensures AcceptedRecord(header, row, host).Keys == ColumnKeys(header, host)
  {
    var i :| 0 <= i < |header| && header[i] == Str("Date");
    assert KeyOf(header[i], host) == "Date";
  }

  /** With the Date column in the header, every accepted record has exactly
      the header's keys. */
  lemma AcceptedKeys(sheet: string, header: seq<Cell>, data: seq<seq<Cell>>, host: Host)
    requires Includes(header, "Date")
    ensures var accepted := AcceptedOf(Outcomes(sheet, header, data, host));
            forall j :: 0 <= j < |accepted| ==> accepted[j].Keys == ColumnKeys(header, host)
  {
    var accepted := AcceptedOf(Outcomes(sheet, header, data, host));
    forall j | 0 <= j < |accepted| ensures accepted[j].Keys == ColumnKeys(header, host) {
      AcceptedFromRow(sheet, header, data, host, j);
      var k :| 0 <= k < |data| && Accepts(header, data[k], host) && accepted[j] == AcceptedRecord(header, data[k], host);
      AcceptedRecordKeys(header, data[k], host);
    }
  }

  /** The loop of `updateTable`: each data row is checked in order and either
      its normalised record is pushed onto `validRows` or its message onto
      `errors`. */
  method ValidateRows(sheet: string, header: seq<Cell>, data: seq<seq<Cell>>, host: Host)
    returns (validRows: seq<Record>, errors: seq<string>)
    ensures validRows == AcceptedOf(Outcomes(sheet, header, data, host))
    ensures errors == ErrorsOf(Outcomes(sheet, header, data, host))
    ensures |validRows| + |errors| == |data|
  {
    ghost var os := Outcomes(sheet, header, data, host);
    validRows, errors := [], [];
    var rowIndex := 0;
    while rowIndex < |data|
      invariant 0 <= rowIndex <= |data|
      invariant validRows == AcceptedOf(os[..rowIndex])
      invariant errors == ErrorsOf(os[..rowIndex])
    {
      Step(os, rowIndex);
      assert os[rowIndex] == RowOutcome(sheet, header, data[rowIndex], rowIndex, host);
      var rowData := RowRecord(header, data[rowIndex], host);
      var hasAllRequired := HasAllRequired(rowData);
      var isAmountValid := AmountValid(rowData, host);
      if hasAllRequired && isAmountValid {
        validRows := validRows + [Normalize(rowData, host)];
      } else {
        var errorDescription := Reasons(hasAllRequired, isAmountValid);
        errors := errors + [ErrorMessage(sheet, rowIndex, errorDescription)];
      }
      rowIndex := rowIndex + 1;
    }
    assert os[..|data|] == os;
    PartitionCount(os);
  }
  /** The result of validating one sheet's rows. */
  datatype SheetResult =
    | NoData
    | MissingRequired(missing: seq<string>)
    | Loaded(columns: seq<Cell>, records: seq<Record>, errors: seq<string>)

  /** `updateTable` on a grid: fewer than two rows is "no data", a header
      without every required column rejects the sheet, and otherwise the
      header is kept verbatim as the columns and the data rows are split. */
  function ValidateGrid(grid: Grid, sheet: string, host: Host): (r: SheetResult)
    ensures r.NoData? <==> |grid| < 2
    ensures r.MissingRequired? <==> |grid| >= 2 && MissingColumns(grid[0]) != []
    ensures r.MissingRequired? ==> r.missing == MissingColumns(grid[0])
    ensures r.Loaded? ==> r.columns == grid[0] && |r.records| + |r.errors| == |grid| - 1
    ensures r.Loaded? ==> forall c :: c in RequiredColumns ==> Includes(grid[0], c)
  {
    if |grid| < 2 then NoData
    else
      var header := grid[0];
      var missing := MissingColumns(header);
      if missing != [] then MissingRequired(missing)
      else
        var data := grid[1..];
        var os := Outcomes(sheet, header, data, host);
        PartitionCount(os);
        Loaded(header, AcceptedOf(os), ErrorsOf(os))
  }

  /** The alert for a sheet with fewer than two rows. */
  function NoDataAlert(sheet: string): string {
    "No data found in sheet: " + sheet
  }

  /** The alert naming the required columns a sheet lacks. */
  function MissingColumnsAlert(sheet: string, missing: seq<string>): string {
    "Missing required columns in sheet " + sheet + ": " + Join(missing, ", ")
  }

  /** The one alert that batches every row error of a run. */
  function RowErrorsAlert(errors: seq<string>): string {
    "The following errors were found:\n" + Join(errors, "\n")
  }

  /** The alerts `updateTable` raises for an outcome: one for no data, one
      listing the missing columns, one batching all row errors, or none. */
  function SheetAlerts(sheet: string, result: SheetResult): (alerts: seq<string>)
    ensures |alerts| <= 1
    ensures alerts == [] <==> result.Loaded? && result.errors == []
  {
    match result
    case NoData => [NoDataAlert(sheet)]
    case MissingRequired(missing) => [MissingColumnsAlert(sheet, missing)]
    case Loaded(_, _, errors) => if errors == [] then [] else [RowErrorsAlert(errors)]
  }
}
