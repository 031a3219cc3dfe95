/** Worked examples of the validation on small sheets. */
module Scenarios {
  import opened Wrappers
  import opened Cells
  import opened Dates
  import opened Records
  import opened Validation

  function SchemaHeader(): seq<Cell> {
    [Str("Name"), Str("Amount"), Str("Date"), Str("Verified")]
  }

  /** Serial date 44197 is the time value of 1 January 2021, 00:00 UTC. */
  lemma SerialOfNewYear2021()
    ensures SerialToTime(44197.0) == 1609459200000.0
  {
  }

  /** Under the schema header, a four-cell row becomes the record that maps
      each schema column to the cell below it. */
  lemma SchemaRowRecord(row: seq<Cell>, host: Host)
    requires |row| == 4
    ensures RowRecord(SchemaHeader(), row, host) ==
            map["Name" := row[0], "Amount" := row[1], "Date" := row[2], "Verified" := row[3]]
  {
    var es := Entries(SchemaHeader(), row, host);
    var e0, e1, e2, e3 := ("Name", row[0]), ("Amount", row[1]), ("Date", row[2]), ("Verified", row[3]);
    assert es[0] == e0 && es[1] == e1 && es[2] == e2 && es[3] == e3;
    assert es == [e0, e1, e2, e3];
    FromEntriesSnoc([], e0);
    FromEntriesSnoc([e0], e1);
    FromEntriesSnoc([e0, e1], e2);
    FromEntriesSnoc([e0, e1, e2], e3);
    assert [e0] == [] + [e0] && [e0, e1] == [e0] + [e1];
    assert [e0, e1, e2] == [e0, e1] + [e2] && es == [e0, e1, e2] + [e3];
  }

  /** A complete row with a positive Amount is accepted, and its Date
      becomes the formatted serial date while the other fields are copied. */
  lemma AcceptedRowExample(host: Host)
    ensures var row := [Str("Alice"), Num(100.0), Num(44197.0), Str("Yes")];
            Accepts(SchemaHeader(), row, host) &&
            AcceptedRecord(SchemaHeader(), row, host) ==
              map["Name" := Str("Alice"), "Amount" := Num(100.0),
                  "Date" := Str(host.formatTime(1609459200000.0)), "Verified" := Str("Yes")]
  {
    var row := [Str("Alice"), Num(100.0), Num(44197.0), Str("Yes")];
    SchemaRowRecord(row, host);
    SerialOfNewYear2021();
  }

  /** A negative Amount rejects the row with the Amount reason only. */
  lemma NegativeAmountExample(host: Host)
    ensures var row := [Str("Bob"), Num(-5.0), Str("2021-01-01"), Str("No")];
            var rec := RowRecord(SchemaHeader(), row, host);
            !Accepts(SchemaHeader(), row, host) &&
            Reasons(HasAllRequired(rec), AmountValid(rec, host)) == [AmountReason]
  {
    var row := [Str("Bob"), Num(-5.0), Str("2021-01-01"), Str("No")];
    SchemaRowRecord(row, host);
  }

  /** A header without "Verified" rejects the whole sheet, naming that column. */
  lemma MissingVerifiedExample(host: Host, sheet: string, rows: seq<seq<Cell>>)
    requires |rows| >= 1
    ensures var grid := [[Str("Name"), Str("Amount"), Str("Date")]] + rows;
            ValidateGrid(grid, sheet, host) == MissingRequired(["Verified"])
  {
    var header := [Str("Name"), Str("Amount"), Str("Date")];
    assert Includes(header, "Name") && Includes(header, "Amount") && Includes(header, "Date");
    assert !Includes(header, "Verified");
    assert MissingColumns(header) == ["Verified"];
  }
}
