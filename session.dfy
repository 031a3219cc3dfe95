/** The component's state and its event handlers: file selection, import,
    sheet change, `updateTable`'s effect on the state, and row deletion. */
module Session {
  import opened Wrappers
  import opened Text
  import opened Cells
  import opened Records
  import opened Validation

  /** The largest accepted file, in bytes (2 MiB). */
  const MaxFileSize: nat := 2 * 1024 * 1024

  const FileTooLargeAlert: string := "File size exceeds 2MB. Please upload a smaller file."
  const NoFileAlert: string := "Please select a file first."

  /** `list.filter((_, i) => i !== index)`, scanning from position `offset`. */
  function FilterOutIndex<T>(s: seq<T>, index: int, offset: int): (r: seq<T>)
    ensures |r| <= |s|
    ensures forall x :: x in r ==> x in s
  {
    if s == [] then []
    else (if offset != index then [s[0]] else []) + FilterOutIndex(s[1..], index, offset + 1)
  }

  /** The list without the element at `index`. */
  function RemoveIndex<T>(s: seq<T>, index: int): (r: seq<T>)
    ensures |r| == if 0 <= index < |s| then |s| - 1 else |s|
    ensures forall x :: x in r ==> x in s
  {
    FilterOutIndexShifted(s, index, 0);
    FilterOutIndex(s, index, 0)
  }

  lemma {:induction false} FilterOutIndexShifted<T>(s: seq<T>, index: int, offset: int)
    ensures FilterOutIndex(s, index, offset) ==
            if offset <= index < offset + |s| then s[..index - offset] + s[index - offset + 1..] else s
  {
    if s != [] {
      FilterOutIndexShifted(s[1..], index, offset + 1);
      if offset == index {
        assert s[1..] == s[index - offset + 1..];
      } else if offset < index < offset + |s| {
        assert s[..index - offset] == [s[0]] + s[1..][..index - offset - 1];
        assert s[index - offset + 1..] == s[1..][index - offset..];
      } else {
        assert s == [s[0]] + s[1..];
      }
    }
  }

  /** Deleting position `index` removes exactly that element and keeps the
      others in order; an index outside the list changes nothing. */
  lemma RemoveIndexSpec<T>(s: seq<T>, index: int)
    ensures RemoveIndex(s, index) == if 0 <= index < |s| then s[..index] + s[index + 1..] else s
    ensures 0 <= index < |s| ==> |RemoveIndex(s, index)| == |s| - 1
  {
    FilterOutIndexShifted(s, index, 0);
  }

  /** A sheet with a data row and every required column loads its accepted
      records, each with exactly the header's keys. */
  lemma LoadedSheet(rows: Grid, sheet: string, host: Host)
    requires |rows| >= 2 && MissingColumns(rows[0]) == []
    ensures var os := Outcomes(sheet, rows[0], rows[1..], host);
            ValidateGrid(rows, sheet, host) == Loaded(rows[0], AcceptedOf(os), ErrorsOf(os)) &&
            forall i :: 0 <= i < |AcceptedOf(os)| ==> AcceptedOf(os)[i].Keys == ColumnKeys(rows[0], host)
  {
    assert Includes(rows[0], "Date");
    AcceptedKeys(sheet, rows[0], rows[1..], host);
  }

  /** The component's state. */
  class ImportSession {
    /** The JavaScript runtime and the spreadsheet library, fixed for the session. */
    const host: Host
    var file: Option<FileInfo>
    var sheets: seq<string>
    var selectedSheet: string
    var columns: seq<Cell>
    var employees: seq<Record>

    /** Every displayed record has exactly the keys of the displayed header. */
    ghost predicate Valid()
      reads this
      ensures Valid() ==> forall i :: 0 <= i < |employees| ==> employees[i].Keys == employees[0].Keys
    {
      forall i :: 0 <= i < |employees| ==> employees[i].Keys == ColumnKeys(columns, host)
    }

    /** The initial state: nothing selected, nothing displayed. */
    constructor (host: Host)
      ensures this.host == host && Valid()
      ensures file == None && sheets == [] && selectedSheet == ""
      ensures columns == [] && employees == []
    {
      this.host := host;
      file := None;
      sheets := [];
      selectedSheet := "";
      columns := [];
      employees := [];
    }

    /** `handleFileSelection`: the first chosen file replaces the selected one
        unless it is larger than 2 MiB; nothing else changes. */
    method SelectFile(files: seq<FileInfo>) returns (alerts: seq<string>)
      modifies this`file
      ensures files == [] ==> file == old(file) && alerts == []
      ensures files != [] && files[0].Size() > MaxFileSize ==>
                file == old(file) && alerts == [FileTooLargeAlert]
      ensures files != [] && files[0].Size() <= MaxFileSize ==>
                file == Some(files[0]) && alerts == []
    {
      alerts := [];
      if |files| > 0 {
        var selectedFile := files[0];
        if selectedFile.Size() > MaxFileSize {
          alerts := [FileTooLargeAlert];
          return;
        }
        file := Some(selectedFile);
      }
    }

    /** `updateTable(workbook, sheetName)`: displays the sheet's header and
        accepted records, or clears the display when the sheet has no data
        rows or lacks a required column. */
    method UpdateTable(workbook: Workbook, sheetName: string) returns (alerts: seq<string>)
      requires Valid()
      modifies this`columns, this`employees
      ensures Valid()
      ensures var result := ValidateGrid(RowsOf(workbook.sheets, sheetName), sheetName, host);
              alerts == SheetAlerts(sheetName, result) &&
              columns == (if result.Loaded? then result.columns else []) &&
              employees == (if result.Loaded? then result.records else [])
    {
      var rows := RowsOf(workbook.sheets, sheetName);
      if |rows| < 2 {
        alerts := [NoDataAlert(sheetName)];
        columns := [];
        employees := [];
        return;
      }
      var fileColumns := rows[0];
      var missingColumns := MissingColumns(fileColumns);
      if |missingColumns| > 0 {
        alerts := [MissingColumnsAlert(sheetName, missingColumns)];
        employees := [];
        columns := [];
        return;
      }
      var validRows, errors := ValidateRows(sheetName, fileColumns, rows[1..], host);
      alerts := [];
      if |errors| > 0 {
        alerts := [RowErrorsAlert(errors)];
      }
      LoadedSheet(rows, sheetName, host);
      columns := fileColumns;
      employees := validRows;
    }

    /** `handleImport`: without a selected file nothing changes but an alert.
        Otherwise the file is read; when `read` throws, or the workbook has no
        sheets, nothing changes. Otherwise the sheet list is set and the first
        sheet is selected and displayed. */
    method Import() returns (alerts: seq<string>)
      requires Valid()
      modifies this
      ensures Valid()
      ensures file == old(file)
      ensures old(file) == None ==>
                alerts == [NoFileAlert] && sheets == old(sheets) && selectedSheet == old(selectedSheet) &&
                columns == old(columns) && employees == old(employees)
      ensures old(file) != None &&
              (host.readWorkbook(old(file).value.content).None? ||
               SheetNames(host.readWorkbook(old(file).value.content).value) == []) ==>
                alerts == [] && sheets == old(sheets) && selectedSheet == old(selectedSheet) &&
                columns == old(columns) && employees == old(employees)
      ensures old(file) != None && host.readWorkbook(old(file).value.content).Some? &&
              SheetNames(host.readWorkbook(old(file).value.content).value) != [] ==>
                var wb := host.readWorkbook(old(file).value.content).value;
                var names := SheetNames(wb);
                var result := ValidateGrid(RowsOf(wb.sheets, names[0]), names[0], host);
                sheets == names && selectedSheet == names[0] &&
                alerts == SheetAlerts(names[0], result) &&
                columns == (if result.Loaded? then result.columns else []) &&
                employees == (if result.Loaded? then result.records else [])
    {
      if file == None {
        alerts := [NoFileAlert];
        return;
      }
      alerts := [];
      var read := host.readWorkbook(file.value.content);
      if read.None? {
        return;
      }
      var wb := read.value;
      var sheetNames := SheetNames(wb);
      if |sheetNames| > 0 {
        sheets := sheetNames;
        selectedSheet := sheetNames[0];
        alerts := UpdateTable(wb, sheetNames[0]);
      }
    }

    /** `handleSheetChange`: the chosen sheet becomes the selected one and, if
        a file is selected and `read` does not throw, that sheet of the file is
        displayed. */
    method ChangeSheet(sheetName: string) returns (alerts: seq<string>)
      requires Valid()
      modifies this`selectedSheet, this`columns, this`employees
      ensures Valid()
      ensures selectedSheet == sheetName
      ensures file == None || host.readWorkbook(file.value.content).None? ==>
                alerts == [] && columns == old(columns) && employees == old(employees)
      ensures file != None && host.readWorkbook(file.value.content).Some? ==>
                var wb := host.readWorkbook(file.value.content).value;
                var result := ValidateGrid(RowsOf(wb.sheets, sheetName), sheetName, host);
                alerts == SheetAlerts(sheetName, result) &&
                columns == (if result.Loaded? then result.columns else []) &&
                employees == (if result.Loaded? then result.records else [])
    {
      selectedSheet := sheetName;
      alerts := [];
      if file != None {
        var read := host.readWorkbook(file.value.content);
        if read.Some? {
          alerts := UpdateTable(read.value, sheetName);
        }
      }
    }

    /** `handleDelete`: when the user confirms, the record at display position
        `index` is removed and the others keep their order; otherwise, or for
        a position outside the list, nothing changes. */
    method Delete(index: int, confirmed: bool)
      requires Valid()
      modifies this`employees
      ensures Valid()
      ensures confirmed ==> employees == RemoveIndex(old(employees), index)
      ensures confirmed && 0 <= index < |old(employees)| ==>
                employees == old(employees)[..index] + old(employees)[index + 1..]
      ensures !confirmed || !(0 <= index < |old(employees)|) ==> employees == old(employees)
    {
      if confirmed {
        RemoveIndexSpec(employees, index);
        employees := RemoveIndex(employees, index);
      }
    }
  }
}
