/** Cell values as the spreadsheet reader hands them to the component, and the
    JavaScript coercions the validation applies to them. */
module Cells {
  import opened Wrappers

  /** One cell of a grid row. `Undefined` is a cell the row does not have
      (the row is shorter than the header, or the cell is blank). */
  datatype Cell = Undefined | Num(n: real) | Str(s: string) | Bool(b: bool)

  /** The parts of the JavaScript runtime and of the spreadsheet library that
      the component calls but that are not modelled: each is a parameter. */
  datatype Host = Host(
    // Number(s) for a string s; None where the result is NaN
    numberOfString: string -> Option<real>,
    // String(n) for a number n, used when a number is an object key
    numberToString: real -> string,
    // new Date(s) for a string s, as a time value in milliseconds; None for an invalid date
    parseDate: string -> Option<real>,
    // new Intl.DateTimeFormat("en-GB").format(new Date(t)) for a time value t
    formatTime: real -> string,
    // read(bytes) of a file's contents: the parsed workbook, or None where read throws
    readWorkbook: seq<bv8> -> Option<Workbook>
  )

  /** A file chosen in the file picker: its name and its contents. */
  datatype FileInfo = FileInfo(name: string, content: seq<bv8>) {
    /** `file.size`: the number of bytes. */
    function Size(): nat {
      |content|
    }
  }

  type Grid = seq<seq<Cell>>

  /** A parsed workbook: its sheets in workbook order, each with its name and
      its rows as `sheet_to_json(sheet, { header: 1 })` returns them. */
  datatype Workbook = Workbook(sheets: seq<(string, Grid)>)

  /** `wb.SheetNames`. */
  function SheetNames(wb: Workbook): (names: seq<string>)
    ensures |names| == |wb.sheets|
    ensures forall i :: 0 <= i < |names| ==> names[i] == wb.sheets[i].0
  {
    seq(|wb.sheets|, i requires 0 <= i < |wb.sheets| => wb.sheets[i].0)
  }

  /** The rows of the sheet called `name`; a name the workbook lacks gives no
      rows, as `sheet_to_json` does for a missing sheet. */
  function RowsOf(sheets: seq<(string, Grid)>, name: string): (rows: Grid)
    ensures sheets != [] && sheets[0].0 == name ==> rows == sheets[0].1
    ensures forall i ::
              (0 <= i < |sheets| && sheets[i].0 == name && forall j :: 0 <= j < i ==> sheets[j].0 != name)
              ==> rows == sheets[i].1
    ensures (forall i :: 0 <= i < |sheets| ==> sheets[i].0 != name) ==> rows == []
  {
    if sheets == [] then []
    else if sheets[0].0 == name then sheets[0].1
    else RowsOf(sheets[1..], name)
  }

  /** JavaScript truthiness of a cell: undefined, 0, "" and false are falsy. */
  predicate IsFalsy(c: Cell)
    ensures c == Undefined ==> IsFalsy(c)
    ensures c.Num? ==> (IsFalsy(c) <==> c.n == 0.0)
    ensures c.Str? ==> (IsFalsy(c) <==> c.s == "")
    ensures c.Bool? ==> (IsFalsy(c) <==> !c.b)
  {
    c == Undefined || c == Num(0.0) || c == Str("") || c == Bool(false)
  }

  /** Number(c), with None for NaN: undefined gives NaN, a number is itself,
      a boolean is 1 or 0, and a string is converted by the host. */
  function ToNumber(c: Cell, host: Host): (r: Option<real>)
    ensures c == Undefined ==> r == None
    ensures c.Num? ==> r == Some(c.n)
    ensures c.Bool? ==> r == Some(if c.b then 1.0 else 0.0)
    ensures c.Str? ==> r == host.numberOfString(c.s)
  {
    match c
    case Undefined => None
    case Num(n) => Some(n)
    case Bool(b) => Some(if b then 1.0 else 0.0)
    case Str(s) => host.numberOfString(s)
  }

  /** The property key a header cell becomes in Object.fromEntries. */
  function KeyOf(c: Cell, host: Host): (k: string)
    ensures c.Str? ==> k == c.s
  {
    match c
    case Undefined => "undefined"
    case Num(n) => host.numberToString(n)
    case Str(s) => s
    case Bool(b) => if b then "true" else "false"
  }
}
