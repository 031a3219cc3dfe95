/** The record a data row becomes:
    `Object.fromEntries(fileColumns.map((col, i) => [col, row[i]]))`. */
module Records {
  import opened Cells

  type Record = map<string, Cell>

  /** `row[i]`: a position past the end of the row reads as undefined. */
  function CellAt(row: seq<Cell>, i: nat): (c: Cell)
    ensures i >= |row| ==> c == Undefined
  {
    if i < |row| then row[i] else Undefined
  }

  /** `rowData[key]`: a key the record lacks reads as undefined. */
  function Lookup(rec: Record, key: string): (c: Cell)
    ensures key !in rec ==> c == Undefined
    ensures key in rec ==> c == rec[key]
  {
    if key in rec then rec[key] else Undefined
  }

  /** The key/value pairs, one per header column, in header order. */
  function Entries(header: seq<Cell>, row: seq<Cell>, host: Host): (es: seq<(string, Cell)>)
    ensures |es| == |header|
    ensures forall i :: 0 <= i < |header| ==> es[i].0 == KeyOf(header[i], host)
    ensures forall i :: 0 <= i < |header| ==> es[i].1 == CellAt(row, i)
  {
    seq(|header|, i requires 0 <= i < |header| => (KeyOf(header[i], host), CellAt(row, i)))
  }

  /** Object.fromEntries: entries are added in order, so a later entry with the
      same key overwrites an earlier one. */
  function FromEntries(es: seq<(string, Cell)>): (m: Record)
    ensures es == [] ==> m == map[]
    ensures es != [] ==> es[|es| - 1].0 in m && m[es[|es| - 1].0] == es[|es| - 1].1
  {
    if es == [] then map[]
    else FromEntries(es[..|es| - 1])[es[|es| - 1].0 := es[|es| - 1].1]
  }

  /** The keys of Object.fromEntries are exactly the entries' keys. */
  lemma {:induction false} FromEntriesKeys(es: seq<(string, Cell)>)
    ensures forall i :: 0 <= i < |es| ==> es[i].0 in FromEntries(es)
    ensures forall k :: k in FromEntries(es) ==> exists i :: 0 <= i < |es| && es[i].0 == k
  {
    if es != [] {
      var init := es[..|es| - 1];
      FromEntriesKeys(init);
      assert forall i :: 0 <= i < |init| ==> init[i] == es[i];
    }
  }

  /** The last entry with a given key decides that key's value. */
  lemma {:induction false} FromEntriesLastWins(es: seq<(string, Cell)>, i: nat)
    requires i < |es|
    requires forall j :: i < j < |es| ==> es[j].0 != es[i].0
    ensures es[i].0 in FromEntries(es) && FromEntries(es)[es[i].0] == es[i].1
  {
    if i < |es| - 1 {
      var init := es[..|es| - 1];
      assert forall j :: i < j < |init| ==> init[j] == es[j];
      FromEntriesLastWins(init, i);
    }
  }

  /** Adding one more entry sets that one key. */
  lemma FromEntriesSnoc(es: seq<(string, Cell)>, e: (string, Cell))
    ensures FromEntries(es + [e]) == FromEntries(es)[e.0 := e.1]
  {
  }

  /** The record of a data row under a header. */
  function RowRecord(header: seq<Cell>, row: seq<Cell>, host: Host): (rec: Record)
    ensures rec.Keys == ColumnKeys(header, host)
  {
    RowRecordKeys(header, row, host);
    FromEntries(Entries(header, row, host))
  }

  /** The keys a header produces. */
  function ColumnKeys(header: seq<Cell>, host: Host): set<string> {
    set i | 0 <= i < |header| :: KeyOf(header[i], host)
  }

  /** A row's record has exactly the header's keys, whatever the row's length. */
  lemma RowRecordKeys(header: seq<Cell>, row: seq<Cell>, host: Host)
    ensures FromEntries(Entries(header, row, host)).Keys == ColumnKeys(header, host)
  {
    var es := Entries(header, row, host);
    var m := FromEntries(es);
    FromEntriesKeys(es);
    forall k | k in m ensures k in ColumnKeys(header, host) {
      var i :| 0 <= i < |es| && es[i].0 == k;
    }
    forall k | k in ColumnKeys(header, host) ensures k in m {
      var i :| 0 <= i < |header| && KeyOf(header[i], host) == k;
      assert es[i].0 == k;
    }
  }

  /** A field reads the row's cell under the LAST header column with that
      key; a row shorter than the header gives undefined there. */
  lemma RowRecordField(header: seq<Cell>, row: seq<Cell>, host: Host, col: nat)
    requires col < |header|
    requires forall j :: col < j < |header| ==> KeyOf(header[j], host) != KeyOf(header[col], host)
    ensures Lookup(RowRecord(header, row, host), KeyOf(header[col], host)) == CellAt(row, col)
  {
    var es := Entries(header, row, host);
    FromEntriesLastWins(es, col);
  }
}
