/**
 * The spreadsheet export of `save_xlsx` and `_get_header`
 * (dwellingplace/models/_utils.py): a header row holding every field name
 * that occurs in the data, then one row per record with the record's value
 * under each name, or the empty text where the record lacks that field.
 */
module Export {
  import opened Wrappers
  import opened Values
  import opened Records
  import opened Parser

  /** Every field name that occurs in some record. */
  ghost function FieldNames(data: seq<Record>): (names: set<string>)
    ensures forall k :: k in names <==> exists i | 0 <= i < |data| :: k in data[i].vals
  {
    if data == [] then {}
    else
      var n := |data| - 1;
      var names := FieldNames(data[..n]) + data[n].vals.Keys;
      assert forall i | 0 <= i < n :: data[..n][i] == data[i];
      names
  }

  /**
   * `_get_header(data)`: the names collected into a set, record by record,
   * then listed; a Python set fixes no order, so any order will do.
   */
  method GetHeader(data: seq<Record>) returns (header: seq<string>)
    ensures forall k :: k in header <==> k in FieldNames(data)
    ensures forall i, j | 0 <= i < j < |header| :: header[i] != header[j]
  {
    var names: set<string> := {};
    var i := 0;
    while i < |data|
      invariant i <= |data|
      invariant names == FieldNames(data[..i])
    {
      FieldNamesSnoc(data, i);
      names := names + data[i].vals.Keys;
      i := i + 1;
    }
    assert data[..i] == data;
    header := ListSet(names);
  }

  lemma FieldNamesSnoc(data: seq<Record>, i: nat)
    requires i < |data|
    ensures FieldNames(data[..i + 1]) == FieldNames(data[..i]) + data[i].vals.Keys
  {
    assert data[..i + 1][..i] == data[..i];
  }

  /** The header row as written: one text cell per name. */
  function HeaderRow(header: seq<string>): (row: seq<Value>)
    ensures |row| == |header|
    ensures forall j | 0 <= j < |header| :: row[j] == Text(header[j])
  {
    seq(|header|, j requires 0 <= j < |header| => Text(header[j]))
  }

  /** `[datum.get(key, '') for key in header]` */
  function ExportRow(datum: Record, header: seq<string>): (row: seq<Value>)
    ensures |row| == |header|
    ensures forall j | 0 <= j < |header| :: row[j] == Get(datum, header[j], Text(""))
  {
    seq(|header|, j requires 0 <= j < |header| => Get(datum, header[j], Text("")))
  }

  /** No field is lost: each of a record's fields is in some column, holding the record's value. */
  lemma ExportRowKeepsFields(datum: Record, header: seq<string>, k: string)
    requires k in datum.vals && k in header
    ensures exists j | 0 <= j < |header| :: header[j] == k && ExportRow(datum, header)[j] == datum.vals[k]
  {
    var j :| 0 <= j < |header| && header[j] == k;
    assert ExportRow(datum, header)[j] == datum.vals[k];
  }

  /**
   * The rows `save_xlsx` appends to the worksheet: the header row, then one
   * row per record in the order given.
   */
  method ExportRows(data: seq<Record>) returns (header: seq<string>, table: seq<seq<Value>>)
    ensures forall k :: k in header <==> k in FieldNames(data)
    ensures forall i, j | 0 <= i < j < |header| :: header[i] != header[j]
    ensures |table| == |data| + 1
    ensures table[0] == HeaderRow(header)
    ensures forall i | 0 <= i < |data| :: table[i + 1] == ExportRow(data[i], header)
  {
    header := GetHeader(data);
    table := [HeaderRow(header)];
    var i := 0;
    while i < |data|
      invariant i <= |data|
      invariant |table| == i + 1
      invariant table[0] == HeaderRow(header)
      invariant forall i' | 0 <= i' < i :: table[i' + 1] == ExportRow(data[i'], header)
    {
      table := table + [ExportRow(data[i], header)];
      i := i + 1;
    }
  }

  /**
   * Reading an exported header row back: non-blank names without dots name
   * the same columns.
   */
  lemma HeaderReadBack(header: seq<string>)
    requires forall j | 0 <= j < |header| :: '.' !in header[j]
    ensures ColumnNames(HeaderRow(header)) == Success(header)
  {
    var row := HeaderRow(header);
    var r := ColumnNames(row);
    forall j | 0 <= j < |header|
      ensures r.value[j] == header[j]
    {
      StripDotsKeeps(header[j]);
    }
    assert r.value == header;
  }

  /**
   * The cells of an exported row, parsed under its header as the row loop
   * of the parser builds a record: the record's fields, with the empty text
   * under the names it lacked. This is about the cell values `save_xlsx`
   * builds, not about a written and re-read file.
   */
  lemma RowReadBack(datum: Record, header: seq<string>)
    requires forall j | 0 <= j < |header| :: header[j] != ""
    requires forall j, j' | 0 <= j < j' < |header| :: header[j] != header[j']
    ensures forall k :: k in RowRecord(header, ExportRow(datum, header)).vals <==> k in header
    ensures forall j | 0 <= j < |header| ::
              RowRecord(header, ExportRow(datum, header)).vals[header[j]] == Get(datum, header[j], Text(""))
  {
    RowReadBackKeys(datum, header);
    forall j | 0 <= j < |header|
      ensures RowRecord(header, ExportRow(datum, header)).vals[header[j]] == Get(datum, header[j], Text(""))
    {
      RowReadBackAt(datum, header, j);
    }
  }

  lemma RowReadBackKeys(datum: Record, header: seq<string>)
    requires forall j | 0 <= j < |header| :: header[j] != ""
    ensures forall k :: k in RowRecord(header, ExportRow(datum, header)).vals <==> k in header
  {
  }

  lemma RowReadBackAt(datum: Record, header: seq<string>, j: nat)
    requires j < |header| && header[j] != ""
    requires forall j, j' | 0 <= j < j' < |header| :: header[j] != header[j']
    ensures RowRecord(header, ExportRow(datum, header)).vals[header[j]] == Get(datum, header[j], Text(""))
  {
    var cells := ExportRow(datum, header);
    RowRecordLastColumn(header, cells, j);
  }
}
