/**
 * `parse_xlsx_into_dicts` (dwellingplace/models/_utils.py): every sheet of an
 * uploaded workbook is read row by row into field records named by the
 * sheet's first row, and each row's `Date` cell is converted to a datetime.
 * The generator's output is a sequence of records, followed by the error
 * that stopped it, if any.
 */
module Parser {
  import opened Wrappers
  import opened Values
  import opened Records

  /** A sheet as xlrd reads it: its rows, each as long as it was stored. */
  datatype Sheet = Sheet(name: string, rows: seq<seq<Value>>)

  /** An opened workbook: its sheets in order, and its date mode (1900 or 1904 epoch). */
  datatype Workbook = Workbook(sheets: seq<Sheet>, datemode: nat)

  /** Why the generator stops: the exception raised, and where. */
  datatype ParseError =
    | EmptySheet(sheet: nat)                 // `row_values(0)` on a sheet without rows
    | NonTextHeader(sheet: nat, col: nat)    // `.replace` on a header cell that is not text
    | MissingDate(sheet: nat, row: nat)      // `metric_dict['Date']` without a `Date` column
    | UndecodableDate(sheet: nat, row: nat)  // `xldate_as_tuple` rejects the cell
    | InvalidDate(sheet: nat, row: nat)      // `datetime(...)` rejects the tuple

  /** The records yielded, in order, and the error after the last of them. */
  datatype Parsed = Parsed(records: seq<Record>, failure: Option<ParseError>)

  /** `sheet.ncols`: the length of the longest row. */
  function Width(rows: seq<seq<Value>>): (w: nat)
    ensures forall r | 0 <= r < |rows| :: |rows[r]| <= w
    ensures rows != [] ==> exists r | 0 <= r < |rows| :: |rows[r]| == w
  {
    if rows == [] then 0
    else
      var w := Width(rows[..|rows| - 1]);
      assert forall r | 0 <= r < |rows| - 1 :: rows[..|rows| - 1][r] == rows[r];
      if |rows[|rows| - 1]| > w then |rows[|rows| - 1]| else w
  }

  /** `sheet.cell(r, c).value`: xlrd pads short rows with empty cells, which read as `''`. */
  function Cell(sheet: Sheet, r: nat, c: nat): (v: Value)
    requires r < |sheet.rows|
    ensures c < |sheet.rows[r]| ==> v == sheet.rows[r][c]
    ensures |sheet.rows[r]| <= c ==> v == Text("")
  {
    if c < |sheet.rows[r]| then sheet.rows[r][c] else Text("")
  }

  /** `sheet.row_values(r)`: the row padded to the sheet's width. */
  function RowValues(sheet: Sheet, r: nat): (cells: seq<Value>)
    requires r < |sheet.rows|
    ensures |cells| == Width(sheet.rows)
    ensures forall c | 0 <= c < |cells| :: cells[c] == Cell(sheet, r, c)
    ensures cells[..|sheet.rows[r]|] == sheet.rows[r]
  {
    seq(Width(sheet.rows), c requires 0 <= c => Cell(sheet, r, c))
  }

  /** `c.replace('.', '')`: MongoDB refuses field names containing a dot. */
  function StripDots(s: string): (r: string)
    ensures '.' !in r
    ensures |r| <= |s|
    ensures forall c | c != '.' :: multiset(r)[c] == multiset(s)[c]
  {
    if s == [] then []
    else
      assert s == [s[0]] + s[1..];
      (if s[0] == '.' then [] else [s[0]]) + StripDots(s[1..])
  }

  /** A name without dots is left as it is, so stripping twice is stripping once. */
  lemma {:induction false} StripDotsKeeps(s: string)
    requires '.' !in s
    ensures StripDots(s) == s
  {
    if s != [] {
      StripDotsKeeps(s[1..]);
    }
  }

  /** Stripping keeps the other characters in their order: it distributes over concatenation. */
  lemma {:induction false} StripDotsAppend(s: string, t: string)
    ensures StripDots(s + t) == StripDots(s) + StripDots(t)
  {
    if s == [] {
      assert s + t == t;
    } else {
      var h := if s[0] == '.' then [] else [s[0]];
      assert (s + t)[0] == s[0] && (s + t)[1..] == s[1..] + t;
      StripDotsAppend(s[1..], t);
      assert StripDots(s + t) == h + StripDots(s[1..] + t);
      assert StripDots(s) == h + StripDots(s[1..]);
      assert h + (StripDots(s[1..]) + StripDots(t)) == (h + StripDots(s[1..])) + StripDots(t);
    }
  }

  /**
   * The column names: every header cell with its dots removed. The first
   * cell that is not text raises, reported by its column.
   */
  function ColumnNames(header: seq<Value>): (r: Result<seq<string>, nat>)
    ensures r.Success? ==> && |r.value| == |header|
                           && forall c | 0 <= c < |header| :: header[c].Text? && r.value[c] == StripDots(header[c].text)
    ensures r.Failure? ==> && r.error < |header| && !header[r.error].Text?
                           && forall c | 0 <= c < r.error :: header[c].Text?
  {
    if header == [] then Success([])
    else if !header[0].Text? then Failure(0)
    else
      match ColumnNames(header[1..])
      case Success(names) => Success([StripDots(header[0].text)] + names)
      case Failure(c) => Failure(c + 1)
  }

  /**
   * The record the column loop builds from one row: a non-blank column
   * name maps to the row's cell in that column.
   */
  function RowRecord(names: seq<string>, cells: seq<Value>): (d: Record)
    requires |names| == |cells|
    ensures d.Valid()
    ensures forall c | 0 <= c < |names| && names[c] != "" :: names[c] in d.vals
    ensures forall k | k in d.vals :: k != "" && k in names
  {
    if names == [] then Empty
    else
      var n := |names| - 1;
      var d := RowRecord(names[..n], cells[..n]);
      assert forall c | 0 <= c < n :: names[..n][c] == names[c];
      if names[n] == "" then d else Set(d, names[n], cells[n])
  }

  /** Of several columns with the same name, the rightmost one's cell is kept. */
  lemma {:induction false} RowRecordLastColumn(names: seq<string>, cells: seq<Value>, c: nat)
    requires |names| == |cells|
    requires c < |names| && names[c] != ""
    requires forall c' | c < c' < |names| :: names[c'] != names[c]
    ensures RowRecord(names, cells).vals[names[c]] == cells[c]
  {
    var n := |names| - 1;
    var ns, cs := names[..n], cells[..n];
    var d := RowRecord(ns, cs);
    assert RowRecord(names, cells) == if names[n] == "" then d else Set(d, names[n], cells[n]);
    if c < n {
      assert ns[c] == names[c] && cs[c] == cells[c];
      assert forall c' | c < c' < |ns| :: ns[c'] != ns[c] by {
        assert forall c' | c < c' < |ns| :: ns[c'] == names[c'];
      }
      RowRecordLastColumn(ns, cs, c);
      assert names[n] != names[c];
    }
  }

  /** The column loop, `metric_dict[col_name] = sheet.cell(row, col).value` for each named column. */
  method BuildRecord(names: seq<string>, cells: seq<Value>) returns (d: Record)
    requires |names| == |cells|
    ensures d == RowRecord(names, cells)
  {
    d := Empty;
    var col := 0;
    while col < |names|
      invariant col <= |names|
      invariant d == RowRecord(names[..col], cells[..col])
    {
      assert names[..col + 1][..col] == names[..col] && cells[..col + 1][..col] == cells[..col];
      if names[col] != "" {
        d := Set(d, names[col], cells[col]);
      }
      col := col + 1;
    }
    assert names[..col] == names && cells[..col] == cells;
  }

  /** Whether the record's `Date` cell decodes to a tuple `datetime(...)` accepts. */
  ghost predicate DateConverts(d: Record, decode: (Value, nat) -> Option<DateParts>, datemode: nat) {
    && DateField in d.vals
    && decode(d.vals[DateField], datemode).Some?
    && IsValidDateTime(decode(d.vals[DateField], datemode).value)
  }

  /**
   * The special conversion: the `Date` cell, decoded by `xldate_as_tuple`
   * (`decode`) in the workbook's date mode, becomes a datetime in place.
   */
  function ConvertDate(d: Record, decode: (Value, nat) -> Option<DateParts>, datemode: nat,
                       sheet: nat, row: nat): (res: Result<Record, ParseError>)
    requires d.Valid()
    ensures res.Success? <==> DateConverts(d, decode, datemode)
    ensures res == Failure(MissingDate(sheet, row)) <==> DateField !in d.vals
    ensures res == Failure(UndecodableDate(sheet, row)) <==> DateField in d.vals && decode(d.vals[DateField], datemode).None?
    ensures res == Failure(InvalidDate(sheet, row)) <==>
              && DateField in d.vals && decode(d.vals[DateField], datemode).Some?
              && !IsValidDateTime(decode(d.vals[DateField], datemode).value)
    ensures res.Success? ==> && DateField in d.vals
                             && res.value.keys == d.keys
                             && DateField in res.value.vals && res.value.vals[DateField].Stamp?
                             && decode(d.vals[DateField], datemode) == Some(res.value.vals[DateField].when)
                             && IsValidDateTime(res.value.vals[DateField].when)
                             && res.value.vals == d.vals[DateField := res.value.vals[DateField]]
  {
    if DateField !in d.vals then Failure(MissingDate(sheet, row))
    else
      match decode(d.vals[DateField], datemode)
      case None => Failure(UndecodableDate(sheet, row))
      case Some(p) =>
        if !IsValidDateTime(p) then Failure(InvalidDate(sheet, row))
        else Success(Set(d, DateField, Stamp(p)))
  }

  /**
   * What every yielded record satisfies: its field names are non-blank and
   * free of dots, and its `Date` holds a valid datetime.
   */
  ghost predicate IsParsedRow(d: Record) {
    && d.Valid()
    && (forall k | k in d.vals :: k != "" && '.' !in k)
    && DateField in d.vals && d.vals[DateField].Stamp? && IsValidDateTime(d.vals[DateField].when)
  }

  ghost predicate AllParsed(ds: seq<Record>) {
    forall i | 0 <= i < |ds| :: IsParsedRow(ds[i])
  }

  /** One data row of sheet `si`, as the row loop reads and converts it. */
  function ParseRow(sheet: Sheet, si: nat, names: seq<string>, decode: (Value, nat) -> Option<DateParts>,
                    datemode: nat, row: nat): (res: Result<Record, ParseError>)
    requires row < |sheet.rows| && |names| == Width(sheet.rows)
    requires forall c | 0 <= c < |names| :: '.' !in names[c]
    ensures res.Success? <==> DateConverts(RowRecord(names, RowValues(sheet, row)), decode, datemode)
    ensures res.Success? ==> IsParsedRow(res.value)
  {
    var d := RowRecord(names, RowValues(sheet, row));
    var res := ConvertDate(d, decode, datemode, si, row);
    assert res.Success? ==> res.value.vals.Keys == d.vals.Keys;
    res
  }

  /**
   * A generator over `rs` that yields each record and stops at the first
   * error: it yields exactly the leading successes, then reports that error.
   */
  function Collect(rs: seq<Result<Record, ParseError>>): (p: Parsed)
    ensures |p.records| <= |rs|
    ensures forall i | 0 <= i < |p.records| :: rs[i] == Success(p.records[i])
    ensures p.failure == None ==> |p.records| == |rs|
    ensures p.failure.Some? ==> |p.records| < |rs| && rs[|p.records|] == Failure(p.failure.value)
  {
    if rs == [] then Parsed([], None)
    else
      var p := Collect(rs[..|rs| - 1]);
      assert forall i | 0 <= i < |rs| - 1 :: rs[..|rs| - 1][i] == rs[i];
      if p.failure.Some? then p
      else
        match rs[|rs| - 1]
        case Success(d) => Parsed(p.records + [d], None)
        case Failure(e) => Parsed(p.records, Some(e))
  }

  /** One more step of `Collect`. */
  lemma CollectNext(rs: seq<Result<Record, ParseError>>, k: nat)
    requires k < |rs| && Collect(rs[..k]).failure == None
    ensures Collect(rs[..k + 1]) == match rs[k]
                                    case Success(d) => Parsed(Collect(rs[..k]).records + [d], None)
                                    case Failure(e) => Parsed(Collect(rs[..k]).records, Some(e))
  {
    assert rs[..k + 1][..k] == rs[..k];
  }

  /** After the first error nothing more is read. */
  lemma {:induction false} CollectStops(rs: seq<Result<Record, ParseError>>, n: nat, m: nat)
    requires n <= m <= |rs| && Collect(rs[..n]).failure.Some?
    ensures Collect(rs[..m]) == Collect(rs[..n])
    decreases m
  {
    if n < m {
      CollectStops(rs, n, m - 1);
      assert rs[..m][..m - 1] == rs[..m - 1];
    }
  }

  /** The data rows of a sheet, each read and converted on its own. */
  function RowResults(sheet: Sheet, si: nat, names: seq<string>, decode: (Value, nat) -> Option<DateParts>,
                      datemode: nat): (rs: seq<Result<Record, ParseError>>)
    requires |sheet.rows| >= 1 && |names| == Width(sheet.rows)
    requires forall c | 0 <= c < |names| :: '.' !in names[c]
    ensures |rs| == |sheet.rows| - 1
    ensures forall i | 0 <= i < |rs| :: rs[i] == ParseRow(sheet, si, names, decode, datemode, i + 1)
  {
    seq(|sheet.rows| - 1, i requires 0 <= i < |sheet.rows| - 1 => ParseRow(sheet, si, names, decode, datemode, i + 1))
  }

  /**
   * One sheet: its first row names the columns, every further row is
   * yielded. Without an error, one record per data row.
   */
  function SheetParse(sheet: Sheet, si: nat, decode: (Value, nat) -> Option<DateParts>, datemode: nat): (p: Parsed)
    ensures AllParsed(p.records)
    ensures p.failure == None ==> |sheet.rows| >= 1 && |p.records| == |sheet.rows| - 1
  {
    if |sheet.rows| == 0 then Parsed([], Some(EmptySheet(si)))
    else
      match ColumnNames(RowValues(sheet, 0))
      case Failure(c) => Parsed([], Some(NonTextHeader(si, c)))
      case Success(names) =>
        assert |names| == Width(sheet.rows) && forall c | 0 <= c < |names| :: '.' !in names[c];
        var rs := RowResults(sheet, si, names, decode, datemode);
        CollectParsed(rs);
        Collect(rs)
  }

  /** A generator over rows that each satisfy `IsParsedRow` yields only such rows. */
  lemma CollectParsed(rs: seq<Result<Record, ParseError>>)
    requires forall i | 0 <= i < |rs| :: rs[i].Success? ==> IsParsedRow(rs[i].value)
    ensures AllParsed(Collect(rs).records)
  {
    var p := Collect(rs);
    assert forall i | 0 <= i < |p.records| :: rs[i] == Success(p.records[i]) && rs[i].Success?;
  }

  /**
   * The sheets one after the other: each sheet's records follow those of the
   * sheets before it, and the first sheet that raises ends the sequence.
   */
  function Chain(qs: seq<Parsed>): (p: Parsed)
    ensures (forall i | 0 <= i < |qs| :: AllParsed(qs[i].records)) ==> AllParsed(p.records)
    ensures p.failure == None ==> forall i | 0 <= i < |qs| :: qs[i].failure == None
  {
    if qs == [] then Parsed([], None)
    else
      var p := Chain(qs[..|qs| - 1]);
      assert forall i | 0 <= i < |qs| - 1 :: qs[..|qs| - 1][i] == qs[i];
      if p.failure.Some? then p
      else Parsed(p.records + qs[|qs| - 1].records, qs[|qs| - 1].failure)
  }

  /** The records of every sheet, one sheet after the other. */
  function Concat(qs: seq<Parsed>): seq<Record> {
    if qs == [] then [] else Concat(qs[..|qs| - 1]) + qs[|qs| - 1].records
  }

  /**
   * What `Chain` yields: every sheet's records when no sheet raises;
   * otherwise the records of the sheets before the first one that raises,
   * then the rows that sheet yielded before raising, and its error.
   */
  lemma {:induction false} ChainConcat(qs: seq<Parsed>)
    ensures Chain(qs).failure == None <==> forall i | 0 <= i < |qs| :: qs[i].failure == None
    ensures Chain(qs).failure == None ==> Chain(qs).records == Concat(qs)
    ensures Chain(qs).failure.Some? ==>
              exists j | 0 <= j < |qs| ::
                && (forall i | 0 <= i < j :: qs[i].failure == None)
                && Chain(qs).failure == qs[j].failure
                && Chain(qs).records == Concat(qs[..j]) + qs[j].records
  {
    if qs != [] {
      var n := |qs| - 1;
      var p := Chain(qs[..n]);
      ChainConcat(qs[..n]);
      assert forall i | 0 <= i < n :: qs[..n][i] == qs[i];
      if p.failure.Some? {
        var j :| 0 <= j < n && (forall i | 0 <= i < j :: qs[..n][i].failure == None)
                 && p.failure == qs[..n][j].failure && p.records == Concat(qs[..n][..j]) + qs[..n][j].records;
        assert qs[..n][..j] == qs[..j];
        assert Chain(qs) == p;
      } else if qs[n].failure.Some? {
        assert Chain(qs).records == Concat(qs[..n]) + qs[n].records;
      }
    }
  }

  /** One more sheet of `Chain`. */
  lemma ChainNext(qs: seq<Parsed>, k: nat)
    requires k < |qs| && Chain(qs[..k]).failure == None
    ensures Chain(qs[..k + 1]) == Parsed(Chain(qs[..k]).records + qs[k].records, qs[k].failure)
  {
    assert qs[..k + 1][..k] == qs[..k];
  }

  /** After the first sheet that raises no further sheet is read. */
  lemma {:induction false} ChainStops(qs: seq<Parsed>, n: nat, m: nat)
    requires n <= m <= |qs| && Chain(qs[..n]).failure.Some?
    ensures Chain(qs[..m]) == Chain(qs[..n])
    decreases m
  {
    if n < m {
      ChainStops(qs, n, m - 1);
      assert qs[..m][..m - 1] == qs[..m - 1];
    }
  }

  /**
   * A sheet the generator reads to its end: it has a header row, every
   * header cell is text, and every data row's `Date` converts.
   */
  ghost predicate SheetReadable(sheet: Sheet, decode: (Value, nat) -> Option<DateParts>, datemode: nat) {
    && |sheet.rows| >= 1
    && ColumnNames(RowValues(sheet, 0)).Success?
    && forall r | 1 <= r < |sheet.rows| ::
         DateConverts(RowRecord(ColumnNames(RowValues(sheet, 0)).value, RowValues(sheet, r)), decode, datemode)
  }

  /** A sheet is read without error exactly when it is readable. */
  lemma SheetParseSucceeds(sheet: Sheet, si: nat, decode: (Value, nat) -> Option<DateParts>, datemode: nat)
    ensures SheetParse(sheet, si, decode, datemode).failure == None <==> SheetReadable(sheet, decode, datemode)
  {
    if |sheet.rows| >= 1 && ColumnNames(RowValues(sheet, 0)).Success? {
      var names := ColumnNames(RowValues(sheet, 0)).value;
      var rs := RowResults(sheet, si, names, decode, datemode);
      assert SheetParse(sheet, si, decode, datemode) == Collect(rs);
      CollectSucceeds(rs);
      assert (forall i | 0 <= i < |rs| :: rs[i].Success?) <==> SheetReadable(sheet, decode, datemode) by {
        assert forall i | 0 <= i < |rs| :: rs[i].Success? <==>
                 DateConverts(RowRecord(names, RowValues(sheet, i + 1)), decode, datemode);
        if forall i | 0 <= i < |rs| :: rs[i].Success? {
          forall r | 1 <= r < |sheet.rows|
            ensures DateConverts(RowRecord(names, RowValues(sheet, r)), decode, datemode)
          {
            assert rs[r - 1].Success?;
          }
        }
      }
    }
  }

  /** The generator reports no error exactly when every step succeeds. */
  lemma CollectSucceeds(rs: seq<Result<Record, ParseError>>)
    ensures Collect(rs).failure == None <==> forall i | 0 <= i < |rs| :: rs[i].Success?
  {
    var p := Collect(rs);
    if p.failure.Some? {
      assert !rs[|p.records|].Success?;
    }
  }

  /** A workbook is read without error exactly when every sheet is readable. */
  lemma ParseSucceeds(wb: Workbook, decode: (Value, nat) -> Option<DateParts>)
    ensures Parse(wb, decode).failure == None <==>
            forall i | 0 <= i < |wb.sheets| :: SheetReadable(wb.sheets[i], decode, wb.datemode)
  {
    var qs := SheetResults(wb, decode);
    ChainConcat(qs);
    forall i | 0 <= i < |wb.sheets|
      ensures qs[i].failure == None <==> SheetReadable(wb.sheets[i], decode, wb.datemode)
    {
      SheetParseSucceeds(wb.sheets[i], i, decode, wb.datemode);
    }
  }

  /** Every sheet of the workbook, read on its own. */
  function SheetResults(wb: Workbook, decode: (Value, nat) -> Option<DateParts>): (qs: seq<Parsed>)
    ensures |qs| == |wb.sheets|
    ensures forall i | 0 <= i < |qs| :: qs[i] == SheetParse(wb.sheets[i], i, decode, wb.datemode)
  {
    seq(|wb.sheets|, i requires 0 <= i < |wb.sheets| => SheetParse(wb.sheets[i], i, decode, wb.datemode))
  }

  /** `parse_xlsx_into_dicts(xl)` run to the end or to its first error. */
  function Parse(wb: Workbook, decode: (Value, nat) -> Option<DateParts>): (p: Parsed)
    ensures AllParsed(p.records)
  {
    var qs := SheetResults(wb, decode);
    assert forall i | 0 <= i < |qs| :: AllParsed(qs[i].records);
    Chain(qs)
  }

  /** The number of data rows: every row but the header, on every sheet. */
  function DataRows(sheets: seq<Sheet>): nat {
    if sheets == [] then 0
    else
      var rows := |sheets[|sheets| - 1].rows|;
      DataRows(sheets[..|sheets| - 1]) + (if rows == 0 then 0 else rows - 1)
  }

  /** A workbook read without error yields one record per data row. */
  lemma ParseCount(wb: Workbook, decode: (Value, nat) -> Option<DateParts>)
    requires Parse(wb, decode).failure == None
    ensures |Parse(wb, decode).records| == DataRows(wb.sheets)
  {
    var qs := SheetResults(wb, decode);
    assert qs[..|qs|] == qs && wb.sheets[..|qs|] == wb.sheets;
    ParseCountUpTo(wb, decode, |qs|);
  }

  lemma {:induction false} ParseCountUpTo(wb: Workbook, decode: (Value, nat) -> Option<DateParts>, n: nat)
    requires n <= |wb.sheets|
    requires Chain(SheetResults(wb, decode)[..n]).failure == None
    ensures |Chain(SheetResults(wb, decode)[..n]).records| == DataRows(wb.sheets[..n])
  {
    if n > 0 {
      var qs := SheetResults(wb, decode);
      assert qs[..n][..n - 1] == qs[..n - 1];
      assert wb.sheets[..n][..n - 1] == wb.sheets[..n - 1];
      ParseCountUpTo(wb, decode, n - 1);
    }
  }

  /** The row loop of one sheet. */
  method ParseSheet(sheet: Sheet, si: nat, decode: (Value, nat) -> Option<DateParts>, datemode: nat)
    returns (records: seq<Record>, failure: Option<ParseError>)
    ensures Parsed(records, failure) == SheetParse(sheet, si, decode, datemode)
  {
    if |sheet.rows| == 0 {
      return [], Some(EmptySheet(si));
    }
    var header := ColumnNames(RowValues(sheet, 0));
    if header.Failure? {
      return [], Some(NonTextHeader(si, header.error));
    }
    var names := header.value;
    assert |names| == Width(sheet.rows) && forall c | 0 <= c < |names| :: '.' !in names[c];
    ghost var rs := RowResults(sheet, si, names, decode, datemode);
    assert SheetParse(sheet, si, decode, datemode) == Collect(rs);
    records := [];
    var row := 1;
    while row < |sheet.rows|
      invariant 1 <= row <= |sheet.rows|
      invariant Collect(rs[..row - 1]) == Parsed(records, None)
    {
      var d := BuildRecord(names, RowValues(sheet, row));
      var converted := ConvertDate(d, decode, datemode, si, row);
      assert converted == rs[row - 1];
      CollectNext(rs, row - 1);
      if converted.Failure? {
        CollectStops(rs, row, |rs|);
        assert rs[..|rs|] == rs;
        return records, Some(converted.error);
      }
      records := records + [converted.value];
      row := row + 1;
    }
    assert rs[..row - 1] == rs;
    failure := None;
  }

  /** `parse_xlsx_into_dicts(xl)`: the sheet loop. */
  method ParseWorkbook(wb: Workbook, decode: (Value, nat) -> Option<DateParts>)
    returns (records: seq<Record>, failure: Option<ParseError>)
    ensures Parsed(records, failure) == Parse(wb, decode)
  {
    ghost var qs := SheetResults(wb, decode);
    assert Parse(wb, decode) == Chain(qs);
    records := [];
    var si := 0;
    while si < |wb.sheets|
      invariant si <= |wb.sheets|
      invariant Chain(qs[..si]) == Parsed(records, None)
    {
      var sheetRecords, sheetFailure := ParseSheet(wb.sheets[si], si, decode, wb.datemode);
      assert qs[si] == Parsed(sheetRecords, sheetFailure);
      ChainNext(qs, si);
      records := records + sheetRecords;
      if sheetFailure.Some? {
        ChainStops(qs, si + 1, |qs|);
        assert qs[..|qs|] == qs;
        return records, sheetFailure;
      }
      si := si + 1;
    }
    assert qs[..si] == qs;
    failure := None;
  }
}
