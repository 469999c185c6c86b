# xlsx-merger: spreadsheet parsing, metric merge and export, in Dafny

This project models the data path of the dwelling-place xlsx merger. Monthly
property metrics arrive as uploaded Excel workbooks. Each sheet's first row
names the columns, and every further row is one metric. The parser turns
those rows into field records. It converts each row's `Date` cell into a
datetime. The merge files each record into the metric collection under its
natural key, the pair (`PropertyID`, `Date`). It finds the stored metric (or
starts an empty one), updates it with the row's fields and saves it back with
an upsert. The export writes records back out: a header row with every field
name that occurs, then one row per record.

Modules, one per concern of the source:

- `Values` (Values.dfy): cell values (`Null`, text, number, datetime) and the
  range checks Python's `datetime(...)` applies.
- `Records` (Records.dfy): the Python dict / `OrderedDict`.
  - A record is its keys in insertion order plus a map from key to value.
  - It provides `d[k] = v`, `d.update(e)` and `d.pop(k, None)`.
  - `ListSet` lists a set in an unspecified order.
- `Metrics` (Metric.dfy): `Metric` and its natural key.
  - A `Metric` is rebuilt from a stored document.
  - `MetricStore` is the metric collection, modelled as a class whose map from
    natural key to document the methods update in place.
- `Parser` (Parser.dfy): `parse_xlsx_into_dicts`.
  - The methods `ParseSheet` and `ParseWorkbook` are the generator's loops.
  - `ParseSheet` is proved equal to the function `SheetParse`, built with the
    row combinator `Collect`. `ParseWorkbook` is proved equal to the function
    `Parse`, built with the sheet combinator `Chain`.
- `Merge` (Merge.dfy): `merge_metrics_from_dicts`.
  - The method `MergeMetrics` updates a `MetricStore`.
  - It is proved against the function `Merged`, and the per-key results of
    `Merged` are proved as lemmas.
- `Export` (Export.dfy): `_get_header` and the rows `save_xlsx` appends.

Three behaviours of the code that the model keeps:

- **The merge overwrites every incoming field.** That includes empty strings
  and `None`, because `m.update(**metric_dict)` copies every field whatever
  its value. `MergedFields` and `MergedLastWriter` state this.
- **The date is stored as a full timestamp** (year to second): the
  `datetime` built from all six parts of the decoded tuple. It is not
  truncated to the month.
- **A bad date is not caught.** The exception ends the generator, and so the
  merge loop, after the rows before it have been saved. It is modelled as a
  `ParseError` that ends the record sequence.

## Model

| member | source | states |
|---|---|---|
| Values.DaysInMonth | dwellingplace/models/_utils.py:74 | the day bound `datetime` checks: 28 exactly for February of a common year, 29 exactly for February of a leap year, 30 exactly for April, June, September and November, otherwise 31 |
| Values.IsValidDateTime | dwellingplace/models/_utils.py:74 | the range checks `datetime(...)` applies, which decide `InvalidDate`: a valid day is at most 31, a 31st falls in a 31-day month, a 29 February falls in a leap year, and every year 1-9999, month 1-12, day 1-28 with a time of day in range is valid |
| Records.Set | dwellingplace/models/_utils.py:71 | `d[k] = v` keeps the record well formed and maps `k` to `v`, every other field unchanged; an existing key keeps its place, a new key goes last |
| Records.Get | dwellingplace/models/_utils.py:38 | `d.get(k, default)` is the stored value when `k` is present and the default otherwise; it is also the `None` that `pop(k, None)` gives for a missing field |
| Records.GetSet | dwellingplace/models/_utils.py:71 | after `d[k] = v`, `d.get` reads `v` under `k` and the old value (or the default) under every other key |
| Records.Update | dwellingplace/models/metric.py:12 | `d.update(e)`: the values are `d`'s overridden by `e`'s; the keys are `d`'s in their order, followed by `e`'s new keys in `e`'s order |
| Records.Pop | dwellingplace/models/metric.py:28-29 | `d.pop(k, None)` leaves a well-formed record without `k`; putting the popped value back restores the original fields |
| Records.PopAbsent | dwellingplace/models/metric.py:28-29 | popping a missing field gives `None` and leaves the record unchanged |
| Records.ListSet | dwellingplace/models/_utils.py:54 | listing a set (`list(header)`, or a collection scan) gives every member exactly once, and nothing else |
| Metrics.Arrange | dwellingplace/models/metric.py:9-12 | the body of `__init__` lays out `PropertyID` first and `Date` second, then the keyword fields in their order, with exactly the given values |
| Metrics.NewMetric | dwellingplace/models/metric.py:8-12 | `Metric(PropertyID, Date, **extra)`, when its keywords bind (none is `self`, `PropertyID` or `Date`), is a `Metric` with that key whose other fields are `extra`'s, in order and with `extra`'s values |
| Metrics.MetricKey | dwellingplace/models/metric.py:14-16 | `Metric.key` is the key filter that matches the metric itself |
| Metrics.DocKey | dwellingplace/models/metric.py:16 | the key a stored document answers to under the filter `{PropertyID: .., Date: ..}`: its own two key fields, with a missing field read as `None`, as MongoDB matches an equality filter on `None` |
| Metrics.FromDocument | dwellingplace/models/metric.py:26-31 | the record `objects` rebuilds is a `Metric` whose key is the key the document answers to, and its other fields keep the document's order |
| Metrics.FromDocumentBinds | dwellingplace/models/metric.py:27-31 | the call `cls(PropertyID=.., Date=.., **document)` binds exactly when the document has no `self` field; otherwise Python raises `TypeError` |
| Metrics.FromDocumentVals | dwellingplace/models/metric.py:28-30 | the rebuilt record holds the document's fields, with `PropertyID` and `Date` set to `None` when the document lacks them |
| Metrics.FromDocumentOfMetric | dwellingplace/models/metric.py:22-35 | reading back a saved `Metric` gives the same record, field order included |
| Metrics.FindIn | dwellingplace/models/_utils.py:80 | `Metric.find` by a key returns a `Metric` with exactly that key |
| Metrics.FindInFields | dwellingplace/models/_utils.py:80 | `Metric.find` returns the stored fields under the key, or a record of the key alone when nothing is stored |
| Metrics.Saved | dwellingplace/models/metric.py:33-35 | the upsert keeps at most one document per key. The document at the metric's key holds the metric and keeps its `_id`, or a new document gets an unused `_id`. Other documents are unchanged |
| Metrics.SaveIdempotent | dwellingplace/models/metric.py:33-35 | saving the same metric twice leaves the store as saving it once |
| Metrics.MetricStore.Save | dwellingplace/models/metric.py:33-35 | the in-place upsert keeps the store valid and leaves exactly the state `Saved` describes |
| Metrics.MetricStore.Find | dwellingplace/models/_utils.py:80 | the lookup on the live store returns `FindIn` of its state |
| Metrics.MetricStore.Objects | dwellingplace/models/metric.py:22-31 | the scan visits every stored key exactly once; the records yielded, and whether the call raised, are `Rebuild` of the visited documents |
| Metrics.Scan | dwellingplace/models/metric.py:25-31 | the loop over the visited documents yields exactly `Rebuild` of them |
| Metrics.Rebuild | dwellingplace/models/metric.py:25-31 | the records yielded are the documents before the first one with a `self` field, in order, each rebuilt by `FromDocument`; the call raises exactly when such a document is reached, and otherwise yields one record per document |
| Metrics.SavedIsListed | dwellingplace/models/metric.py:22-35 | after `save`, `objects` either yields the saved metric exactly as saved or raises; it raises whenever the metric has a `self` field |
| Parser.Width | dwellingplace/models/_utils.py:68 | `ncols` is the length of the longest row |
| Parser.Cell | dwellingplace/models/_utils.py:71 | `sheet.cell(row, col).value` is the stored cell, or empty text past the end of a short row |
| Parser.RowValues | dwellingplace/models/_utils.py:63 | `row_values(r)` is the row padded with empty cells to the sheet's width |
| Parser.StripDots | dwellingplace/models/_utils.py:65 | a stripped name has no dot and keeps every other character |
| Parser.StripDotsKeeps | dwellingplace/models/_utils.py:65 | a name without dots is unchanged |
| Parser.StripDotsAppend | dwellingplace/models/_utils.py:65 | stripping distributes over concatenation, so the remaining characters keep their order |
| Parser.ColumnNames | dwellingplace/models/_utils.py:63-65 | an all-text header row gives one stripped name per column; otherwise the first non-text cell is the error |
| Parser.RowRecord | dwellingplace/models/_utils.py:67-71 | the row's record is well formed; every non-blank column name is a field, and every field is a non-blank column name |
| Parser.RowRecordLastColumn | dwellingplace/models/_utils.py:68-71 | under a column name, the record holds the cell of the rightmost column with that name |
| Parser.BuildRecord | dwellingplace/models/_utils.py:67-71 | the column loop builds `RowRecord` of the row |
| Parser.ConvertDate | dwellingplace/models/_utils.py:73-74 | the conversion succeeds exactly when the `Date` cell is present, decodes and passes the `datetime` checks; each failure (no `Date` field, an undecodable cell, an out-of-range date) happens exactly when its cause holds. On success only `Date` changes, to the valid decoded datetime |
| Parser.ParseRow | dwellingplace/models/_utils.py:66-76 | a row is yielded exactly when its `Date` converts, and then it has non-blank, dot-free field names and a valid datetime under `Date` |
| Parser.CollectSucceeds | dwellingplace/models/_utils.py:66-76 | the generator reports no error exactly when every row succeeds |
| Parser.SheetParseSucceeds | dwellingplace/models/_utils.py:61-76 | a sheet is read without error exactly when it has a header row of text cells and every data row's `Date` converts |
| Parser.ParseSucceeds | dwellingplace/models/_utils.py:56-76 | a workbook is read without error exactly when every sheet is readable in that sense |
| Parser.Collect | dwellingplace/models/_utils.py:66-76 | the generator yields exactly the leading successful rows, then reports the first error if there is one |
| Parser.CollectStops | dwellingplace/models/_utils.py:73-76 | after the first error nothing more is read |
| Parser.SheetParse | dwellingplace/models/_utils.py:62-76 | a sheet's records are all parsed rows; without an error there is one record per data row |
| Parser.Chain | dwellingplace/models/_utils.py:61-76 | sheets are read in order; the first sheet that fails ends the sequence, and without an error every sheet was read in full |
| Parser.ChainConcat | dwellingplace/models/_utils.py:61-76 | the workbook fails exactly when some sheet fails. Without a failure the records are every sheet's records in order; otherwise they are those of the sheets before the first failing sheet, then the rows that sheet yielded before failing, and its error is the workbook's |
| Parser.ChainStops | dwellingplace/models/_utils.py:61-76 | no sheet after a failing one is read |
| Parser.Parse | dwellingplace/models/_utils.py:56-76 | every record the workbook yields is a parsed row |
| Parser.ParseCount | dwellingplace/models/_utils.py:61-76 | a workbook read without error yields one record per data row across all sheets |
| Parser.ParseSheet | dwellingplace/models/_utils.py:62-76 | the row loop of a sheet yields `SheetParse` of the sheet |
| Parser.ParseWorkbook | dwellingplace/models/_utils.py:56-76 | the sheet loop yields `Parse` of the workbook |
| Merge.MissingKeyField | dwellingplace/models/_utils.py:80 | the lookup raises `KeyError` exactly when a key field is missing, and names the first missing one (`PropertyID` before `Date`) |
| Merge.RowKey | dwellingplace/models/_utils.py:80 | the key a row is looked up by is the key a stored copy of it answers to |
| Merge.RowKeys | dwellingplace/models/_utils.py:79-80 | the set of keys the rows are looked up by, both directions |
| Merge.RowsAt | dwellingplace/models/_utils.py:79-80 | the rows with a key all have it; there are none exactly when no row has the key |
| Merge.UnionLast | dwellingplace/models/_utils.py:81 | after successive updates, a field holds the value of the last row that has it |
| Merge.UnionCovers | dwellingplace/models/_utils.py:81 | no field of any row is lost |
| Merge.Absorb | dwellingplace/models/_utils.py:81 | updating by rows in turn keeps the record well formed, overrides its values with theirs and keeps its existing field order as a prefix |
| Merge.AbsorbKeepsOrder | dwellingplace/models/_utils.py:81 | rows that bring no new field leave the field order unchanged |
| Merge.AbsorbTwice | dwellingplace/models/_utils.py:81 | updating by the same rows again changes nothing |
| Merge.AbsorbMetric | dwellingplace/models/_utils.py:80-82 | a metric updated by rows with its own key stays a metric with that key, so `save` files it under that key |
| Merge.MergeStep | dwellingplace/models/_utils.py:79-82 | one pass of the loop changes only the document at the row's key, which becomes the found metric updated by the row, keeping an existing `_id` |
| Merge.Merged | dwellingplace/models/_utils.py:78-82 | merging keeps one document per key; the stored keys become the old keys plus the rows' keys |
| Merge.MergedAt | dwellingplace/models/_utils.py:78-82 | a key no row has is untouched; a key some row has holds the record found before the merge, updated by those rows in their order |
| Merge.FindAfterMerge | dwellingplace/models/_utils.py:78-82 | `Metric.find` after the merge gives the record found before, updated by the rows with its key |
| Merge.MergedKeepsId | dwellingplace/models/_utils.py:82 | a stored document keeps its `_id` through the merge |
| Merge.MergedKeepsNextId | dwellingplace/models/_utils.py:78-82 | merging rows whose keys are all stored inserts nothing |
| Merge.UnionRowsAtLast | dwellingplace/models/_utils.py:79-81 | among the rows with one key, a field holds the value of the last such row that has it |
| Merge.MergedLastWriter | dwellingplace/models/_utils.py:79-82 | after the merge, a field stored at a row's key holds the value of the last row with that key that carries the field |
| Merge.MergedFields | dwellingplace/models/_utils.py:81 | the fields stored at a key are the old ones overwritten by the rows' fields, the last row winning. Every value overwrites, empty or not |
| Merge.MergeIdempotent | dwellingplace/models/_utils.py:78-82 | merging the same upload twice leaves the store as merging it once |
| Merge.MergeStepSaved | dwellingplace/models/_utils.py:80-82 | `find`, `update` by the row, then `save` is exactly one `MergeStep` |
| Merge.MergeMetrics | dwellingplace/models/_utils.py:78-82 | without an error the store becomes `Merged` of all rows. Otherwise the first row lacking a key field is reported, with the field, and exactly the rows before it have been merged |
| Export.FieldNames | dwellingplace/models/_utils.py:47-54 | a name is a header name exactly when some record has that field |
| Export.GetHeader | dwellingplace/models/_utils.py:47-54 | `_get_header` lists every field name occurring in the data, each once, and nothing else |
| Export.HeaderRow | dwellingplace/models/_utils.py:29 | the header row has one text cell per name |
| Export.ExportRow | dwellingplace/models/_utils.py:38 | a data row has one cell per header name: the record's value, or the empty text when it lacks the field |
| Export.ExportRowKeepsFields | dwellingplace/models/_utils.py:37-40 | every field of a record appears in its row, under its own name, with its value |
| Export.ExportRows | dwellingplace/models/_utils.py:27-40 | the sheet is the header row followed by one row per record, in order |
| Export.HeaderReadBack | dwellingplace/models/_utils.py:29 | a dot-free header written out reads back as the same column names |
| Export.RowReadBack | dwellingplace/models/_utils.py:38 | the cells of an exported row, parsed under its header, give the record's fields, with empty text under the names it lacked |

## Left out

- `save_json`, the JSON dump: it is file output only.
- The worksheet auto-filter in `save_xlsx` (`_utils.py:31-34`): it has no effect on cell contents.
- `save_xlsx`'s file writing and the openpyxl workbook: the model ends at the rows appended to the sheet.
- `xlrd.xldate_as_tuple`: this decoder is not part of this model. It is the parameter `decode`, which may reject a cell.
- Workbook opening and `sheet_by_name`: a workbook is its sheets in order, each looked up once, so sheet names are assumed unique.
- Logging (`log.debug`) is not modelled.
- MongoDB and its connection (`mongo.db.metric`, `extensions`) are not part of this model. The collection is the in-memory `MetricStore`, one document per natural key. Database failures are not modelled.
- The order of a collection scan and of `list(set)` is left open (`ListSet`): a result holds for every order.
- `_id` is held beside each document rather than as a field: `objects` pops it before rebuilding. A spreadsheet column named `_id` is not modelled.
- `Metric.find` is called by the merge but not defined in metric.py. It is modelled (`FindIn`) as returning the stored document rebuilt as `objects` does, or `Metric(PropertyID, Date)` for an unknown key.
- Metrics.NewMetric: requires that the keyword fields bind (`Binds`: none is named `self`, `PropertyID` or `Date`). Python raises `TypeError` otherwise; the constructor's own error path is not modelled, but the raise in `objects` is (`Rebuild`).
- Metrics.FindIn: a stored document with a `self` field is rebuilt like any other. `Metric.find` is not defined in metric.py, so whether it would raise there cannot be told.
- Metrics.MetricStore.Objects: the generator is run to its end (or its raise) at once; a consumer that stops early is not modelled.
- Merge.MergeMetrics: requires every incoming row to be a well-formed dict (each key once), which a Python dict always is.
- Export.RowReadBack: reads back the cell values `save_xlsx` appends, not a written file. Through openpyxl and xlrd, `None` comes back as `''` and a datetime as a date serial number, so a download followed by an upload does not give the record's fields back at this step.
- Metrics.DocKey: assumes MongoDB's matching of an equality filter. A filter value `None` matches a document whose field is `None` or missing, so the two are not told apart. Two values match exactly when they are equal as model values. MongoDB's own comparison rules, such as an int matching an equal float, are not modelled.
- Parser.Cell: assumes that xlrd pads short rows with empty cells that read as `''` (its default for workbooks it does not open with `ragged_rows`).
- Python's integer and float widths, and numeric cell types beyond text and number (booleans, error codes), are not modelled. Such cells are numbers.
- The Flask views that call these functions are not modelled.
