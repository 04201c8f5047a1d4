# ServiceNow table-dump conversion, modelled in Dafny

`servicenow-backup.py` backs up ServiceNow tables as gzip-compressed XML
"unload" dumps and converts such dumps into CSV files. This project models
the core of the converter, `convert_xml_to_csv`, and the two file-naming
rules around it:

- **The conversion state machine** (`converter.dfy`). The XML parser is
  replaced by the stream of element-open (`Start`) and element-close (`End`)
  events it reports. The converter's variables (`rowheader`, `rowvalues`,
  `rowcount`, `firstline`, `tablename`, and the CSV writer with the records
  written through it) are updated event by event. `Step` handles one event
  and `Run` a whole stream. `ConvertXmlToCsv` is the source's loop, with the
  same locals, branches, `break` and escaping exceptions, and it is proved
  to compute `Convert`.
- **Event-level properties** (`converter_properties.dfy`). These hold for
  any event stream:
  - runs compose;
  - nothing after the envelope's `</unload>` has an effect;
  - the row counter counts the row starts inside the envelope;
  - a stream without rows opens no file;
  - every record is as wide as the header.
- **Row-level meaning** (`tabledump.dfy`, `dump_properties.dfy`). A
  well-formed dump is given as rows of fields, together with the event
  stream the parser reports for it. `ExpectedRows` states the outcome row
  by row:
  - the header is the first row's field tags;
  - the first row's values are never written;
  - each later row becomes one record in header order;
  - a later row with a value under a tag the header lacks aborts the
    conversion.

  `ConvertDump` proves that the event-driven conversion produces exactly
  this outcome. The two-incident example is worked through in
  `IncidentsConverted`.
- **File names** (`filenames.dfy`). The CSV name is built with
  `str.rsplit`, which is modelled exactly. The backup file name is
  `<table>[ <time>].xml.gz`. Converting a backup file yields
  `<table>[ <time>].csv` for every table name, including names with dots.

The model keeps four exceptions that escape `convert_xml_to_csv` (its only
handler, at line 100, catches `IOError`). Each becomes a distinct `Error`,
with the output written so far:

- a missing `unload_date` attribute raises `KeyError`;
- a root element that is not the envelope raises `AttributeError` (it has
  no parent);
- an element that closes before any row has begun raises
  `UnboundLocalError` (`tablename` is still unbound);
- a later row with a stored value under a tag the header lacks makes
  `DictWriter.writerow` raise `ValueError`.

Three behaviours of the code shape its output, and the model keeps them all:

- The first row's values are never written. When the first row closes
  (lines 78-85), the code opens the file and writes only the header. The
  next row start (line 55) clears `rowvalues`. So N rows give N-1 records
  (`DumpRecords`, `IncidentsConverted`).
- A later row with a value under a tag the header lacks aborts the
  conversion. The writer is built at line 82 with the default
  `extrasaction='raise'`, so `writerow` (line 89) raises `ValueError`
  (`DumpExtraFieldAborts`).
- A row ends at the first close of any element tagged like the row, nested
  or not (line 76). A field tagged like its row therefore ends the first row
  early (`NestedRowTagEndsFirstRow`, `NestedIncidentConverted`).

## Model

| member | source | states |
|---|---|---|
| `FileNames.RSplit` | servicenow-backup.py:36-39 | `rsplit('.', n)` returns between 1 and n+1 pieces, and no piece after the first contains the separator |
| `FileNames.RSplitJoin` | servicenow-backup.py:36-39 | joining the pieces of `rsplit` with the separator gives back the original path |
| `FileNames.RSplitLength` | servicenow-backup.py:36-39 | `rsplit(sep, n)` makes exactly min(n, number of separators) cuts |
| `FileNames.RSplitHead` | servicenow-backup.py:36-39 | `rsplit(sep, n)[0]` is a prefix of the path. The dropped tail holds exactly min(n, #separators) separators and starts with one. Nothing is dropped when there is no cut |
| `FileNames.CsvFileName` | servicenow-backup.py:34-39 | the output name always ends in `.csv` |
| `FileNames.CsvFileNameDropsSuffixes` | servicenow-backup.py:34-39 | a `.gz` path loses its last two dot-separated suffixes and any other path its last one (fewer when there are fewer dots, none without a dot); `.csv` is appended |
| `FileNames.BackupFileName` | servicenow-backup.py:108-111 | the backup name starts with the table name and ends with `.xml.gz` |
| `FileNames.CsvFileNameOfXmlGz` | servicenow-backup.py:34-39 | for every stem, `stem.xml.gz` converts to `stem.csv` |
| `FileNames.CsvFileNameOfBackup` | servicenow-backup.py:108-111 | round trip: the CSV derived from a table's backup file is `table.csv`, or `table <time>.csv` with a timestamp |
| `Converter.SelectValue` | servicenow-backup.py:65-68 | a non-empty `display_value` attribute wins in display mode. Otherwise the element's text is used, if it has any. Otherwise nothing is stored |
| `Converter.ExtraKeys` | servicenow-backup.py:89 | the keys `DictWriter` rejects are exactly the row keys outside the header; there are none exactly when every key of the row is a header field |
| `Converter.Record` | servicenow-backup.py:89 | `DictWriter.writerow` makes one cell per header field, in header order: the row's value or `''` when the row has none |
| `Converter.Step` | servicenow-backup.py:45-94 | one event keeps the invariant (writer open exactly after the first row; no record before). The header never changes once written. At most one record is appended. The counter grows exactly on a row start. Only `</unload>` stops the loop. Any closing tag equal to the current table tag ends the row, even on a nested element |
| `Converter.Run` | servicenow-backup.py:45-94 | a stream keeps the invariant. It leaves the header unchanged once written, only appends records and never lowers the counter. A stopped or aborted conversion ignores further events |
| `Converter.Convert` | servicenow-backup.py:20-101 | the outcome of the conversion of a whole stream; records are only ever reported together with a header |
| `Converter.ConvertXmlToCsv` | servicenow-backup.py:20-101 | the event loop with the source's variables computes exactly `Convert`, including the early `break` and the escaping exceptions |
| `ConverterProperties.EnvelopeBody` | servicenow-backup.py:73-74 | the events before the first `</unload>` (all of them if there is none): a prefix of the stream that contains no `</unload>` and is followed by one when it is shorter than the stream |
| `ConverterProperties.RunAppend` | servicenow-backup.py:45-94 | processing `a + b` is processing `a` and then `b` |
| `ConverterProperties.RunningHasNoEnvelopeEnd` | servicenow-backup.py:73-74 | a conversion still running has not seen `</unload>` |
| `ConverterProperties.IgnoredAfterEnvelopeEnd` | servicenow-backup.py:73-74 | events after the first `</unload>` do not change the result |
| `ConverterProperties.RunRowCount` | servicenow-backup.py:53-57 | unless an exception escapes, the counter grows by the number of row starts before `</unload>` |
| `ConverterProperties.ConvertRowCount` | servicenow-backup.py:53-57 | a completed conversion reports exactly the number of elements opened directly inside the envelope before it closes |
| `ConverterProperties.RunWithoutRows` | servicenow-backup.py:76-85 | without a row start no table tag is known, so the writer is never opened and nothing is written |
| `ConverterProperties.NoRowsNoFile` | servicenow-backup.py:78-85 | a stream with no row inside the envelope creates no CSV file and writes no record |
| `ConverterProperties.RunRecordsFit` | servicenow-backup.py:82-89 | records written by a run all have one cell per header field |
| `ConverterProperties.RecordWidth` | servicenow-backup.py:82-89 | every data record has exactly `len(header)` cells, and records exist only once a header does |
| `ConverterProperties.NestedRowTagEndsFirstRow` | servicenow-backup.py:76-85 | during the first row, a field tagged like its row ends that row at its own close: the writer opens with the field names seen so far, its tag included |
| `TableDump.Tags` | servicenow-backup.py:61-62 | the header list holds the row's field tags in order of appearance, duplicates kept |
| `TableDump.Store` | servicenow-backup.py:64-68 | storing a row's fields keeps every earlier key and adds only keys that are tags of those fields |
| `TableDump.StoreUntouched` | servicenow-backup.py:64-68 | a key that no element of the row stores into keeps its previous value, or stays absent |
| `TableDump.StoreLastWins` | servicenow-backup.py:64-68 | when a tag repeats within a row, the last element with a value decides the stored value |
| `TableDump.Fitting` | servicenow-backup.py:89 | counts the leading rows whose keys are all header fields; the row right after them has a key outside the header |
| `TableDump.Written` | servicenow-backup.py:88-91 | one record per fitting leading row, in order, each built from that row's own values only |
| `TableDump.FieldRun` | servicenow-backup.py:60-68 | one field's open and close: the tag is appended to the header list only in the first row, and the selected value is stored |
| `TableDump.FieldsRun` | servicenow-backup.py:60-68 | the fields of a row extend the header list in the first row and store their values. A field's closing tag changes nothing |
| `TableDump.RowBodyRun` | servicenow-backup.py:52-68 | a row start forgets the previous row's list and values, records the table tag and counts the row. Its fields then fill the working map |
| `TableDump.FirstRowRun` | servicenow-backup.py:78-85 | closing the first row opens the writer with that row's field tags as header and writes no record |
| `TableDump.LaterRowRun` | servicenow-backup.py:87-91 | closing a later row writes exactly one record and clears the working map, or raises when a key is not in the header |
| `TableDump.LaterRowsRun` | servicenow-backup.py:87-91 | the later rows are written in source order until the first misfit. The count and the failure are as `Fitting` says |
| `TableDump.AllRowsRun` | servicenow-backup.py:53-91 | the first row of a dump sets the header, and the remaining rows are written after it |
| `TableDump.RowsThenEnd` | servicenow-backup.py:45-94 | the rows followed by `</unload>` give the row-by-row outcome `ExpectedRows` |
| `TableDump.ConvertDump` | servicenow-backup.py:45-94 | converting any well-formed dump's event stream gives exactly the row-by-row outcome `Expected` |
| `DumpProperties.DumpRecords` | servicenow-backup.py:78-91 | with N >= 1 rows that all fit, the conversion completes. The header is the first row's tags. There are N-1 records, one per later row in order, and N rows are counted |
| `DumpProperties.DumpExtraFieldAborts` | servicenow-backup.py:89 | a later row with a value under a tag absent from the header makes the conversion fail before that row's record is written |
| `DumpProperties.DumpWithoutRows` | servicenow-backup.py:96-97 | a dump without rows completes with no file, no header and no records |
| `DumpProperties.IncidentsConvertedIn` | servicenow-backup.py:45-94 | the two-incident dump in one mode: header `number,state` and the single record of the second incident |
| `DumpProperties.IncidentsConverted` | servicenow-backup.py:45-94 | the two-incident dump gives header `number,state` and the single record `INC002,New` (display mode) or `INC002,1` (stored values) |
| `DumpProperties.NestedIncidentConverted` | servicenow-backup.py:76-91 | an incident holding a field tagged `incident`: the inner close opens the writer with header `number,incident`, and the outer close fails on `state`, which the header lacks |

## Left out

- Reading and parsing the XML (`gzip.open`/`open`, `read`, `etree.iterparse`, lines 35-42). The parent that `getparent()` reports (line 53) is the event's `parent`. The converter takes the parser's event stream as input. The text of an element is whatever the event carries. The structured `Dump` covers rows of flat fields only; deeper nesting is covered only by the event-level lemmas.
- I/O errors (lines 81, 96-101). Opening, writing and closing the CSV file are not modelled, so the `IOError` handler has no counterpart.
- The partial file left behind when an exception escapes. `Conversion.records` holds what was handed to the writer, not what reached the disk.
- CSV byte serialisation: quoting, the `'\n'` line terminator (line 82) and the UTF-8 encoding of text (line 68). Records are sequences of strings.
- Console output (`print` at lines 79, 98, 101, 131, 134, 137, 164, 176). `Conversion.rowcount` is the value the completion message reports, and it is kept on failure as well.
- The value of `unload_date` (line 49) is read and then unused. Only its absence, which raises `KeyError`, is modelled.
- `elem.clear()` (line 94) frees memory and does not change the output.
- The HTTP download in `download_table_as_xml` (lines 113-138): the request, the status and content-type checks and the gzip write. Only its file-name rule is modelled. The clock (`strftime`, line 109) is the parameter `now`.
- The command-line and configuration layer (lines 140-177). The batch loop over files is not modelled, and neither is the fact that an escaping exception ends the whole run.
- The row-level theorems (`ConvertDump` and the lemmas built on it) assume a well-formed dump: no field is tagged like its row or like the envelope. Those inputs are covered only by the event-level lemmas and by `NestedRowTagEndsFirstRow` and `NestedIncidentConverted`.
- Text encoding under Python 2. Line 68 encodes an element's text as UTF-8, but line 66 stores a display value as lxml returns it. A non-ASCII display value then makes `writerow` (line 89) raise `UnicodeEncodeError`, which escapes because it is not an `IOError`. Values are modelled as strings, so this failure is not modelled.
