/**
 * A well-formed table dump, given row by row, and the event stream the XML
 * parser reports for it. `Expected` says row by row what converting a dump
 * produces; `ConvertDump` proves that the event-driven conversion produces
 * exactly that.
 */
module TableDump {
  import opened Optional
  import opened Converter
  import opened ConverterProperties

  /** A field element of a row: its tag, its attributes and its text. */
  datatype Field = Field(tag: string, attrs: map<string, string>, text: Option<string>)
  /** A row element directly inside the envelope; its tag names the table. */
  datatype Row = Row(tag: string, fields: seq<Field>)
  /** The envelope: its attributes and its rows. */
  datatype Dump = Dump(attrs: map<string, string>, rows: seq<Row>)

  /** Each field opens and closes in turn. */
  function FieldEvents(rowTag: string, fields: seq<Field>): seq<Event>
  {
    if fields == [] then []
    else [Start(fields[0].tag, Some(rowTag), fields[0].attrs, fields[0].text), End(fields[0].tag)]
         + FieldEvents(rowTag, fields[1..])
  }

  /** A row opens inside the envelope, its fields follow, and it closes. */
  function RowEvents(row: Row): seq<Event>
  {
    [Start(row.tag, Some(Envelope), map[], None)] + FieldEvents(row.tag, row.fields) + [End(row.tag)]
  }

  function RowsEvents(rows: seq<Row>): seq<Event>
  {
    if rows == [] then [] else RowEvents(rows[0]) + RowsEvents(rows[1..])
  }

  /** The envelope is the document root; it opens first and closes last. */
  function DumpEvents(dump: Dump): seq<Event>
  {
    [Start(Envelope, None, dump.attrs, None)] + RowsEvents(dump.rows) + [End(Envelope)]
  }

  /**
   * No row is tagged like the envelope, and no field like the envelope or
   * its own row (the converter tells these elements apart by tag alone).
   */
  predicate WellFormedRow(row: Row)
  {
    && row.tag != Envelope
    && forall i :: 0 <= i < |row.fields| ==> row.fields[i].tag != Envelope && row.fields[i].tag != row.tag
  }

  predicate WellFormed(dump: Dump)
  {
    forall i :: 0 <= i < |dump.rows| ==> WellFormedRow(dump.rows[i])
  }

  /** The field tags of a row in order of appearance, repeated tags included. */
  function Tags(fields: seq<Field>): (tags: seq<string>)
    ensures |tags| == |fields|
    ensures forall i :: 0 <= i < |fields| ==> tags[i] == fields[i].tag
  {
    if fields == [] then [] else [fields[0].tag] + Tags(fields[1..])
  }

  /** Stores the selected value of each field into `m`, in order. */
  function Store(m: map<string, string>, fields: seq<Field>, useDisplayValue: bool): (r: map<string, string>)
    ensures m.Keys <= r.Keys
    ensures r.Keys <= m.Keys + set i | 0 <= i < |fields| :: fields[i].tag
    decreases |fields|
  {
    if fields == [] then m
    else
      var v := SelectValue(useDisplayValue, fields[0].attrs, fields[0].text);
      Store(if v.Some? then m[fields[0].tag := v.value] else m, fields[1..], useDisplayValue)
  }

  /** The values a row hands to the CSV writer. */
  function RowValues(row: Row, useDisplayValue: bool): map<string, string>
  {
    Store(map[], row.fields, useDisplayValue)
  }


  /** A key that no field stores into keeps its value (or its absence). */
  lemma {:induction false} StoreUntouched(m: map<string, string>, fields: seq<Field>, useDisplayValue: bool, key: string)
    requires forall i :: 0 <= i < |fields| && fields[i].tag == key ==> SelectValue(useDisplayValue, fields[i].attrs, fields[i].text).None?
    ensures var r := Store(m, fields, useDisplayValue);
      (key in r <==> key in m) && (key in m ==> r[key] == m[key])
    decreases |fields|
  {
    if fields != [] {
      var v := SelectValue(useDisplayValue, fields[0].attrs, fields[0].text);
      var m' := if v.Some? then m[fields[0].tag := v.value] else m;
      assert forall i :: 0 <= i < |fields[1..]| ==> fields[1..][i] == fields[i + 1];
      StoreUntouched(m', fields[1..], useDisplayValue, key);
    }
  }

  /**
   * When a tag repeats within a row, the last element that has a value
   * decides the stored value.
   */
  lemma {:induction false} StoreLastWins(m: map<string, string>, fields: seq<Field>, useDisplayValue: bool, i: nat)
    requires i < |fields| && SelectValue(useDisplayValue, fields[i].attrs, fields[i].text).Some?
    requires forall j :: i < j < |fields| && fields[j].tag == fields[i].tag ==> SelectValue(useDisplayValue, fields[j].attrs, fields[j].text).None?
    ensures var r := Store(m, fields, useDisplayValue);
      fields[i].tag in r && r[fields[i].tag] == SelectValue(useDisplayValue, fields[i].attrs, fields[i].text).value
    decreases i
  {
    var v := SelectValue(useDisplayValue, fields[0].attrs, fields[0].text);
    var m' := if v.Some? then m[fields[0].tag := v.value] else m;
    var rest := fields[1..];
    assert forall j :: 0 <= j < |rest| ==> rest[j] == fields[j + 1];
    if i == 0 {
      StoreUntouched(m', rest, useDisplayValue, fields[0].tag);
    } else {
      StoreLastWins(m', rest, useDisplayValue, i - 1);
    }
  }

  /** Number of leading rows whose every value has a column in the header. */
  function Fitting(header: seq<string>, rows: seq<Row>, useDisplayValue: bool): (k: nat)
    ensures k <= |rows|
    ensures forall i :: 0 <= i < k ==> ExtraKeys(header, RowValues(rows[i], useDisplayValue)) == {}
    ensures k < |rows| ==> ExtraKeys(header, RowValues(rows[k], useDisplayValue)) != {}
  {
    if rows == [] || ExtraKeys(header, RowValues(rows[0], useDisplayValue)) != {} then 0
    else 1 + Fitting(header, rows[1..], useDisplayValue)
  }

  /** The records written for `rows`, up to the first that does not fit the header. */
  function Written(header: seq<string>, rows: seq<Row>, useDisplayValue: bool): (w: seq<seq<string>>)
    ensures |w| == Fitting(header, rows, useDisplayValue)
    ensures forall i :: 0 <= i < |w| ==> w[i] == Record(header, RowValues(rows[i], useDisplayValue))
  {
    if rows == [] || ExtraKeys(header, RowValues(rows[0], useDisplayValue)) != {} then []
    else [Record(header, RowValues(rows[0], useDisplayValue))] + Written(header, rows[1..], useDisplayValue)
  }

  /**
   * What converting a dump produces, row by row. The envelope must carry
   * `unload_date`; then the rows decide, as `ExpectedRows` says.
   */
  function Expected(dump: Dump, useDisplayValue: bool): Conversion
  {
    if UnloadDate !in dump.attrs then Conversion(Failed(MissingUnloadDate), None, [], 0)
    else ExpectedRows(dump.rows, useDisplayValue)
  }

  /**
   * With no rows, no file is created. Otherwise the first row's field tags
   * are the header and its values are never written; every later row
   * becomes one record in header order, until one holds a value under a
   * tag the header lacks, which aborts the conversion.
   */
  function ExpectedRows(rows: seq<Row>, useDisplayValue: bool): Conversion
  {
    if rows == [] then Conversion(Completed, None, [], 0)
    else
      var header := Tags(rows[0].fields);
      var later := rows[1..];
      var k := Fitting(header, later, useDisplayValue);
      Conversion(
        if k == |later| then Completed
        else Failed(ExtraFields(ExtraKeys(header, RowValues(later[k], useDisplayValue)))),
        Some(header),
        Written(header, later, useDisplayValue),
        if k == |later| then |rows| else k + 2)
  }

  lemma AppendAssoc<T>(a: seq<T>, b: seq<T>, c: seq<T>)
    ensures a + b + c == a + (b + c)
  {
  }

  /** Running two events, one after the other. */
  lemma RunTwo(s: State, e1: Event, e2: Event, useDisplayValue: bool)
    requires Valid(s) && s.phase == Running
    ensures var s1 := Step(s, e1, useDisplayValue);
      Run(s, [e1, e2], useDisplayValue) == if s1.phase == Running then Step(s1, e2, useDisplayValue) else s1
  {
    var s1 := Step(s, e1, useDisplayValue);
    assert [e1, e2][0] == e1 && [e1, e2][1..] == [e2];
    assert Run(s, [e1, e2], useDisplayValue) == Run(s1, [e2], useDisplayValue);
    if s1.phase == Running {
      assert [e2][0] == e2 && [e2][1..] == [];
      assert Run(s1, [e2], useDisplayValue) == Run(Step(s1, e2, useDisplayValue), [], useDisplayValue);
    }
  }

  /** One field of the current row: it opens, possibly stores a value, and closes. */
  lemma FieldRun(s: State, rowTag: string, f: Field, useDisplayValue: bool)
    requires Valid(s) && s.phase == Running && s.tablename == Some(rowTag) && rowTag != Envelope
    requires f.tag != Envelope && f.tag != rowTag
    ensures var v := SelectValue(useDisplayValue, f.attrs, f.text);
      Run(s, [Start(f.tag, Some(rowTag), f.attrs, f.text), End(f.tag)], useDisplayValue)
        == s.(rowheader := if s.firstline then s.rowheader + [f.tag] else s.rowheader,
              rowvalues := if v.Some? then s.rowvalues[f.tag := v.value] else s.rowvalues)
  {
    RunTwo(s, Start(f.tag, Some(rowTag), f.attrs, f.text), End(f.tag), useDisplayValue);
  }

  /** The fields of the current row extend the header list (first row only) and store their values. */
  lemma {:induction false} FieldsRun(s: State, rowTag: string, fields: seq<Field>, useDisplayValue: bool)
    requires Valid(s) && s.phase == Running && s.tablename == Some(rowTag) && rowTag != Envelope
    requires forall i :: 0 <= i < |fields| ==> fields[i].tag != Envelope && fields[i].tag != rowTag
    ensures Run(s, FieldEvents(rowTag, fields), useDisplayValue)
         == s.(rowheader := s.rowheader + (if s.firstline then Tags(fields) else []),
               rowvalues := Store(s.rowvalues, fields, useDisplayValue))
    decreases |fields|
  {
    if fields == [] {
      assert s.rowheader + [] == s.rowheader;
    } else {
      var f := fields[0];
      var pair := [Start(f.tag, Some(rowTag), f.attrs, f.text), End(f.tag)];
      var rest := fields[1..];
      assert FieldEvents(rowTag, fields) == pair + FieldEvents(rowTag, rest);
      RunAppend(s, pair, FieldEvents(rowTag, rest), useDisplayValue);
      FieldRun(s, rowTag, f, useDisplayValue);
      var s1 := Run(s, pair, useDisplayValue);
      assert forall i :: 0 <= i < |rest| ==> rest[i] == fields[i + 1];
      FieldsRun(s1, rowTag, rest, useDisplayValue);
      assert Tags(fields) == [f.tag] + Tags(rest);
      AppendAssoc(s.rowheader, [f.tag], Tags(rest));
    }
  }

  /** The events of a row, up to (not including) its closing tag. */
  lemma RowBodyRun(s: State, row: Row, useDisplayValue: bool)
    requires Valid(s) && s.phase == Running && WellFormedRow(row)
    ensures Run(s, [Start(row.tag, Some(Envelope), map[], None)] + FieldEvents(row.tag, row.fields), useDisplayValue)
         == s.(tablename := Some(row.tag), rowvalues := RowValues(row, useDisplayValue),
               rowheader := if s.firstline then Tags(row.fields) else [], rowcount := s.rowcount + 1)
  {
    var open := Start(row.tag, Some(Envelope), map[], None);
    RunAppend(s, [open], FieldEvents(row.tag, row.fields), useDisplayValue);
    var s0 := Step(s, open, useDisplayValue);
    assert Run(s, [open], useDisplayValue) == s0;
    FieldsRun(s0, row.tag, row.fields, useDisplayValue);
  }

  /** The first row opens the writer with its field tags and writes nothing else. */
  lemma FirstRowRun(s: State, row: Row, useDisplayValue: bool)
    requires Valid(s) && s.phase == Running && s.firstline && WellFormedRow(row)
    ensures Run(s, RowEvents(row), useDisplayValue)
         == s.(tablename := Some(row.tag), rowvalues := RowValues(row, useDisplayValue),
               rowheader := Tags(row.fields), rowcount := s.rowcount + 1,
               writer := Some(Tags(row.fields)), firstline := false)
  {
    var body := [Start(row.tag, Some(Envelope), map[], None)] + FieldEvents(row.tag, row.fields);
    RunAppend(s, body, [End(row.tag)], useDisplayValue);
    RowBodyRun(s, row, useDisplayValue);
  }

  /** A later row is written as one record, or aborts the run when it does not fit. */
  lemma LaterRowRun(s: State, row: Row, useDisplayValue: bool)
    requires Valid(s) && s.phase == Running && !s.firstline && WellFormedRow(row)
    ensures var values := RowValues(row, useDisplayValue);
      var extra := ExtraKeys(s.writer.value, values);
      Run(s, RowEvents(row), useDisplayValue)
        == if extra == {} then
             s.(tablename := Some(row.tag), rowvalues := map[], rowheader := [], rowcount := s.rowcount + 1,
                records := s.records + [Record(s.writer.value, values)])
           else
             s.(tablename := Some(row.tag), rowvalues := values, rowheader := [], rowcount := s.rowcount + 1,
                phase := Raised(ExtraFields(extra)))
  {
    var body := [Start(row.tag, Some(Envelope), map[], None)] + FieldEvents(row.tag, row.fields);
    RunAppend(s, body, [End(row.tag)], useDisplayValue);
    RowBodyRun(s, row, useDisplayValue);
  }

  /** The rows after the first, each written in turn until one does not fit. */
  lemma {:induction false} LaterRowsRun(s: State, rows: seq<Row>, useDisplayValue: bool)
    requires Valid(s) && s.phase == Running && !s.firstline
    requires forall i :: 0 <= i < |rows| ==> WellFormedRow(rows[i])
    ensures var t := Run(s, RowsEvents(rows), useDisplayValue);
      var header := s.writer.value;
      var k := Fitting(header, rows, useDisplayValue);
      && t.writer == s.writer
      && t.records == s.records + Written(header, rows, useDisplayValue)
      && t.rowcount == s.rowcount + (if k == |rows| then k else k + 1)
      && t.phase == (if k == |rows| then Running
                     else Raised(ExtraFields(ExtraKeys(header, RowValues(rows[k], useDisplayValue)))))
    decreases |rows|
  {
    var header := s.writer.value;
    if rows == [] {
      assert s.records + [] == s.records;
    } else {
      var rest := rows[1..];
      assert RowsEvents(rows) == RowEvents(rows[0]) + RowsEvents(rest);
      RunAppend(s, RowEvents(rows[0]), RowsEvents(rest), useDisplayValue);
      LaterRowRun(s, rows[0], useDisplayValue);
      var s1 := Run(s, RowEvents(rows[0]), useDisplayValue);
      if s1.phase == Running {
        assert forall i :: 0 <= i < |rest| ==> rest[i] == rows[i + 1];
        LaterRowsRun(s1, rest, useDisplayValue);
        var rec := Record(header, RowValues(rows[0], useDisplayValue));
        assert Fitting(header, rows, useDisplayValue) == 1 + Fitting(header, rest, useDisplayValue);
        assert Written(header, rows, useDisplayValue) == [rec] + Written(header, rest, useDisplayValue);
        AppendAssoc(s.records, [rec], Written(header, rest, useDisplayValue));
      } else {
        assert Fitting(header, rows, useDisplayValue) == 0;
        assert Written(header, rows, useDisplayValue) == [];
        assert s.records + [] == s.records;
      }
    }
  }

  /** The envelope's end stops a running conversion and leaves everything else as it is. */
  lemma EnvelopeEndRun(t: State, useDisplayValue: bool)
    requires Valid(t)
    ensures Run(t, [End(Envelope)], useDisplayValue) == if t.phase == Running then t.(phase := Stopped) else t
  {
    assert [End(Envelope)][0] == End(Envelope) && [End(Envelope)][1..] == [];
  }

  /** A non-empty sequence of rows from the initial state: the first opens the writer, the rest are written. */
  lemma AllRowsRun(rows: seq<Row>, useDisplayValue: bool)
    requires rows != [] && forall i :: 0 <= i < |rows| ==> WellFormedRow(rows[i])
    ensures var t := Run(Initial, RowsEvents(rows), useDisplayValue);
      var header := Tags(rows[0].fields);
      var k := Fitting(header, rows[1..], useDisplayValue);
      && t.writer == Some(header)
      && t.records == Written(header, rows[1..], useDisplayValue)
      && t.rowcount == (if k == |rows| - 1 then |rows| else k + 2)
      && t.phase == (if k == |rows| - 1 then Running
                     else Raised(ExtraFields(ExtraKeys(header, RowValues(rows[1..][k], useDisplayValue)))))
  {
    var rest := rows[1..];
    assert RowsEvents(rows) == RowEvents(rows[0]) + RowsEvents(rest);
    RunAppend(Initial, RowEvents(rows[0]), RowsEvents(rest), useDisplayValue);
    FirstRowRun(Initial, rows[0], useDisplayValue);
    var s1 := Run(Initial, RowEvents(rows[0]), useDisplayValue);
    assert forall i :: 0 <= i < |rest| ==> rest[i] == rows[i + 1];
    LaterRowsRun(s1, rest, useDisplayValue);
    var w := Written(Tags(rows[0].fields), rest, useDisplayValue);
    assert [] + w == w;
  }

  /** The rows of a dump, then the envelope's end, from the initial state. */
  lemma RowsThenEnd(rows: seq<Row>, useDisplayValue: bool)
    requires forall i :: 0 <= i < |rows| ==> WellFormedRow(rows[i])
    ensures Outcome(Run(Run(Initial, RowsEvents(rows), useDisplayValue), [End(Envelope)], useDisplayValue))
         == ExpectedRows(rows, useDisplayValue)
  {
    var t := Run(Initial, RowsEvents(rows), useDisplayValue);
    EnvelopeEndRun(t, useDisplayValue);
    if rows != [] {
      AllRowsRun(rows, useDisplayValue);
    }
  }

  /**
   * Converting the event stream of a well-formed dump yields exactly the
   * row-by-row outcome `Expected`.
   */
  lemma ConvertDump(dump: Dump, useDisplayValue: bool)
    requires WellFormed(dump)
    ensures Convert(DumpEvents(dump), useDisplayValue) == Expected(dump, useDisplayValue)
  {
    var open := Start(Envelope, None, dump.attrs, None);
    var body := RowsEvents(dump.rows);
    assert DumpEvents(dump) == [open] + body + [End(Envelope)];
    RunAppend(Initial, [open] + body, [End(Envelope)], useDisplayValue);
    RunAppend(Initial, [open], body, useDisplayValue);
    assert Run(Initial, [open], useDisplayValue) == Step(Initial, open, useDisplayValue);
    if UnloadDate in dump.attrs {
      assert Step(Initial, open, useDisplayValue) == Initial;
      RowsThenEnd(dump.rows, useDisplayValue);
    }
  }
}
