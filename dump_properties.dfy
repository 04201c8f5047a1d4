/**
 * What the conversion of a well-formed dump guarantees, read off the
 * row-by-row outcome, and the incident example worked through.
 */
module DumpProperties {
  import opened Optional
  import opened Converter
  import opened ConverterProperties
  import opened TableDump

  /**
   * When every later row fits the header, the conversion completes: the
   * header is the first row's field tags, there is one record per LATER
   * row (the first row's values are lost), in order, each in header order
   * with empty cells for absent fields, and every row is counted.
   */
  lemma DumpRecords(dump: Dump, useDisplayValue: bool)
    requires WellFormed(dump) && UnloadDate in dump.attrs && |dump.rows| >= 1
    requires forall i :: 1 <= i < |dump.rows| ==>
      ExtraKeys(Tags(dump.rows[0].fields), RowValues(dump.rows[i], useDisplayValue)) == {}
    ensures var c := Convert(DumpEvents(dump), useDisplayValue);
      var header := Tags(dump.rows[0].fields);
      && c.status == Completed
      && c.header == Some(header)
      && |c.records| == |dump.rows| - 1
      && (forall i :: 0 <= i < |c.records| ==> c.records[i] == Record(header, RowValues(dump.rows[i + 1], useDisplayValue)))
      && c.rowcount == |dump.rows|
  {
    ConvertDump(dump, useDisplayValue);
    var header := Tags(dump.rows[0].fields);
    var later := dump.rows[1..];
    assert forall i :: 0 <= i < |later| ==> later[i] == dump.rows[i + 1];
  }

  /**
   * A later row that stores a value under a tag missing from the header
   * makes the CSV writer raise: the conversion fails before that row's
   * record is written.
   */
  lemma DumpExtraFieldAborts(dump: Dump, useDisplayValue: bool, j: nat)
    requires WellFormed(dump) && UnloadDate in dump.attrs && 1 <= j < |dump.rows|
    requires ExtraKeys(Tags(dump.rows[0].fields), RowValues(dump.rows[j], useDisplayValue)) != {}
    ensures var c := Convert(DumpEvents(dump), useDisplayValue);
      c.status.Failed? && c.status.error.ExtraFields? && |c.records| < j
  {
    ConvertDump(dump, useDisplayValue);
    var header := Tags(dump.rows[0].fields);
    var later := dump.rows[1..];
    assert later[j - 1] == dump.rows[j];
  }

  /** A dump without rows creates no CSV file. */
  lemma DumpWithoutRows(dump: Dump, useDisplayValue: bool)
    requires UnloadDate in dump.attrs && dump.rows == []
    ensures Convert(DumpEvents(dump), useDisplayValue) == Conversion(Completed, None, [], 0)
  {
    ConvertDump(dump, useDisplayValue);
  }

  /** Two incidents; each state carries a display value beside its stored value. */
  function Incidents(): Dump
  {
    Dump(map[UnloadDate := "2017-03-01 10:00:00"], [
      Row("incident", [Field("number", map[], Some("INC001")),
                       Field("state", map[DisplayValue := "Closed"], Some("7"))]),
      Row("incident", [Field("number", map[], Some("INC002")),
                       Field("state", map[DisplayValue := "New"], Some("1"))])])
  }

  /** The two incidents converted in one mode: `value` is the second incident's state as written. */
  lemma IncidentsConvertedIn(useDisplayValue: bool, value: string)
    requires value == if useDisplayValue then "New" else "1"
    ensures Convert(DumpEvents(Incidents()), useDisplayValue)
         == Conversion(Completed, Some(["number", "state"]), [["INC002", value]], 2)
  {
    var dump := Incidents();
    var second := dump.rows[1];
    assert WellFormedRow(dump.rows[0]) && WellFormedRow(second);
    ConvertDump(dump, useDisplayValue);
    var header := Tags(dump.rows[0].fields);
    assert header == ["number", "state"];
    var fields := second.fields;
    var m1 := map["number" := "INC002"];
    assert fields[0].attrs == map[] && fields[0].text == Some("INC002");
    assert fields[1].attrs == map[DisplayValue := "New"] && fields[1].text == Some("1");
    assert fields[1..][0] == fields[1] && fields[1..][1..] == [];
    assert SelectValue(useDisplayValue, fields[0].attrs, fields[0].text) == Some("INC002");
    assert SelectValue(useDisplayValue, fields[1].attrs, fields[1].text) == Some(value);
    assert RowValues(second, useDisplayValue) == Store(m1, fields[1..], useDisplayValue) == Store(m1["state" := value], [], useDisplayValue);
    assert ExtraKeys(header, RowValues(second, useDisplayValue)) == {};
    assert Record(header, RowValues(second, useDisplayValue)) == ["INC002", value];
  }

  /**
   * The header is `number,state`; only the second incident is written, with
   * its display value in display mode and its stored value otherwise.
   */
  lemma IncidentsConverted()
    ensures Convert(DumpEvents(Incidents()), true) == Conversion(Completed, Some(["number", "state"]), [["INC002", "New"]], 2)
    ensures Convert(DumpEvents(Incidents()), false) == Conversion(Completed, Some(["number", "state"]), [["INC002", "1"]], 2)
  {
    IncidentsConvertedIn(true, "New");
    IncidentsConvertedIn(false, "1");
  }

  /**
   * An incident whose field is itself tagged `incident`: the inner close ends
   * the first row, so the header is `number,incident`, and the outer close
   * then tries to write `state`, which the header lacks.
   */
  function NestedIncident(): seq<Event>
  {
    [Start(Envelope, None, map[UnloadDate := "2017-03-01 10:00:00"], None),
     Start("incident", Some(Envelope), map[], None),
     Start("number", Some("incident"), map[], Some("1")), End("number"),
     Start("incident", Some("incident"), map[], Some("x")), End("incident"),
     Start("state", Some("incident"), map[], Some("2")), End("state"),
     End("incident"),
     End(Envelope)]
  }

  /** The conversion state once the nested `incident` has closed. */
  function NestedIncidentHeaderOpen(): State
  {
    State(["number", "incident"], map["number" := "1", "incident" := "x"], 1, false, Some("incident"),
          Some(["number", "incident"]), [], Running)
  }

  lemma NestedIncidentFirstRow(events: seq<Event>, d: bool)
    requires events == NestedIncident()
    ensures Run(Initial, events, d) == Run(NestedIncidentHeaderOpen(), events[6..], d)
  {
    var s1 := Step(Initial, events[0], d);
    assert s1 == Initial;
    var s2 := Step(s1, events[1], d);
    assert s2 == State([], map[], 1, true, Some("incident"), None, [], Running);
    var s3 := Step(s2, events[2], d);
    assert s3 == s2.(rowheader := ["number"], rowvalues := map["number" := "1"]);
    var s4 := Step(s3, events[3], d);
    assert s4 == s3;
    var s5 := Step(s4, events[4], d);
    assert s5 == s4.(rowheader := ["number", "incident"], rowvalues := map["number" := "1", "incident" := "x"]);
    assert Step(s5, events[5], d) == NestedIncidentHeaderOpen();
    RunNext(Initial, events, 0, d);
    RunNext(s1, events, 1, d);
    RunNext(s2, events, 2, d);
    RunNext(s3, events, 3, d);
    RunNext(s4, events, 4, d);
    RunNext(s5, events, 5, d);
    assert events[0..] == events;
  }

  lemma NestedIncidentOuterClose(events: seq<Event>, d: bool)
    requires events == NestedIncident()
    ensures Run(NestedIncidentHeaderOpen(), events[6..], d)
         == NestedIncidentHeaderOpen().(rowvalues := map["number" := "1", "incident" := "x", "state" := "2"],
                                        phase := Raised(ExtraFields({"state"})))
  {
    var s6 := NestedIncidentHeaderOpen();
    var values := map["number" := "1", "incident" := "x", "state" := "2"];
    var s7 := Step(s6, events[6], d);
    assert s7 == s6.(rowvalues := values);
    var s8 := Step(s7, events[7], d);
    assert s8 == s7;
    assert ExtraKeys(["number", "incident"], values) == {"state"};
    var s9 := Step(s8, events[8], d);
    assert s9 == s8.(phase := Raised(ExtraFields({"state"})));
    RunNext(s6, events, 6, d);
    RunNext(s7, events, 7, d);
    RunNext(s8, events, 8, d);
  }

  lemma NestedIncidentConverted(useDisplayValue: bool)
    ensures Convert(NestedIncident(), useDisplayValue)
         == Conversion(Failed(ExtraFields({"state"})), Some(["number", "incident"]), [], 1)
  {
    var events := NestedIncident();
    NestedIncidentFirstRow(events, useDisplayValue);
    NestedIncidentOuterClose(events, useDisplayValue);
  }
}
