/**
 * The streaming conversion of a table dump into CSV records.
 *
 * The XML parser is not modelled: the converter consumes the stream of
 * element-open (`Start`) and element-close (`End`) events the parser
 * reports, in document order. The conversion state (the working field-name
 * list, the working field-value map, the row counter, the first-row flag,
 * the current table tag and the CSV writer) is updated event by event;
 * `Step` is one event, `Run` a whole stream, and the method
 * `ConvertXmlToCsv` is the loop itself, proved to compute `Convert`.
 */
module Converter {
  import opened Optional

  /** Tag of the envelope element that wraps every row of a dump. */
  const Envelope: string := "unload"
  /** Attribute of the envelope that the converter reads (and then ignores). */
  const UnloadDate: string := "unload_date"
  /** Attribute of a field element holding its human-readable rendering. */
  const DisplayValue: string := "display_value"

  /**
   * A parser event. `parent` is the tag of the enclosing element, `None` for
   * the document root; `text` is the element's text, `None` when it has none.
   */
  datatype Event =
    | Start(tag: string, parent: Option<string>, attrs: map<string, string>, text: Option<string>)
    | End(tag: string)

  /** The exceptions that escape the conversion (only I/O errors are caught). */
  datatype Error =
    | MissingUnloadDate         // KeyError: the envelope lacks `unload_date`
    | NoParent                  // AttributeError: a root element that is not the envelope
    | UnboundTableName          // UnboundLocalError: an element closes before any row began
    | ExtraFields(keys: set<string>)  // ValueError from the CSV writer: keys not in the header

  /** Still reading events, left the loop at the envelope's end, or aborted. */
  datatype Phase = Running | Stopped | Raised(error: Error)

  /**
   * The conversion's variables. `writer` is the CSV writer once opened, given
   * by the field names it was opened with (its header); `records` are the
   * data records written through it so far.
   */
  datatype State = State(
    rowheader: seq<string>,
    rowvalues: map<string, string>,
    rowcount: nat,
    firstline: bool,
    tablename: Option<string>,
    writer: Option<seq<string>>,
    records: seq<seq<string>>,
    phase: Phase)

  datatype Status = Completed | Failed(error: Error)

  /**
   * What a conversion leaves behind: whether it completed, the header
   * written when the output file was opened (`None`: no file was created),
   * the data records written after it, and the row count reported.
   */
  datatype Conversion = Conversion(
    status: Status,
    header: Option<seq<string>>,
    records: seq<seq<string>>,
    rowcount: nat)

  const Initial: State := State([], map[], 0, true, None, None, [], Running)

  /**
   * The conversion's invariant: the writer is open exactly when the first
   * row is over, and no record is written before it is.
   */
  ghost predicate Valid(s: State) {
    && (s.firstline <==> s.writer.None?)
    && (s.firstline ==> s.records == [])
  }

  /** An element directly inside the envelope: the start of a row. */
  predicate IsRowStart(e: Event) {
    e.Start? && e.tag != Envelope && e.parent == Some(Envelope)
  }

  /**
   * The value stored for a field: its display value when display mode is on
   * and the attribute is present and non-empty, otherwise its text, and
   * nothing when it has no text either.
   */
  function SelectValue(useDisplayValue: bool, attrs: map<string, string>, text: Option<string>): (v: Option<string>)
    ensures useDisplayValue && DisplayValue in attrs && attrs[DisplayValue] != "" ==> v == Some(attrs[DisplayValue])
    ensures !(useDisplayValue && DisplayValue in attrs && attrs[DisplayValue] != "") ==> v == text
  {
    if useDisplayValue && DisplayValue in attrs && attrs[DisplayValue] != "" then Some(attrs[DisplayValue])
    else text
  }

  /** The keys of a row that the writer's header does not list. */
  function ExtraKeys(header: seq<string>, values: map<string, string>): (extra: set<string>)
    ensures extra <= values.Keys
    ensures forall k :: k in extra ==> k !in header
    ensures forall k :: k in values && k !in header ==> k in extra
    ensures extra == {} <==> forall k :: k in values ==> k in header
  {
    var extra := set k | k in values && k !in header;
    assert forall k :: k in values && k !in header ==> k in extra;
    extra
  }

  /**
   * The record the CSV writer makes of a row: one cell per header field, in
   * header order, holding the row's value or the empty string.
   */
  function Record(header: seq<string>, values: map<string, string>): (r: seq<string>)
    ensures |r| == |header|
    ensures forall j :: 0 <= j < |r| && header[j] !in values ==> r[j] == ""
    ensures forall j :: 0 <= j < |r| && header[j] in values ==> r[j] == values[header[j]]
  {
    seq(|header|, j requires 0 <= j < |header| => if header[j] in values then values[header[j]] else "")
  }

  /**
   * One event. A row start resets the working list and map and counts the
   * row; a field start extends the list during the first row and stores the
   * selected value; the envelope's end stops; the end of the current table
   * tag opens the writer with the first row's field names, or writes the
   * working map as a record and clears it.
   */
  function Step(s: State, e: Event, useDisplayValue: bool): (t: State)
    requires s.phase == Running && Valid(s)
    ensures Valid(t)
    ensures s.writer.Some? ==> t.writer == s.writer
    ensures t.records == s.records || (|t.records| == |s.records| + 1 && t.records[..|s.records|] == s.records)
    ensures t.rowcount == s.rowcount + (if IsRowStart(e) then 1 else 0)
    ensures t.phase == Stopped <==> e == End(Envelope)
    // any close of the current table tag ends the row, whatever element it belongs to
    ensures e.End? && e.tag != Envelope && s.tablename == Some(e.tag) ==>
      if s.firstline then t.writer == Some(s.rowheader) && !t.firstline && t.records == s.records
      else if ExtraKeys(s.writer.value, s.rowvalues) == {} then
        t.phase == Running && t.records == s.records + [Record(s.writer.value, s.rowvalues)] && t.rowvalues == map[]
      else t.phase == Raised(ExtraFields(ExtraKeys(s.writer.value, s.rowvalues))) && t.records == s.records
  {
    match e
    case Start(tag, parent, attrs, text) =>
      if tag == Envelope then
        if UnloadDate in attrs then s else s.(phase := Raised(MissingUnloadDate))
      else if parent.None? then s.(phase := Raised(NoParent))
      else if parent.value == Envelope then
        s.(tablename := Some(tag), rowvalues := map[], rowheader := [], rowcount := s.rowcount + 1)
      else
        var v := SelectValue(useDisplayValue, attrs, text);
        s.(rowheader := if s.firstline then s.rowheader + [tag] else s.rowheader,
           rowvalues := if v.Some? then s.rowvalues[tag := v.value] else s.rowvalues)
    case End(tag) =>
      if tag == Envelope then s.(phase := Stopped)
      else if s.tablename.None? then s.(phase := Raised(UnboundTableName))
      else if tag != s.tablename.value then s
      else if s.firstline then s.(writer := Some(s.rowheader), firstline := false)
      else
        var extra := ExtraKeys(s.writer.value, s.rowvalues);
        if extra != {} then s.(phase := Raised(ExtraFields(extra)))
        else s.(records := s.records + [Record(s.writer.value, s.rowvalues)], rowvalues := map[], rowheader := [])
  }

  /**
   * A stream of events, until it runs out or the conversion stops. The
   * invariant holds throughout, the header never changes once written and
   * records are only ever appended.
   */
  function Run(s: State, events: seq<Event>, useDisplayValue: bool): (t: State)
    requires Valid(s)
    ensures Valid(t)
    ensures s.writer.Some? ==> t.writer == s.writer
    ensures s.records <= t.records
    ensures s.rowcount <= t.rowcount
    ensures s.phase != Running ==> t == s
    decreases |events|
  {
    if events == [] || s.phase != Running then s
    else Run(Step(s, events[0], useDisplayValue), events[1..], useDisplayValue)
  }

  /** A running conversion reads the next event and goes on with the rest. */
  lemma RunNext(s: State, events: seq<Event>, i: nat, useDisplayValue: bool)
    requires Valid(s) && s.phase == Running && i < |events|
    ensures Run(s, events[i..], useDisplayValue)
         == Run(Step(s, events[i], useDisplayValue), events[i + 1..], useDisplayValue)
  {
    assert events[i..][0] == events[i] && events[i..][1..] == events[i + 1..];
  }

  /** The outcome of a run, as the caller sees it. */
  function Outcome(s: State): Conversion
  {
    Conversion(if s.phase.Raised? then Failed(s.phase.error) else Completed, s.writer, s.records, s.rowcount)
  }

  /** The conversion of a whole event stream. */
  function Convert(events: seq<Event>, useDisplayValue: bool): (c: Conversion)
    ensures c.header.None? ==> c.records == []
  {
    Outcome(Run(Initial, events, useDisplayValue))
  }

  /**
   * The conversion loop: reads the events one at a time and updates the
   * conversion's variables in place, leaving the loop at the envelope's end
   * and returning early when an exception escapes.
   */
  method ConvertXmlToCsv(events: seq<Event>, useDisplayValue: bool) returns (result: Conversion)
    ensures result == Convert(events, useDisplayValue)
  {
    var rowheader: seq<string> := [];
    var rowvalues: map<string, string> := map[];
    var rowcount: nat := 0;
    var firstline := true;
    var tablename: Option<string> := None;
    var writer: Option<seq<string>> := None;
    var records: seq<seq<string>> := [];
    var i := 0;
    while i < |events|
      invariant i <= |events|
      decreases |events| - i
      invariant Valid(State(rowheader, rowvalues, rowcount, firstline, tablename, writer, records, Running))
      invariant Run(Initial, events, useDisplayValue)
             == Run(State(rowheader, rowvalues, rowcount, firstline, tablename, writer, records, Running), events[i..], useDisplayValue)
    {
      ghost var before := State(rowheader, rowvalues, rowcount, firstline, tablename, writer, records, Running);
      RunNext(before, events, i, useDisplayValue);
      ghost var after := Step(before, events[i], useDisplayValue);
      match events[i] {
      case Start(tag, parent, attrs, text) =>
        if tag == Envelope {
          if UnloadDate !in attrs {
            return Conversion(Failed(MissingUnloadDate), writer, records, rowcount);
          }
        } else if parent.None? {
          return Conversion(Failed(NoParent), writer, records, rowcount);
        } else if parent.value == Envelope {
          // a new row: remember its tag and forget the previous row
          tablename := Some(tag);
          rowvalues := map[];
          rowheader := [];
          rowcount := rowcount + 1;
        } else {
          if firstline {
            rowheader := rowheader + [tag];
          }
          var v := SelectValue(useDisplayValue, attrs, text);
          if v.Some? {
            rowvalues := rowvalues[tag := v.value];
          }
        }
      case End(tag) =>
        if tag == Envelope {
          break;
        }
        if tablename.None? {
          return Conversion(Failed(UnboundTableName), writer, records, rowcount);
        }
        if tag == tablename.value {
          if firstline {
            // open the output with the first row's field names as header
            writer := Some(rowheader);
            firstline := false;
          } else {
            var extra := ExtraKeys(writer.value, rowvalues);
            if extra != {} {
              return Conversion(Failed(ExtraFields(extra)), writer, records, rowcount);
            }
            records := records + [Record(writer.value, rowvalues)];
            rowvalues := map[];
            rowheader := [];
          }
        }
      }
      assert State(rowheader, rowvalues, rowcount, firstline, tablename, writer, records, Running) == after;
      i := i + 1;
    }
    result := Conversion(Completed, writer, records, rowcount);
  }
}
