/**
 * Properties of the conversion over arbitrary event streams: how runs
 * compose, what stops them, what the row counter counts, that a stream
 * without rows creates no file, and that every record is as wide as the
 * header.
 */
module ConverterProperties {
  import opened Optional
  import opened Converter

  /** The events before the envelope's closing tag (all of them if it never closes). */
  function EnvelopeBody(events: seq<Event>): (body: seq<Event>)
    ensures body <= events
    ensures End(Envelope) !in body
    ensures |body| < |events| ==> events[|body|] == End(Envelope)
  {
    if events == [] || events[0] == End(Envelope) then []
    else [events[0]] + EnvelopeBody(events[1..])
  }

  /** The number of row starts in a stream. */
  function CountRowStarts(events: seq<Event>): nat
  {
    if events == [] then 0
    else (if IsRowStart(events[0]) then 1 else 0) + CountRowStarts(events[1..])
  }

  /** Running two streams one after the other is running their concatenation. */
  lemma {:induction false} RunAppend(s: State, a: seq<Event>, b: seq<Event>, useDisplayValue: bool)
    requires Valid(s)
    ensures Run(s, a + b, useDisplayValue) == Run(Run(s, a, useDisplayValue), b, useDisplayValue)
    decreases |a|
  {
    if a != [] && s.phase == Running {
      assert (a + b)[0] == a[0] && (a + b)[1..] == a[1..] + b;
      RunAppend(Step(s, a[0], useDisplayValue), a[1..], b, useDisplayValue);
    } else if a == [] {
      assert a + b == b;
    }
  }

  /** A run still going has not seen the envelope close. */
  lemma {:induction false} RunningHasNoEnvelopeEnd(s: State, events: seq<Event>, useDisplayValue: bool)
    requires Valid(s)
    ensures Run(s, events, useDisplayValue).phase == Running ==> End(Envelope) !in events
    decreases |events|
  {
    if events != [] && s.phase == Running {
      RunningHasNoEnvelopeEnd(Step(s, events[0], useDisplayValue), events[1..], useDisplayValue);
      assert events == [events[0]] + events[1..];
    }
  }

  /** Processing stops at the envelope's closing tag: later events change nothing. */
  lemma IgnoredAfterEnvelopeEnd(events: seq<Event>, i: nat, useDisplayValue: bool)
    requires i < |events| && events[i] == End(Envelope)
    ensures Convert(events, useDisplayValue) == Convert(events[..i + 1], useDisplayValue)
  {
    assert events == events[..i + 1] + events[i + 1..];
    RunAppend(Initial, events[..i + 1], events[i + 1..], useDisplayValue);
    assert events[..i + 1][i] == End(Envelope);
    RunningHasNoEnvelopeEnd(Initial, events[..i + 1], useDisplayValue);
  }

  /**
   * The row counter counts the row starts before the envelope closes,
   * unless an exception cut the run short.
   */
  lemma {:induction false} RunRowCount(s: State, events: seq<Event>, useDisplayValue: bool)
    requires Valid(s) && s.phase == Running
    ensures var t := Run(s, events, useDisplayValue);
      !t.phase.Raised? ==> t.rowcount == s.rowcount + CountRowStarts(EnvelopeBody(events))
    decreases |events|
  {
    if events != [] && events[0] != End(Envelope) {
      var next := Step(s, events[0], useDisplayValue);
      if next.phase == Running {
        RunRowCount(next, events[1..], useDisplayValue);
        assert EnvelopeBody(events)[1..] == EnvelopeBody(events[1..]);
      }
    }
  }

  /** A completed conversion reports every row started inside the envelope. */
  lemma ConvertRowCount(events: seq<Event>, useDisplayValue: bool)
    ensures var c := Convert(events, useDisplayValue);
      c.status == Completed ==> c.rowcount == CountRowStarts(EnvelopeBody(events))
  {
    RunRowCount(Initial, events, useDisplayValue);
  }

  /** Without a row start no table tag is known, so no row can close and open the writer. */
  lemma {:induction false} RunWithoutRows(s: State, events: seq<Event>, useDisplayValue: bool)
    requires Valid(s) && s.tablename.None? && s.writer.None?
    requires CountRowStarts(EnvelopeBody(events)) == 0
    ensures Run(s, events, useDisplayValue).writer.None?
    ensures Run(s, events, useDisplayValue).records == []
    decreases |events|
  {
    if events != [] && s.phase == Running && events[0] != End(Envelope) {
      assert EnvelopeBody(events)[1..] == EnvelopeBody(events[1..]);
      RunWithoutRows(Step(s, events[0], useDisplayValue), events[1..], useDisplayValue);
    }
  }

  /** A stream with no row inside the envelope creates no CSV file and writes nothing. */
  lemma NoRowsNoFile(events: seq<Event>, useDisplayValue: bool)
    requires CountRowStarts(EnvelopeBody(events)) == 0
    ensures Convert(events, useDisplayValue).header == None
    ensures Convert(events, useDisplayValue).records == []
  {
    RunWithoutRows(Initial, events, useDisplayValue);
  }

  /** Every record written so far has one cell per header field. */
  ghost predicate RecordsFit(s: State) {
    s.writer.Some? ==> forall r :: r in s.records ==> |r| == |s.writer.value|
  }

  lemma {:induction false} RunRecordsFit(s: State, events: seq<Event>, useDisplayValue: bool)
    requires Valid(s) && RecordsFit(s)
    ensures RecordsFit(Run(s, events, useDisplayValue))
    decreases |events|
  {
    if events != [] && s.phase == Running {
      var next := Step(s, events[0], useDisplayValue);
      assert RecordsFit(next) by {
        if next.records != s.records {
          assert next.records == s.records + [Record(s.writer.value, s.rowvalues)];
        }
      }
      RunRecordsFit(next, events[1..], useDisplayValue);
    }
  }

  /** Every data record has exactly as many cells as the header. */
  lemma RecordWidth(events: seq<Event>, useDisplayValue: bool)
    ensures var c := Convert(events, useDisplayValue);
      forall r :: r in c.records ==> c.header.Some? && |r| == |c.header.value|
  {
    RunRecordsFit(Initial, events, useDisplayValue);
  }

  /**
   * A row ends at the first close of any element tagged like the row, nested
   * or not. In the first row, a field tagged like its row opens the writer
   * with the field names seen so far, its own tag included.
   */
  lemma NestedRowTagEndsFirstRow(s: State, t: string, attrs: map<string, string>, text: Option<string>, useDisplayValue: bool)
    requires Valid(s) && s.phase == Running && s.firstline
    requires t != Envelope && s.tablename == Some(t)
    ensures var u := Run(s, [Start(t, Some(t), attrs, text), End(t)], useDisplayValue);
      u.phase == Running && u.writer == Some(s.rowheader + [t]) && !u.firstline && u.records == []
  {
    var events := [Start(t, Some(t), attrs, text), End(t)];
    var s1 := Step(s, events[0], useDisplayValue);
    assert s1 == s.(rowheader := s.rowheader + [t], rowvalues := s1.rowvalues);
    assert events[1..] == [End(t)] && [End(t)][1..] == [];
    assert Run(s, events, useDisplayValue) == Run(s1, [End(t)], useDisplayValue);
    assert Run(s1, [End(t)], useDisplayValue) == Run(Step(s1, End(t), useDisplayValue), [], useDisplayValue);
  }
}
