/**
 * The replay log writer and loader (src/kitchen_rl/recording/serializers.py).
 * A file is the sequence of its physical lines, each already stripped and
 * classified: blank, not valid JSON, or a parsed JSON value. The writer
 * only ever produces parsed lines; gzip compression changes the bytes on
 * disk but not the lines, so it is not modelled.
 */
module Serializers {
  import opened Wrappers
  import opened Text
  import opened JsonValues
  import opened ReplayModels

  /** One physical line of a replay file after `strip()`. */
  datatype Line = Blank | Malformed | Record(value: Json)

  /**
   * A `JSONLSerializer`: whether a file handle is open, whether metadata was
   * written, and the lines of the file since it was last opened.
   */
  datatype Writer = Writer(isOpen: bool, metadataWritten: bool, lines: seq<Line>)

  /** The constructor: no handle, no metadata. */
  const NewWriter := Writer(false, false, [])

  const NotOpened := "RuntimeError: Serializer not opened. Call open() first."
  const MetadataTwice := "RuntimeError: Metadata already written."
  const MetadataMissing := "RuntimeError: Metadata must be written before events."

  /** `open`: mode 'w' truncates the file; the metadata flag is left as it was. */
  function Open(w: Writer): (r: Writer)
    ensures r.isOpen && r.lines == [] && r.metadataWritten == w.metadataWritten
  {
    Writer(true, w.metadataWritten, [])
  }

  /** `close`: drops the handle, keeps the flag and what was written. */
  function Close(w: Writer): (r: Writer)
    ensures !r.isOpen && r.metadataWritten == w.metadataWritten && r.lines == w.lines
  {
    w.(isOpen := false)
  }

  /** The line `write_metadata` writes: the metadata dictionary under the key "metadata". */
  function MetadataLine(m: ReplayMetadata): Json {
    JObj(map["metadata" := MetadataJson(m)])
  }

  function WriteMetadata(w: Writer, m: ReplayMetadata): (r: Result<Writer>)
    ensures r.Success? <==> w.isOpen && !w.metadataWritten
    ensures !w.isOpen ==> r == Failure(NotOpened)
    ensures w.isOpen && w.metadataWritten ==> r == Failure(MetadataTwice)
    ensures r.Success? ==> r.value.isOpen && r.value.metadataWritten && r.value.lines == w.lines + [Record(MetadataLine(m))]
  {
    if !w.isOpen then Failure(NotOpened)
    else if w.metadataWritten then Failure(MetadataTwice)
    else Success(Writer(true, true, w.lines + [Record(MetadataLine(m))]))
  }

  function WriteEvent(w: Writer, e: ReplayEvent): (r: Result<Writer>)
    ensures r.Success? <==> w.isOpen && w.metadataWritten
    ensures !w.isOpen ==> r == Failure(NotOpened)
    ensures w.isOpen && !w.metadataWritten ==> r == Failure(MetadataMissing)
    ensures r.Success? ==> r.value == w.(lines := w.lines + [Record(EventJson(e))])
  {
    if !w.isOpen then Failure(NotOpened)
    else if !w.metadataWritten then Failure(MetadataMissing)
    else Success(w.(lines := w.lines + [Record(EventJson(e))]))
  }

  /** The lines a list of events becomes, one per event, in order. */
  function EventLines(es: seq<ReplayEvent>): (ls: seq<Line>)
    ensures |ls| == |es|
  {
    if |es| == 0 then [] else [Record(EventJson(es[0]))] + EventLines(es[1..])
  }

  /** The event dictionaries of a list of events, in order. */
  function EventDicts(es: seq<ReplayEvent>): (js: seq<Json>)
    ensures |js| == |es| && forall i :: 0 <= i < |es| ==> js[i] == EventJson(es[i])
  {
    seq(|es|, i requires 0 <= i < |es| => EventJson(es[i]))
  }

  /**
   * `write_events`: the events one after another. The first failing write
   * raises; since a write fails only for reasons no write changes, that is
   * the first event, before anything was written.
   */
  function WriteEvents(w: Writer, es: seq<ReplayEvent>): (r: Result<Writer>)
    ensures r.Success? <==> |es| == 0 || (w.isOpen && w.metadataWritten)
    ensures r.Failure? ==> r == Failure(if !w.isOpen then NotOpened else MetadataMissing)
    decreases |es|
  {
    if |es| == 0 then Success(w)
    else
      var w1 :- WriteEvent(w, es[0]);
      WriteEvents(w1, es[1..])
  }

  /** A successful `write_events` appends the events' lines, in order, and changes nothing else. */
  lemma {:induction false} WriteEventsAppends(w: Writer, es: seq<ReplayEvent>)
    requires WriteEvents(w, es).Success?
    ensures WriteEvents(w, es).value == w.(lines := w.lines + EventLines(es))
    decreases |es|
  {
    if |es| == 0 {
      assert w.lines + EventLines(es) == w.lines;
    } else {
      var w1 := WriteEvent(w, es[0]).value;
      WriteEventsAppends(w1, es[1..]);
      assert w1.lines + EventLines(es[1..]) == w.lines + EventLines(es);
    }
  }

  /** The values of the parsed lines, in file order. */
  function Records(file: seq<Line>): (js: seq<Json>)
    ensures |js| <= |file|
  {
    if |file| == 0 then []
    else (if file[0].Record? then [file[0].value] else []) + Records(file[1..])
  }

  lemma {:induction false} RecordsAppend(a: seq<Line>, b: seq<Line>)
    ensures Records(a + b) == Records(a) + Records(b)
    decreases |a|
  {
    if |a| > 0 {
      RecordsAppend(a[1..], b);
      var head := if a[0].Record? then [a[0].value] else [];
      assert (a + b)[0] == a[0];
      assert (a + b)[1..] == a[1..] + b;
      calc {
        Records(a + b);
        head + Records(a[1..] + b);
        head + (Records(a[1..]) + Records(b));
        (head + Records(a[1..])) + Records(b);
      }
    } else {
      assert a + b == b;
    }
  }

  /**
   * The loader neither stops at nor keeps a blank or malformed line: the
   * records around it are kept, in order.
   */
  lemma SkipsNoise(a: seq<Line>, b: seq<Line>)
    ensures Records(a + [Blank] + b) == Records(a + b)
    ensures Records(a + [Malformed] + b) == Records(a + b)
    ensures Records(a + [Record(JNull)] + b) == Records(a) + [JNull] + Records(b)
  {
    RecordsAround(a, Blank, b);
    RecordsAround(a, Malformed, b);
    RecordsAround(a, Record(JNull), b);
    RecordsAppend(a, b);
    assert Records([Blank]) == [] && Records([Malformed]) == [] && Records([Record(JNull)]) == [JNull];
  }

  lemma RecordsAround(a: seq<Line>, x: Line, b: seq<Line>)
    ensures Records(a + [x] + b) == Records(a) + Records([x]) + Records(b)
  {
    RecordsAppend(a + [x], b);
    RecordsAppend(a, [x]);
  }

  lemma {:induction false} RecordsOfEventLines(es: seq<ReplayEvent>)
    ensures Records(EventLines(es)) == EventDicts(es)
    decreases |es|
  {
    if |es| > 0 {
      RecordsOfEventLines(es[1..]);
      assert EventLines(es)[1..] == EventLines(es[1..]);
      assert EventDicts(es) == [EventJson(es[0])] + EventDicts(es[1..]);
    }
  }

  /** `sub` occurs somewhere in `s`. */
  predicate Contains(s: string, sub: string)
    decreases |s|
  {
    |sub| <= |s| && (StartsWith(s, sub) || Contains(s[1..], sub))
  }

  /** Python's type name, as it appears in the `in` operator's TypeError. */
  function TypeName(j: Json): string {
    match j
    case JNull => "NoneType"
    case JBool(_) => "bool"
    case JInt(_) => "int"
    case JReal(_) => "float"
    case JStr(_) => "str"
    case JArr(_) => "list"
    case JObj(_) => "dict"
  }

  /**
   * `'metadata' in data`: a key test on a dictionary, an element test on a
   * list, a substring test on a string, and a TypeError on anything else.
   */
  function MentionsMetadata(data: Json): (r: Result<bool>)
    ensures r.Failure? <==> data.JNull? || data.JBool? || data.JInt? || data.JReal?
    ensures data.JObj? ==> r == Success("metadata" in data.fields)
  {
    match data
    case JObj(fields) => Success("metadata" in fields)
    case JArr(items) => Success(JStr("metadata") in items)
    case JStr(s) => Success(Contains(s, "metadata"))
    case _ => Failure("TypeError: argument of type '" + TypeName(data) + "' is not iterable")
  }

  /** `data['metadata']`, once the membership test has passed. */
  function MetadataOf(data: Json): (r: Result<Json>)
    ensures r.Success? <==> data.JObj? && "metadata" in data.fields
  {
    match data
    case JObj(fields) => if "metadata" in fields then Success(fields["metadata"]) else Failure("KeyError: 'metadata'")
    case JArr(_) => Failure("TypeError: list indices must be integers or slices, not str")
    case JStr(_) => Failure("TypeError: string indices must be integers")
    case _ => Failure("TypeError: '" + TypeName(data) + "' object is not subscriptable")
  }

  /**
   * `ReplayLoader.load`: physical line 1, when it parses and mentions
   * metadata, is read as the metadata; every other parsed line is an event.
   */
  function Load(file: seq<Line>): Result<(Option<Json>, seq<Json>)> {
    if |file| > 0 && file[0].Record? then
      var mentions :- MentionsMetadata(file[0].value);
      if mentions then
        var meta :- MetadataOf(file[0].value);
        Success((Some(meta), Records(file[1..])))
      else Success((None, Records(file)))
    else Success((None, Records(file)))
  }

  /**
   * The loader's contract on files whose first line is blank, malformed or a
   * dictionary: metadata is present exactly when line 1 is a dictionary with
   * a "metadata" key, and the events are the other parsed lines, in order.
   */
  lemma LoadClassifies(file: seq<Line>)
    requires |file| == 0 || !file[0].Record? || file[0].value.JObj?
    ensures Load(file).Success?
    ensures var first := |file| > 0 && file[0].Record? && "metadata" in file[0].value.fields;
      && (first ==> Load(file).value == (Some(file[0].value.fields["metadata"]), Records(file[1..])))
      && (!first ==> Load(file).value == (None, Records(file)))
  {
    if |file| > 0 && file[0].Record? {
      var j := file[0].value;
      assert MentionsMetadata(j) == Success("metadata" in j.fields);
      if "metadata" in j.fields {
        assert MetadataOf(j) == Success(j.fields["metadata"]);
      }
    }
  }

  /** Line 1 that is a bare number, boolean or null makes the load raise. */
  lemma LoadRejectsScalarFirstLine(file: seq<Line>)
    requires |file| > 0 && file[0].Record? && (file[0].value.JInt? || file[0].value.JNull?)
    ensures Load(file).Failure?
  {
  }

  /** A list on line 1 holding the text "metadata" passes the membership test and then fails to subscript. */
  lemma LoadRejectsMetadataList(rest: seq<Line>)
    ensures Load([Record(JArr([JStr("metadata")]))] + rest).Failure?
  {
    var file := [Record(JArr([JStr("metadata")]))] + rest;
    assert file[0] == Record(JArr([JStr("metadata")]));
    assert JStr("metadata") in file[0].value.items;
  }

  /** A writer keeps its log well-formed: with metadata written the file starts with the metadata line, and without it the file is empty. */
  predicate HeaderFirst(w: Writer) {
    && (w.metadataWritten ==> |w.lines| > 0 && w.lines[0].Record? && w.lines[0].value.JObj?
                              && w.lines[0].value.fields.Keys == {"metadata"})
    && (!w.metadataWritten ==> w.lines == [])
  }

  /**
   * Every write and close keeps the header first; opening keeps it only for
   * a serializer that never wrote metadata, because `open` truncates the file
   * without clearing the flag.
   */
  lemma HeaderFirstPreserved(w: Writer, m: ReplayMetadata, e: ReplayEvent)
    requires HeaderFirst(w)
    ensures WriteMetadata(w, m).Success? ==> HeaderFirst(WriteMetadata(w, m).value)
    ensures WriteEvent(w, e).Success? ==> HeaderFirst(WriteEvent(w, e).value)
    ensures HeaderFirst(Close(w))
    ensures HeaderFirst(Open(w)) <==> !w.metadataWritten
  {
    if WriteEvent(w, e).Success? {
      assert WriteEvent(w, e).value.lines[0] == w.lines[0];
    }
  }

  /**
   * After close and a second open, events are still accepted but land in a
   * file with no metadata line, so the loader reports no metadata.
   */
  lemma ReopenLosesMetadata(m: ReplayMetadata, e: ReplayEvent)
    ensures var w := WriteMetadata(Open(NewWriter), m).value;
      var again := WriteEvent(Open(Close(w)), e);
      && again.Success?
      && Load(again.value.lines) == Success((None, [EventJson(e)]))
  {
    var w := WriteMetadata(Open(NewWriter), m).value;
    var again := WriteEvent(Open(Close(w)), e).value;
    assert again.lines == [Record(EventJson(e))];
    assert "metadata" !in EventJson(e).fields;
    assert again.lines[0] == Record(EventJson(e));
    assert Records(again.lines) == [EventJson(e)];
  }

  /**
   * Writing metadata and then events on a freshly opened serializer, and
   * loading the file, gives back the metadata dictionary and the event
   * dictionaries in the order they were written.
   */
  lemma WriteThenLoad(w: Writer, m: ReplayMetadata, es: seq<ReplayEvent>)
    requires !w.metadataWritten
    ensures var w1 := WriteMetadata(Open(w), m);
      && w1.Success?
      && WriteEvents(w1.value, es).Success?
      && Load(WriteEvents(w1.value, es).value.lines) == Success((Some(MetadataJson(m)), EventDicts(es)))
  {
    var w1 := WriteMetadata(Open(w), m).value;
    WriteEventsAppends(w1, es);
    var w2 := WriteEvents(w1, es).value;
    assert w2.lines == [Record(MetadataLine(m))] + EventLines(es);
    RecordsOfEventLines(es);
    LoadAfterHeader(MetadataLine(m), EventLines(es));
  }

  /** A file whose first line is a dictionary with only the key "metadata" loads that value and the records after it. */
  lemma LoadAfterHeader(header: Json, rest: seq<Line>)
    requires header.JObj? && header.fields.Keys == {"metadata"}
    ensures Load([Record(header)] + rest) == Success((Some(header.fields["metadata"]), Records(rest)))
  {
    var file := [Record(header)] + rest;
    assert file[0] == Record(header);
    assert file[1..] == rest;
  }
}
