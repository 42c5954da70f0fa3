/**
 The event-stream reader of frontend/src/utils/sse.ts: the line parser of one frame and
 the loop that cuts frames out of whatever pieces the network delivers.  The format is the
 subset of server-sent events (section 9.2.6 of the WHATWG HTML Living Standard) with LF
 line ends and trimmed fields.
 */
module SseStream {
  import opened JsText
  import opened Text

  /** What `JSON.parse` makes of a text, as far as the parser looks at it. */
  datatype Json = Malformed | Null | Value(isV2: bool, hasIds: bool)

  /** An event passed on: parsed from a data text, or the raw text of unparsable data. */
  datatype Event = Parsed(name: string, text: string) | Raw(name: string, text: string)

  /** What the parser passes on for an event name and its data text. */
  function Interpret(json: string -> Json, name: string, data: string): seq<Event> {
    match json(data)
    case Malformed => [Raw(name, data)]
    case Null => if name == "state" || name == "done" then [Raw(name, data)] else []
    case Value(v2, ids) =>
      if (name == "state" && v2) || (name == "done" && v2 && ids) then [Parsed(name, data)] else []
  }

  /** What is passed on, kind by kind: raw text only of data that does not parse or of a null, and events only of the protocol. */
  lemma InterpretMeans(json: string -> Json, name: string, data: string)
    ensures json(data) == Malformed ==> Interpret(json, name, data) == [Raw(name, data)]
    ensures json(data) == Null ==> Interpret(json, name, data) == if name in {"state", "done"} then [Raw(name, data)] else []
    ensures json(data).Value? ==>
              Interpret(json, name, data)
              == if json(data).isV2 && (name == "state" || (name == "done" && json(data).hasIds)) then [Parsed(name, data)] else []
  {}

  predicate StartsWith(s: string, prefix: string) {
    prefix <= s
  }

  /** The trimmed text of the last `event:` line. */
  function EventName(lines: seq<string>): string {
    if lines == [] then "message"
    else
      var last := lines[|lines| - 1];
      if StartsWith(last, "event:") then JsTrim(last[6..]) else EventName(lines[..|lines| - 1])
  }

  /** The trimmed texts of the `data:` lines, in order. */
  function DataLines(lines: seq<string>): seq<string> {
    if lines == [] then []
    else
      var last := lines[|lines| - 1];
      DataLines(lines[..|lines| - 1]) + if StartsWith(last, "data:") then [JsTrim(last[5..])] else []
  }

  /** The events of one frame. */
  function FrameEvents(json: string -> Json, frame: string): seq<Event> {
    var lines := Split(frame, "\n");
    if DataLines(lines) == [] then [] else Interpret(json, EventName(lines), Join(DataLines(lines), "\n"))
  }

  /** The event name is that of the last `event:` line, and "message" if there is none. */
  lemma {:induction false} NameIsLast(lines: seq<string>, k: nat)
    ensures (forall l <- lines :: !("event:" <= l)) ==> EventName(lines) == "message"
    ensures k < |lines| && "event:" <= lines[k] && (forall j | k < j < |lines| :: !("event:" <= lines[j]))
            ==> EventName(lines) == JsTrim(lines[k][6..])
    decreases |lines|
  {
    hide JsTrim;
    if lines != [] {
      var n := |lines| - 1;
      if k < n {
        NameIsLast(lines[..n], k);
      } else {
        NameIsLast(lines[..n], n);
      }
      assert lines == lines[..n] + [lines[n]] && lines[n] in lines;
      assert forall l <- lines[..n] :: l in lines;
    }
  }

  /** The data lines are collected line by line, each without its field name and trimmed. */
  lemma {:induction false} DataLineByLine(a: seq<string>, b: seq<string>, line: string)
    ensures DataLines(a + b) == DataLines(a) + DataLines(b)
    ensures DataLines([line]) == if "data:" <= line then [JsTrim(line[5..])] else []
    decreases |b|
  {
    hide JsTrim;
    assert [line][..0] == [];
    if b == [] {
      assert a + b == a;
    } else {
      DataLineByLine(a, b[..|b| - 1], line);
      assert (a + b)[..|a + b| - 1] == a + b[..|b| - 1];
    }
  }

  /** A frame without data gives nothing; otherwise its data lines are joined by line ends and read under the frame's name. */
  lemma FrameMeans(json: string -> Json, frame: string)
    ensures var lines := Split(frame, "\n");
            FrameEvents(json, frame)
            == if DataLines(lines) == [] then [] else Interpret(json, EventName(lines), Join(DataLines(lines), "\n"))
  {}

  /** `parseChunk`. */
  method ParseChunk(json: string -> Json, rawEvent: string) returns (events: seq<Event>)
    ensures events == FrameEvents(json, rawEvent)
  {
    var lines := Split(rawEvent, "\n");
    var eventName := "message";
    var dataLines: seq<string> := [];
    for i := 0 to |lines|
      invariant eventName == EventName(lines[..i])
      invariant dataLines == DataLines(lines[..i])
    {
      var line := lines[i];
      assert lines[..i + 1][..i] == lines[..i];
      if StartsWith(line, "event:") {
        assert line[0] == 'e' && !StartsWith(line, "data:");
        eventName := JsTrim(line[6..]);
      } else if StartsWith(line, "data:") {
        dataLines := dataLines + [JsTrim(line[5..])];
      }
    }
    assert lines[..|lines|] == lines;
    if dataLines == [] {
      return [];
    }
    var rawData := Join(dataLines, "\n");
    match json(rawData) {
      case Malformed => events := [Raw(eventName, rawData)];
      case Null => events := if eventName == "state" || eventName == "done" then [Raw(eventName, rawData)] else [];
      case Value(v2, ids) =>
        if eventName == "state" {
          events := if v2 then [Parsed("state", rawData)] else [];
        } else if eventName == "done" && v2 && ids {
          events := [Parsed("done", rawData)];
        } else {
          events := [];
        }
    }
  }

  // ---------------------------------------------------------------------------
  // Whole texts.

  /** The events of the parts of a text, each part trimmed and parsed. */
  function PartEvents(json: string -> Json, parts: seq<string>): seq<Event> {
    if parts == [] then []
    else PartEvents(json, parts[..|parts| - 1]) + FrameEvents(json, JsTrim(parts[|parts| - 1]))
  }

  /** The reference: split the whole text once on blank lines and parse each trimmed part. */
  function TextEvents(json: string -> Json, text: string): seq<Event> {
    PartEvents(json, Split(text, "\n\n"))
  }

  /** The events of the parts that a blank line has closed; they are all a broken connection delivers. */
  function ClosedEvents(json: string -> Json, text: string): seq<Event> {
    var parts := Split(text, "\n\n");
    PartEvents(json, parts[..|parts| - 1])
  }

  lemma {:induction false} PartEventsConcat(json: string -> Json, a: seq<string>, b: seq<string>)
    ensures PartEvents(json, a + b) == PartEvents(json, a) + PartEvents(json, b)
  {
    hide FrameEvents;
    if b == [] {
      assert a + b == a;
    } else {
      PartEventsConcat(json, a, b[..|b| - 1]);
      assert (a + b)[..|a + b| - 1] == a + b[..|b| - 1];
    }
  }

  lemma EmptyFrame(json: string -> Json)
    ensures FrameEvents(json, "") == []
  {
    assert Split("", "\n") == [""];
    assert [""][..0] == [];
    assert DataLines([""]) == DataLines([]) + [];
  }

  /** Blanks around a part make no difference. */
  lemma PartsAreTrimmed(json: string -> Json, a: string, frame: string, b: string)
    requires AllBlank(a, JsBlank()) && AllBlank(b, JsBlank()) && Trimmed(frame, JsBlank())
    ensures PartEvents(json, [a + frame + b]) == FrameEvents(json, frame)
  {
    TrimPadded(a, frame, b, JsBlank());
    assert [a + frame + b][..0] == [];
    hide FrameEvents, Trim;
  }

  /** One more read: the open part grows, and the parts it closes come after those already closed. */
  lemma NextRead(json: string -> Json, text: string, more: string)
    ensures var before, next, parts := Split(text, "\n\n"), Split(text + more, "\n\n"), Split(LastPart(text) + more, "\n\n");
            && LastPart(text + more) == parts[|parts| - 1]
            && ClosedEvents(json, text + more) == ClosedEvents(json, text) + PartEvents(json, parts[..|parts| - 1])
  {
    hide FrameEvents, Split;
    SplitMore(text, more, "\n\n");
    var before, next := Split(text, "\n\n"), Split(text + more, "\n\n");
    var parts := Split(LastPart(text) + more, "\n\n");
    assert next[..|next| - 1] == before[..|before| - 1] + parts[..|parts| - 1];
    PartEventsConcat(json, before[..|before| - 1], parts[..|parts| - 1]);
  }

  /** The part of a text that no blank line has closed yet. */
  function LastPart(text: string): string {
    var parts := Split(text, "\n\n");
    parts[|parts| - 1]
  }

  /** The inner loop: parses the parts that a read has closed. */
  method ParseParts(json: string -> Json, parts: seq<string>) returns (delivered: seq<Event>)
    ensures delivered == PartEvents(json, parts)
  {
    hide FrameEvents;
    delivered := [];
    for j := 0 to |parts|
      invariant delivered == PartEvents(json, parts[..j])
    {
      var events := ParseChunk(json, JsTrim(parts[j]));
      assert parts[..j + 1][..j] == parts[..j];
      delivered := delivered + events;
    }
    assert parts[..|parts|] == parts;
  }

  lemma NothingRead(json: string -> Json)
    ensures LastPart(Concat([])) == "" && ClosedEvents(json, Concat([])) == []
  {
    assert Split("", "\n\n") == [""];
    assert [""][..0] == [];
  }

  /** What a closed stream still has to pass on: the events of the open part. */
  lemma Flush(json: string -> Json, text: string)
    ensures TextEvents(json, text) == ClosedEvents(json, text) + FrameEvents(json, JsTrim(LastPart(text)))
  {
    hide FrameEvents, Split, JsTrim;
  }

  /** How the reads of one response end. */
  datatype Ending = Closed | Broken

  /**
   The read loop of `postSseStream`: `chunks` are the decoded pieces, the last one being the
   flush at the end of a closed stream.  Chunking does not matter: whatever the pieces, a
   closed stream delivers the events of the whole text, and a broken one those of the parts
   closed so far.
   */
  method ReadStream(json: string -> Json, chunks: seq<string>, ending: Ending) returns (delivered: seq<Event>)
    ensures delivered == if ending == Closed then TextEvents(json, Concat(chunks)) else ClosedEvents(json, Concat(chunks))
  {
    var buffer := "";
    delivered := [];
    NothingRead(json);
    EmptyFrame(json);
    hide FrameEvents, Split, Concat, ClosedEvents, TextEvents, PartEvents, LastPart, JsTrim;
    for i := 0 to |chunks|
      invariant buffer == LastPart(Concat(chunks[..i]))
      invariant delivered == ClosedEvents(json, Concat(chunks[..i]))
    {
      assert chunks[..i + 1] == chunks[..i] + [chunks[i]];
      ConcatEnd(chunks[..i], chunks[i]);
      NextRead(json, Concat(chunks[..i]), chunks[i]);
      buffer := buffer + chunks[i];
      var parts := Split(buffer, "\n\n");
      buffer := parts[|parts| - 1];
      parts := parts[..|parts| - 1];
      var events := ParseParts(json, parts);
      delivered := delivered + events;
    }
    assert chunks[..|chunks|] == chunks;
    if ending == Closed {
      Flush(json, Concat(chunks));
      if JsTrim(buffer) != "" {
        var events := ParseChunk(json, JsTrim(buffer));
        delivered := delivered + events;
      }
    }
  }

  /** What a broken stream has delivered is a beginning of what the whole stream would have delivered. */
  lemma BrokenIsPrefix(json: string -> Json, text: string, more: string)
    ensures ClosedEvents(json, text) <= TextEvents(json, text + more)
  {
    hide FrameEvents, Split;
    SplitMore(text, more, "\n\n");
    var parts := Split(text, "\n\n");
    PartEventsConcat(json, parts[..|parts| - 1], Split(parts[|parts| - 1] + more, "\n\n"));
  }

  // ---------------------------------------------------------------------------
  // The frames the server writes: state frames, pings and the final done frame.

  datatype WireFrame = WireFrame(name: string, data: string)

  /** `format_sse_event`, and the frame of `encode_with_metadata`. */
  function Encode(f: WireFrame): string {
    Head(f) + "\n\n"
  }

  function Head(f: WireFrame): string {
    "event: " + f.name + "\n" + "data: " + f.data
  }

  /** One line, not empty, with no blank at either end, as event names and what `json.dumps` makes of an object are. */
  predicate OneLine(text: string) {
    text != "" && Trimmed(text, JsBlank()) && '\n' !in text
  }

  predicate Wellformed(f: WireFrame) {
    OneLine(f.name) && OneLine(f.data)
  }

  function Encoded(frames: seq<WireFrame>): string {
    if frames == [] then "" else Encode(frames[0]) + Encoded(frames[1..])
  }

  function AllEvents(json: string -> Json, frames: seq<WireFrame>): seq<Event> {
    if frames == [] then [] else Interpret(json, frames[0].name, frames[0].data) + AllEvents(json, frames[1..])
  }

  lemma NotAt(s: string, sep: string, j: nat)
    requires sep != "" && (j >= |s| || s[j] != sep[0] || (|sep| > 1 && j + 1 < |s| && s[j + 1] != sep[1]))
    ensures !At(s, sep, j)
  {}

  lemma FrameSplits(f: WireFrame, rest: string)
    requires Wellformed(f)
    ensures Split(Encode(f) + rest, "\n\n") == [Head(f)] + Split(rest, "\n\n")
  {
    var first, second, frame := "event: " + f.name, "data: " + f.data, Head(f);
    var s := Encode(f) + rest;
    assert frame == first + "\n" + second && s == frame + "\n\n" + rest;
    assert s[|frame|..|frame| + 2] == "\n\n";
    LineHasNoBreak("event: ", f.name);
    LineHasNoBreak("data: ", f.data);
    forall j: nat | j < |frame| ensures !At(s, "\n\n", j) {
      assert s[j] == frame[j];
      if j < |first| {
        assert frame[j] == first[j];
      } else if j == |first| {
        assert s[j + 1] == frame[j + 1] == second[0];
      } else {
        assert frame[j] == second[j - |first| - 1];
      }
      NotAt(s, "\n\n", j);
    }
    SplitAt(s, "\n\n", |frame|);
    assert s[..|frame|] == frame && s[|frame| + 2..] == rest;
  }

  lemma LineHasNoBreak(field: string, text: string)
    requires '\n' !in field && OneLine(text)
    ensures forall j | 0 <= j < |field + text| :: (field + text)[j] != '\n'
  {}

  lemma FrameParses(json: string -> Json, f: WireFrame)
    requires Wellformed(f)
    ensures FrameEvents(json, JsTrim(Head(f))) == Interpret(json, f.name, f.data)
  {
    var first, second, frame := "event: " + f.name, "data: " + f.data, Head(f);
    assert frame == first + "\n" + second;
    assert frame[|frame| - 1] == f.data[|f.data| - 1] && frame[0] == 'e';
    TrimTrimmed(frame, JsBlank());
    FrameLines(f, first, second);
    NameAndData(f, first, second);
    hide Split, EventName, DataLines, Interpret, Trim, Head;
    assert Join([f.data], "\n") == f.data;
  }

  lemma FrameLines(f: WireFrame, first: string, second: string)
    requires Wellformed(f) && first == "event: " + f.name && second == "data: " + f.data
    ensures Split(first + "\n" + second, "\n") == [first, second]
  {
    var frame, n := first + "\n" + second, |first|;
    LineHasNoBreak("event: ", f.name);
    LineHasNoBreak("data: ", f.data);
    assert frame[n..n + 1] == "\n";
    forall j: nat | j < n ensures !At(frame, "\n", j) {
      assert frame[j] == first[j];
      NotAt(frame, "\n", j);
    }
    SplitAt(frame, "\n", n);
    assert frame[..n] == first && frame[n + 1..] == second;
    forall j: nat ensures !At(second, "\n", j) {
      NotAt(second, "\n", j);
    }
    assert Split(second, "\n") == [second];
  }

  lemma NameAndData(f: WireFrame, first: string, second: string)
    requires Wellformed(f) && first == "event: " + f.name && second == "data: " + f.data
    ensures EventName([first, second]) == f.name && DataLines([first, second]) == [f.data]
  {
    TrimSpace(f.name);
    TrimSpace(f.data);
    var lines := [first, second];
    assert lines[..1] == [first] && [first][..0] == [];
    assert second[0] == 'd' && first[0] == 'e';
    assert !StartsWith(second, "event:") && !StartsWith(first, "data:");
    hide Trim;
    assert first[6..] == " " + f.name;
    assert second[5..] == " " + f.data;
    assert first[..6] == "event:" && second[..5] == "data:";
    assert EventName([first]) == f.name;
    assert DataLines([first]) == [];
  }

  lemma TrimSpace(s: string)
    requires s != "" && Trimmed(s, JsBlank())
    ensures JsTrim(" " + s) == s
  {
    assert JsBlank()(' ');
    assert (" " + s)[1..] == s;
    assert TrimStart(" " + s, JsBlank()) == TrimStart(s, JsBlank());
  }

  /**
   Round trip: the frames the server encodes, whatever their names, come out as exactly
   their events, each once and in order.  With `ReadStream` this holds however the network
   cuts the bytes.
   */
  lemma {:induction false} EncodedFramesComeBack(json: string -> Json, frames: seq<WireFrame>)
    requires forall f <- frames :: Wellformed(f)
    ensures TextEvents(json, Encoded(frames)) == AllEvents(json, frames)
  {
    EmptyText(json);
    hide FrameEvents, Split, Interpret, Encode, Head, Trim, Wellformed;
    if frames != [] {
      var rest := Encoded(frames[1..]);
      var frame := Head(frames[0]);
      FrameSplits(frames[0], rest);
      FrameParses(json, frames[0]);
      EncodedFramesComeBack(json, frames[1..]);
      PartEventsConcat(json, [frame], Split(rest, "\n\n"));
      assert PartEvents(json, [frame]) == PartEvents(json, [frame][..0]) + FrameEvents(json, JsTrim(frame));
    }
  }

  lemma EmptyText(json: string -> Json)
    ensures TextEvents(json, "") == []
  {
    assert Split("", "\n\n") == [""];
    assert [""][..0] == [];
    EmptyFrame(json);
  }

  const PING := WireFrame("ping", "{}")

  /** A state or done frame as the server fills it: JSON text of the protocol's version, with both ids. */
  predicate Carries(json: string -> Json, f: WireFrame) {
    f.name in {"state", "done"} && OneLine(f.data) && json(f.data) == Value(true, true)
  }

  function WithoutPings(frames: seq<WireFrame>): seq<Event> {
    if frames == [] then []
    else (if frames[0] == PING then [] else [Parsed(frames[0].name, frames[0].data)]) + WithoutPings(frames[1..])
  }

  lemma OneFrame(json: string -> Json, f: WireFrame)
    requires json("{}").Value? && (f == PING || Carries(json, f))
    ensures Wellformed(f) && Interpret(json, f.name, f.data) == if f == PING then [] else [Parsed(f.name, f.data)]
  {}

  /** The events of a response of state frames and pings with a done frame at the end: all frames but the pings. */
  lemma {:induction false} PingsAreSilent(json: string -> Json, frames: seq<WireFrame>)
    requires json("{}").Value? && forall f <- frames :: f == PING || Carries(json, f)
    ensures AllEvents(json, frames) == WithoutPings(frames)
    ensures forall f <- frames :: Wellformed(f)
  {
    if frames != [] {
      assert frames[0] in frames && frames == [frames[0]] + frames[1..];
      OneFrame(json, frames[0]);
      hide Interpret, Wellformed, Carries;
      PingsAreSilent(json, frames[1..]);
    }
  }
}
