/**
  The browser's incremental server-sent-event decoder: frames, typed events and
  the chunk loop, each loop proved against a specification over the whole text.

  `Number(id)` and `JSON.parse` are the members of `Platform`; decoded UTF-8 text
  arrives as the sequence of strings that the successive reads deliver, the last
  one being the decoder's final flush.
 */
module EventStream {
  import opened Prelude
  import opened Text
  import opened Json

  const MAX_SAFE_INTEGER: int := 0x1F_FFFF_FFFF_FFFF

  /** Event text that `parseEvent` falls back to when an error carries no message. */
  const DEFAULT_MESSAGE := "\U{67E5}\U{8BE2}\U{6267}\U{884C}\U{5931}\U{8D25}\U{3002}"

  datatype Platform = Platform(
    number: string -> Option<int>,    // Some(n): Number(text) is the safe integer n
    parseJson: string -> Option<Json> // None: JSON.parse throws
  )

  datatype Field = Field(name: string, value: string)

  datatype Frame = Frame(id: Option<string>, event: Option<string>, data: string)

  datatype StreamEvent =
    | Accepted(sequence: int, queryId: string)
    | Progress(sequence: int, stage: string, detail: Option<string>)
    | Heartbeat(sequence: int)
    | Completed(sequence: int, result: Json)
    | Failed(sequence: int, failedQuery: Option<string>, code: string, message: string)

  /** What the generator throws; `TypeFault` is the engine's own TypeError. */
  datatype StreamError = EventInvalid | OutOfOrder | TypeFault

  /** Events yielded, and the exception that ended the generator, if any. */
  datatype Outcome = Outcome(events: seq<StreamEvent>, error: Option<StreamError>)

  // ----- Frames ---------------------------------------------------------------

  function DropCarriageReturn(line: string): string {
    if line != "" && line[|line| - 1] == '\r' then line[..|line| - 1] else line
  }

  /** `raw.split(/\r?\n/)`. */
  function SplitLines(raw: string): (lines: seq<string>)
    ensures lines != []
    decreases |raw|
  {
    var k := IndexOf(raw, '\n');
    if k < 0 then [raw] else [DropCarriageReturn(raw[..k])] + SplitLines(raw[k + 1..])
  }

  predicate Ignored(line: string) {
    line == "" || line[0] == ':'
  }

  function FieldOf(line: string): Field {
    var k := IndexOf(line, ':');
    if k < 0 then Field(line, "")
    else
      var rest := line[k + 1..];
      Field(line[..k], if StartsWith(rest, " ") then rest[1..] else rest)
  }

  function FieldsOf(lines: seq<string>): seq<Field> {
    if lines == [] then []
    else
      var line := lines[|lines| - 1];
      FieldsOf(lines[..|lines| - 1]) + if Ignored(line) then [] else [FieldOf(line)]
  }

  /** A repeated `id` or `event` field keeps its last value. */
  function LastValue(fields: seq<Field>, name: string): Option<string> {
    if fields == [] then None
    else if fields[|fields| - 1].name == name then Some(fields[|fields| - 1].value)
    else LastValue(fields[..|fields| - 1], name)
  }

  function Values(fields: seq<Field>, name: string): seq<string> {
    if fields == [] then []
    else
      var last := fields[|fields| - 1];
      Values(fields[..|fields| - 1], name) + if last.name == name then [last.value] else []
  }

  /** The frame that some fields make; None when they name no event and hold no data. */
  function FrameOf(fields: seq<Field>): Option<Frame> {
    var frame := Frame(LastValue(fields, "id"), LastValue(fields, "event"),
                       Join(Values(fields, "data"), "\n"));
    if (frame.event.Some? && frame.event.value != "") || frame.data != "" then Some(frame) else None
  }

  /** Meaning of one frame; None when it carries neither an event name nor data. */
  function Decoded(raw: string): Option<Frame> {
    FrameOf(FieldsOf(SplitLines(raw)))
  }

  method DecodeFrame(raw: string) returns (frame: Option<Frame>)
    ensures frame == Decoded(raw)
  {
    var id: Option<string> := None;
    var event: Option<string> := None;
    var data: seq<string> := [];
    var lines := SplitLines(raw);
    var i := 0;
    while i < |lines|
      invariant 0 <= i <= |lines|
      invariant id == LastValue(FieldsOf(lines[..i]), "id")
      invariant event == LastValue(FieldsOf(lines[..i]), "event")
      invariant data == Values(FieldsOf(lines[..i]), "data")
    {
      var line := lines[i];
      ghost var before := FieldsOf(lines[..i]);
      assert lines[..i + 1][..i] == lines[..i];
      assert before + [] == before;
      i := i + 1;
      if Ignored(line) {
        continue;
      }
      var field := FieldOf(line);
      assert FieldsOf(lines[..i]) == before + [field];
      assert (before + [field])[..|before|] == before;
      if field.name == "id" { id := Some(field.value); }
      if field.name == "event" { event := Some(field.value); }
      if field.name == "data" { data := data + [field.value]; }
    }
    assert lines[..i] == lines;
    var text := Join(data, "\n");
    if (event.Some? && event.value != "") || text != "" {
      frame := Some(Frame(id, event, text));
    } else {
      frame := None;
    }
  }

  // ----- Typed events ---------------------------------------------------------

  /** `payload.key`: reading a property of null throws, of any other scalar is undefined. */
  function Property(payload: Json, key: string): Result<Option<Json>, StreamError> {
    match payload
    case Null => Err(TypeFault)
    case Object(members) => Ok(Get(members, key))
    case _ => Ok(None)
  }

  function TextProperty(payload: Json, key: string): Result<Option<string>, StreamError> {
    var value :- Property(payload, key);
    Ok(if value.Some? && value.value.String? then Some(value.value.s) else None)
  }

  const STATUSES := {"answered", "partial", "abstained", "no_results"}

  /**
    Whether `String(value)` is a listed status. A one-element array prints as its
    element; an own `toString` member makes the coercion throw.
   */
  function StatusListed(value: Json): Result<bool, StreamError> {
    match value
    case String(s) => Ok(s in STATUSES)
    case Array(items) =>
      if exists i :: 0 <= i < |items| && StatusListed(items[i]).Err? then Err(TypeFault)
      else Ok(|items| == 1 && StatusListed(items[0]) == Ok(true))
    case Object(members) => if Has(members, "toString") then Err(TypeFault) else Ok(false)
    case _ => Ok(false)
  }

  predicate IsText(value: Option<Json>) {
    value.Some? && value.value.String?
  }

  predicate IsCitation(value: Json) {
    value.Object? &&
    var id, chunks := Get(value.members, "id"), Get(value.members, "chunk_ids");
    && id.Some? && (id.value.Int? || id.value.Float?)
    && IsText(Get(value.members, "document_id"))
    && IsText(Get(value.members, "root_id"))
    && chunks.Some? && chunks.value.Array?
    && (forall i :: 0 <= i < |chunks.value.items| ==> chunks.value.items[i].String?)
    && IsText(Get(value.members, "source_name"))
    && IsText(Get(value.members, "title"))
    && IsText(Get(value.members, "quote"))
  }

  /** `typeof value === 'object'` for a value that is not null. */
  predicate IsObjectLike(value: Option<Json>) {
    value.Some? && (value.value.Object? || value.value.Array?)
  }

  function IsQueryResult(payload: Json): Result<bool, StreamError> {
    var queryId :- TextProperty(payload, "query_id");
    if queryId.None? then Ok(false) else
      var status :- Property(payload, "status");
      var listed :- if status.Some? then StatusListed(status.value) else Ok(false);
      var answer :- Property(payload, "answer");
      var citations :- Property(payload, "citations");
      var diagnostics :- Property(payload, "diagnostics");
      var usage :- Property(payload, "usage");
      Ok(&& listed && IsText(answer)
         && citations.Some? && citations.value.Array?
         && (forall i :: 0 <= i < |citations.value.items| ==> IsCitation(citations.value.items[i]))
         && IsObjectLike(diagnostics) && IsObjectLike(usage))
  }

  /** The typed event that an event name and payload stand for. */
  function Interpret(sequence: int, name: Option<string>, payload: Json): Result<StreamEvent, StreamError> {
    if name == Some("accepted") then
      var queryId :- TextProperty(payload, "query_id");
      if queryId.Some? then Ok(Accepted(sequence, queryId.value)) else Err(EventInvalid)
    else if name == Some("progress") then
      var stage :- TextProperty(payload, "stage");
      var detail :- TextProperty(payload, "detail");
      if stage.Some? then Ok(Progress(sequence, stage.value, detail)) else Err(EventInvalid)
    else if name == Some("heartbeat") then
      Ok(Heartbeat(sequence))
    else if name == Some("completed") then
      var accepted :- IsQueryResult(payload);
      if accepted then Ok(Completed(sequence, payload)) else Err(EventInvalid)
    else if name == Some("error") then
      var code :- TextProperty(payload, "code");
      var queryId :- TextProperty(payload, "query_id");
      var message :- TextProperty(payload, "message");
      if code.None? then Err(EventInvalid)
      else Ok(Failed(sequence, queryId, code.value,
                     if message.Some? then message.value else DEFAULT_MESSAGE))
    else
      Err(EventInvalid)
  }

  function ParseEvent(p: Platform, frame: Frame): Result<StreamEvent, StreamError> {
    var sequence := if frame.id.Some? then p.number(frame.id.value) else None;
    if sequence.None? || !(0 < sequence.value <= MAX_SAFE_INTEGER) then Err(EventInvalid)
    else
      var payload := if frame.data == "" then Some(Object([])) else p.parseJson(frame.data);
      if payload.None? then Err(EventInvalid)
      else Interpret(sequence.value, frame.event, payload.value)
  }

  lemma ParseEventSequence(p: Platform, frame: Frame)
    requires ParseEvent(p, frame).Ok?
    ensures 0 < ParseEvent(p, frame).value.sequence <= MAX_SAFE_INTEGER
    ensures frame.id.Some? && p.number(frame.id.value) == Some(ParseEvent(p, frame).value.sequence)
  {
  }

  // ----- The stream -----------------------------------------------------------

  predicate BlankAt(s: string, j: int) {
    0 <= j && j + 1 < |s| && s[j] == '\n' && s[j + 1] == '\n'
  }

  /** Position of the first blank line (two consecutive line feeds), or -1. */
  function BlankLine(s: string): (r: int)
    ensures -1 <= r && (0 <= r ==> BlankAt(s, r))
    ensures forall j :: BlankAt(s, j) ==> 0 <= r <= j
  {
    if |s| < 2 then -1
    else if BlankAt(s, 0) then 0
    else
      var r := BlankLine(s[1..]);
      assert forall j :: 0 < j ==> BlankAt(s, j) == BlankAt(s[1..], j - 1);
      if r < 0 then -1 else r + 1
  }

  /**
    The frame texts of a stream: one per blank line, then the text after the last
    blank line unless it is only white space.
   */
  function FrameTexts(text: string): seq<string>
    decreases |text|
  {
    var k := BlankLine(text);
    if 0 <= k then [text[..k]] + FrameTexts(text[k + 2..])
    else if JsBlank(text) then [] else [text]
  }

  /** `text.replace(/\r\n/g, '\n')`. */
  function Normalized(text: string): string {
    if text == "" then ""
    else if |text| >= 2 && text[0] == '\r' && text[1] == '\n' then "\n" + Normalized(text[2..])
    else [text[0]] + Normalized(text[1..])
  }

  function NormalizedChunks(chunks: seq<string>): string {
    if chunks == [] then "" else Normalized(chunks[0]) + NormalizedChunks(chunks[1..])
  }

  /** What one frame text contributes: nothing, an event, or an exception. */
  datatype Delivery = Skip | Event(event: StreamEvent) | Bad(error: StreamError)

  function FrameDelivery(p: Platform, frame: Option<Frame>): Delivery {
    if frame.None? then Skip
    else
      var event := ParseEvent(p, frame.value);
      if event.Ok? then Event(event.value) else Bad(event.error)
  }

  function DeliveryOf(p: Platform, raw: string): Delivery {
    FrameDelivery(p, Decoded(raw))
  }

  function Decoder(p: Platform): string -> Delivery {
    (raw: string) => DeliveryOf(p, raw)
  }

  function Deliveries(decode: string -> Delivery, raws: seq<string>): seq<Delivery> {
    if raws == [] then [] else [decode(raws[0])] + Deliveries(decode, raws[1..])
  }

  /** Deliveries in order, after an event numbered `last`; the first failure ends them. */
  function Deliver(steps: seq<Delivery>, last: int): Outcome {
    if steps == [] then Outcome([], None)
    else match steps[0]
      case Skip => Deliver(steps[1..], last)
      case Bad(error) => Outcome([], Some(error))
      case Event(event) =>
        if event.sequence <= last then Outcome([], Some(OutOfOrder))
        else
          var later := Deliver(steps[1..], event.sequence);
          Outcome([event] + later.events, later.error)
  }

  /** Meaning of a whole stream, given its text with line ends already normalised. */
  function Meaning(p: Platform, text: string): Outcome {
    Deliver(Deliveries(Decoder(p), FrameTexts(text)), 0)
  }

  /** Result of reading the decoded chunks one after the other. */
  function StreamOutcome(p: Platform, chunks: seq<string>): Outcome {
    Meaning(p, NormalizedChunks(chunks))
  }

  function LastSequence(events: seq<StreamEvent>, last: int): int {
    if events == [] then last else events[|events| - 1].sequence
  }

  lemma {:induction false} DeliverAppend(xs: seq<Delivery>, ys: seq<Delivery>, last: int)
    ensures
      var first := Deliver(xs, last);
      var second := Deliver(ys, LastSequence(first.events, last));
      Deliver(xs + ys, last) ==
      if first.error.Some? then first else Outcome(first.events + second.events, second.error)
  {
    if xs == [] {
      assert xs + ys == ys;
    } else {
      assert (xs + ys)[1..] == xs[1..] + ys;
      match xs[0]
      case Skip => DeliverAppend(xs[1..], ys, last);
      case Bad(error) =>
      case Event(event) =>
        if last < event.sequence {
          DeliverAppend(xs[1..], ys, event.sequence);
          var later := Deliver(xs[1..], event.sequence);
          assert LastSequence([event] + later.events, last) == LastSequence(later.events, event.sequence);
          var second := Deliver(ys, LastSequence(later.events, event.sequence));
          assert [event] + later.events + second.events == [event] + (later.events + second.events);
        }
    }
  }

  lemma {:induction false} BlankLineExtends(buffer: string, more: string)
    requires 0 <= BlankLine(buffer)
    ensures BlankLine(buffer + more) == BlankLine(buffer)
  {
    var r := BlankLine(buffer);
    assert forall j :: j + 1 < |buffer| ==> BlankAt(buffer + more, j) == BlankAt(buffer, j);
    assert BlankAt(buffer + more, r);
  }

  /** The first frame text of a longer text is known as soon as its blank line is. */
  lemma FirstFrameText(buffer: string, more: string)
    requires 0 <= BlankLine(buffer)
    ensures
      var k := BlankLine(buffer);
      FrameTexts(buffer + more) == [buffer[..k]] + FrameTexts(buffer[k + 2..] + more)
  {
    var k := BlankLine(buffer);
    BlankLineExtends(buffer, more);
    assert (buffer + more)[..k] == buffer[..k];
    assert (buffer + more)[k + 2..] == buffer[k + 2..] + more;
  }

  lemma FirstFrame(decode: string -> Delivery, buffer: string, more: string)
    requires 0 <= BlankLine(buffer)
    ensures
      var k := BlankLine(buffer);
      Deliveries(decode, FrameTexts(buffer + more)) ==
      [decode(buffer[..k])] + Deliveries(decode, FrameTexts(buffer[k + 2..] + more))
  {
    var k := BlankLine(buffer);
    FirstFrameText(buffer, more);
    var later := FrameTexts(buffer[k + 2..] + more);
    assert ([buffer[..k]] + later)[1..] == later;
  }

  /** After `done` has been delivered without failure, what remains of the stream is `text`. */
  ghost predicate Progressed(decode: string -> Delivery, steps: seq<Delivery>, done: seq<Delivery>,
                             events: seq<StreamEvent>, text: string)
  {
    && steps == done + Deliveries(decode, FrameTexts(text))
    && Deliver(done, 0) == Outcome(events, None)
  }

  lemma {:induction false} Advance(decode: string -> Delivery, steps: seq<Delivery>, done: seq<Delivery>,
                events: seq<StreamEvent>, buffer: string, more: string)
    requires Progressed(decode, steps, done, events, buffer + more) && 0 <= BlankLine(buffer)
    ensures
      var k := BlankLine(buffer);
      var step := Deliver([decode(buffer[..k])], LastSequence(events, 0));
      if step.error.Some? then Deliver(steps, 0) == Outcome(events + step.events, step.error)
      else Progressed(decode, steps, done + [decode(buffer[..k])], events + step.events, buffer[k + 2..] + more)
  {
    var k := BlankLine(buffer);
    FirstFrame(decode, buffer, more);
    DeliverNext(done, decode(buffer[..k]), Deliveries(decode, FrameTexts(buffer[k + 2..] + more)), events);
  }

  lemma {:induction false} DeliverNext(done: seq<Delivery>, next: Delivery, ahead: seq<Delivery>,
      events: seq<StreamEvent>)
    requires Deliver(done, 0) == Outcome(events, None)
    ensures done + ([next] + ahead) == done + [next] + ahead
    ensures
      var step := Deliver([next], LastSequence(events, 0));
      && Deliver(done + [next], 0) == Outcome(events + step.events, step.error)
      && (step.error.Some? ==> Deliver(done + [next] + ahead, 0) == Outcome(events + step.events, step.error))
  {
    assert done + ([next] + ahead) == done + [next] + ahead;
    DeliverAppend(done, [next], 0);
    DeliverAppend(done + [next], ahead, 0);
  }

  lemma {:induction false} Finish(decode: string -> Delivery, steps: seq<Delivery>, done: seq<Delivery>,
               events: seq<StreamEvent>, rest: string)
    requires Progressed(decode, steps, done, events, rest) && BlankLine(rest) < 0
    ensures
      var step := Deliver([decode(rest)], LastSequence(events, 0));
      Deliver(steps, 0) ==
      if JsBlank(rest) then Outcome(events, None) else Outcome(events + step.events, step.error)
  {
    if JsBlank(rest) {
      assert done + [] == done;
    } else {
      assert Deliveries(decode, [rest]) == [decode(rest)];
      DeliverAppend(done, [decode(rest)], 0);
    }
  }

  lemma {:induction false} StartOfStream(decode: string -> Delivery, chunks: seq<string>)
    ensures Progressed(decode, Deliveries(decode, FrameTexts(NormalizedChunks(chunks))), [], [],
                       "" + NormalizedChunks(chunks[0..]))
  {
    assert chunks[0..] == chunks && "" + NormalizedChunks(chunks) == NormalizedChunks(chunks);
  }

  lemma NextChunk(chunks: seq<string>, i: nat, buffer: string)
    requires i < |chunks|
    ensures buffer + NormalizedChunks(chunks[i..]) ==
            buffer + Normalized(chunks[i]) + NormalizedChunks(chunks[i + 1..])
  {
    assert chunks[i..][1..] == chunks[i + 1..];
  }

  /**
    The chunk and frame loops of the generator, for any decoder of frame texts.
    Whatever the chunks, all that matters is their separately normalised text.
   */
  method DeliverStream(decode: string -> Delivery, chunks: seq<string>) returns (outcome: Outcome)
    ensures outcome == Deliver(Deliveries(decode, FrameTexts(NormalizedChunks(chunks))), 0)
  {
    var buffer := "";
    var events: seq<StreamEvent> := [];
    var i := 0;
    ghost var steps := Deliveries(decode, FrameTexts(NormalizedChunks(chunks)));
    ghost var done: seq<Delivery> := [];
    StartOfStream(decode, chunks);
    while i < |chunks|
      invariant 0 <= i <= |chunks|
      invariant BlankLine(buffer) < 0
      invariant Progressed(decode, steps, done, events, buffer + NormalizedChunks(chunks[i..]))
    {
      ghost var later := NormalizedChunks(chunks[i + 1..]);
      NextChunk(chunks, i, buffer);
      buffer := buffer + Normalized(chunks[i]);
      var boundary := BlankLine(buffer);
      while 0 <= boundary
        invariant boundary == BlankLine(buffer)
        invariant Progressed(decode, steps, done, events, buffer + later)
        decreases |buffer|
      {
        Advance(decode, steps, done, events, buffer, later);
        var delivery := decode(buffer[..boundary]);
        buffer := buffer[boundary + 2..];
        var step := Ordered(delivery, LastSequence(events, 0));
        events := events + step.events;
        if step.error.Some? {
          return Outcome(events, step.error);
        }
        done := done + [delivery];
        boundary := BlankLine(buffer);
      }
      i := i + 1;
    }
    assert chunks[i..] == [] && buffer + "" == buffer;
    Finish(decode, steps, done, events, buffer);
    if !JsBlank(buffer) {
      var step := Ordered(decode(buffer), LastSequence(events, 0));
      return Outcome(events + step.events, step.error);
    }
    return Outcome(events, None);
  }

  /** The `ordered` closure: an event must be numbered above the last one. */
  method Ordered(delivery: Delivery, last: int) returns (outcome: Outcome)
    ensures outcome == Deliver([delivery], last)
  {
    if delivery.Bad? {
      return Outcome([], Some(delivery.error));
    }
    if delivery.Skip? {
      return Outcome([], None);
    }
    if delivery.event.sequence <= last {
      return Outcome([], Some(OutOfOrder));
    }
    return Outcome([delivery.event], None);
  }

  method ParseEventStream(p: Platform, chunks: seq<string>) returns (outcome: Outcome)
    ensures outcome == StreamOutcome(p, chunks)
  {
    outcome := DeliverStream(Decoder(p), chunks);
  }
}
