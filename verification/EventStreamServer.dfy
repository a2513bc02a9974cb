/**
  The wire form of server events and its printer, composed with the decoder.
 */
module EventStreamServer {
  import opened Prelude
  import opened Text
  import opened Json
  import opened EventStream
  import opened EventStreamLaws
  import opened EventStreamCuts
  import opened EventStreamFlush

  datatype ServerEvent = ServerEvent(sequence: nat, event: string, data: Json)

  /** The payload text of an event: its data in key order, through the compact JSON printer `print_`. */
  function Payload(print_: Json -> string, e: ServerEvent): string {
    print_(InKeyOrder(e.data))
  }

  /** The wire form of one event. */
  function Printed(print_: Json -> string, e: ServerEvent): string {
    PrintedBody(print_, e) + "\n\n"
  }

  function FieldLine(name: string, value: string): string {
    name + ": " + value
  }

  function PrintedBody(print_: Json -> string, e: ServerEvent): string {
    FieldLine("id", Decimal(e.sequence)) + "\n" +
    (FieldLine("event", e.event) + "\n" + FieldLine("data", Payload(print_, e)))
  }

  function PrintedStream(print_: Json -> string, events: seq<ServerEvent>): string {
    if events == [] then "" else Printed(print_, events[0]) + PrintedStream(print_, events[1..])
  }

  predicate OneLine(s: string) {
    '\n' !in s && '\r' !in s
  }

  /** JavaScript reads a plain run of digits as its decimal value. */
  ghost predicate ReadsDecimals(p: Platform) {
    forall s :: IsDigits(s) && DigitsValue(s) <= MAX_SAFE_INTEGER ==> p.number(s) == Some(DigitsValue(s))
  }

  /** The printed payload is one non-empty line that JSON.parse reads back. */
  predicate Faithful(p: Platform, print_: Json -> string, e: ServerEvent) {
    && OneLine(e.event)
    && OneLine(Payload(print_, e)) && Payload(print_, e) != ""
    && p.parseJson(Payload(print_, e)) == Some(InKeyOrder(e.data))
  }

  // ----- Printing and parsing -------------------------------------------------

  lemma {:induction false} SplitFirstLine(line: string, rest: string)
    requires OneLine(line)
    ensures SplitLines(line + "\n" + rest) == [line] + SplitLines(rest)
  {
    var text := line + "\n" + rest;
    assert text[..|line|] == line && text[|line| + 1..] == rest;
    IndexOfUnique(text, '\n', |line|);
    assert line != "" ==> line[|line| - 1] in line;
  }

  lemma NamedField(name: string, value: string)
    requires ':' !in name && name != ""
    ensures FieldOf(FieldLine(name, value)) == Field(name, value)
    ensures !Ignored(FieldLine(name, value))
    ensures OneLine(name) && OneLine(value) ==> OneLine(FieldLine(name, value))
  {
    var line := FieldLine(name, value);
    assert line[..|name|] == name && line[|name|] == ':';
    IndexOfUnique(line, ':', |name|);
    assert line[|name| + 1..] == " " + value;
    assert name[0] in name;
  }

  lemma {:induction false} OneLineDecimal(n: nat)
    ensures OneLine(Decimal(n)) && Decimal(n) != ""
  {
    DecimalRoundTrip(n);
  }

  lemma ThreeFields(a: string, b: string, c: string)
    requires !Ignored(a) && !Ignored(b) && !Ignored(c)
    ensures FieldsOf([a] + ([b] + [c])) == [FieldOf(a), FieldOf(b), FieldOf(c)]
  {
    var lines := [a] + ([b] + [c]);
    assert lines[..2] == [a, b] && [a, b][..1] == [a] && [a][..0] == [];
    assert FieldsOf([a]) == [FieldOf(a)];
    assert FieldsOf([a, b]) == [FieldOf(a), FieldOf(b)];
  }

  lemma FrameOfFields(id: string, event: string, data: string)
    ensures
      var fields := [Field("id", id), Field("event", event), Field("data", data)];
      && LastValue(fields, "id") == Some(id) && LastValue(fields, "event") == Some(event)
      && Values(fields, "data") == [data]
  {
    var one, two := [Field("id", id)], [Field("id", id), Field("event", event)];
    var fields := [Field("id", id), Field("event", event), Field("data", data)];
    assert fields[..2] == two && two[..1] == one && one[..0] == [];
    assert LastValue(one, "id") == Some(id) && LastValue(two, "id") == Some(id);
    assert Values(one, "data") == Values([], "data") + [] == [];
    assert Values(two, "data") == Values(one, "data") + [] == [];
  }

  lemma BodyFields(print_: Json -> string, e: ServerEvent)
    requires OneLine(e.event) && OneLine(Payload(print_, e))
    ensures FieldsOf(SplitLines(PrintedBody(print_, e))) ==
            [Field("id", Decimal(e.sequence)), Field("event", e.event), Field("data", Payload(print_, e))]
  {
    var a, b, c := FieldLine("id", Decimal(e.sequence)), FieldLine("event", e.event),
        FieldLine("data", Payload(print_, e));
    OneLineDecimal(e.sequence);
    NamedField("id", Decimal(e.sequence));
    NamedField("event", e.event);
    NamedField("data", Payload(print_, e));
    ThreeFields(a, b, c);
    ThreeLines(a, b, c);
  }

  lemma {:induction false} ThreeLines(a: string, b: string, c: string)
    requires OneLine(a) && OneLine(b) && OneLine(c)
    ensures SplitLines(a + "\n" + (b + "\n" + c)) == [a] + ([b] + [c])
  {
    SplitFirstLine(a, b + "\n" + c);
    SplitFirstLine(b, c);
    LastLine(c);
  }

  lemma Labels(value: string)
    ensures FieldLine("id", value) == "id: " + value
    ensures FieldLine("event", value) == "event: " + value
    ensures FieldLine("data", value) == "data: " + value
  {
    assert "id" + ": " == "id: " && "event" + ": " == "event: " && "data" + ": " == "data: ";
  }

  lemma BodyLines(print_: Json -> string, e: ServerEvent, a: string, b: string, c: string)
    requires OneLine(e.event) && OneLine(Payload(print_, e))
    requires a == FieldLine("id", Decimal(e.sequence)) && b == FieldLine("event", e.event)
    requires c == FieldLine("data", Payload(print_, e))
    ensures OneLine(a) && OneLine(b) && OneLine(c)
    ensures SplitLines(PrintedBody(print_, e)) == [a] + ([b] + [c])
  {
    OneLineDecimal(e.sequence);
    NamedField("id", Decimal(e.sequence));
    NamedField("event", e.event);
    NamedField("data", Payload(print_, e));
    ThreeLines(a, b, c);
  }

  /** An event is printed on three lines, its data with every object in key order. */
  lemma PrintedLines(print_: Json -> string, e: ServerEvent, id: string, event: string, data: string)
    requires OneLine(e.event) && OneLine(print_(InKeyOrder(e.data)))
    requires id == "id: " + Decimal(e.sequence) && event == "event: " + e.event
    requires data == "data: " + print_(InKeyOrder(e.data))
    ensures SplitLines(PrintedBody(print_, e)) == [id] + ([event] + [data])
    ensures Printed(print_, e) == PrintedBody(print_, e) + "\n\n"
  {
    Labels(Decimal(e.sequence));
    Labels(e.event);
    Labels(Payload(print_, e));
    BodyLines(print_, e, id, event, data);
  }

  /** The printed body decodes to exactly the three values that were printed. */
  lemma BodyDecodes(print_: Json -> string, e: ServerEvent)
    requires OneLine(e.event) && OneLine(Payload(print_, e)) && Payload(print_, e) != ""
    ensures Decoded(PrintedBody(print_, e)) ==
            Some(Frame(Some(Decimal(e.sequence)), Some(e.event), Payload(print_, e)))
  {
    BodyFields(print_, e);
    FrameOfFields(Decimal(e.sequence), e.event, Payload(print_, e));
  }

  lemma {:induction false} LastLine(line: string)
    requires OneLine(line)
    ensures SplitLines(line) == [line]
  {
  }

  /** No blank line inside a printed body, nor one that its end would complete early. */
  lemma {:induction false} BodyHasNoBlankLine(print_: Json -> string, e: ServerEvent, more: string)
    requires OneLine(e.event) && OneLine(Payload(print_, e)) && Payload(print_, e) != ""
    ensures BlankLine(Printed(print_, e) + more) == |PrintedBody(print_, e)|
    ensures '\r' !in Printed(print_, e)
  {
    var a, b, c := FieldLine("id", Decimal(e.sequence)), FieldLine("event", e.event),
        FieldLine("data", Payload(print_, e));
    OneLineDecimal(e.sequence);
    var body := PrintedBody(print_, e);
    assert OneLine(a) && OneLine(b) && OneLine(c);
    assert forall j :: 0 <= j < |a| ==> body[j] == a[j];
    assert forall j :: 0 <= j < |b| ==> body[|a| + 1 + j] == b[j];
    assert forall j :: 0 <= j < |c| ==> body[|a| + 1 + |b| + 1 + j] == c[j];
    forall j | 0 <= j < |body|
      ensures body[j] == '\n' ==> j == |a| || j == |a| + 1 + |b|
    {
      if |a| < j < |a| + 1 + |b| {
        assert body[j] == b[j - |a| - 1];
      } else if |a| + 1 + |b| < j {
        assert body[j] == c[j - |a| - |b| - 2];
      }
    }
    var text := Printed(print_, e) + more;
    assert forall j :: 0 <= j < |body| ==> text[j] == body[j];
    assert BlankAt(text, |body|);
    assert forall j :: 0 <= j < |body| ==> !BlankAt(text, j);
  }

  /** What the client makes of one server event. */
  function Received(e: ServerEvent): Delivery {
    var event := Interpret(e.sequence, Some(e.event), InKeyOrder(e.data));
    if event.Ok? then Event(event.value) else Bad(event.error)
  }

  function AllReceived(events: seq<ServerEvent>): seq<Delivery> {
    if events == [] then [] else [Received(events[0])] + AllReceived(events[1..])
  }

  lemma BodyDelivers(p: Platform, print_: Json -> string, e: ServerEvent)
    requires ReadsDecimals(p) && Faithful(p, print_, e) && 1 <= e.sequence <= MAX_SAFE_INTEGER
    ensures Decoder(p)(PrintedBody(print_, e)) == Received(e)
  {
    BodyDecodes(print_, e);
    DecimalRoundTrip(e.sequence);
    assert p.number(Decimal(e.sequence)) == Some(e.sequence);
  }

  lemma {:induction false} PrintedDelivers(p: Platform, print_: Json -> string, events: seq<ServerEvent>)
    requires ReadsDecimals(p)
    requires forall e :: e in events ==> Faithful(p, print_, e) && 1 <= e.sequence <= MAX_SAFE_INTEGER
    ensures Deliveries(Decoder(p), FrameTexts(PrintedStream(print_, events))) == AllReceived(events)
    ensures '\r' !in PrintedStream(print_, events)
  {
    if events == [] {
      assert FrameTexts("") == [];
    } else {
      var e, later := events[0], PrintedStream(print_, events[1..]);
      PrintedDelivers(p, print_, events[1..]);
      BodyHasNoBlankLine(print_, e, later);
      BodyDelivers(p, print_, e);
      PeelPrinted(Decoder(p), PrintedBody(print_, e), later);
    }
  }

  lemma {:induction false} PeelPrinted(decode: string -> Delivery, body: string, later: string)
    requires BlankLine(body + "\n\n" + later) == |body|
    ensures Deliveries(decode, FrameTexts(body + "\n\n" + later)) ==
            [decode(body)] + Deliveries(decode, FrameTexts(later))
  {
    PeelText(body, later);
    assert ([body] + FrameTexts(later))[1..] == FrameTexts(later);
  }

  lemma {:induction false} PeelText(body: string, later: string)
    requires BlankLine(body + "\n\n" + later) == |body|
    ensures FrameTexts(body + "\n\n" + later) == [body] + FrameTexts(later)
  {
    var text := body + "\n\n" + later;
    assert text[..|body|] == body && text[|body| + 2..] == later;
  }

  /**
    Printing any events and reading the text back, however it is cut, is the same
    as interpreting the events directly: same typed events, same exception, raised
    at the same place.
   */
  lemma {:induction false} RoundTrip(p: Platform, print_: Json -> string, events: seq<ServerEvent>, chunks: seq<string>)
    requires ReadsDecimals(p)
    requires forall e :: e in events ==> Faithful(p, print_, e) && 1 <= e.sequence <= MAX_SAFE_INTEGER
    requires Flatten(chunks) == PrintedStream(print_, events)
    ensures StreamOutcome(p, chunks) == Deliver(AllReceived(events), 0)
  {
    PrintedDelivers(p, print_, events);
    PlainTextChunkIndependence(p, chunks);
  }

  lemma {:induction false} AllReceivedAt(events: seq<ServerEvent>)
    ensures |AllReceived(events)| == |events|
    ensures forall i :: 0 <= i < |events| ==> AllReceived(events)[i] == Received(events[i])
  {
    if events != [] {
      AllReceivedAt(events[1..]);
    }
  }

  lemma {:induction false} AllUnderstood(events: seq<ServerEvent>)
    requires forall e :: e in events ==> Received(e).Event?
    ensures |AllReceived(events)| == |events|
    ensures forall i :: 0 <= i < |events| ==>
      AllReceived(events)[i].Event? && AllReceived(events)[i].event.sequence == events[i].sequence
  {
    AllReceivedAt(events);
    forall i | 0 <= i < |events|
      ensures AllReceived(events)[i].Event? && AllReceived(events)[i].event.sequence == events[i].sequence
    {
      assert events[i] in events;
      InterpretedSequence(events[i]);
    }
  }

  /** Printing valid events with increasing numbers and parsing any cut gives them all back. */
  lemma {:induction false} ValidEventsArrive(p: Platform, print_: Json -> string, events: seq<ServerEvent>,
      chunks: seq<string>)
    requires ReadsDecimals(p)
    requires forall e :: e in events ==>
      Faithful(p, print_, e) && 1 <= e.sequence <= MAX_SAFE_INTEGER && Received(e).Event?
    requires forall i, j :: 0 <= i < j < |events| ==> events[i].sequence < events[j].sequence
    requires Flatten(chunks) == PrintedStream(print_, events)
    ensures
      var outcome := StreamOutcome(p, chunks);
      && outcome.error == None && |outcome.events| == |events|
      && forall i :: 0 <= i < |events| ==> Event(outcome.events[i]) == Received(events[i])
  {
    RoundTrip(p, print_, events, chunks);
    AllReceivedAt(events);
    AllUnderstood(events);
    IncreasingDeliver(AllReceived(events), 0);
  }

  lemma InterpretedSequence(e: ServerEvent)
    requires Received(e).Event?
    ensures Received(e).event.sequence == e.sequence
  {
  }

  // ----- A cut inside a line end ----------------------------------------------

  lemma {:induction false} NormalizedAround(a: string, middle: string, b: string)
    requires OneLine(a) && OneLine(b) && middle != "" && middle[0] == '\r'
    ensures Normalized(a + middle) == a + Normalized(middle)
    ensures middle[|middle| - 1] == '\n' ==> Normalized(a + middle + b) == a + Normalized(middle) + b
  {
    NormalizedWithoutReturn(a);
    NormalizedWithoutReturn(b);
    NormalizedConcat(a, middle);
    NormalizedConcat(a + middle, b);
  }

  lemma LineEnds()
    ensures Normalized("\r\n\r") == "\n\r" && Normalized("\r\n\r\n") == "\n\n"
  {
    assert "\r\n\r"[2..] == "\r" && "\r\n\r\n"[2..] == "\r\n";
    assert Normalized("\r") == "\r" + Normalized("") && Normalized("\r\n") == "\n" + Normalized("");
  }

  /**
    When a cut falls inside the CR LF of a blank line, the two frames around it are
    read as one; uncut they are two.
   */
  lemma SplitLineEndMerges(a: string, b: string)
    requires OneLine(a) && OneLine(b) && a != "" && !JsBlank(b)
    ensures Flatten([a + "\r\n\r", "\n" + b]) == Flatten([a + "\r\n\r\n" + b])
    ensures FrameTexts(NormalizedChunks([a + "\r\n\r", "\n" + b])) == [a + "\n" + ("\r\n" + b)]
    ensures FrameTexts(NormalizedChunks([a + "\r\n\r\n" + b])) == [a] + [b]
  {
    CutText(a, b);
    WholeText(a, b);
    MergedText(a, b);
    SeparateTexts(a, b);
  }

  lemma CutText(a: string, b: string)
    requires OneLine(a) && OneLine(b)
    ensures Flatten([a + "\r\n\r", "\n" + b]) == Flatten([a + "\r\n\r\n" + b])
    ensures NormalizedChunks([a + "\r\n\r", "\n" + b]) == a + "\n" + ("\r\n" + b)
  {
    var left, right := a + "\r\n\r", "\n" + b;
    FlattenTwo(left, right);
    assert left + right == a + "\r\n\r\n" + b;
    LineEnds();
    NormalizedAround(a, "\r\n\r", b);
    NormalizedWithoutReturn(right);
    assert a + "\n\r" + right == a + "\n" + ("\r\n" + b);
  }

  lemma WholeText(a: string, b: string)
    requires OneLine(a) && OneLine(b)
    ensures NormalizedChunks([a + "\r\n\r\n" + b]) == a + "\n\n" + b
  {
    FlattenOne(a + "\r\n\r\n" + b);
    LineEnds();
    NormalizedAround(a, "\r\n\r\n", b);
  }

  lemma {:induction false} FlattenTwo(x: string, y: string)
    ensures Flatten([x, y]) == Flatten([x + y])
    ensures NormalizedChunks([x, y]) == Normalized(x) + Normalized(y)
    ensures NormalizedChunks([x + y]) == Normalized(x + y)
  {
    FlattenOne(y);
    FlattenOne(x + y);
    assert [x, y][1..] == [y];
  }

  lemma {:induction false} FlattenOne(x: string)
    ensures Flatten([x]) == x && NormalizedChunks([x]) == Normalized(x)
  {
    assert [x][1..] == [];
    assert x + "" == x && Normalized(x) + "" == Normalized(x);
  }

  lemma {:induction false} MergedText(a: string, b: string)
    requires OneLine(a) && OneLine(b) && !JsBlank(b)
    ensures FrameTexts(a + "\n" + ("\r\n" + b)) == [a + "\n" + ("\r\n" + b)]
  {
    var text := a + "\n" + ("\r\n" + b);
    forall j ensures !BlankAt(text, j) {
      if 0 <= j < |a| {
        assert text[j] == a[j];
      } else if |a| + 3 <= j < |text| {
        assert text[j] == b[j - |a| - 3];
      } else if j == |a| + 2 && j + 1 < |text| {
        assert text[j + 1] == b[0];
      }
    }
    assert forall i :: 0 <= i < |b| ==> text[|a| + 3 + i] == b[i];
    assert !JsBlank(text);
  }

  lemma {:induction false} SeparateTexts(a: string, b: string)
    requires OneLine(a) && OneLine(b) && a != "" && !JsBlank(b)
    ensures FrameTexts(a + "\n\n" + b) == [a] + [b]
  {
    FirstBlankLine(a, b);
    PeelText(a, b);
    OneLineFrame(b);
  }

  lemma {:induction false} FirstBlankLine(a: string, b: string)
    requires OneLine(a)
    ensures BlankLine(a + "\n\n" + b) == |a|
  {
    var text := a + "\n\n" + b;
    assert forall j :: 0 <= j < |a| ==> text[j] == a[j] && a[j] in a;
    assert BlankAt(text, |a|);
    assert forall j :: 0 <= j < |a| ==> !BlankAt(text, j);
  }

  lemma {:induction false} OneLineFrame(b: string)
    requires OneLine(b) && !JsBlank(b)
    ensures FrameTexts(b) == [b]
  {
    assert forall j :: 0 <= j < |b| ==> b[j] in b;
    assert BlankLine(b) < 0;
  }

  /** A concrete difference: cut there, two defective frames pass as one heartbeat. */
  lemma SplitLineEndMatters(p: Platform, id: string)
    requires OneLine(id) && p.number(id).Some? && 1 <= p.number(id).value <= MAX_SAFE_INTEGER
    ensures
      var a, b := FieldLine("id", id), FieldLine("event", "heartbeat");
      && StreamOutcome(p, [a + "\r\n\r", "\n" + b]) == Outcome([Heartbeat(p.number(id).value)], None)
      && StreamOutcome(p, [a + "\r\n\r\n" + b]) == Outcome([], Some(EventInvalid))
  {
    HeartbeatParses(p, id);
    SplitLineEndReadings(p, id, "heartbeat", Heartbeat(p.number(id).value));
  }

  lemma HeartbeatParses(p: Platform, id: string)
    requires p.number(id).Some? && 1 <= p.number(id).value <= MAX_SAFE_INTEGER
    ensures ParseEvent(p, Frame(Some(id), Some("heartbeat"), "")) == Ok(Heartbeat(p.number(id).value))
  {
  }

  lemma SplitLineEndReadings(p: Platform, id: string, name: string, event: StreamEvent)
    requires OneLine(id) && OneLine(name) && name != ""
    requires ParseEvent(p, Frame(Some(id), Some(name), "")) == Ok(event)
    ensures
      var a, b := FieldLine("id", id), FieldLine("event", name);
      && StreamOutcome(p, [a + "\r\n\r", "\n" + b]) == Outcome([event], None)
      && StreamOutcome(p, [a + "\r\n\r\n" + b]) == Outcome([], Some(EventInvalid))
  {
    var a, b := FieldLine("id", id), FieldLine("event", name);
    FieldText("id", id);
    FieldText("event", name);
    SplitLineEndMerges(a, b);
    ReadAs(p, [a + "\r\n\r", "\n" + b], [a + "\n" + ("\r\n" + b)]);
    ReadAs(p, [a + "\r\n\r\n" + b], [a] + [b]);
    MergedDelivery(p, id, name);
    SeparateDeliveries(p, id, name);
    ParseEventSequence(p, Frame(Some(id), Some(name), ""));
    TwoReadings(Decoder(p), a + "\n" + ("\r\n" + b), a, b, event, EventInvalid);
  }

  lemma FieldText(name: string, value: string)
    requires OneLine(name) && OneLine(value) && ':' !in name && name != "" && !IsJsSpace(name[0])
    ensures OneLine(FieldLine(name, value)) && FieldLine(name, value) != "" && !JsBlank(FieldLine(name, value))
  {
    NamedField(name, value);
    var line := FieldLine(name, value);
    assert line[0] == name[0] && line[0] in line;
  }

  lemma {:induction false} ReadAs(p: Platform, chunks: seq<string>, raws: seq<string>)
    requires FrameTexts(NormalizedChunks(chunks)) == raws
    ensures StreamOutcome(p, chunks) == Deliver(Deliveries(Decoder(p), raws), 0)
  {
  }

  lemma TwoReadings(decode: string -> Delivery, merged: string, a: string, b: string,
                    event: StreamEvent, error: StreamError)
    requires decode(merged) == Event(event) && event.sequence > 0
    requires decode(a) == Skip && decode(b) == Bad(error)
    ensures Deliver(Deliveries(decode, [merged]), 0) == Outcome([event], None)
    ensures Deliver(Deliveries(decode, [a] + [b]), 0) == Outcome([], Some(error))
  {
    DeliverTwo(decode, merged, a, b);
    assert ([Skip] + [Bad(error)])[1..] == [Bad(error)];
  }

  lemma DeliverTwo(decode: string -> Delivery, merged: string, a: string, b: string)
    ensures Deliveries(decode, [merged]) == [decode(merged)]
    ensures Deliveries(decode, [a] + [b]) == [decode(a)] + [decode(b)]
  {
    assert ([a] + [b])[1..] == [b] && [b][1..] == [] && [merged][1..] == [];
    assert Deliveries(decode, [b]) == [decode(b)];
  }

  lemma MergedDelivery(p: Platform, id: string, name: string)
    requires OneLine(id) && OneLine(name) && name != ""
    requires ParseEvent(p, Frame(Some(id), Some(name), "")).Ok?
    ensures
      var a, b := FieldLine("id", id), FieldLine("event", name);
      Decoder(p)(a + "\n" + ("\r\n" + b)) == Event(ParseEvent(p, Frame(Some(id), Some(name), "")).value)
  {
    var a, b := FieldLine("id", id), FieldLine("event", name);
    NamedField("id", id);
    NamedField("event", name);
    MergedFields(a, b);
    var raw := a + "\n" + ("\r\n" + b);
    MergedDecoded(raw, id, name);
    DecodedAs(p, raw, Frame(Some(id), Some(name), ""));
  }

  lemma {:induction false} MergedDecoded(raw: string, id: string, event: string)
    requires FieldsOf(SplitLines(raw)) == [Field("id", id), Field("event", event)] && event != ""
    ensures Decoded(raw) == Some(Frame(Some(id), Some(event), ""))
  {
    IdAndEvent(id, event);
  }

  lemma SeparateDeliveries(p: Platform, id: string, name: string)
    requires OneLine(id) && OneLine(name) && name != ""
    ensures Decoder(p)(FieldLine("id", id)) == Skip
    ensures Decoder(p)(FieldLine("event", name)) == Bad(EventInvalid)
  {
    OneFieldText("id", id);
    IdAlone(FieldLine("id", id), id);
    OneFieldText("event", name);
    EventAlone(FieldLine("event", name), name);
    DecodedAs(p, FieldLine("event", name), Frame(None, Some(name), ""));
  }

  lemma OneFieldText(name: string, value: string)
    requires OneLine(name) && OneLine(value) && ':' !in name && name != ""
    ensures
      var line := FieldLine(name, value);
      SplitLines(line) == [line] && !Ignored(line) && FieldOf(line) == Field(name, value)
  {
    NamedField(name, value);
    LastLine(FieldLine(name, value));
  }

  lemma DecodedAs(p: Platform, raw: string, frame: Frame)
    requires Decoded(raw) == Some(frame)
    ensures Decoder(p)(raw) ==
      (var event := ParseEvent(p, frame); if event.Ok? then Event(event.value) else Bad(event.error))
  {
  }

  lemma {:induction false} MergedFields(a: string, b: string)
    requires OneLine(a) && OneLine(b) && !Ignored(a) && !Ignored(b)
    ensures FieldsOf(SplitLines(a + "\n" + ("\r\n" + b))) == [FieldOf(a), FieldOf(b)]
  {
    SplitFirstLine(a, "\r\n" + b);
    BlankThenLine(b);
    FieldsAroundBlank(a, b);
  }

  lemma {:induction false} BlankThenLine(b: string)
    requires OneLine(b)
    ensures SplitLines("\r\n" + b) == [""] + [b]
  {
    var rest := "\r\n" + b;
    SplitLinesAt(rest, 1);
    assert rest[..1] == "\r" && rest[2..] == b;
    LastLine(b);
  }

  lemma FieldsAroundBlank(a: string, b: string)
    requires !Ignored(a) && !Ignored(b)
    ensures FieldsOf([a] + ([""] + [b])) == [FieldOf(a), FieldOf(b)]
  {
    var lines := [a] + ([""] + [b]);
    assert lines[..2] == [a] + [""] && ([a] + [""])[..1] == [a] && [a][..0] == [];
    assert FieldsOf([a]) == [FieldOf(a)] && FieldsOf([a] + [""]) == FieldsOf([a]) + [];
  }

  lemma IdAndEvent(id: string, event: string)
    ensures
      var fields := [Field("id", id), Field("event", event)];
      && LastValue(fields, "id") == Some(id) && LastValue(fields, "event") == Some(event)
      && Values(fields, "data") == []
  {
    var one, two := [Field("id", id)], [Field("id", id), Field("event", event)];
    assert two[..1] == one && one[..0] == [];
    assert Values(one, "data") == Values([], "data") + [];
    assert Values(two, "data") == Values(one, "data") + [];
  }

  lemma {:induction false} IdAlone(line: string, id: string)
    requires SplitLines(line) == [line] && !Ignored(line) && FieldOf(line) == Field("id", id)
    ensures Decoded(line) == None
  {
    assert FieldsOf([line]) == [Field("id", id)];
    assert Values([Field("id", id)], "data") == Values([], "data") + [];
  }

  lemma {:induction false} EventAlone(line: string, event: string)
    requires SplitLines(line) == [line] && !Ignored(line) && FieldOf(line) == Field("event", event)
    requires event != ""
    ensures Decoded(line) == Some(Frame(None, Some(event), ""))
  {
    assert FieldsOf([line]) == [Field("event", event)];
    assert Values([Field("event", event)], "data") == Values([], "data") + [];
    assert LastValue([Field("event", event)], "id") == LastValue([Field("event", event)][..0], "id");
  }

  // ----- A line end left over at the end --------------------------------------

  /** An id line and an event line, whose CR LF a cut has split at the very end of the stream. */
  lemma FlushMatters(p: Platform, id: string)
    requires OneLine(id) && p.number(id).Some? && 1 <= p.number(id).value <= MAX_SAFE_INTEGER
    ensures
      var front := FieldLine("id", id) + "\n" + FieldLine("event", "heartbeat");
      && StreamOutcome(p, [front + "\r", "\n"]) == Outcome([Heartbeat(p.number(id).value)], None)
      && StreamOutcome(p, [front + "\r", "\n" + "\n\n"]) == Outcome([], Some(EventInvalid))
  {
    HeartbeatParses(p, id);
    NotAnEvent(p, id);
    LeftOverReadings(p, id, "heartbeat", Heartbeat(p.number(id).value), EventInvalid);
  }

  lemma LeftOverReadings(p: Platform, id: string, name: string, event: StreamEvent, error: StreamError)
    requires OneLine(id) && OneLine(name) && name != "" && event.sequence > 0
    requires ParseEvent(p, Frame(Some(id), Some(name), "")) == Ok(event)
    requires ParseEvent(p, Frame(Some(id), Some(name + "\r"), "")) == Err(error)
    ensures
      var front := FieldLine("id", id) + "\n" + FieldLine("event", name);
      && StreamOutcome(p, [front + "\r", "\n"]) == Outcome([event], None)
      && StreamOutcome(p, [front + "\r", "\n" + "\n\n"]) == Outcome([], Some(error))
  {
    var a, b := FieldLine("id", id), FieldLine("event", name);
    FieldText("id", id);
    FieldText("event", name);
    LeftOverFrame(p, a, b);
    LeftOverDelivery(p, id, name);
    StrayDelivery(p, id, name);
  }

  /** Flushed, the split line end is dropped from the frame; in front of a blank line it stays. */
  lemma LeftOverFrame(p: Platform, a: string, b: string)
    requires OneLine(a) && OneLine(b) && b != "" && !JsBlank(b)
    ensures
      var raw := a + "\n" + b + "\r";
      && OnlyFrame(p, [raw, "\n"], Decoder(p)(raw + "\n"))
      && OnlyFrame(p, [raw, "\n" + "\n\n"], Decoder(p)(raw))
  {
    LeftOverText(a, b);
    LeftOverFrames(a, b);
    FrameIsRead(p, [a + "\n" + b + "\r", "\n"], a + "\n" + b + "\r" + "\n");
    FrameIsRead(p, [a + "\n" + b + "\r", "\n" + "\n\n"], a + "\n" + b + "\r");
  }

  /** What a stream of one frame comes to. */
  predicate OnlyFrame(p: Platform, chunks: seq<string>, step: Delivery) {
    && (step.Bad? ==> StreamOutcome(p, chunks) == Outcome([], Some(step.error)))
    && (step.Event? && step.event.sequence > 0 ==> StreamOutcome(p, chunks) == Outcome([step.event], None))
  }

  lemma {:induction false} FrameIsRead(p: Platform, chunks: seq<string>, raw: string)
    requires FrameTexts(NormalizedChunks(chunks)) == [raw]
    ensures OnlyFrame(p, chunks, Decoder(p)(raw))
  {
    ReadAs(p, chunks, [raw]);
    OneDelivery(Decoder(p), raw);
  }

  lemma OneDelivery(decode: string -> Delivery, raw: string)
    ensures Deliveries(decode, [raw]) == [decode(raw)]
    ensures decode(raw).Bad? ==> Deliver([decode(raw)], 0) == Outcome([], Some(decode(raw).error))
    ensures decode(raw).Event? && decode(raw).event.sequence > 0 ==>
      Deliver([decode(raw)], 0) == Outcome([decode(raw).event], None)
  {
    assert [raw][1..] == [] && [decode(raw)][1..] == [];
  }

  lemma LeftOverText(a: string, b: string)
    requires OneLine(a) && OneLine(b)
    ensures NormalizedChunks([a + "\n" + b + "\r", "\n"]) == a + "\n" + b + "\r" + "\n"
    ensures NormalizedChunks([a + "\n" + b + "\r", "\n" + "\n\n"]) == a + "\n" + b + "\r" + "\n\n" + "\n"
  {
    var front := a + "\n" + b;
    assert '\r' !in front by {
      assert forall c :: c in front ==> c in a || c == '\n' || c in b;
    }
    NormalizedWithoutReturn(front);
    NormalizedPlain('\r', "");
    assert ['\r'] + "" == "\r";
    NormalizedConcat(front, "\r");
    NormalizedWithoutReturn("\n");
    NormalizedWithoutReturn("\n" + "\n\n");
    FlattenTwo(front + "\r", "\n");
    FlattenTwo(front + "\r", "\n" + "\n\n");
    assert front + "\r" + ("\n" + "\n\n") == front + "\r" + "\n\n" + "\n";
  }

  lemma LeftOverFrames(a: string, b: string)
    requires OneLine(a) && OneLine(b) && b != "" && !JsBlank(b)
    ensures
      var raw := a + "\n" + b + "\r";
      FrameTexts(raw + "\n") == [raw + "\n"] && FrameTexts(raw + "\n\n" + "\n") == [raw]
  {
    var raw := a + "\n" + b + "\r";
    var text := raw + "\n";
    forall j ensures !BlankAt(text, j) {
      if 0 <= j < |a| {
        assert text[j] == a[j] && a[j] in a;
      } else if |a| < j < |a| + 1 + |b| {
        assert text[j] == b[j - |a| - 1] && b[j - |a| - 1] in b;
      } else if j == |a| {
        assert text[j + 1] == b[0] && b[0] in b;
      }
    }
    assert forall i :: 0 <= i < |b| ==> text[|a| + 1 + i] == b[i];
    assert !JsBlank(text);
    FrameEnds(raw, "\n");
    assert IsJsSpace('\n') && JsBlank("\n") && FrameTexts("\n") == [];
  }

  lemma {:induction false} TwoFieldDelivery(p: Platform, raw: string, id: string, name: string)
    requires FieldsOf(SplitLines(raw)) == [Field("id", id), Field("event", name)] && name != ""
    ensures Decoder(p)(raw) == FrameDelivery(p, Some(Frame(Some(id), Some(name), "")))
  {
    MergedDecoded(raw, id, name);
  }

  lemma LeftOverDelivery(p: Platform, id: string, name: string)
    requires OneLine(id) && OneLine(name) && name != ""
    ensures Decoder(p)(FieldLine("id", id) + "\n" + FieldLine("event", name) + "\r" + "\n") ==
            FrameDelivery(p, Some(Frame(Some(id), Some(name), "")))
  {
    NamedField("id", id);
    NamedField("event", name);
    EndedPair(FieldLine("id", id), FieldLine("event", name));
    TwoFieldDelivery(p, FieldLine("id", id) + "\n" + FieldLine("event", name) + "\r" + "\n", id, name);
  }

  lemma StrayDelivery(p: Platform, id: string, name: string)
    requires OneLine(id) && OneLine(name) && name != ""
    ensures Decoder(p)(FieldLine("id", id) + "\n" + FieldLine("event", name) + "\r") ==
            FrameDelivery(p, Some(Frame(Some(id), Some(name + "\r"), "")))
  {
    NamedField("id", id);
    NamedField("event", name);
    NamedField("event", name + "\r");
    ReturnInValue("event", name);
    UnendedPair(FieldLine("id", id), FieldLine("event", name));
    TwoFieldDelivery(p, FieldLine("id", id) + "\n" + FieldLine("event", name) + "\r", id, name + "\r");
  }

  lemma ReturnInValue(name: string, value: string)
    ensures FieldLine(name, value) + "\r" == FieldLine(name, value + "\r")
  {
  }

  /** A name with a carriage return is no event's name. */
  lemma NotAnEvent(p: Platform, id: string)
    requires p.number(id).Some? && 1 <= p.number(id).value <= MAX_SAFE_INTEGER
    ensures ParseEvent(p, Frame(Some(id), Some("heartbeat" + "\r"), "")) == Err(EventInvalid)
  {
    var name := "heartbeat" + "\r";
    assert name[|name| - 1] == '\r';
  }

  lemma BehindFirstLine(a: string, b: string)
    ensures a + "\n" + b + "\r" == a + "\n" + (b + "\r")
    ensures a + "\n" + b + "\r" + "\n" == a + "\n" + (b + "\r" + "\n" + "")
  {
  }

  lemma {:induction false} EndedPair(a: string, b: string)
    requires OneLine(a) && OneLine(b) && !Ignored(a) && !Ignored(b)
    ensures FieldsOf(SplitLines(a + "\n" + b + "\r" + "\n")) == [FieldOf(a), FieldOf(b)]
  {
    BehindFirstLine(a, b);
    SplitFirstLine(a, b + "\r" + "\n" + "");
    FirstLineEnd(b + "\r", "");
    DropAdded(b);
    NoLineFeed("");
    TwoFields(a, b);
  }

  lemma {:induction false} UnendedPair(a: string, b: string)
    requires OneLine(a) && OneLine(b) && !Ignored(a) && !Ignored(b + "\r")
    ensures FieldsOf(SplitLines(a + "\n" + b + "\r")) == [FieldOf(a), FieldOf(b + "\r")]
  {
    BehindFirstLine(a, b);
    SplitFirstLine(a, b + "\r");
    NoLineFeed(b + "\r");
    TwoFields(a, b + "\r");
  }

  lemma TwoFields(a: string, b: string)
    requires !Ignored(a) && !Ignored(b)
    ensures FieldsOf([a] + [b]) == [FieldOf(a), FieldOf(b)]
    ensures FieldsOf([a] + ([b] + [""])) == [FieldOf(a), FieldOf(b)]
  {
    var two := [a] + [b];
    assert two[..1] == [a] && [a][..0] == [];
    assert FieldsOf([a]) == [FieldOf(a)];
    assert [a] + ([b] + [""]) == two + [""] && (two + [""])[..2] == two;
    assert FieldsOf(two) + [] == FieldsOf(two);
  }
}
