/**
  What frames and typed events mean, field by field and key by key, for any text
  and any payload whatsoever.
 */
module EventStreamEvents {
  import opened Prelude
  import opened Text
  import opened Json
  import opened EventStream
  import opened EventStreamLaws
  import opened EventStreamCuts

  // ----- Lines and fields -----------------------------------------------------

  /** Lines end with a line feed, which takes one carriage return in front of it along. */
  lemma {:induction false} LinesMeaning(line: string, rest: string)
    requires '\n' !in line
    ensures SplitLines(line) == [line]
    ensures SplitLines(line + "\r" + "\n" + rest) == [line] + SplitLines(rest)
    ensures !EndsWithReturn(line) ==> SplitLines(line + "\n" + rest) == [line] + SplitLines(rest)
  {
    NoLineFeed(line);
    FirstLineEnd(line, rest);
    FirstLineEnd(line + "\r", rest);
    DropAdded(line);
  }

  /** A field is named up to the first colon; one space behind it does not belong to the value. */
  lemma FieldMeaning(name: string, value: string)
    requires ':' !in name
    ensures FieldOf(name) == Field(name, "")
    ensures FieldOf(name + ": " + value) == Field(name, value)
    ensures !StartsWith(value, " ") ==> FieldOf(name + ":" + value) == Field(name, value)
    ensures Ignored(name + ":" + value) <==> name == ""
    ensures Ignored(name) <==> name == ""
  {
    var line, spaced := name + ":" + value, name + ": " + value;
    assert line[..|name|] == name && line[|name| + 1..] == value;
    assert spaced[..|name|] == name && spaced[|name| + 1..] == " " + value;
    IndexOfUnique(line, ':', |name|);
    IndexOfUnique(spaced, ':', |name|);
    assert name != "" ==> name[0] in name;
  }

  /** The last field of a name counts where one value is kept, every one where the values are joined. */
  lemma {:induction false} FieldValues(fields: seq<Field>, more: seq<Field>, name: string)
    ensures Values(fields + more, name) == Values(fields, name) + Values(more, name)
    ensures LastValue(fields + more, name) ==
            if LastValue(more, name).Some? then LastValue(more, name) else LastValue(fields, name)
  {
    if more == [] {
      assert fields + more == fields;
    } else {
      var init, last := more[..|more| - 1], more[|more| - 1];
      assert (fields + more)[..|fields + more| - 1] == fields + init;
      FieldValues(fields, init, name);
    }
  }

  lemma {:induction false} OneField(field: Field, name: string)
    ensures Values([field], name) == if field.name == name then [field.value] else []
    ensures LastValue([field], name) == if field.name == name then Some(field.value) else None
  {
    assert [field][..0] == [];
    assert Values([field][..0], name) == [];
  }

  /** Each line stands for itself: empty or behind a colon it holds no field, otherwise one. */
  lemma {:induction false} LinesHoldFields(lines: seq<string>, more: seq<string>)
    ensures FieldsOf(lines + more) == FieldsOf(lines) + FieldsOf(more)
  {
    if more == [] {
      assert lines + more == lines;
    } else {
      assert (lines + more)[..|lines + more| - 1] == lines + more[..|more| - 1];
      LinesHoldFields(lines, more[..|more| - 1]);
    }
  }

  lemma OneLineField(line: string)
    ensures FieldsOf([line]) == if line == "" || line[0] == ':' then [] else [FieldOf(line)]
  {
    assert [line][..0] == [];
  }

  /** The last id and event, and the data lines joined; without a name and data there is no frame. */
  predicate MakesFrame(fields: seq<Field>, frame: Option<Frame>) {
    var event, data := LastValue(fields, "event"), Join(Values(fields, "data"), "\n");
    if (event.None? || event.value == "") && data == "" then frame == None
    else frame.Some? && frame.value.id == LastValue(fields, "id") && frame.value.event == event
         && frame.value.data == data
  }

  lemma {:induction false} FieldsMakeFrame(fields: seq<Field>)
    ensures MakesFrame(fields, FrameOf(fields))
  {
  }

  lemma {:induction false} FrameMeaning(raw: string)
    ensures MakesFrame(FieldsOf(SplitLines(raw)), Decoded(raw))
  {
    FieldsMakeFrame(FieldsOf(SplitLines(raw)));
  }

  // ----- Typed events ---------------------------------------------------------

  /** A payload whose property of that name is a text. */
  predicate TextAt(payload: Json, key: string, s: string) {
    payload.Object? && Get(payload.members, key) == Some(String(s))
  }

  ghost predicate NoTextAt(payload: Json, key: string) {
    forall s :: !TextAt(payload, key, s)
  }

  lemma TextFound(payload: Json, key: string)
    requires !payload.Null?
    ensures TextProperty(payload, key).Ok?
    ensures forall s :: TextProperty(payload, key) == Ok(Some(s)) <==> TextAt(payload, key, s)
    ensures TextProperty(payload, key) == Ok(None) <==> NoTextAt(payload, key)
  {
    if payload.Object? {
      var value := Get(payload.members, key);
      if value.Some? && value.value.String? {
        assert TextAt(payload, key, value.value.s);
      }
    }
  }

  /** The text under a key, or nothing when no text is there. */
  ghost predicate OptionalText(payload: Json, key: string, found: Option<string>) {
    if found.Some? then TextAt(payload, key, found.value) else NoTextAt(payload, key)
  }

  /** What the client yields for an event of a given name: which keys it reads, and what it makes of them. */
  ghost predicate Understood(name: string, payload: Json, event: StreamEvent) {
    match event
    case Accepted(_, queryId) => name == "accepted" && TextAt(payload, "query_id", queryId)
    case Progress(_, stage, detail) =>
      name == "progress" && TextAt(payload, "stage", stage) && OptionalText(payload, "detail", detail)
    case Heartbeat(_) => name == "heartbeat"
    case Completed(_, result) => name == "completed" && IsQueryResult(payload) == Ok(true) && result == payload
    case Failed(_, queryId, code, message) =>
      && name == "error" && TextAt(payload, "code", code) && OptionalText(payload, "query_id", queryId)
      && (TextAt(payload, "message", message)
          || (NoTextAt(payload, "message") && message == "\U{67E5}\U{8BE2}\U{6267}\U{884C}\U{5931}\U{8D25}\U{3002}"))
  }

  /** The names of events whose payload is read; a heartbeat needs none. */
  const READING := {"accepted", "progress", "completed", "error"}

  /**
    An event is yielded exactly when its payload can be understood under its name,
    numbered as it arrived.
   */
  lemma EventMeaning(sequence: int, name: Option<string>, payload: Json)
    ensures
      var read := Interpret(sequence, name, payload);
      && (forall event ::
            read == Ok(event) <==>
              name.Some? && event.sequence == sequence && Understood(name.value, payload, event))
  {
    if !payload.Null? {
      TextFound(payload, "query_id");
      TextFound(payload, "stage");
      TextFound(payload, "detail");
      TextFound(payload, "code");
      TextFound(payload, "message");
    }
  }

  /** Reading a null payload throws the engine's own error, and every other misfit is an invalid event. */
  lemma EventFaults(sequence: int, name: Option<string>, payload: Json)
    ensures
      var read := Interpret(sequence, name, payload);
      && (read == Err(TypeFault) <==>
            || (name.Some? && name.value in READING && payload.Null?)
            || (name == Some("completed") && IsQueryResult(payload) == Err(TypeFault)))
      && read != Err(OutOfOrder)
  {
    if !payload.Null? {
      TextFound(payload, "query_id");
      TextFound(payload, "stage");
      TextFound(payload, "detail");
      TextFound(payload, "code");
      TextFound(payload, "message");
    }
    ResultErrors(payload);
  }

  // ----- Results --------------------------------------------------------------

  ghost predicate HasText(payload: Json, key: string) {
    exists s :: TextAt(payload, key, s)
  }

  function Texts(texts: seq<string>): seq<Json> {
    seq(|texts|, i requires 0 <= i < |texts| => String(texts[i]))
  }

  /** A number, five texts and a list of texts: what the client requires of a citation. */
  ghost predicate Cites(value: Json) {
    && value.Object?
    && ((exists n :: Get(value.members, "id") == Some(Int(n)))
        || (exists r :: Get(value.members, "id") == Some(Float(r))))
    && HasText(value, "document_id") && HasText(value, "root_id") && HasText(value, "source_name")
    && HasText(value, "title") && HasText(value, "quote")
    && exists ids: seq<string> :: Get(value.members, "chunk_ids") == Some(Array(Texts(ids)))
  }
  lemma ResultErrors(payload: Json)
    ensures IsQueryResult(payload).Err? ==> IsQueryResult(payload) == Err(TypeFault)
    ensures payload.Null? ==> IsQueryResult(payload) == Err(TypeFault)
  {
    if payload.Object? {
      var status := Get(payload.members, "status");
      if status.Some? {
        StatusErrors(status.value);
      }
    }
  }

  lemma {:induction false} StatusErrors(value: Json)
    ensures StatusListed(value).Err? ==> StatusListed(value) == Err(TypeFault)
  {
  }

  /** An object, or an array, which is one to JavaScript. */
  predicate ObjectAt(payload: Json, key: string)
    requires payload.Object?
  {
    var value := Get(payload.members, key);
    value.Some? && (value.value.Object? || value.value.Array?)
  }

  lemma {:induction false} TextIsThere(value: Json, key: string)
    requires value.Object?
    ensures IsText(Get(value.members, key)) <==> HasText(value, key)
  {
    var found := Get(value.members, key);
    if found.Some? && found.value.String? {
      assert TextAt(value, key, found.value.s);
    }
  }

  lemma CitationMeaning(value: Json)
    ensures IsCitation(value) <==> Cites(value)
  {
    if value.Object? {
      TextIsThere(value, "document_id");
      TextIsThere(value, "root_id");
      TextIsThere(value, "source_name");
      TextIsThere(value, "title");
      TextIsThere(value, "quote");
      var id, chunks := Get(value.members, "id"), Get(value.members, "chunk_ids");
      NumberIsThere(id);
      ChunksAreTexts(chunks);
    }
  }

  lemma NumberIsThere(id: Option<Json>)
    ensures id.Some? && (id.value.Int? || id.value.Float?) <==>
            (exists n :: id == Some(Int(n))) || (exists r :: id == Some(Float(r)))
  {
    if id.Some? && id.value.Int? {
      assert id == Some(Int(id.value.i));
    } else if id.Some? && id.value.Float? {
      assert id == Some(Float(id.value.r));
    }
  }

  lemma ChunksAreTexts(chunks: Option<Json>)
    ensures
      && chunks.Some? && chunks.value.Array?
      && (forall i :: 0 <= i < |chunks.value.items| ==> chunks.value.items[i].String?) <==>
      exists ids: seq<string> :: chunks == Some(Array(Texts(ids)))
  {
    if chunks.Some? && chunks.value.Array?
       && forall i :: 0 <= i < |chunks.value.items| ==> chunks.value.items[i].String? {
      var items := chunks.value.items;
      var ids := seq(|items|, i requires 0 <= i < |items| => items[i].s);
      assert Texts(ids) == items;
    }
  }

  /** A listed status, in any number of one-element arrays. */
  function Wrapped(s: string, depth: nat): Json {
    if depth == 0 then String(s) else Array([Wrapped(s, depth - 1)])
  }

  ghost predicate NamesStatus(value: Json) {
    exists s, depth: nat :: s in {"answered", "partial", "abstained", "no_results"} && value == Wrapped(s, depth)
  }

  lemma {:induction false} StatusMeaning(value: Json)
    ensures StatusListed(value) == Ok(true) ==> NamesStatus(value)
  {
    match value
    case String(s) => assert value == Wrapped(s, 0);
    case Array(items) =>
      if StatusListed(value) == Ok(true) {
        StatusMeaning(items[0]);
        var s, depth: nat :| s in {"answered", "partial", "abstained", "no_results"} && items[0] == Wrapped(s, depth);
        assert value == Wrapped(s, depth + 1);
      }
    case _ =>
  }

  lemma {:induction false} WrappedIsListed(s: string, depth: nat)
    requires s in {"answered", "partial", "abstained", "no_results"}
    ensures StatusListed(Wrapped(s, depth)) == Ok(true)
  {
    if depth > 0 {
      WrappedIsListed(s, depth - 1);
    }
  }

  /** A value whose coercion to text throws: an own `toString`, at any depth of arrays. */
  predicate Uncoercible(value: Json) {
    match value
    case Array(items) => exists i :: 0 <= i < |items| && Uncoercible(items[i])
    case Object(members) => Get(members, "toString") != None
    case _ => false
  }

  lemma {:induction false} StatusThrows(value: Json)
    ensures StatusListed(value) == Err(TypeFault) <==> Uncoercible(value)
    ensures StatusListed(value).Err? <==> Uncoercible(value)
  {
    match value
    case Array(items) =>
      forall i | 0 <= i < |items| ensures StatusListed(items[i]).Err? <==> Uncoercible(items[i]) {
        StatusThrows(items[i]);
      }
    case _ =>
  }

  /** A completed payload is accepted for what stands under its six keys. */
  lemma {:induction false} ResultMeaning(payload: Json)
    ensures IsQueryResult(payload) == Ok(true) <==>
      && HasText(payload, "query_id") && HasText(payload, "answer")
      && (var status := Get(payload.members, "status"); status.Some? && NamesStatus(status.value))
      && (exists cited :: Get(payload.members, "citations") == Some(Array(cited)) && AllCite(cited))
      && ObjectAt(payload, "diagnostics") && ObjectAt(payload, "usage")
  {
    if payload.Object? {
      TextIsThere(payload, "query_id");
      TextIsThere(payload, "answer");
      var status := Get(payload.members, "status");
      if status.Some? {
        StatusNames(status.value);
      }
      CitationsAreThere(Get(payload.members, "citations"));
    }
  }

  ghost predicate AllCite(cited: seq<Json>) {
    forall i :: 0 <= i < |cited| ==> Cites(cited[i])
  }

  lemma CitationsAreThere(citations: Option<Json>)
    ensures
      && citations.Some? && citations.value.Array?
      && (forall i :: 0 <= i < |citations.value.items| ==> IsCitation(citations.value.items[i])) <==>
      exists cited :: citations == Some(Array(cited)) && AllCite(cited)
  {
    if citations.Some? && citations.value.Array? {
      forall i | 0 <= i < |citations.value.items|
        ensures IsCitation(citations.value.items[i]) <==> Cites(citations.value.items[i])
      {
        CitationMeaning(citations.value.items[i]);
      }
      assert citations == Some(Array(citations.value.items));
    }
  }

  lemma {:induction false} StatusNames(value: Json)
    ensures StatusListed(value) == Ok(true) <==> NamesStatus(value)
  {
    StatusMeaning(value);
    if NamesStatus(value) {
      var s, depth: nat :| s in {"answered", "partial", "abstained", "no_results"} && value == Wrapped(s, depth);
      WrappedIsListed(s, depth);
    }
  }

  /** Checking a completed payload throws for a null payload or for its status only. */
  lemma {:induction false} ResultThrows(payload: Json)
    ensures IsQueryResult(payload) == Err(TypeFault) <==>
      || payload.Null?
      || (HasText(payload, "query_id") &&
          var status := Get(payload.members, "status"); status.Some? && Uncoercible(status.value))
  {
    if payload.Object? {
      TextIsThere(payload, "query_id");
      var status := Get(payload.members, "status");
      if status.Some? {
        StatusThrows(status.value);
      }
    }
  }

  // ----- Frames as events -----------------------------------------------------

  /** A frame is numbered by a positive safe integer; its data, when there is any, is JSON. */
  lemma ParsedMeaning(p: Platform, frame: Frame)
    ensures
      var parsed := ParseEvent(p, frame);
      var sequence := if frame.id.Some? then p.number(frame.id.value) else None;
      var payload := if frame.data == "" then Some(Object([])) else p.parseJson(frame.data);
      if sequence.Some? && 1 <= sequence.value <= 9007199254740991 && payload.Some?
      then parsed == Interpret(sequence.value, frame.event, payload.value)
      else parsed == Err(EventInvalid)
  {
  }

  // ----- The stream -----------------------------------------------------------

  /** The events among some deliveries. */
  function EventsIn(steps: seq<Delivery>): seq<StreamEvent> {
    if steps == [] then []
    else EventsIn(steps[..|steps| - 1]) + if steps[|steps| - 1].Event? then [steps[|steps| - 1].event] else []
  }

  /** Why a delivery ends the stream after an event numbered `last`. */
  ghost predicate Breaks(step: Delivery, last: int, error: StreamError) {
    match step
    case Skip => false
    case Bad(e) => error == e
    case Event(event) => event.sequence <= last && error == OutOfOrder
  }

  /** Every event in front of delivery number `n` is yielded, and that one, if there is one, breaks the stream. */
  ghost predicate StopsAt(steps: seq<Delivery>, last: int, n: nat, outcome: Outcome) {
    && n <= |steps| && outcome.events == EventsIn(steps[..n])
    && (forall i, error :: 0 <= i < n ==> !Breaks(steps[i], LastSequence(EventsIn(steps[..i]), last), error))
    && (if n == |steps| then outcome.error == None
        else outcome.error.Some? && Breaks(steps[n], LastSequence(outcome.events, last), outcome.error.value))
  }

  /** The stream yields the events in front of the first delivery that breaks it, and raises what that one calls for. */
  lemma {:induction false} DeliverMeaning(steps: seq<Delivery>, last: int) returns (n: nat)
    ensures StopsAt(steps, last, n, Deliver(steps, last))
  {
    if steps == [] {
      n := 0;
    } else {
      var init, step := steps[..|steps| - 1], steps[|steps| - 1];
      assert steps == init + [step];
      var m := DeliverMeaning(init, last);
      n := OneStepMore(init, step, last, m, Deliver(init, last));
      DeliverAppend(init, [step], last);
    }
  }

  lemma OneStepMore(init: seq<Delivery>, step: Delivery, last: int, m: nat, before: Outcome) returns (n: nat)
    requires StopsAt(init, last, m, before)
    ensures
      var next := Deliver([step], LastSequence(before.events, last));
      var outcome := if before.error.Some? then before else Outcome(before.events + next.events, next.error);
      StopsAt(init + [step], last, n, outcome)
  {
    var steps, at := init + [step], LastSequence(before.events, last);
    assert forall i :: 0 <= i <= |init| ==> steps[..i] == init[..i];
    assert Deliver([step][1..], at) == Outcome([], None);
    if m < |init| {
      n := m;
    } else {
      assert init[..m] == init && steps[..m] == init;
      if step.Skip? || (step.Event? && at < step.event.sequence) {
        n := m + 1;
        assert steps[..n] == steps && steps[..|steps| - 1] == init;
        assert step.Event? ==> Deliver([], step.event.sequence) == Outcome([], None);
      } else {
        n := m;
      }
    }
  }
}
