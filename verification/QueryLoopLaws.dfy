/**
  The query loop seen from both ends: numbering and order of its events, and what
  the client yields for the times it wakes.
 */
module QueryLoopLaws {
  import opened Prelude
  import opened Text
  import opened Json
  import opened EventStream
  import opened EventStreamLaws
  import opened EventStreamServer
  import opened QueryLoop

  predicate Terminal(e: ServerEvent) {
    e.event == "completed" || e.event == "error"
  }

  /** Numbers are consecutive and nothing follows a terminal event. */
  lemma {:induction false} ServedNumbers(queryId: string, wakes: seq<Wake>, sequence: nat, lastStage: int)
    ensures
      var events := Served(queryId, wakes, sequence, lastStage);
      && |events| <= |wakes|
      && (forall i :: 0 <= i < |events| ==> events[i].sequence == sequence + 1 + i)
      && (forall i :: 0 <= i < |events| - 1 ==> !Terminal(events[i]))
  {
    if wakes != [] {
      match wakes[0]
      case Quiet => ServedNumbers(queryId, wakes[1..], sequence + 1, lastStage);
      case Woken(Some(report), _) =>
        if lastStage < report.rank {
          ServedNumbers(queryId, wakes[1..], sequence + 1, report.rank);
        }
      case Woken(None, None) => ServedNumbers(queryId, wakes[1..], sequence, lastStage);
      case _ =>
    }
  }

  /** The stage names that the progress events among `events` report. */
  function StagesOf(events: seq<ServerEvent>): seq<Option<Json>> {
    if events == [] then []
    else
      (if events[0].event == "progress" && events[0].data.Object? then [Get(events[0].data.members, "stage")] else []) +
      StagesOf(events[1..])
  }

  function StagesFrom(k: nat): seq<Option<Json>>
    requires k <= 5
    decreases 5 - k
  {
    if k == 5 then [] else [Some(String(STAGES[k]))] + StagesFrom(k + 1)
  }

  predicate Subsequence<T(==)>(s: seq<T>, whole: seq<T>) {
    s == [] || (whole != [] && ((s[0] == whole[0] && Subsequence(s[1..], whole[1..])) || Subsequence(s, whole[1..])))
  }

  lemma {:induction false} StageFits(rank: StageRank, later: seq<Option<Json>>, k: nat)
    requires k <= rank && Subsequence(later, StagesFrom(rank + 1))
    ensures Subsequence([Some(String(STAGES[rank]))] + later, StagesFrom(k))
    decreases rank - k
  {
    var stages := [Some(String(STAGES[rank]))] + later;
    assert stages[1..] == later && StagesFrom(k)[1..] == StagesFrom(k + 1);
    if k < rank {
      StageFits(rank, later, k + 1);
    }
  }

  lemma StageReported(sequence: nat, report: StageReport)
    ensures Get(ProgressEvent(sequence, report).data.members, "stage") == Some(String(STAGES[report.rank]))
  {
    GetMember(ProgressEvent(sequence, report).data.members, 0);
  }

  lemma StageAdvances(sequence: nat, report: StageReport, later: seq<ServerEvent>, lastStage: int)
    requires -1 <= lastStage < report.rank && Subsequence(StagesOf(later), StagesFrom(report.rank + 1))
    ensures Subsequence(StagesOf([ProgressEvent(sequence, report)] + later), StagesFrom(lastStage + 1))
  {
    var events := [ProgressEvent(sequence, report)] + later;
    assert events[1..] == later;
    StageReported(sequence, report);
    StageFits(report.rank, StagesOf(later), lastStage + 1);
  }

  /** Progress is reported in the order of the stages, each stage at most once, whatever the runner emits. */
  lemma {:induction false} StagesAdvance(queryId: string, wakes: seq<Wake>, sequence: nat, lastStage: int)
    requires -1 <= lastStage < 5
    ensures Subsequence(StagesOf(Served(queryId, wakes, sequence, lastStage)), StagesFrom(lastStage + 1))
  {
    var events := Served(queryId, wakes, sequence, lastStage);
    if wakes != [] {
      match wakes[0]
      case Quiet =>
        StagesAdvance(queryId, wakes[1..], sequence + 1, lastStage);
        var later := Served(queryId, wakes[1..], sequence + 1, lastStage);
        assert events[1..] == later && [] + StagesOf(later) == StagesOf(later);
      case Woken(Some(report), _) =>
        if lastStage < report.rank {
          StagesAdvance(queryId, wakes[1..], sequence + 1, report.rank);
          StageAdvances(sequence + 1, report, Served(queryId, wakes[1..], sequence + 1, report.rank), lastStage);
        } else {
          assert events[1..] == [];
        }
      case Woken(None, None) => StagesAdvance(queryId, wakes[1..], sequence, lastStage);
      case Woken(None, Some(_)) => assert events[1..] == [];
      case Gone =>
    }
  }

  /** A member of a payload, found in the ordered payload that the client parses. */
  lemma OrderedMember(members: seq<Member>, i: nat)
    requires i < |members| && Distinct(Keys(members))
    ensures Get(InKeyOrder(Object(members)).members, members[i].key) == Some(InKeyOrder(members[i].value))
  {
    GetInKeyOrder(members, members[i].key);
    GetMember(members, i);
  }

  lemma CompletedIsAccepted(x: Execution)
    ensures IsQueryResult(InKeyOrder(ExecutionJson(x))) == Ok(true)
  {
    var members := ExecutionJson(x).members;
    OrderedMember(members, 0);
    OrderedMember(members, 1);
    OrderedMember(members, 2);
    OrderedMember(members, 3);
    OrderedMember(members, 4);
    OrderedMember(members, 5);
    CitationsAreAccepted(x.citations);
    var cited := CitationItems(x.citations);
    OrderedArray(cited);
    assert members[3] == Member("citations", Array(cited));
    CompleteResult(InKeyOrder(ExecutionJson(x)), x.status, AllInKeyOrder(cited));
  }

  lemma {:induction false} OrderedArray(items: seq<Json>)
    ensures InKeyOrder(Array(items)) == Array(AllInKeyOrder(items))
  {
  }

  /** What a result must hold for the client to accept it. */
  lemma CompleteResult(payload: Json, status: Status, citations: seq<Json>)
    requires payload.Object? && IsText(Get(payload.members, "query_id")) && IsText(Get(payload.members, "answer"))
    requires Get(payload.members, "status") == Some(String(status.Text()))
    requires Get(payload.members, "citations") == Some(Array(citations))
    requires forall i :: 0 <= i < |citations| ==> IsCitation(citations[i])
    requires IsObjectLike(Get(payload.members, "diagnostics")) && IsObjectLike(Get(payload.members, "usage"))
    ensures IsQueryResult(payload) == Ok(true)
  {
    assert StatusListed(String(status.Text())) == Ok(true);
  }

  lemma CitationsAreAccepted(citations: seq<SourceCitation>)
    ensures
      var items := AllInKeyOrder(CitationItems(citations));
      forall i :: 0 <= i < |items| ==> IsCitation(items[i])
  {
    var items := CitationItems(citations);
    AllInKeyOrderAt(items);
    forall i | 0 <= i < |citations| ensures IsCitation(AllInKeyOrder(items)[i]) {
      CitationIsAccepted(citations[i]);
    }
  }

  lemma CitationIsAccepted(c: SourceCitation)
    ensures IsCitation(InKeyOrder(CitationJson(c)))
  {
    var members := CitationJson(c).members;
    CitationKeysDiffer(c);
    forall i | 0 <= i < |members|
      ensures Get(InKeyOrder(CitationJson(c)).members, members[i].key) == Some(InKeyOrder(members[i].value))
    {
      OrderedMember(members, i);
    }
    AllInKeyOrderAt(members[3].value.items);
    assert AllInKeyOrder(members[3].value.items) == members[3].value.items;
    AcceptedCitation(c, InKeyOrder(CitationJson(c)));
  }

  lemma AcceptedCitation(c: SourceCitation, value: Json)
    requires value.Object?
    requires
      var members := CitationJson(c).members;
      && (forall i :: 0 <= i < |members| ==>
            Get(value.members, members[i].key) == Some(InKeyOrder(members[i].value)))
      && AllInKeyOrder(members[3].value.items) == members[3].value.items
    ensures IsCitation(value)
  {
    var members := CitationJson(c).members;
    assert Get(value.members, members[0].key) == Some(InKeyOrder(members[0].value));
    assert Get(value.members, members[1].key) == Some(InKeyOrder(members[1].value));
    assert Get(value.members, members[2].key) == Some(InKeyOrder(members[2].value));
    assert Get(value.members, members[3].key) == Some(InKeyOrder(members[3].value));
    assert Get(value.members, members[4].key) == Some(InKeyOrder(members[4].value));
    assert Get(value.members, members[5].key) == Some(InKeyOrder(members[5].value));
    assert Get(value.members, members[8].key) == Some(InKeyOrder(members[8].value));
  }

  /** Everything the query loop emits is an event the client accepts. */
  lemma {:induction false} ServedAccepted(queryId: string, wakes: seq<Wake>, sequence: nat, lastStage: int)
    ensures forall e :: e in Served(queryId, wakes, sequence, lastStage) ==> Received(e).Event?
  {
    if wakes != [] {
      match wakes[0]
      case Quiet => ServedAccepted(queryId, wakes[1..], sequence + 1, lastStage);
      case Woken(Some(report), _) =>
        ProgressAccepted(sequence + 1, report);
        ErrorAccepted(sequence + 1, queryId, INTERNAL_ERROR);
        if lastStage < report.rank {
          ServedAccepted(queryId, wakes[1..], sequence + 1, report.rank);
        }
      case Woken(None, Some(Raised(code))) => ErrorAccepted(sequence + 1, queryId, code);
      case Woken(None, Some(Finished(execution))) => CompletedIsAccepted(execution);
      case Woken(None, None) => ServedAccepted(queryId, wakes[1..], sequence, lastStage);
      case Gone =>
    }
  }

  lemma ProgressAccepted(sequence: nat, report: StageReport)
    ensures Received(ProgressEvent(sequence, report)) ==
            Event(Progress(sequence, STAGES[report.rank], report.detail))
  {
    var members := ProgressEvent(sequence, report).data.members;
    OrderedMember(members, 0);
    GetInKeyOrder(members, "detail");
    if report.detail.Some? {
      GetMember(members, 1);
    } else {
      assert members[1..] == [];
      assert Get(members, "detail") == Get(members[1..], "detail");
    }
  }

  lemma ErrorAccepted(sequence: nat, queryId: string, code: string)
    ensures Received(ErrorEvent(sequence, queryId, code)) ==
            Event(Failed(sequence, Some(queryId), code, "Query execution failed."))
  {
    var members := ErrorEvent(sequence, queryId, code).data.members;
    OrderedMember(members, 0);
    OrderedMember(members, 1);
    OrderedMember(members, 2);
  }

  // ----- What the client sees -------------------------------------------------

  lemma AcceptedArrives(queryId: string)
    ensures Received(ServerEvent(1, "accepted", Object([Member("query_id", String(queryId))]))) ==
            Event(Accepted(1, queryId))
  {
    OrderedMember([Member("query_id", String(queryId))], 0);
  }

  /** The result arrives whole, with its members in key order. */
  lemma CompletedArrives(sequence: nat, x: Execution)
    ensures Received(ServerEvent(sequence, "completed", ExecutionJson(x))) ==
            Event(Completed(sequence, InKeyOrder(ExecutionJson(x))))
    ensures Carries(InKeyOrder(ExecutionJson(x)), x, InKeyOrder)
  {
    CompletedIsAccepted(x);
    ResultArrives(x);
  }

  lemma {:induction false} OrderedByKey(members: seq<Member>, i: nat, key: string, value: Json)
    requires i < |members| && Distinct(Keys(members)) && members[i] == Member(key, value)
    ensures Get(InKeyOrder(Object(members)).members, key) == Some(InKeyOrder(value))
  {
    OrderedMember(members, i);
  }

  lemma ResultArrives(x: Execution)
    ensures Carries(InKeyOrder(ExecutionJson(x)), x, InKeyOrder)
  {
    var members, items := ExecutionJson(x).members, CitationItems(x.citations);
    OrderedByKey(members, 0, "query_id", String(x.queryId));
    OrderedByKey(members, 1, "status", String(x.status.Text()));
    OrderedByKey(members, 2, "answer", String(x.answer));
    OrderedByKey(members, 3, "citations", Array(items));
    OrderedByKey(members, 4, "diagnostics", Object(x.diagnostics));
    OrderedByKey(members, 5, "usage", Object(x.usage));
    OrderedByKey(members, 6, "trace_id", x.traceId);
    OrderedArray(items);
    AllInKeyOrderAt(items);
    forall i | 0 <= i < |x.citations|
      ensures CarriesCitation(AllInKeyOrder(items)[i], x.citations[i], InKeyOrder)
    {
      CitationArrives(x.citations[i]);
    }
  }

  lemma CitationArrives(c: SourceCitation)
    ensures CarriesCitation(InKeyOrder(CitationJson(c)), c, InKeyOrder)
  {
    var members := CitationJson(c).members;
    var ids := members[3].value.items;
    CitationKeysDiffer(c);
    OrderedByKey(members, 0, "id", Int(c.id));
    OrderedByKey(members, 1, "document_id", String(c.documentId));
    OrderedByKey(members, 2, "root_id", String(c.rootId));
    OrderedByKey(members, 3, "chunk_ids", Array(ids));
    OrderedByKey(members, 4, "source_name", String(c.sourceName));
    OrderedByKey(members, 5, "title", String(c.title));
    OrderedByKey(members, 6, "page", c.page);
    OrderedByKey(members, 7, "section", c.section);
    OrderedByKey(members, 8, "quote", String(c.quote));
    OrderedByKey(members, 9, "score", c.score);
    OrderedArray(ids);
    AllInKeyOrderAt(ids);
  }

  /** What the client yields for a wake that speaks. */
  predicate Yields(event: StreamEvent, sequence: nat, wake: Wake)
    requires Speaks(wake)
  {
    if wake.Quiet? then event == Heartbeat(sequence)
    else event == Progress(sequence, STAGES[wake.progress.value.rank], wake.progress.value.detail)
  }

  /** What the client yields last: the failure, or the whole result. */
  predicate Concludes(event: StreamEvent, sequence: nat, queryId: string, wake: Wake) {
    match wake
    case Woken(Some(_), _) => event == Failed(sequence, Some(queryId), "INTERNAL_ERROR", "Query execution failed.")
    case Woken(None, Some(Raised(code))) => event == Failed(sequence, Some(queryId), code, "Query execution failed.")
    case Woken(None, Some(Finished(x))) =>
      event.Completed? && event.sequence == sequence && Carries(event.result, x, InKeyOrder)
    case _ => false
  }

  /** What the client yields for wakes that end at number `n`. */
  predicate ClientSees(queryId: string, wakes: seq<Wake>, n: nat, events: seq<StreamEvent>)
    requires n <= |wakes|
  {
    && events != [] && events[0] == Accepted(1, queryId)
    && (forall i :: 0 <= i < n && Speaks(wakes[i]) ==>
          1 + Spoken(wakes, i) < |events| && Yields(events[1 + Spoken(wakes, i)], 2 + Spoken(wakes, i), wakes[i]))
    && if n == |wakes| || wakes[n].Gone? then |events| == 1 + Spoken(wakes, n)
       else
         && |events| == 2 + Spoken(wakes, n)
         && Concludes(events[1 + Spoken(wakes, n)], 2 + Spoken(wakes, n), queryId, wakes[n])
  }

  lemma WordYields(wake: Wake, sequence: nat, event: StreamEvent)
    requires Speaks(wake) && Received(Word(wake, sequence)) == Event(event)
    ensures Yields(event, sequence, wake)
  {
    if wake.Woken? {
      ProgressAccepted(sequence, wake.progress.value);
    }
  }

  lemma LastWordConcludes(queryId: string, wakes: seq<Wake>, n: nat, sequence: nat, event: StreamEvent)
    requires n < |wakes| && Ends(wakes, n, -1) && !wakes[n].Gone?
    requires LastWords(queryId, wakes, n, sequence) != []
    requires Received(LastWords(queryId, wakes, n, sequence)[0]) == Event(event)
    ensures Concludes(event, sequence, queryId, wakes[n])
  {
    match wakes[n]
    case Woken(Some(_), _) => ErrorAccepted(sequence, queryId, INTERNAL_ERROR);
    case Woken(None, Some(Raised(code))) => ErrorAccepted(sequence, queryId, code);
    case Woken(None, Some(Finished(x))) => CompletedArrives(sequence, x);
  }

  /** Each event is the one received for the served event in its place. */
  ghost predicate EachReceived(events: seq<StreamEvent>, served: seq<ServerEvent>) {
    |events| == |served| && forall i :: 0 <= i < |served| ==> Received(served[i]) == Event(events[i])
  }

  lemma {:induction false} SeenOnTheWay(queryId: string, wakes: seq<Wake>, n: nat, later: seq<ServerEvent>, i: nat,
      event: StreamEvent)
    requires n <= |wakes| && WordForWord(queryId, wakes, n, 1, later) && i < n && Speaks(wakes[i])
    requires Spoken(wakes, i) < |later| && Received(later[Spoken(wakes, i)]) == Event(event)
    ensures Yields(event, 2 + Spoken(wakes, i), wakes[i])
  {
    WordYields(wakes[i], 2 + Spoken(wakes, i), event);
  }

  lemma {:induction false} SeenAtTheEnd(queryId: string, wakes: seq<Wake>, n: nat, later: seq<ServerEvent>,
      event: StreamEvent)
    requires EndsAt(wakes, n, -1) && WordForWord(queryId, wakes, n, 1, later)
    requires n < |wakes| && !wakes[n].Gone?
    requires Spoken(wakes, n) < |later| && Received(later[Spoken(wakes, n)]) == Event(event)
    ensures Concludes(event, 2 + Spoken(wakes, n), queryId, wakes[n])
  {
    var k := Spoken(wakes, n);
    assert later[k] == later[k..][0];
    LastWordConcludes(queryId, wakes, n, 2 + k, event);
  }

  lemma {:induction false} WordCount(queryId: string, wakes: seq<Wake>, n: nat, later: seq<ServerEvent>)
    requires EndsAt(wakes, n, -1) && WordForWord(queryId, wakes, n, 1, later)
    ensures |later| == Spoken(wakes, n) + if n == |wakes| || wakes[n].Gone? then 0 else 1
    ensures forall i :: 0 <= i < n && Speaks(wakes[i]) ==> Spoken(wakes, i) < Spoken(wakes, n)
  {
    var k := Spoken(wakes, n);
    assert |later[k..]| == |LastWords(queryId, wakes, n, 2 + k)|;
  }

  lemma WordsSeen(queryId: string, wakes: seq<Wake>, n: nat, later: seq<ServerEvent>, events: seq<StreamEvent>)
    requires EndsAt(wakes, n, -1) && WordForWord(queryId, wakes, n, 1, later)
    requires |events| == 1 + |later| && events[0] == Accepted(1, queryId)
    requires forall i :: 0 <= i < |later| ==> Received(later[i]) == Event(events[1 + i])
    ensures ClientSees(queryId, wakes, n, events)
  {
    WordCount(queryId, wakes, n, later);
    forall i | 0 <= i < n && Speaks(wakes[i])
      ensures Yields(events[1 + Spoken(wakes, i)], 2 + Spoken(wakes, i), wakes[i])
    {
      SeenOnTheWay(queryId, wakes, n, later, i, events[1 + Spoken(wakes, i)]);
    }
    if n < |wakes| && !wakes[n].Gone? {
      SeenAtTheEnd(queryId, wakes, n, later, events[1 + Spoken(wakes, n)]);
    }
  }

  /**
    End to end: whatever the loop wakes to and however the network cuts its text, the
    client yields, without exception, the acceptance, one heartbeat or progress event
    for each wake in its place, and the result or the failure that ended the loop.
   */
  lemma {:induction false} EndToEnd(p: Platform, print_: Json -> string, queryId: string, wakes: seq<Wake>,
      chunks: seq<string>) returns (n: nat)
    requires ReadsDecimals(p) && |wakes| < MAX_SAFE_INTEGER
    requires forall e :: e in ServedStream(queryId, wakes) ==> Faithful(p, print_, e)
    requires Flatten(chunks) == PrintedStream(print_, ServedStream(queryId, wakes))
    ensures EndsAt(wakes, n, -1)
    ensures
      var outcome := StreamOutcome(p, chunks);
      outcome.error == None && ClientSees(queryId, wakes, n, outcome.events)
  {
    EventsArrive(p, print_, queryId, wakes, chunks);
    n := ServedWords(queryId, wakes, 1, -1);
    AcceptedArrives(queryId);
    var later, events := Served(queryId, wakes, 1, -1), StreamOutcome(p, chunks).events;
    assert ServedStream(queryId, wakes)[0].event == "accepted";
    assert forall i :: 0 <= i < |later| ==> ServedStream(queryId, wakes)[1 + i] == later[i];
    WordsSeen(queryId, wakes, n, later, events);
  }

  lemma {:induction false} EventsArrive(p: Platform, print_: Json -> string, queryId: string, wakes: seq<Wake>,
      chunks: seq<string>)
    requires ReadsDecimals(p) && |wakes| < MAX_SAFE_INTEGER
    requires forall e :: e in ServedStream(queryId, wakes) ==> Faithful(p, print_, e)
    requires Flatten(chunks) == PrintedStream(print_, ServedStream(queryId, wakes))
    ensures
      var outcome := StreamOutcome(p, chunks);
      outcome.error == None && EachReceived(outcome.events, ServedStream(queryId, wakes))
  {
    var served := ServedStream(queryId, wakes);
    ServedNumbers(queryId, wakes, 1, -1);
    ServedAccepted(queryId, wakes, 1, -1);
    var later := Served(queryId, wakes, 1, -1);
    assert forall i :: 0 <= i < |served| ==> served[i].sequence == i + 1 by {
      assert forall i :: 0 < i < |served| ==> served[i] == later[i - 1];
    }
    OrderedMember(served[0].data.members, 0);
    ValidEventsArrive(p, print_, served, chunks);
  }
}
