/**
  The server's query loop, which numbers events and ends with a terminal one, and
  what the client sees of each time the loop wakes.
 */
module QueryLoop {
  import opened Prelude
  import opened Text
  import opened Json
  import opened EventStream
  import opened EventStreamLaws
  import opened EventStreamServer

  const STAGES := ["planning", "retrieving", "reranking", "recovering", "answering"]

  type StageRank = r: nat | r < 5

  datatype StageReport = StageReport(rank: StageRank, detail: Option<string>)

  datatype SourceCitation = SourceCitation(
    id: nat, documentId: string, rootId: string, chunkIds: seq<string>, sourceName: string,
    title: string, page: Json, section: Json, quote: string, score: Json)

  datatype Status = ANSWERED | PARTIAL | ABSTAINED | NO_RESULTS {
    function Text(): string {
      match this
      case ANSWERED => "answered"
      case PARTIAL => "partial"
      case ABSTAINED => "abstained"
      case NO_RESULTS => "no_results"
    }
  }

  datatype Execution = Execution(
    queryId: string, status: Status, answer: string, citations: seq<SourceCitation>,
    diagnostics: seq<Member>, usage: seq<Member>, traceId: Json)

  datatype RunResult = Finished(execution: Execution) | Raised(code: string)

  /** What one pass of the loop finds after waiting. */
  datatype Wake =
    | Gone                                                              // the client disconnected
    | Quiet                                                             // the heartbeat interval elapsed
    | Woken(progress: Option<StageReport>, run: Option<RunResult>)

  function CitationJson(c: SourceCitation): Json {
    Object([
      Member("id", Int(c.id)), Member("document_id", String(c.documentId)), Member("root_id", String(c.rootId)),
      Member("chunk_ids", Array(seq(|c.chunkIds|, i requires 0 <= i < |c.chunkIds| => String(c.chunkIds[i])))),
      Member("source_name", String(c.sourceName)), Member("title", String(c.title)),
      Member("page", c.page), Member("section", c.section), Member("quote", String(c.quote)),
      Member("score", c.score)])
  }

  function CitationItems(citations: seq<SourceCitation>): seq<Json> {
    seq(|citations|, i requires 0 <= i < |citations| => CitationJson(citations[i]))
  }

  function ExecutionJson(x: Execution): Json {
    Object([
      Member("query_id", String(x.queryId)), Member("status", String(x.status.Text())),
      Member("answer", String(x.answer)),
      Member("citations", Array(CitationItems(x.citations))),
      Member("diagnostics", Object(x.diagnostics)), Member("usage", Object(x.usage)),
      Member("trace_id", x.traceId)])
  }

  function ErrorEvent(sequence: nat, queryId: string, code: string): ServerEvent {
    ServerEvent(sequence, "error", Object([
      Member("query_id", String(queryId)), Member("code", String(code)),
      Member("message", String("Query execution failed."))]))
  }

  function ProgressEvent(sequence: nat, report: StageReport): ServerEvent {
    ServerEvent(sequence, "progress", Object(
      [Member("stage", String(STAGES[report.rank]))] +
      if report.detail.Some? then [Member("detail", String(report.detail.value))] else []))
  }

  const INTERNAL_ERROR := "INTERNAL_ERROR"

  /** Events the loop yields for a run of wakes, after event number `sequence` and stage `lastStage`. */
  function Served(queryId: string, wakes: seq<Wake>, sequence: nat, lastStage: int): seq<ServerEvent> {
    if wakes == [] then []
    else match wakes[0]
      case Gone => []
      case Quiet =>
        [ServerEvent(sequence + 1, "heartbeat", Object([]))] + Served(queryId, wakes[1..], sequence + 1, lastStage)
      case Woken(Some(report), _) =>
        if report.rank <= lastStage then [ErrorEvent(sequence + 1, queryId, INTERNAL_ERROR)]
        else [ProgressEvent(sequence + 1, report)] + Served(queryId, wakes[1..], sequence + 1, report.rank)
      case Woken(None, Some(Raised(code))) => [ErrorEvent(sequence + 1, queryId, code)]
      case Woken(None, Some(Finished(execution))) =>
        [ServerEvent(sequence + 1, "completed", ExecutionJson(execution))]
      case Woken(None, None) => Served(queryId, wakes[1..], sequence, lastStage)
  }

  function ServedStream(queryId: string, wakes: seq<Wake>): seq<ServerEvent> {
    [ServerEvent(1, "accepted", Object([Member("query_id", String(queryId))]))] + Served(queryId, wakes, 1, -1)
  }

  // ----- What the loop says at each wake --------------------------------------

  /** A wake that yields an event and goes on. */
  predicate Speaks(wake: Wake) {
    wake.Quiet? || (wake.Woken? && wake.progress.Some?)
  }

  /** How many of the first `n` wakes yield an event. */
  function Spoken(wakes: seq<Wake>, n: nat): nat
    requires n <= |wakes|
  {
    if n == 0 then 0 else (if Speaks(wakes[0]) then 1 else 0) + Spoken(wakes[1..], n - 1)
  }

  /**
    The wakes that end the loop: the client is gone, the run is over and nothing is
    left to report, or a stage is reported that is not beyond `last` and every stage
    reported before.
   */
  predicate Ends(wakes: seq<Wake>, i: nat, last: int)
    requires i < |wakes|
  {
    match wakes[i]
    case Gone => true
    case Quiet => false
    case Woken(None, run) => run.Some?
    case Woken(Some(report), _) =>
      report.rank <= last
      || exists j :: 0 <= j < i && wakes[j].Woken? && wakes[j].progress.Some?
                     && report.rank <= wakes[j].progress.value.rank
  }

  /** The first wake that ends the loop is number `n`; there is none when `n` is their number. */
  predicate EndsAt(wakes: seq<Wake>, n: nat, last: int) {
    n <= |wakes| && (forall i :: 0 <= i < n ==> !Ends(wakes, i, last)) && (n < |wakes| ==> Ends(wakes, n, last))
  }

  predicate AcceptedBy(e: ServerEvent, queryId: string) {
    && e.sequence == 1 && e.event == "accepted" && e.data.Object?
    && Get(e.data.members, "query_id") == Some(String(queryId))
  }

  /** An event that keeps the client informed. */
  predicate Tells(e: ServerEvent, sequence: nat, wake: Wake)
    requires Speaks(wake)
  {
    && e.sequence == sequence && e.data.Object?
    && if wake.Quiet? then e.event == "heartbeat" && e.data.members == []
       else
         var report := wake.progress.value;
         && e.event == "progress"
         && Get(e.data.members, "stage") == Some(String(STAGES[report.rank]))
         && Get(e.data.members, "detail") ==
            if report.detail.Some? then Some(String(report.detail.value)) else None
  }

  /** A citation under its keys; `seen` is what becomes of the values that are passed on as they are. */
  predicate CarriesCitation(value: Json, c: SourceCitation, seen: Json -> Json) {
    && value.Object?
    && Get(value.members, "id") == Some(Int(c.id))
    && Get(value.members, "document_id") == Some(String(c.documentId))
    && Get(value.members, "root_id") == Some(String(c.rootId))
    && (var ids := Get(value.members, "chunk_ids");
        && ids.Some? && ids.value.Array? && |ids.value.items| == |c.chunkIds|
        && forall i :: 0 <= i < |c.chunkIds| ==> ids.value.items[i] == String(c.chunkIds[i]))
    && Get(value.members, "source_name") == Some(String(c.sourceName))
    && Get(value.members, "title") == Some(String(c.title))
    && Get(value.members, "page") == Some(seen(c.page)) && Get(value.members, "section") == Some(seen(c.section))
    && Get(value.members, "quote") == Some(String(c.quote)) && Get(value.members, "score") == Some(seen(c.score))
  }

  /** The result of a query under its keys. */
  predicate Carries(payload: Json, x: Execution, seen: Json -> Json) {
    && payload.Object?
    && Get(payload.members, "query_id") == Some(String(x.queryId))
    && Get(payload.members, "status") == Some(String(
         match x.status
         case ANSWERED => "answered"
         case PARTIAL => "partial"
         case ABSTAINED => "abstained"
         case NO_RESULTS => "no_results"))
    && Get(payload.members, "answer") == Some(String(x.answer))
    && (var cited := Get(payload.members, "citations");
        && cited.Some? && cited.value.Array? && |cited.value.items| == |x.citations|
        && forall i :: 0 <= i < |x.citations| ==> CarriesCitation(cited.value.items[i], x.citations[i], seen))
    && Get(payload.members, "diagnostics") == Some(seen(Object(x.diagnostics)))
    && Get(payload.members, "usage") == Some(seen(Object(x.usage)))
    && Get(payload.members, "trace_id") == Some(seen(x.traceId))
  }

  predicate Reported(e: ServerEvent, queryId: string, code: string) {
    && e.event == "error" && e.data.Object?
    && Get(e.data.members, "query_id") == Some(String(queryId)) && Get(e.data.members, "code") == Some(String(code))
    && Get(e.data.members, "message") == Some(String("Query execution failed."))
  }

  /** The terminal event that a wake calls for. */
  predicate Terminates(e: ServerEvent, sequence: nat, queryId: string, wake: Wake) {
    && e.sequence == sequence
    && match wake
       case Woken(Some(_), _) => Reported(e, queryId, "INTERNAL_ERROR")
       case Woken(None, Some(Raised(code))) => Reported(e, queryId, code)
       case Woken(None, Some(Finished(x))) => e.event == "completed" && Carries(e.data, x, (j: Json) => j)
       case _ => false
  }

  /**
    The events that the wakes call for: acceptance first, then one for each wake that
    speaks, in its place, and behind them the terminal one, unless the client is gone.
   */
  predicate ServesWakes(queryId: string, wakes: seq<Wake>, n: nat, events: seq<ServerEvent>)
    requires n <= |wakes|
  {
    && events != [] && AcceptedBy(events[0], queryId)
    && (forall i :: 0 <= i < n && Speaks(wakes[i]) ==>
          1 + Spoken(wakes, i) < |events| && Tells(events[1 + Spoken(wakes, i)], 2 + Spoken(wakes, i), wakes[i]))
    && if n == |wakes| || wakes[n].Gone? then |events| == 1 + Spoken(wakes, n)
       else
         && |events| == 2 + Spoken(wakes, n)
         && Terminates(events[1 + Spoken(wakes, n)], 2 + Spoken(wakes, n), queryId, wakes[n])
  }

  // Proof: the events themselves, wake by wake.

  function Word(wake: Wake, sequence: nat): ServerEvent
    requires Speaks(wake)
  {
    if wake.Quiet? then ServerEvent(sequence, "heartbeat", Object([])) else ProgressEvent(sequence, wake.progress.value)
  }

  function LastWords(queryId: string, wakes: seq<Wake>, n: nat, sequence: nat): seq<ServerEvent>
    requires n <= |wakes|
  {
    if n == |wakes| then []
    else match wakes[n]
      case Woken(Some(_), _) => [ErrorEvent(sequence, queryId, INTERNAL_ERROR)]
      case Woken(None, Some(Raised(code))) => [ErrorEvent(sequence, queryId, code)]
      case Woken(None, Some(Finished(execution))) => [ServerEvent(sequence, "completed", ExecutionJson(execution))]
      case _ => []
  }

  ghost predicate WordForWord(queryId: string, wakes: seq<Wake>, n: nat, sequence: nat, events: seq<ServerEvent>)
    requires n <= |wakes|
  {
    && Spoken(wakes, n) <= |events|
    && (forall i :: 0 <= i < n && Speaks(wakes[i]) ==>
          && Spoken(wakes, i) < Spoken(wakes, n)
          && events[Spoken(wakes, i)] == Word(wakes[i], sequence + 1 + Spoken(wakes, i)))
    && events[Spoken(wakes, n)..] == LastWords(queryId, wakes, n, sequence + 1 + Spoken(wakes, n))
  }

  lemma SpokenCons(wakes: seq<Wake>, i: nat)
    requires 0 < i <= |wakes|
    ensures Spoken(wakes, i) == (if Speaks(wakes[0]) then 1 else 0) + Spoken(wakes[1..], i - 1)
  {
  }

  lemma WordCons(wakes: seq<Wake>, m: nat, sequence: nat, later: seq<ServerEvent>, first: seq<ServerEvent>,
      queryId: string, i: nat)
    requires wakes != [] && m <= |wakes| - 1 && 0 < i < m + 1 && Speaks(wakes[i])
    requires |first| == if Speaks(wakes[0]) then 1 else 0
    requires WordForWord(queryId, wakes[1..], m, sequence + |first|, later)
    ensures Spoken(wakes, i) < Spoken(wakes, m + 1) && Spoken(wakes, i) < |first + later|
    ensures (first + later)[Spoken(wakes, i)] == Word(wakes[i], sequence + 1 + Spoken(wakes, i))
  {
    SpokenCons(wakes, i);
    SpokenCons(wakes, m + 1);
    assert wakes[1..][i - 1] == wakes[i];
    assert (first + later)[Spoken(wakes, i)] == later[Spoken(wakes[1..], i - 1)];
  }

  lemma FirstWord(wakes: seq<Wake>, m: nat, sequence: nat, later: seq<ServerEvent>, first: seq<ServerEvent>)
    requires wakes != [] && m <= |wakes| - 1 && Speaks(wakes[0]) && first == [Word(wakes[0], sequence + 1)]
    ensures Spoken(wakes, 0) == 0 < Spoken(wakes, m + 1) && 0 < |first + later|
    ensures (first + later)[0] == Word(wakes[0], sequence + 1)
  {
    SpokenCons(wakes, m + 1);
  }

  /** One wake more in front, which does not end the loop. */
  lemma WordsCons(queryId: string, wakes: seq<Wake>, m: nat, sequence: nat, later: seq<ServerEvent>)
    requires wakes != [] && m <= |wakes| - 1
    requires WordForWord(queryId, wakes[1..], m, sequence + if Speaks(wakes[0]) then 1 else 0, later)
    ensures
      var first := if Speaks(wakes[0]) then [Word(wakes[0], sequence + 1)] else [];
      WordForWord(queryId, wakes, m + 1, sequence, first + later)
  {
    var first := if Speaks(wakes[0]) then [Word(wakes[0], sequence + 1)] else [];
    forall i | 0 <= i < m + 1 && Speaks(wakes[i])
      ensures Spoken(wakes, i) < Spoken(wakes, m + 1) && Spoken(wakes, i) < |first + later|
      ensures (first + later)[Spoken(wakes, i)] == Word(wakes[i], sequence + 1 + Spoken(wakes, i))
    {
      if i > 0 {
        WordCons(wakes, m, sequence, later, first, queryId, i);
      } else {
        FirstWord(wakes, m, sequence, later, first);
      }
    }
    LastWordsCons(queryId, wakes, m, sequence, later, first);
  }

  lemma LastWordsCons(queryId: string, wakes: seq<Wake>, m: nat, sequence: nat, later: seq<ServerEvent>,
      first: seq<ServerEvent>)
    requires wakes != [] && m <= |wakes| - 1 && |first| == if Speaks(wakes[0]) then 1 else 0
    requires WordForWord(queryId, wakes[1..], m, sequence + |first|, later)
    ensures Spoken(wakes, m + 1) <= |first + later|
    ensures (first + later)[Spoken(wakes, m + 1)..] ==
            LastWords(queryId, wakes, m + 1, sequence + 1 + Spoken(wakes, m + 1))
  {
    SpokenCons(wakes, m + 1);
    assert (first + later)[Spoken(wakes, m + 1)..] == later[Spoken(wakes[1..], m)..];
    assert m + 1 < |wakes| ==> wakes[m + 1] == wakes[1..][m];
  }

  lemma EndsCons(wakes: seq<Wake>, m: nat, last: int, next: int)
    requires wakes != [] && !Ends(wakes, 0, last) && EndsAt(wakes[1..], m, next)
    requires next ==
      if wakes[0].Woken? && wakes[0].progress.Some? then wakes[0].progress.value.rank as int else last
    ensures EndsAt(wakes, m + 1, last)
  {
    var rest := wakes[1..];
    forall i | 0 < i < |wakes| ensures Ends(wakes, i, last) <==> Ends(rest, i - 1, next) {
      assert forall j :: 0 < j < i ==> wakes[j] == rest[j - 1];
      assert forall j :: 0 <= j < i - 1 ==> rest[j] == wakes[j + 1];
    }
  }

  lemma {:induction false} NothingMore(queryId: string, wakes: seq<Wake>, sequence: nat, lastStage: int)
    requires -1 <= lastStage && (wakes == [] || Ends(wakes, 0, lastStage))
    ensures Served(queryId, wakes, sequence, lastStage) == LastWords(queryId, wakes, 0, sequence + 1)
  {
  }

  lemma ServedCons(queryId: string, wakes: seq<Wake>, sequence: nat, lastStage: int) returns (next: int)
    requires -1 <= lastStage && wakes != [] && !Ends(wakes, 0, lastStage)
    ensures -1 <= next == if wakes[0].Woken? && wakes[0].progress.Some? then wakes[0].progress.value.rank as int
                    else lastStage
    ensures Served(queryId, wakes, sequence, lastStage) ==
      if Speaks(wakes[0]) then [Word(wakes[0], sequence + 1)] + Served(queryId, wakes[1..], sequence + 1, next)
      else [] + Served(queryId, wakes[1..], sequence, next)
  {
    next := if wakes[0].Woken? && wakes[0].progress.Some? then wakes[0].progress.value.rank as int else lastStage;
  }

  lemma {:induction false} ServedWords(queryId: string, wakes: seq<Wake>, sequence: nat, lastStage: int)
    returns (n: nat)
    requires -1 <= lastStage
    ensures EndsAt(wakes, n, lastStage)
    ensures WordForWord(queryId, wakes, n, sequence, Served(queryId, wakes, sequence, lastStage))
  {
    if wakes == [] || Ends(wakes, 0, lastStage) {
      n := 0;
      NothingMore(queryId, wakes, sequence, lastStage);
    } else {
      var next := ServedCons(queryId, wakes, sequence, lastStage);
      var later := sequence + if Speaks(wakes[0]) then 1 else 0;
      var m := ServedWords(queryId, wakes[1..], later, next);
      EndsCons(wakes, m, lastStage, next);
      WordsCons(queryId, wakes, m, sequence, Served(queryId, wakes[1..], later, next));
      n := m + 1;
    }
  }

  lemma {:induction false} ByKey(members: seq<Member>, i: nat, key: string, value: Json)
    requires i < |members| && Distinct(Keys(members)) && members[i] == Member(key, value)
    ensures Get(members, key) == Some(value)
  {
    GetMember(members, i);
  }

  lemma CitationByKey(c: SourceCitation)
    ensures CarriesCitation(CitationJson(c), c, (j: Json) => j)
  {
    var members := CitationJson(c).members;
    CitationKeysDiffer(c);
    ByKey(members, 0, "id", Int(c.id));
    ByKey(members, 1, "document_id", String(c.documentId));
    ByKey(members, 2, "root_id", String(c.rootId));
    GetMember(members, 3);
    ByKey(members, 4, "source_name", String(c.sourceName));
    ByKey(members, 5, "title", String(c.title));
    ByKey(members, 6, "page", c.page);
    ByKey(members, 7, "section", c.section);
    ByKey(members, 8, "quote", String(c.quote));
    ByKey(members, 9, "score", c.score);
  }

  lemma CitationKeysDiffer(c: SourceCitation)
    ensures Distinct(Keys(CitationJson(c).members))
  {
  }

  lemma ResultByKey(x: Execution)
    ensures Carries(ExecutionJson(x), x, (j: Json) => j)
  {
    var members := ExecutionJson(x).members;
    ByKey(members, 0, "query_id", String(x.queryId));
    ByKey(members, 1, "status", String(x.status.Text()));
    ByKey(members, 2, "answer", String(x.answer));
    ByKey(members, 3, "citations", Array(CitationItems(x.citations)));
    ByKey(members, 4, "diagnostics", Object(x.diagnostics));
    ByKey(members, 5, "usage", Object(x.usage));
    ByKey(members, 6, "trace_id", x.traceId);
    forall i | 0 <= i < |x.citations|
      ensures CarriesCitation(CitationItems(x.citations)[i], x.citations[i], (j: Json) => j)
    {
      CitationByKey(x.citations[i]);
    }
  }

  lemma WordTells(wake: Wake, sequence: nat)
    requires Speaks(wake)
    ensures Tells(Word(wake, sequence), sequence, wake)
  {
    if wake.Woken? {
      var members := Word(wake, sequence).data.members;
      GetMember(members, 0);
      if wake.progress.value.detail.Some? {
        GetMember(members, 1);
      } else {
        AbsentKey(members, "detail");
      }
    }
  }

  lemma LastWordTerminates(queryId: string, wakes: seq<Wake>, n: nat, sequence: nat)
    requires n < |wakes| && Ends(wakes, n, -1) && !wakes[n].Gone?
    ensures
      var words := LastWords(queryId, wakes, n, sequence);
      |words| == 1 && Terminates(words[0], sequence, queryId, wakes[n])
  {
    match wakes[n]
    case Woken(Some(_), _) => ErrorByKey(sequence, queryId, INTERNAL_ERROR);
    case Woken(None, Some(Raised(code))) => ErrorByKey(sequence, queryId, code);
    case Woken(None, Some(Finished(x))) => ResultByKey(x);
  }

  lemma ErrorByKey(sequence: nat, queryId: string, code: string)
    ensures Reported(ErrorEvent(sequence, queryId, code), queryId, code)
  {
    var members := ErrorEvent(sequence, queryId, code).data.members;
    GetMember(members, 0);
    GetMember(members, 1);
    GetMember(members, 2);
  }

  lemma WordsServe(queryId: string, wakes: seq<Wake>, n: nat, later: seq<ServerEvent>)
    requires EndsAt(wakes, n, -1) && WordForWord(queryId, wakes, n, 1, later)
    ensures
      var first := ServerEvent(1, "accepted", Object([Member("query_id", String(queryId))]));
      ServesWakes(queryId, wakes, n, [first] + later)
  {
    var k := Spoken(wakes, n);
    forall i | 0 <= i < n && Speaks(wakes[i])
      ensures Spoken(wakes, i) < k && Tells(later[Spoken(wakes, i)], 2 + Spoken(wakes, i), wakes[i])
    {
      WordTells(wakes[i], 2 + Spoken(wakes, i));
    }
    if n < |wakes| && !wakes[n].Gone? {
      LastWordTerminates(queryId, wakes, n, 2 + k);
      assert later[k] == later[k..][0];
    }
  }

  /** The loop serves its wakes, up to the first that ends it. */
  lemma StreamByWakes(queryId: string, wakes: seq<Wake>) returns (n: nat)
    ensures EndsAt(wakes, n, -1) && ServesWakes(queryId, wakes, n, ServedStream(queryId, wakes))
  {
    n := ServedWords(queryId, wakes, 1, -1);
    WordsServe(queryId, wakes, n, Served(queryId, wakes, 1, -1));
  }

  /** The generator's loop over its wakes. */
  method Stream(queryId: string, wakes: seq<Wake>) returns (events: seq<ServerEvent>)
    ensures events == ServedStream(queryId, wakes)
    ensures exists n :: EndsAt(wakes, n, -1) && ServesWakes(queryId, wakes, n, events)
  {
    ghost var end := StreamByWakes(queryId, wakes);
    var sequence: nat := 1;
    events := [ServerEvent(1, "accepted", Object([Member("query_id", String(queryId))]))];
    var lastStage: int := -1;
    var i := 0;
    assert wakes[0..] == wakes;
    while i < |wakes|
      invariant 0 <= i <= |wakes|
      invariant ServedStream(queryId, wakes) == events + Served(queryId, wakes[i..], sequence, lastStage)
    {
      var wake := wakes[i];
      assert wakes[i..][1..] == wakes[i + 1..];
      i := i + 1;
      match wake {
        case Gone =>
          return;
        case Quiet =>
          sequence := sequence + 1;
          events := events + [ServerEvent(sequence, "heartbeat", Object([]))];
        case Woken(Some(report), _) =>
          sequence := sequence + 1;
          if report.rank <= lastStage {
            events := events + [ErrorEvent(sequence, queryId, INTERNAL_ERROR)];
            return;
          }
          lastStage := report.rank;
          events := events + [ProgressEvent(sequence, report)];
        case Woken(None, Some(Raised(code))) =>
          events := events + [ErrorEvent(sequence + 1, queryId, code)];
          return;
        case Woken(None, Some(Finished(execution))) =>
          events := events + [ServerEvent(sequence + 1, "completed", ExecutionJson(execution))];
          return;
        case Woken(None, None) =>
      }
    }
  }
}
