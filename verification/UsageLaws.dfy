/** What the usage ledger guarantees over every run of its operations. */
module UsageLaws {
  import opened Prelude
  import opened UsageLedger

  /** The four bounds of an admission. */
  predicate WithinLimits(queries: nat, usage: Amounts, limits: Limits) {
    && queries <= limits.queriesPerMinute
    && usage.llmCalls <= limits.dailyLlmCalls
    && usage.inputTokens <= limits.dailyInputTokens
    && usage.outputTokens <= limits.dailyOutputTokens
  }

  /** A request in UTC is admitted exactly when all four counters stay within their limits. */
  lemma {:induction false} AdmissionIsExact(book: Book, r: Reservation, now: Clock, limits: Limits)
    ensures
      var (result, after) := ReserveBook(book, r, now, limits);
      && (result.Ok? <==> now.utc && WithinLimits(MinuteCount(book, r.Minute()) + 1,
                                                  DayCharge(book, r.Day()).Add(r.reserved), limits))
      && (result == Err(NotUtc) <==> !now.utc)
      && (result.Ok? ==> result.value == r)
      && (result.Err? ==> after == book)
  {
  }

  /** The reported budget is the first one, in declaration order, that the request would exceed. */
  lemma RejectionNamesFirstBudget(queries: nat, current: Amounts, requested: Amounts, limits: Limits, micros: nat)
    ensures
      var verdict := CheckLimits(queries, current, requested, limits, micros);
      var total := current.Add(requested);
      var minute := queries + 1 <= limits.queriesPerMinute;
      && (verdict.Err? ==> verdict.error.RateLimited?)
      && (verdict.Ok? <==>
            && minute && total.llmCalls <= limits.dailyLlmCalls && total.inputTokens <= limits.dailyInputTokens
            && total.outputTokens <= limits.dailyOutputTokens)
      && (verdict.Err? ==> verdict.error.limit == match verdict.error.budget
          case QueriesPerMinute => limits.queriesPerMinute
          case DailyLlmCalls => limits.dailyLlmCalls
          case DailyInputTokens => limits.dailyInputTokens
          case DailyOutputTokens => limits.dailyOutputTokens)
      && (verdict.Err? ==>
            verdict.error.retryAfterSeconds ==
            if verdict.error.budget.QueriesPerMinute? then MinuteRetry(micros) else DayRetry(micros))
      && (verdict.Err? ==> match verdict.error.budget
          case QueriesPerMinute => !minute
          case DailyLlmCalls => minute && total.llmCalls > limits.dailyLlmCalls
          case DailyInputTokens =>
            minute && total.llmCalls <= limits.dailyLlmCalls && total.inputTokens > limits.dailyInputTokens
          case DailyOutputTokens =>
            minute && total.llmCalls <= limits.dailyLlmCalls && total.inputTokens <= limits.dailyInputTokens
            && total.outputTokens > limits.dailyOutputTokens)
  {
  }

  /** A settlement is accepted exactly when it fits a reservation that the book knows. */
  lemma SettlementIsExact(book: Book, r: Reservation, actual: Amounts)
    ensures
      var (result, after) := SettleResult(book, r, actual);
      var fits := actual.llmCalls <= r.reserved.llmCalls && actual.inputTokens <= r.reserved.inputTokens
                  && actual.outputTokens <= r.reserved.outputTokens;
      && (result == Err(ExceedsReservation) <==> !fits)
      && (result == Err(UnknownReservation) <==> fits && forall i :: 0 <= i < |book| ==> book[i].reservation != r)
      && (result.Ok? <==> fits && exists i :: 0 <= i < |book| && book[i].reservation == r)
      && (result.Err? ==> after == book)
  {
  }

  // ----- What is read back ----------------------------------------------------

  const MICROS_A_MINUTE := 60_000_000
  const MICROS_A_DAY := 86_400_000_000

  lemma SameWindows(a: nat, b: nat)
    ensures MinuteStart(a) == MinuteStart(b) <==> a / MICROS_A_MINUTE == b / MICROS_A_MINUTE
    ensures DayStart(a) == DayStart(b) <==> a / MICROS_A_DAY == b / MICROS_A_DAY
  {
    assert MinuteStart(a) == a / MICROS_A_MINUTE * MICROS_A_MINUTE;
    assert MinuteStart(b) == b / MICROS_A_MINUTE * MICROS_A_MINUTE;
    assert DayStart(a) == a / MICROS_A_DAY * MICROS_A_DAY;
    assert DayStart(b) == b / MICROS_A_DAY * MICROS_A_DAY;
  }

  /** A new store has used nothing. */
  lemma NothingRead(tenantId: Uuid, actorId: Uuid, rateLimitId: Uuid, now: Clock)
    ensures ReadBook([], tenantId, actorId, rateLimitId, now) ==
            if now.utc then Ok(Snapshot(0, 0, 0, 0)) else Err(NotUtc)
  {
  }

  /** One snapshot shows so much more than another: a query or none, and amounts or none. */
  predicate Grows(before: Snapshot, after: Snapshot, query: bool, charged: bool, amounts: Amounts) {
    && after.queries == before.queries + (if query then 1 else 0)
    && after.llmCalls == before.llmCalls + (if charged then amounts.llmCalls else 0)
    && after.inputTokens == before.inputTokens + (if charged then amounts.inputTokens else 0)
    && after.outputTokens == before.outputTokens + (if charged then amounts.outputTokens else 0)
  }

  /**
    An admitted reservation is read back by every snapshot for its tenant and rate
    limit within its minute, as one query, and by every snapshot for its tenant and
    actor within its day, as the requested amounts; by no other.
   */
  lemma ReservationIsRead(book: Book, r: Reservation, now: Clock, limits: Limits,
      tenantId: Uuid, actorId: Uuid, rateLimitId: Uuid, later: Clock)
    requires r.minuteStart == MinuteStart(now.micros) && r.dayStart == DayStart(now.micros)
    requires ReserveBook(book, r, now, limits).0.Ok? && later.utc
    ensures
      var after := ReserveBook(book, r, now, limits).1;
      var query := tenantId == r.tenantId && rateLimitId == r.rateLimitId
                   && later.micros / MICROS_A_MINUTE == now.micros / MICROS_A_MINUTE;
      var charged := tenantId == r.tenantId && actorId == r.actorId
                     && later.micros / MICROS_A_DAY == now.micros / MICROS_A_DAY;
      && ReadBook(book, tenantId, actorId, rateLimitId, later).Ok?
      && ReadBook(after, tenantId, actorId, rateLimitId, later).Ok?
      && Grows(ReadBook(book, tenantId, actorId, rateLimitId, later).value,
               ReadBook(after, tenantId, actorId, rateLimitId, later).value, query, charged, r.reserved)
  {
    var e := Entry(r, false, r.reserved);
    SameWindows(later.micros, now.micros);
    AppendDay(book, e, DayKey(tenantId, actorId, DayStart(later.micros)));
    assert (book + [e])[..|book|] == book;
  }

  /**
    The first settlement of a reservation gives back, to every snapshot that was
    charged for it, what was reserved and not used; and it returns the snapshot that
    is then read at an instant within the reservation's minute.
   */
  lemma SettlementIsRead(book: Book, i: nat, actual: Amounts, now: Clock,
      tenantId: Uuid, actorId: Uuid, rateLimitId: Uuid, later: Clock)
    requires Kept(book) && i < |book| && !book[i].settled && actual.FitsWithin(book[i].reservation.reserved)
    requires now.utc && later.utc
    requires book[i].reservation.minuteStart == MinuteStart(now.micros)
    requires book[i].reservation.dayStart == DayStart(now.micros)
    ensures
      var r := book[i].reservation;
      var (result, after) := SettleResult(book, r, actual);
      var charged := tenantId == r.tenantId && actorId == r.actorId
                     && later.micros / MICROS_A_DAY == now.micros / MICROS_A_DAY;
      && result.Ok? && result == ReadBook(after, r.tenantId, r.actorId, r.rateLimitId, now)
      && ReadBook(book, tenantId, actorId, rateLimitId, later).Ok?
      && ReadBook(after, tenantId, actorId, rateLimitId, later).Ok?
      && Grows(ReadBook(after, tenantId, actorId, rateLimitId, later).value,
               ReadBook(book, tenantId, actorId, rateLimitId, later).value, false, charged,
               Amounts(r.reserved.llmCalls - actual.llmCalls, r.reserved.inputTokens - actual.inputTokens,
                       r.reserved.outputTokens - actual.outputTokens))
  {
    var r := book[i].reservation;
    assert Knows(book, r);
    SettleCharges(book, i, actual);
    SameWindows(later.micros, now.micros);
  }

  // ----- Runs -----------------------------------------------------------------

  datatype Operation =
    | Reserving(reservation: Reservation, now: Clock)
    | Settling(reservation: Reservation, actual: Amounts)

  function Step(book: Book, op: Operation, limits: Limits): Book {
    match op
    case Reserving(r, now) => ReserveBook(book, r, now, limits).1
    case Settling(r, actual) => SettleResult(book, r, actual).1
  }

  function Run(book: Book, ops: seq<Operation>, limits: Limits): Book
    decreases |ops|
  {
    if ops == [] then book else Run(Step(book, ops[0], limits), ops[1..], limits)
  }

  ghost predicate InLimits(book: Book, limits: Limits) {
    && (forall key :: MinuteCount(book, key) <= limits.queriesPerMinute)
    && (forall key :: WithinLimits(0, DayCharge(book, key), limits))
  }

  /** Same reservations, none dearer. */
  ghost predicate NoDearer(before: Book, after: Book) {
    |before| == |after| &&
    forall i :: 0 <= i < |before| ==>
      after[i].reservation == before[i].reservation && after[i].charged.FitsWithin(before[i].charged)
  }

  lemma {:induction false} NoDearerCounts(before: Book, after: Book, m: MinuteKey, d: DayKey)
    requires NoDearer(before, after)
    ensures MinuteCount(after, m) == MinuteCount(before, m)
    ensures DayCharge(after, d).FitsWithin(DayCharge(before, d))
  {
    if before != [] {
      NoDearerCounts(before[..|before| - 1], after[..|after| - 1], m, d);
    }
  }

  ghost predicate Charged(book: Book) {
    forall i :: 0 <= i < |book| ==>
      if book[i].settled then book[i].charged.FitsWithin(book[i].reservation.reserved)
      else book[i].charged == book[i].reservation.reserved
  }

  lemma SettlingIsNoDearer(book: Book, r: Reservation, actual: Amounts)
    requires Charged(book)
    ensures NoDearer(book, SettleResult(book, r, actual).1) && Charged(SettleResult(book, r, actual).1)
  {
  }

  /** A settlement only enlarges what can be admitted afterwards. */
  lemma SettlingOnlyFrees(book: Book, settled: Reservation, actual: Amounts,
                          r: Reservation, now: Clock, limits: Limits)
    requires Charged(book)
    requires ReserveBook(book, r, now, limits).0.Ok?
    ensures ReserveBook(SettleResult(book, settled, actual).1, r, now, limits).0.Ok?
  {
    SettlingIsNoDearer(book, settled, actual);
    NoDearerCounts(book, SettleResult(book, settled, actual).1, r.Minute(), r.Day());
  }

  lemma StepKeepsLimits(book: Book, op: Operation, limits: Limits)
    requires Charged(book) && InLimits(book, limits)
    ensures Charged(Step(book, op, limits)) && InLimits(Step(book, op, limits), limits)
  {
    var after := Step(book, op, limits);
    match op
    case Settling(r, actual) =>
      SettlingIsNoDearer(book, r, actual);
      forall m, d
        ensures MinuteCount(after, m) == MinuteCount(book, m)
        ensures DayCharge(after, d).FitsWithin(DayCharge(book, d))
      {
        NoDearerCounts(book, after, m, d);
      }
    case Reserving(r, now) =>
      AdmissionIsExact(book, r, now, limits);
      if ReserveBook(book, r, now, limits).0.Ok? {
        AdmittedKeepsLimits(book, r, limits);
      }
  }

  lemma {:induction false} AdmittedKeepsLimits(book: Book, r: Reservation, limits: Limits)
    requires InLimits(book, limits)
    requires WithinLimits(MinuteCount(book, r.Minute()) + 1, DayCharge(book, r.Day()).Add(r.reserved), limits)
    ensures InLimits(book + [Entry(r, false, r.reserved)], limits)
  {
    var e := Entry(r, false, r.reserved);
    var longer := book + [e];
    assert longer[..|book|] == book;
    forall m ensures MinuteCount(longer, m) <= limits.queriesPerMinute {
      assert MinuteCount(book, m) <= limits.queriesPerMinute;
    }
    forall d ensures WithinLimits(0, DayCharge(longer, d), limits) {
      AppendDay(book, e, d);
      assert WithinLimits(0, DayCharge(book, d), limits);
    }
  }

  /** Under fixed limits no counter exceeds its limit, whatever the run. */
  lemma {:induction false} RunsKeepLimits(book: Book, ops: seq<Operation>, limits: Limits)
    requires Charged(book) && InLimits(book, limits)
    ensures InLimits(Run(book, ops, limits), limits)
    decreases |ops|
  {
    if ops != [] {
      StepKeepsLimits(book, ops[0], limits);
      RunsKeepLimits(Step(book, ops[0], limits), ops[1..], limits);
    }
  }

  lemma EmptyBookInLimits(limits: Limits)
    ensures Charged([]) && InLimits([], limits) && Kept([])
  {
  }

  /** In particular from the empty book that a new store starts with. */
  lemma {:induction false} NewStoresKeepLimits(ops: seq<Operation>, limits: Limits)
    ensures InLimits(Run([], ops, limits), limits)
  {
    EmptyBookInLimits(limits);
    RunsKeepLimits([], ops, limits);
  }

  // ----- Settlements ----------------------------------------------------------

  /** Only the first settlement counts: a later one, of whatever amount, changes nothing. */
  lemma SettlingTwice(book: Book, r: Reservation, first: Amounts, second: Amounts)
    requires SettleResult(book, r, first).0.Ok?
    ensures SettleResult(SettleResult(book, r, first).1, r, second).1 == SettleResult(book, r, first).1
  {
    var once := SettleBook(book, r, first);
    assert SettleBook(once, r, second) == once;
  }

  datatype Request = Request(reservation: Reservation, actual: Amounts)

  function SettleAll(book: Book, requests: seq<Request>): Book
    decreases |requests|
  {
    if requests == [] then book
    else SettleAll(SettleResult(book, requests[0].reservation, requests[0].actual).1, requests[1..])
  }

  /** The amount of the first acceptable request for a reservation. */
  function FirstFitting(r: Reservation, requests: seq<Request>): Option<Amounts> {
    if requests == [] then None
    else if requests[0].reservation == r && requests[0].actual.FitsWithin(r.reserved) then Some(requests[0].actual)
    else FirstFitting(r, requests[1..])
  }

  function FinalEntry(e: Entry, requests: seq<Request>): Entry {
    var first := FirstFitting(e.reservation, requests);
    if e.settled || first.None? then e else Entry(e.reservation, true, first.value)
  }

  /** Any settlements, in any order and however often, end up as each reservation's first acceptable one. */
  lemma {:induction false} SettleAllIsPointwise(book: Book, requests: seq<Request>)
    ensures |SettleAll(book, requests)| == |book|
    ensures forall i :: 0 <= i < |book| ==> SettleAll(book, requests)[i] == FinalEntry(book[i], requests)
    decreases |requests|
  {
    if requests != [] {
      var q := requests[0];
      var next := SettleResult(book, q.reservation, q.actual).1;
      assert |next| == |book|;
      forall i | 0 <= i < |book|
        ensures next[i] == if q.actual.FitsWithin(q.reservation.reserved)
                           then SettleEntry(book[i], q.reservation, q.actual) else book[i]
      {
        assert !Knows(book, q.reservation) ==> book[i].reservation != q.reservation;
      }
      SettleAllIsPointwise(next, requests[1..]);
    }
  }

  /** No reservation is settled with two different amounts. */
  ghost predicate Consistent(requests: seq<Request>) {
    forall q, s :: q in requests && s in requests && q.reservation == s.reservation ==> q == s
  }

  lemma {:induction false} FirstFittingMember(r: Reservation, requests: seq<Request>)
    ensures
      var first := FirstFitting(r, requests);
      if first.Some? then Request(r, first.value) in requests && first.value.FitsWithin(r.reserved)
      else forall q :: q in requests && q.reservation == r ==> !q.actual.FitsWithin(r.reserved)
  {
    if requests != [] {
      FirstFittingMember(r, requests[1..]);
      assert requests[0] in requests;
    }
  }

  /** Settling a set of reservations reaches the same book in any order and with any repetition. */
  lemma {:induction false} SettlementOrderFree(book: Book, requests: seq<Request>, others: seq<Request>)
    requires Elements(requests) == Elements(others) && Consistent(requests)
    ensures SettleAll(book, requests) == SettleAll(book, others)
  {
    SettleAllIsPointwise(book, requests);
    SettleAllIsPointwise(book, others);
    assert forall q :: q in requests <==> q in others by {
      assert forall q :: q in requests <==> q in Elements(requests);
      assert forall q :: q in others <==> q in Elements(others);
    }
    forall i | 0 <= i < |book| ensures FinalEntry(book[i], requests) == FinalEntry(book[i], others) {
      FirstFittingMember(book[i].reservation, requests);
      FirstFittingMember(book[i].reservation, others);
    }
  }

  // ----- From the book to the counters ----------------------------------------

  /** The book determines all three maps, so equal books are equal stores. */
  lemma CountersDetermined(
    minutes: map<MinuteKey, nat>, days: map<DayKey, Amounts>, reservations: map<Uuid, (Reservation, bool)>,
    minutes': map<MinuteKey, nat>, days': map<DayKey, Amounts>, reservations': map<Uuid, (Reservation, bool)>,
    book: Book)
    requires Agrees(minutes, days, reservations, book) && Agrees(minutes', days', reservations', book)
    ensures minutes == minutes' && days == days' && reservations == reservations'
  {
    assert minutes.Keys == minutes'.Keys;
    assert days.Keys == days'.Keys;
    forall id | id in reservations ensures id in reservations' && reservations'[id] == reservations[id] {
      var i :| 0 <= i < |book| && book[i].reservation == reservations[id].0;
    }
    forall id | id in reservations' ensures id in reservations {
      var i :| 0 <= i < |book| && book[i].reservation == reservations'[id].0;
    }
  }
}
