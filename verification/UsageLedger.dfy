/**
  The in-memory usage store: per-minute query counters and per-day token budgets,
  kept incrementally, against a book that only records every reservation.

  The store's lock serialises its operations, so each method is one atomic step.
  Instants are microseconds since the first representable midnight UTC.
 */
module UsageLedger {
  import opened Prelude

  type Uuid = nat

  datatype Amounts = Amounts(llmCalls: nat, inputTokens: nat, outputTokens: nat) {
    predicate FitsWithin(other: Amounts) {
      llmCalls <= other.llmCalls && inputTokens <= other.inputTokens && outputTokens <= other.outputTokens
    }

    function Add(other: Amounts): Amounts {
      Amounts(llmCalls + other.llmCalls, inputTokens + other.inputTokens, outputTokens + other.outputTokens)
    }

    function Subtract(other: Amounts): Amounts
      requires other.FitsWithin(this)
    {
      Amounts(llmCalls - other.llmCalls, inputTokens - other.inputTokens, outputTokens - other.outputTokens)
    }
  }

  const ZERO := Amounts(0, 0, 0)

  datatype Limits = Limits(queriesPerMinute: nat, dailyLlmCalls: nat, dailyInputTokens: nat, dailyOutputTokens: nat)

  datatype Clock = Clock(micros: nat, utc: bool)

  datatype MinuteKey = MinuteKey(tenantId: Uuid, rateLimitId: Uuid, minuteStart: nat)

  datatype DayKey = DayKey(tenantId: Uuid, actorId: Uuid, dayStart: nat)

  datatype Reservation = Reservation(
    id: Uuid, queryId: Uuid, tenantId: Uuid, actorId: Uuid, rateLimitId: Uuid,
    minuteStart: nat, dayStart: nat, reserved: Amounts)
  {
    function Minute(): MinuteKey { MinuteKey(tenantId, rateLimitId, minuteStart) }

    function Day(): DayKey { DayKey(tenantId, actorId, dayStart) }
  }

  datatype Snapshot = Snapshot(queries: nat, llmCalls: nat, inputTokens: nat, outputTokens: nat)

  datatype Budget = QueriesPerMinute | DailyLlmCalls | DailyInputTokens | DailyOutputTokens

  datatype UsageError =
    | NotUtc
    | RateLimited(budget: Budget, limit: nat, retryAfterSeconds: nat)
    | ExceedsReservation
    | UnknownReservation

  // ----- Windows and limits ---------------------------------------------------

  const SECOND: nat := 1_000_000
  const MINUTE: nat := 60 * SECOND
  const DAY: nat := 24 * 60 * MINUTE

  function MinuteStart(micros: nat): nat { micros - micros % MINUTE }

  function DayStart(micros: nat): nat { micros - micros % DAY }

  function MinuteRetry(micros: nat): nat {
    var second := micros / SECOND % 60;
    Max(1, 60 - second)
  }

  /** Whole seconds to the next midnight, rounded towards zero, but at least one. */
  function DayRetry(micros: nat): nat {
    Max(1, (DayStart(micros) + DAY - micros) / SECOND)
  }

  function CheckLimits(queries: nat, current: Amounts, requested: Amounts, limits: Limits, micros: nat):
    Result<(), UsageError>
  {
    if queries + 1 > limits.queriesPerMinute then
      Err(RateLimited(QueriesPerMinute, limits.queriesPerMinute, MinuteRetry(micros)))
    else if current.llmCalls + requested.llmCalls > limits.dailyLlmCalls then
      Err(RateLimited(DailyLlmCalls, limits.dailyLlmCalls, DayRetry(micros)))
    else if current.inputTokens + requested.inputTokens > limits.dailyInputTokens then
      Err(RateLimited(DailyInputTokens, limits.dailyInputTokens, DayRetry(micros)))
    else if current.outputTokens + requested.outputTokens > limits.dailyOutputTokens then
      Err(RateLimited(DailyOutputTokens, limits.dailyOutputTokens, DayRetry(micros)))
    else Ok(())
  }

  /** The minute retry lands inside the next minute window, and no smaller number of seconds reaches it. */
  lemma MinuteRetryLands(micros: nat)
    ensures MinuteStart(micros) + MINUTE <= micros + MinuteRetry(micros) * SECOND < MinuteStart(micros) + 2 * MINUTE
    ensures MinuteStart(micros + MinuteRetry(micros) * SECOND) == MinuteStart(micros) + MINUTE
    ensures forall n: nat :: n < MinuteRetry(micros) ==> micros + n * SECOND < MinuteStart(micros) + MINUTE
  {
    assert micros / SECOND % 60 == micros % MINUTE / SECOND;
  }

  /**
    The day retry lands within a second of midnight, but may fall just short of it:
    the new day is reached exactly when the instant has whole seconds or less than
    one second of the day remains.
   */
  lemma DayRetryLands(micros: nat)
    ensures
      var midnight, retry := DayStart(micros) + DAY, micros + DayRetry(micros) * SECOND;
      && midnight - SECOND < retry < midnight + SECOND
      && (micros % SECOND == 0 ==> retry == midnight)
      && (midnight <= retry <==> micros % SECOND == 0 || midnight - micros < SECOND)
  {
    var inDay := micros % DAY;
    assert inDay % SECOND == micros % SECOND;
    RoundDown(inDay / SECOND, inDay % SECOND);
  }

  /** One and a half seconds before midnight the retry, of one second, falls short of it. */
  lemma DayRetryFallsShort(day: nat)
    ensures
      var micros := day * DAY + DAY - 3 * SECOND / 2;
      DayRetry(micros) == 1 && DayStart(micros + DayRetry(micros) * SECOND) == day * DAY == DayStart(micros)
  {
    DayStartAt(day, DAY - 3 * SECOND / 2);
    DayStartAt(day, DAY - SECOND / 2);
  }

  lemma DayStartAt(day: nat, offset: nat)
    requires offset < DAY
    ensures DayStart(day * DAY + offset) == day * DAY
  {
    assert (day * DAY + offset) % DAY == offset;
  }

  lemma RoundDown(seconds: nat, fraction: nat)
    requires seconds < 86_400 && fraction < SECOND
    ensures (DAY - (seconds * SECOND + fraction)) / SECOND == 86_400 - seconds - if fraction == 0 then 0 else 1
  {
  }

  // ----- The book -------------------------------------------------------------

  /** One admitted reservation, and what it currently costs its actor's day. */
  datatype Entry = Entry(reservation: Reservation, settled: bool, charged: Amounts)

  type Book = seq<Entry>

  function MinuteCount(book: Book, key: MinuteKey): nat {
    if book == [] then 0
    else MinuteCount(book[..|book| - 1], key) + if book[|book| - 1].reservation.Minute() == key then 1 else 0
  }

  function DayCharge(book: Book, key: DayKey): Amounts {
    if book == [] then ZERO
    else DayCharge(book[..|book| - 1], key).Add(Share(book[|book| - 1], key))
  }

  function Share(e: Entry, key: DayKey): Amounts {
    if e.reservation.Day() == key then e.charged else ZERO
  }

  predicate HasDay(book: Book, key: DayKey) {
    if book == [] then false
    else HasDay(book[..|book| - 1], key) || book[|book| - 1].reservation.Day() == key
  }

  /** Open reservations cost what they reserved, settled ones no more; ids are unique. */
  ghost predicate Kept(book: Book) {
    && (forall i :: 0 <= i < |book| ==> book[i].charged.FitsWithin(book[i].reservation.reserved))
    && (forall i :: 0 <= i < |book| && !book[i].settled ==> book[i].charged == book[i].reservation.reserved)
    && (forall i, j :: 0 <= i < j < |book| ==> book[i].reservation.id != book[j].reservation.id)
  }

  function SettleEntry(e: Entry, r: Reservation, actual: Amounts): Entry {
    if e.reservation == r && !e.settled then Entry(r, true, actual) else e
  }

  function SettleBook(book: Book, r: Reservation, actual: Amounts): Book {
    seq(|book|, i requires 0 <= i < |book| => SettleEntry(book[i], r, actual))
  }

  predicate Knows(book: Book, r: Reservation) {
    exists i :: 0 <= i < |book| && book[i].reservation == r
  }

  function TakeSnapshot(queries: nat, usage: Amounts): Snapshot {
    Snapshot(queries, usage.llmCalls, usage.inputTokens, usage.outputTokens)
  }

  /** What a snapshot of the book reads for some identifiers at some instant. */
  function ReadBook(book: Book, tenantId: Uuid, actorId: Uuid, rateLimitId: Uuid, now: Clock):
    Result<Snapshot, UsageError>
  {
    if !now.utc then Err(NotUtc) else
      Ok(TakeSnapshot(MinuteCount(book, MinuteKey(tenantId, rateLimitId, MinuteStart(now.micros))),
                      DayCharge(book, DayKey(tenantId, actorId, DayStart(now.micros)))))
  }

  lemma AddSwap(a: Amounts, b: Amounts, c: Amounts)
    ensures a.Add(b).Add(c) == a.Add(c).Add(b)
  {
  }

  lemma {:induction false} ChargeUpdate(book: Book, i: nat, e: Entry, key: DayKey)
    requires i < |book| && e.reservation == book[i].reservation
    ensures DayCharge(book[i := e], key).Add(Share(book[i], key)) == DayCharge(book, key).Add(Share(e, key))
  {
    var n := |book| - 1;
    if i < n {
      var init := book[..n];
      assert book[i := e][..n] == init[i := e] && book[i := e][n] == book[n];
      ChargeUpdate(init, i, e, key);
      AddSwap(DayCharge(init[i := e], key), Share(book[n], key), Share(book[i], key));
      AddSwap(DayCharge(init, key), Share(book[n], key), Share(e, key));
    } else {
      assert book[i := e][..n] == book[..n];
    }
  }

  lemma {:induction false} ChargeContains(book: Book, i: nat)
    requires i < |book|
    ensures book[i].charged.FitsWithin(DayCharge(book, book[i].reservation.Day()))
  {
    if i < |book| - 1 {
      ChargeContains(book[..|book| - 1], i);
    }
  }

  lemma {:induction false} CountUpdate(book: Book, i: nat, e: Entry, key: MinuteKey)
    requires i < |book| && e.reservation == book[i].reservation
    ensures MinuteCount(book[i := e], key) == MinuteCount(book, key)
  {
    var n := |book| - 1;
    if i < n {
      assert book[i := e][..n] == book[..n][i := e];
      CountUpdate(book[..n], i, e, key);
    } else {
      assert book[i := e][..n] == book[..n];
    }
  }

  lemma SettleOne(book: Book, i: nat, actual: Amounts)
    requires Kept(book) && i < |book| && actual.FitsWithin(book[i].reservation.reserved)
    ensures
      var r := book[i].reservation;
      && SettleBook(book, r, actual) == book[i := SettleEntry(book[i], r, actual)]
      && Kept(SettleBook(book, r, actual))
  {
  }

  /** Admission against sums over the whole book. */
  function ReserveBook(book: Book, r: Reservation, now: Clock, limits: Limits):
    (Result<Reservation, UsageError>, Book)
  {
    if !now.utc then (Err(NotUtc), book)
    else
      var admitted := CheckLimits(MinuteCount(book, r.Minute()), DayCharge(book, r.Day()), r.reserved, limits,
          now.micros);
      if admitted.Err? then (Err(admitted.error), book)
      else (Ok(r), book + [Entry(r, false, r.reserved)])
  }

  function SettleResult(book: Book, r: Reservation, actual: Amounts): (Result<Snapshot, UsageError>, Book) {
    if !actual.FitsWithin(r.reserved) then (Err(ExceedsReservation), book)
    else if !Knows(book, r) then (Err(UnknownReservation), book)
    else
      var settled := SettleBook(book, r, actual);
      (Ok(TakeSnapshot(MinuteCount(settled, r.Minute()), DayCharge(settled, r.Day()))), settled)
  }

  lemma {:induction false} AbsentDay(book: Book, key: DayKey)
    ensures !HasDay(book, key) ==> DayCharge(book, key) == ZERO
  {
    if book != [] && !HasDay(book, key) {
      var init := book[..|book| - 1];
      AbsentDay(init, key);
      assert DayCharge(init, key) == ZERO && Share(book[|book| - 1], key) == ZERO;
    }
  }

  lemma {:induction false} PresentDay(book: Book, i: nat)
    requires i < |book|
    ensures HasDay(book, book[i].reservation.Day())
  {
    if i < |book| - 1 {
      PresentDay(book[..|book| - 1], i);
    }
  }

  lemma {:induction false} DayUpdate(book: Book, i: nat, e: Entry, key: DayKey)
    requires i < |book| && e.reservation == book[i].reservation
    ensures HasDay(book[i := e], key) == HasDay(book, key)
  {
    var n := |book| - 1;
    if i < n {
      assert book[i := e][..n] == book[..n][i := e];
      DayUpdate(book[..n], i, e, key);
    } else {
      assert book[i := e][..n] == book[..n];
    }
  }

  /** Settling moves one day counter, by the difference, and no minute counter. */
  lemma {:induction false} SettleCharges(book: Book, i: nat, actual: Amounts)
    requires Kept(book) && i < |book| && actual.FitsWithin(book[i].reservation.reserved)
    ensures
      var r := book[i].reservation;
      var settled := SettleBook(book, r, actual);
      && (forall key :: MinuteCount(settled, key) == MinuteCount(book, key))
      && (forall key :: HasDay(settled, key) <==> HasDay(book, key))
      && (forall key :: key != r.Day() ==> DayCharge(settled, key) == DayCharge(book, key))
      && (if book[i].settled then settled == book else
            && r.reserved.FitsWithin(DayCharge(book, r.Day()))
            && DayCharge(settled, r.Day()) == DayCharge(book, r.Day()).Subtract(r.reserved.Subtract(actual)))
  {
    var r := book[i].reservation;
    var e := SettleEntry(book[i], r, actual);
    SettleOne(book, i, actual);
    ChargeContains(book, i);
    forall key { CountUpdate(book, i, e, key); }
    forall key { ChargeUpdate(book, i, e, key); }
    forall key { DayUpdate(book, i, e, key); }
  }

  // ----- Counters against the book --------------------------------------------

  ghost predicate MinutesAgree(minutes: map<MinuteKey, nat>, book: Book) {
    && (forall key :: key in minutes <==> MinuteCount(book, key) > 0)
    && (forall key :: key in minutes ==> minutes[key] == MinuteCount(book, key))
  }

  ghost predicate DaysAgree(days: map<DayKey, Amounts>, book: Book) {
    && (forall key :: key in days <==> HasDay(book, key))
    && (forall key :: key in days ==> days[key] == DayCharge(book, key))
  }

  ghost predicate IndexAgrees(reservations: map<Uuid, (Reservation, bool)>, book: Book) {
    && (forall i :: 0 <= i < |book| ==> book[i].reservation.id in reservations)
    && (forall i :: 0 <= i < |book| ==>
          reservations[book[i].reservation.id] == (book[i].reservation, book[i].settled))
    && (forall id :: id in reservations ==> Knows(book, reservations[id].0) && reservations[id].0.id == id)
  }

  function Queries(minutes: map<MinuteKey, nat>, key: MinuteKey): nat {
    if key in minutes then minutes[key] else 0
  }

  function Usage(days: map<DayKey, Amounts>, key: DayKey): Amounts {
    if key in days then days[key] else ZERO
  }

  lemma {:induction false} ReadCounters(minutes: map<MinuteKey, nat>, days: map<DayKey, Amounts>, book: Book,
      m: MinuteKey, d: DayKey)
    requires MinutesAgree(minutes, book) && DaysAgree(days, book)
    ensures Queries(minutes, m) == MinuteCount(book, m) && Usage(days, d) == DayCharge(book, d)
  {
    AbsentDay(book, d);
  }

  lemma AppendMinutes(minutes: map<MinuteKey, nat>, book: Book, e: Entry)
    requires MinutesAgree(minutes, book)
    ensures MinutesAgree(minutes[e.reservation.Minute() := Queries(minutes, e.reservation.Minute()) + 1], book + [e])
  {
    assert (book + [e])[..|book|] == book;
  }

  lemma AppendDays(days: map<DayKey, Amounts>, book: Book, e: Entry)
    requires DaysAgree(days, book)
    ensures DaysAgree(days[e.reservation.Day() := Usage(days, e.reservation.Day()).Add(e.charged)], book + [e])
  {
    var day := e.reservation.Day();
    var updated := days[day := Usage(days, day).Add(e.charged)];
    forall key
      ensures key in updated <==> HasDay(book + [e], key)
      ensures key in updated ==> updated[key] == DayCharge(book + [e], key)
    {
      AppendDay(book, e, key);
      AbsentDay(book, key);
    }
  }

  lemma {:induction false} AppendDay(book: Book, e: Entry, key: DayKey)
    ensures HasDay(book + [e], key) <==> HasDay(book, key) || e.reservation.Day() == key
    ensures DayCharge(book + [e], key) == DayCharge(book, key).Add(Share(e, key))
  {
    assert (book + [e])[..|book|] == book;
  }

  lemma AppendIndex(reservations: map<Uuid, (Reservation, bool)>, book: Book, r: Reservation)
    requires IndexAgrees(reservations, book) && Kept(book) && r.id !in reservations
    ensures IndexAgrees(reservations[r.id := (r, false)], book + [Entry(r, false, r.reserved)])
    ensures Kept(book + [Entry(r, false, r.reserved)])
  {
    var longer := book + [Entry(r, false, r.reserved)];
    assert longer[|book|].reservation == r;
    assert forall i :: 0 <= i < |book| ==> longer[i] == book[i];
    forall id | id in reservations ensures Knows(longer, reservations[id].0) {
      var i :| 0 <= i < |book| && book[i].reservation == reservations[id].0;
      assert longer[i].reservation == reservations[id].0;
    }
  }

  lemma SettleMaps(minutes: map<MinuteKey, nat>, days: map<DayKey, Amounts>, book: Book, i: nat, actual: Amounts)
    requires MinutesAgree(minutes, book) && DaysAgree(days, book) && Kept(book)
    requires i < |book| && !book[i].settled && actual.FitsWithin(book[i].reservation.reserved)
    ensures
      var r := book[i].reservation;
      var settled := SettleBook(book, r, actual);
      && r.Day() in days && r.reserved.Subtract(actual).FitsWithin(days[r.Day()])
      && MinutesAgree(minutes, settled)
      && DaysAgree(days[r.Day() := days[r.Day()].Subtract(r.reserved.Subtract(actual))], settled)
  {
    PresentDay(book, i);
    SettleCharges(book, i, actual);
  }

  lemma SettleIndex(reservations: map<Uuid, (Reservation, bool)>, book: Book, i: nat, actual: Amounts)
    requires IndexAgrees(reservations, book) && Kept(book) && i < |book|
    requires actual.FitsWithin(book[i].reservation.reserved)
    ensures
      var r := book[i].reservation;
      IndexAgrees(reservations[r.id := (r, true)], SettleBook(book, r, actual))
  {
    var r := book[i].reservation;
    var settled := SettleBook(book, r, actual);
    SettleOne(book, i, actual);
    assert forall j :: 0 <= j < |book| ==> settled[j].reservation == book[j].reservation;
    forall id | id in reservations ensures Knows(settled, reservations[id].0) {
      var j :| 0 <= j < |book| && book[j].reservation == reservations[id].0;
      assert settled[j].reservation == reservations[id].0;
    }
    assert settled[i].reservation == r;
  }

  ghost predicate Agrees(minutes: map<MinuteKey, nat>, days: map<DayKey, Amounts>,
                         reservations: map<Uuid, (Reservation, bool)>, book: Book)
  {
    Kept(book) && MinutesAgree(minutes, book) && DaysAgree(days, book) && IndexAgrees(reservations, book)
  }

  lemma AdmitAgrees(minutes: map<MinuteKey, nat>, days: map<DayKey, Amounts>,
                    reservations: map<Uuid, (Reservation, bool)>, book: Book, e: Entry, longer: Book)
    requires Agrees(minutes, days, reservations, book) && longer == book + [e]
    requires e == Entry(e.reservation, false, e.reservation.reserved) && e.reservation.id !in reservations
    ensures
      var r := e.reservation;
      Agrees(minutes[r.Minute() := Queries(minutes, r.Minute()) + 1],
             days[r.Day() := Usage(days, r.Day()).Add(r.reserved)], reservations[r.id := (r, false)], longer)
  {
    var r := e.reservation;
    assert MinutesAgree(minutes[r.Minute() := Queries(minutes, r.Minute()) + 1], longer) by {
      AppendMinutes(minutes, book, e);
    }
    assert DaysAgree(days[r.Day() := Usage(days, r.Day()).Add(r.reserved)], longer) by {
      AppendDays(days, book, e);
    }
    AppendIndex(reservations, book, r);
  }

  /** The day key is there, the refund fits, and the counters keep agreeing. */
  lemma SettleAgrees(minutes: map<MinuteKey, nat>, days: map<DayKey, Amounts>,
                     reservations: map<Uuid, (Reservation, bool)>, book: Book, r: Reservation, actual: Amounts)
    requires Agrees(minutes, days, reservations, book)
    requires r.id in reservations && reservations[r.id].0 == r && actual.FitsWithin(r.reserved)
    ensures Knows(book, r) && r.Day() in days
    ensures
      if reservations[r.id].1 then SettleBook(book, r, actual) == book
      else
        && r.reserved.Subtract(actual).FitsWithin(days[r.Day()])
        && Agrees(minutes, days[r.Day() := days[r.Day()].Subtract(r.reserved.Subtract(actual))],
                  reservations[r.id := (r, true)], SettleBook(book, r, actual))
  {
    var i :| 0 <= i < |book| && book[i].reservation == r;
    SettleOne(book, i, actual);
    PresentDay(book, i);
    if book[i].settled {
      assert book[i := book[i]] == book;
    } else {
      SettleMaps(minutes, days, book, i, actual);
      SettleIndex(reservations, book, i, actual);
    }
  }

  // ----- The store ------------------------------------------------------------

  class InMemoryUsageStore {
    var minutes: map<MinuteKey, nat>
    var days: map<DayKey, Amounts>
    var reservations: map<Uuid, (Reservation, bool)>
    ghost var book: Book

    /** Every counter equals the sum, over the whole book, of what it stands for. */
    ghost predicate Valid()
      reads this
    {
      Agrees(minutes, days, reservations, book)
    }

    constructor ()
      ensures Valid() && book == []
    {
      minutes, days, reservations := map[], map[], map[];
      book := [];
    }

    /** The updates of an admitted reservation. */
    method Admit(r: Reservation, queries: nat, current: Amounts)
      requires Valid() && r.id !in reservations
      requires queries == Queries(minutes, r.Minute()) && current == Usage(days, r.Day())
      modifies this
      ensures Valid() && book == old(book) + [Entry(r, false, r.reserved)]
    {
      ghost var entry := Entry(r, false, r.reserved);
      AdmitAgrees(minutes, days, reservations, book, entry, book + [entry]);
      minutes := minutes[r.Minute() := queries + 1];
      days := days[r.Day() := current.Add(r.reserved)];
      reservations := reservations[r.id := (r, false)];
      book := book + [entry];
    }

    /** `id` is the freshly generated reservation id. */
    method Reserve(id: Uuid, queryId: Uuid, tenantId: Uuid, actorId: Uuid, rateLimitId: Uuid,
                   now: Clock, requested: Amounts, limits: Limits)
      returns (result: Result<Reservation, UsageError>)
      requires Valid() && id !in reservations
      modifies this
      ensures Valid()
      ensures
        var r := Reservation(id, queryId, tenantId, actorId, rateLimitId,
                             MinuteStart(now.micros), DayStart(now.micros), requested);
        && (result, book) == ReserveBook(old(book), r, now, limits)
        && (result.Err? ==> minutes == old(minutes) && days == old(days) && reservations == old(reservations))
    {
      if !now.utc {
        return Err(NotUtc);
      }
      var r := Reservation(id, queryId, tenantId, actorId, rateLimitId,
                           MinuteStart(now.micros), DayStart(now.micros), requested);
      var queries := Queries(minutes, r.Minute());
      var current := Usage(days, r.Day());
      ReadCounters(minutes, days, book, r.Minute(), r.Day());
      var admitted := CheckLimits(queries, current, requested, limits, now.micros);
      if admitted.Err? {
        return Err(admitted.error);
      }
      Admit(r, queries, current);
      return Ok(r);
    }

    method Settle(r: Reservation, actual: Amounts) returns (result: Result<Snapshot, UsageError>)
      requires Valid()
      modifies this
      ensures Valid()
      ensures (result, book) == SettleResult(old(book), r, actual)
      ensures result.Err? ==> minutes == old(minutes) && days == old(days) && reservations == old(reservations)
    {
      if !actual.FitsWithin(r.reserved) {
        return Err(ExceedsReservation);
      }
      if r.id !in reservations || reservations[r.id].0 != r {
        return Err(UnknownReservation);
      }
      SettleAgrees(minutes, days, reservations, book, r, actual);
      if !reservations[r.id].1 {
        days := days[r.Day() := days[r.Day()].Subtract(r.reserved.Subtract(actual))];
        reservations := reservations[r.id := (r, true)];
        book := SettleBook(book, r, actual);
      }
      ReadCounters(minutes, days, book, r.Minute(), r.Day());
      return Ok(TakeSnapshot(Queries(minutes, r.Minute()), days[r.Day()]));
    }

    method Read(tenantId: Uuid, actorId: Uuid, rateLimitId: Uuid, now: Clock)
      returns (result: Result<Snapshot, UsageError>)
      requires Valid()
      ensures result == ReadBook(book, tenantId, actorId, rateLimitId, now)
    {
      if !now.utc {
        return Err(NotUtc);
      }
      var minuteKey := MinuteKey(tenantId, rateLimitId, MinuteStart(now.micros));
      var dayKey := DayKey(tenantId, actorId, DayStart(now.micros));
      ReadCounters(minutes, days, book, minuteKey, dayKey);
      return Ok(TakeSnapshot(Queries(minutes, minuteKey), Usage(days, dayKey)));
    }
  }
}
