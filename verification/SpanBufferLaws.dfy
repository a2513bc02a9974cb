/** Whole runs of the span buffer: what is held, since when, and under which bound. */
module SpanBufferLaws {
  import opened Prelude
  import opened Text
  import opened SpanBuffer

  datatype Activity = Recorded(span: Span) | Taken(id: string)

  type Log = seq<Activity>

  /** What a buffer with the given bounds holds after a log of activity. */
  function Held(log: Log, maxTraces: nat, maxSpans: nat): seq<Trace> {
    if log == [] then []
    else
      var before := Held(log[..|log| - 1], maxTraces, maxSpans);
      match log[|log| - 1]
      case Recorded(span) => Record(before, span, maxTraces, maxSpans)
      case Taken(id) => Without(before, id)
  }

  /** What exporting spans adds to the log: those that could be serialised, in their order. */
  function Exported(spans: seq<Option<Span>>): Log {
    if spans == [] then []
    else (if spans[0].Some? then [Recorded(spans[0].value)] else []) + Exported(spans[1..])
  }

  lemma {:induction false} ExportedSnoc(spans: seq<Option<Span>>, last: Option<Span>, longer: seq<Option<Span>>)
    requires longer == spans + [last]
    ensures Exported(longer) == Exported(spans) + if last.Some? then [Recorded(last.value)] else []
  {
    if spans == [] {
      assert longer == [last] && longer[1..] == [];
    } else {
      assert longer[0] == spans[0] && longer[1..] == spans[1..] + [last];
      ExportedSnoc(spans[1..], last, longer[1..]);
      assert Exported(longer) == (if spans[0].Some? then [Recorded(spans[0].value)] else []) + Exported(longer[1..]);
    }
  }

  lemma {:induction false} HeldSnoc(log: Log, span: Span, maxTraces: nat, maxSpans: nat)
    ensures Held(log + [Recorded(span)], maxTraces, maxSpans) ==
            Record(Held(log, maxTraces, maxSpans), span, maxTraces, maxSpans)
  {
    assert (log + [Recorded(span)])[..|log|] == log;
  }

  /** Exporting into a buffer that holds what a log leaves holds what the longer log leaves. */
  lemma {:induction false} ExportExtendsLog(log: Log, spans: seq<Option<Span>>, maxTraces: nat, maxSpans: nat)
    ensures RecordAll(Held(log, maxTraces, maxSpans), spans, maxTraces, maxSpans) ==
            Held(log + Exported(spans), maxTraces, maxSpans)
  {
    if spans == [] {
      assert log + Exported(spans) == log;
    } else {
      var init, last := spans[..|spans| - 1], spans[|spans| - 1];
      assert spans == init + [last];
      ExportExtendsLog(log, init, maxTraces, maxSpans);
      ExportedSnoc(init, last, spans);
      var before := log + Exported(init);
      if last.Some? {
        HeldSnoc(before, last.value, maxTraces, maxSpans);
        assert log + Exported(spans) == before + [Recorded(last.value)];
      } else {
        assert log + Exported(spans) == before;
      }
    }
  }

  // ----- Sequences of identifiers ---------------------------------------------

  function Suffix<T(==)>(short: seq<T>, long: seq<T>): bool {
    |short| <= |long| && long[|long| - |short|..] == short
  }

  lemma {:induction false} WithoutIds(traces: seq<Trace>, id: string)
    ensures Ids(Without(traces, id)) == Removed(Ids(traces), id)
  {
    if traces != [] {
      var init := traces[..|traces| - 1];
      WithoutIds(init, id);
      assert Ids(traces)[..|traces| - 1] == Ids(init);
    }
  }

  lemma {:induction false} RemovedConcat(a: seq<string>, b: seq<string>, id: string)
    ensures Removed(a + b, id) == Removed(a, id) + Removed(b, id)
  {
    if b == [] {
      assert a + b == a;
    } else {
      assert (a + b)[..|a + b| - 1] == a + b[..|b| - 1];
      RemovedConcat(a, b[..|b| - 1], id);
    }
  }

  lemma {:induction false} RemovedSuffix(short: seq<string>, long: seq<string>, id: string)
    requires Suffix(short, long)
    ensures Suffix(Removed(short, id), Removed(long, id))
  {
    var front := long[..|long| - |short|];
    assert long == front + short;
    RemovedConcat(front, short, id);
  }

  lemma LastNIds(traces: seq<Trace>, last: Trace, n: nat)
    ensures Ids(LastN(traces + [last], n)) == LastN(Ids(traces) + [last.id], n)
  {
    assert Ids(traces + [last]) == Ids(traces) + [last.id];
  }

  lemma RecordIds(traces: seq<Trace>, span: Span, maxTraces: nat, maxSpans: nat)
    ensures Ids(Record(traces, span, maxTraces, maxSpans)) ==
            LastN(Removed(Ids(traces), span.traceId) + [span.traceId], maxTraces)
  {
    WithoutIds(traces, span.traceId);
    var bucket := SpansOf(traces, span.traceId);
    LastNIds(Without(traces, span.traceId),
             Trace(span.traceId, if |bucket| < maxSpans then bucket + [span] else bucket), maxTraces);
  }

  // ----- Inclusion ------------------------------------------------------------

  lemma LastNSuffix(short: seq<string>, long: seq<string>, m: nat, n: nat)
    requires Suffix(short, long) && m <= n
    ensures Suffix(LastN(short, m), LastN(long, n))
  {
    assert long == long[..|long| - |short|] + short;
  }

  lemma LastNShortens(short: seq<string>, long: seq<string>, n: nat)
    requires Suffix(short, long)
    ensures Suffix(LastN(short, n), long)
  {
    assert long == long[..|long| - |short|] + short;
  }

  /** Under a smaller bound the buffer holds a suffix of what it holds under a larger one. */
  lemma {:induction false} Inclusion(log: Log, small: nat, large: nat, maxSpans: nat, otherSpans: nat)
    requires small <= large
    ensures Suffix(Ids(Held(log, small, maxSpans)), Ids(Held(log, large, otherSpans)))
  {
    if log != [] {
      var init := log[..|log| - 1];
      Inclusion(init, small, large, maxSpans, otherSpans);
      var a, b := Held(init, small, maxSpans), Held(init, large, otherSpans);
      match log[|log| - 1]
      case Recorded(span) =>
        RecordIds(a, span, small, maxSpans);
        RecordIds(b, span, large, otherSpans);
        RemovedSuffix(Ids(a), Ids(b), span.traceId);
        var x, y := Removed(Ids(a), span.traceId), Removed(Ids(b), span.traceId);
        assert (y + [span.traceId])[|y| - |x|..] == x + [span.traceId];
        LastNSuffix(x + [span.traceId], y + [span.traceId], small, large);
      case Taken(id) =>
        WithoutIds(a, id);
        WithoutIds(b, id);
        RemovedSuffix(Ids(a), Ids(b), id);
    }
  }

  // ----- Against the unbounded recency list -----------------------------------

  /** Every trace not yet taken, in order of its last recorded span. */
  function Recency(log: Log): seq<string> {
    if log == [] then []
    else
      var before := Recency(log[..|log| - 1]);
      match log[|log| - 1]
      case Recorded(span) => Removed(before, span.traceId) + [span.traceId]
      case Taken(id) => Removed(before, id)
  }

  lemma {:induction false} HeldEndsRecency(log: Log, maxTraces: nat, maxSpans: nat)
    ensures Suffix(Ids(Held(log, maxTraces, maxSpans)), Recency(log))
    ensures |Held(log, maxTraces, maxSpans)| <= maxTraces
  {
    if log != [] {
      var init := log[..|log| - 1];
      HeldEndsRecency(init, maxTraces, maxSpans);
      var held, all := Held(init, maxTraces, maxSpans), Recency(init);
      match log[|log| - 1]
      case Recorded(span) =>
        RecordIds(held, span, maxTraces, maxSpans);
        RemovedSuffix(Ids(held), all, span.traceId);
        var x, y := Removed(Ids(held), span.traceId), Removed(all, span.traceId);
        assert (y + [span.traceId])[|y| - |x|..] == x + [span.traceId];
        LastNShortens(x + [span.traceId], y + [span.traceId], maxTraces);
      case Taken(id) =>
        WithoutIds(held, id);
        RemovedKeeps(Ids(held), id);
        RemovedSuffix(Ids(held), all, id);
    }
  }

  /** The buffer holds what trimming the recency list once, at the end, leaves. */
  predicate Trimmed(log: Log, maxTraces: nat, maxSpans: nat) {
    Ids(Held(log, maxTraces, maxSpans)) == LastN(Recency(log), maxTraces)
  }

  /** A recorded span keeps a trimmed buffer trimmed. */
  lemma RecordKeepsTrim(log: Log, span: Span, maxTraces: nat, maxSpans: nat)
    requires Trimmed(log, maxTraces, maxSpans)
    ensures Trimmed(log + [Recorded(span)], maxTraces, maxSpans)
  {
    assert (log + [Recorded(span)])[..|log|] == log;
    RecordIds(Held(log, maxTraces, maxSpans), span, maxTraces, maxSpans);
    RecencyDistinct(log);
    TrimAfterTouch(Recency(log), span.traceId, maxTraces);
  }

  /** Taking `id` now leaves no gap: nothing has been trimmed, or `id` is not among what is held. */
  predicate TakeIsClean(log: Log, id: string, maxTraces: nat) {
    |Recency(log)| <= maxTraces || id !in LastN(Recency(log), maxTraces)
  }

  /** A take keeps a trimmed buffer trimmed exactly when it is clean. */
  lemma TakeKeepsTrimExactly(log: Log, id: string, maxTraces: nat, maxSpans: nat)
    requires Trimmed(log, maxTraces, maxSpans)
    ensures Trimmed(log + [Taken(id)], maxTraces, maxSpans) <==> TakeIsClean(log, id, maxTraces)
  {
    assert (log + [Taken(id)])[..|log|] == log;
    WithoutIds(Held(log, maxTraces, maxSpans), id);
    RecencyDistinct(log);
    TrimAfterRemoval(Recency(log), id, maxTraces);
  }

  lemma {:induction false} TrimAfterRemoval(all: seq<string>, id: string, n: nat)
    requires Distinct(all)
    ensures Removed(LastN(all, n), id) == LastN(Removed(all, id), n) <==> |all| <= n || id !in LastN(all, n)
  {
    if n < |all| {
      var front, back := all[..|all| - n], all[|all| - n..];
      assert all == front + back;
      RemovedConcat(front, back, id);
      RemovedOnce(back, id);
      RemovedOnce(all, id);
      if id !in back {
        RemovedAbsent(back, id);
        LastNConcat(Removed(front, id), back, n);
      }
    } else {
      RemovedKeeps(all, id);
    }
  }

  /** Every take of the log is clean when it happens. */
  ghost predicate TakesAreClean(log: Log, maxTraces: nat) {
    forall k :: 0 <= k < |log| && log[k].Taken? ==> TakeIsClean(log[..k], log[k].id, maxTraces)
  }

  /**
    The buffer is the recency list trimmed to `maxTraces` at every moment of a log
    exactly when, whenever a trace is taken, nothing has been trimmed yet or the
    trace is not among the last `maxTraces`.
   */
  lemma {:induction false} TrimmedThroughoutExactly(log: Log, maxTraces: nat, maxSpans: nat)
    ensures (forall k :: 0 <= k <= |log| ==> Trimmed(log[..k], maxTraces, maxSpans)) <==> TakesAreClean(log, maxTraces)
  {
    if log == [] {
      assert Trimmed(log[..0], maxTraces, maxSpans);
    } else {
      var n := |log| - 1;
      var init, last := log[..n], log[n];
      assert log == init + [last] && log[..n + 1] == log;
      assert forall k :: 0 <= k <= n ==> log[..k] == init[..k];
      TrimmedThroughoutExactly(init, maxTraces, maxSpans);
      CleanSnoc(init, last, maxTraces);
      assert init[..n] == init;
      if Trimmed(init, maxTraces, maxSpans) {
        TrimStep(init, last, maxTraces, maxSpans);
      }
    }
  }

  lemma TrimStep(init: Log, last: Activity, maxTraces: nat, maxSpans: nat)
    requires Trimmed(init, maxTraces, maxSpans)
    ensures Trimmed(init + [last], maxTraces, maxSpans) <==> last.Recorded? || TakeIsClean(init, last.id, maxTraces)
  {
    match last
    case Recorded(span) => RecordKeepsTrim(init, span, maxTraces, maxSpans);
    case Taken(id) => TakeKeepsTrimExactly(init, id, maxTraces, maxSpans);
  }

  lemma CleanSnoc(init: Log, last: Activity, maxTraces: nat)
    ensures TakesAreClean(init + [last], maxTraces) <==>
      TakesAreClean(init, maxTraces) && (last.Recorded? || TakeIsClean(init, last.id, maxTraces))
  {
    var log := init + [last];
    assert log[..|init|] == init && log[|init|] == last;
    assert forall k :: 0 <= k < |init| ==> log[k] == init[k] && log[..k] == init[..k];
  }

  /** How much of the recency list a buffer holds, counted along it. */
  function Fill(log: Log, maxTraces: nat): nat {
    if log == [] then 0
    else
      var before, all := Fill(log[..|log| - 1], maxTraces), Recency(log[..|log| - 1]);
      match log[|log| - 1]
      case Recorded(span) =>
        if span.traceId in LastN(all, before) || before >= maxTraces then before else before + 1
      case Taken(id) => if id in LastN(all, before) && before > 0 then before - 1 else before
  }

  lemma CountRecorded(traces: seq<Trace>, span: Span, maxTraces: nat, maxSpans: nat)
    requires Distinct(Ids(traces)) && |traces| <= maxTraces
    ensures |Record(traces, span, maxTraces, maxSpans)| ==
            if span.traceId in Ids(traces) || |traces| >= maxTraces then |traces| else |traces| + 1
  {
    RecordIds(traces, span, maxTraces, maxSpans);
    RemovedOnce(Ids(traces), span.traceId);
    assert |Record(traces, span, maxTraces, maxSpans)| == |Ids(Record(traces, span, maxTraces, maxSpans))|;
  }

  lemma {:induction false} CountWithout(traces: seq<Trace>, id: string)
    requires Distinct(Ids(traces))
    ensures |Without(traces, id)| == |traces| - if id in Ids(traces) then 1 else 0
  {
    WithoutIds(traces, id);
    RemovedOnce(Ids(traces), id);
    assert |Without(traces, id)| == |Ids(Without(traces, id))|;
  }

  lemma SuffixIsLast(short: seq<string>, long: seq<string>)
    requires Suffix(short, long) && Distinct(long)
    ensures short == LastN(long, |short|) && Distinct(short)
  {
  }

  lemma {:induction false} HeldCount(log: Log, maxTraces: nat, maxSpans: nat)
    ensures |Held(log, maxTraces, maxSpans)| == Fill(log, maxTraces) <= maxTraces
  {
    if log != [] {
      var init := log[..|log| - 1];
      var held := Held(init, maxTraces, maxSpans);
      HeldCount(init, maxTraces, maxSpans);
      HeldEndsRecency(init, maxTraces, maxSpans);
      RecencyDistinct(init);
      SuffixIsLast(Ids(held), Recency(init));
      assert |Ids(held)| == |held|;
      match log[|log| - 1]
      case Recorded(span) => CountRecorded(held, span, maxTraces, maxSpans);
      case Taken(id) => CountWithout(held, id);
    }
  }

  /** Gaps or not: after any log the buffer holds the last `Fill` traces of the recency list. */
  lemma {:induction false} HoldsTheLastFill(log: Log, maxTraces: nat, maxSpans: nat)
    ensures Ids(Held(log, maxTraces, maxSpans)) == LastN(Recency(log), Fill(log, maxTraces))
  {
    HeldCount(log, maxTraces, maxSpans);
    HeldEndsRecency(log, maxTraces, maxSpans);
    RecencyDistinct(log);
    SuffixIsLast(Ids(Held(log, maxTraces, maxSpans)), Recency(log));
  }

  ghost predicate NothingTaken(log: Log) {
    forall i :: 0 <= i < |log| ==> log[i].Recorded?
  }

  /** Without takes the buffer holds the `maxTraces` most recently recorded traces. */
  lemma {:induction false} HoldsMostRecent(log: Log, maxTraces: nat, maxSpans: nat)
    requires NothingTaken(log)
    ensures Ids(Held(log, maxTraces, maxSpans)) == LastN(Recency(log), maxTraces)
  {
    TrimmedThroughoutExactly(log, maxTraces, maxSpans);
    assert Trimmed(log[..|log|], maxTraces, maxSpans) && log[..|log|] == log;
  }

  lemma {:induction false} RecencyDistinct(log: Log)
    ensures Distinct(Recency(log))
  {
    if log != [] {
      var before := Recency(log[..|log| - 1]);
      RecencyDistinct(log[..|log| - 1]);
      match log[|log| - 1]
      case Recorded(span) =>
        RemovedKeeps(before, span.traceId);
        var kept := Removed(before, span.traceId);
        assert forall i :: 0 <= i < |kept| ==> kept[i] in kept;
      case Taken(id) => RemovedKeeps(before, id);
    }
  }

  lemma {:induction false} RemovedOnce(ids: seq<string>, id: string)
    requires Distinct(ids)
    ensures |Removed(ids, id)| == |ids| - if id in ids then 1 else 0
  {
    if ids != [] {
      var init := ids[..|ids| - 1];
      assert ids == init + [ids[|ids| - 1]];
      RemovedOnce(init, id);
    }
  }

  /** Trimming before or after a touch makes no difference. */
  lemma {:induction false} TrimAfterTouch(all: seq<string>, id: string, n: nat)
    requires Distinct(all)
    ensures LastN(Removed(LastN(all, n), id) + [id], n) == LastN(Removed(all, id) + [id], n)
  {
    if n < |all| {
      var front, back := all[..|all| - n], all[|all| - n..];
      assert all == front + back;
      RemovedConcat(front, back, id);
      RemovedOnce(back, id);
      assert Removed(front, id) + Removed(back, id) + [id] == Removed(front, id) + (Removed(back, id) + [id]);
      LastNConcat(Removed(front, id), Removed(back, id) + [id], n);
    }
  }

  lemma LastNConcat<T>(front: seq<T>, back: seq<T>, n: nat)
    requires n <= |back|
    ensures LastN(front + back, n) == LastN(back, n)
  {
    assert (front + back)[|front| + |back| - n..] == back[|back| - n..];
  }

  lemma {:induction false} RecordedNext(log: Log, span: Span, maxTraces: nat, maxSpans: nat)
    ensures Ids(Held(log + [Recorded(span)], maxTraces, maxSpans)) ==
            LastN(Removed(Ids(Held(log, maxTraces, maxSpans)), span.traceId) + [span.traceId], maxTraces)
    ensures Recency(log + [Recorded(span)]) == Removed(Recency(log), span.traceId) + [span.traceId]
  {
    assert (log + [Recorded(span)])[..|log|] == log;
    RecordIds(Held(log, maxTraces, maxSpans), span, maxTraces, maxSpans);
  }

  /** A buffer for two that holds `ids`, all that was ever recorded. */
  predicate HoldsAll(log: Log, ids: seq<string>, maxSpans: nat) {
    Ids(Held(log, 2, maxSpans)) == ids && Recency(log) == ids
  }

  lemma {:induction false} OneTraceMore(log: Log, span: Span, ids: seq<string>, maxSpans: nat, next: Log)
    requires HoldsAll(log, ids, maxSpans) && span.traceId !in ids && next == log + [Recorded(span)]
    ensures Ids(Held(next, 2, maxSpans)) == LastN(ids + [span.traceId], 2)
    ensures Recency(next) == ids + [span.traceId]
  {
    RecordedNext(log, span, 2, maxSpans);
    RemovedAbsent(ids, span.traceId);
  }

  lemma TwoTraces(a: Span, b: Span, maxSpans: nat, log: Log)
    requires a.traceId != b.traceId && log == [Recorded(a)] + [Recorded(b)]
    ensures HoldsAll(log, [a.traceId] + [b.traceId], maxSpans)
  {
    OneTraceMore([], a, [], maxSpans, [Recorded(a)]);
    assert [] + [a.traceId] == [a.traceId];
    OneTraceMore([Recorded(a)], b, [a.traceId], maxSpans, log);
  }

  /** Three traces through a buffer for two. */
  lemma {:induction false} ThreeTraces(a: Span, b: Span, c: Span, maxSpans: nat)
    requires a.traceId != b.traceId && a.traceId != c.traceId && b.traceId != c.traceId
    ensures
      var log := [Recorded(a)] + [Recorded(b)] + [Recorded(c)];
      && Ids(Held(log, 2, maxSpans)) == LastN([a.traceId] + [b.traceId] + [c.traceId], 2)
      && Recency(log) == [a.traceId] + [b.traceId] + [c.traceId]
  {
    var two := [Recorded(a)] + [Recorded(b)];
    TwoTraces(a, b, maxSpans, two);
    OneTraceMore(two, c, [a.traceId] + [b.traceId], maxSpans, two + [Recorded(c)]);
  }

  lemma {:induction false} TakenNext(log: Log, id: string, maxTraces: nat, maxSpans: nat)
    ensures Ids(Held(log + [Taken(id)], maxTraces, maxSpans)) == Removed(Ids(Held(log, maxTraces, maxSpans)), id)
    ensures Recency(log + [Taken(id)]) == Removed(Recency(log), id)
  {
    assert (log + [Taken(id)])[..|log|] == log;
    WithoutIds(Held(log, maxTraces, maxSpans), id);
  }

  lemma {:induction false} RemovedLast(ids: seq<string>, id: string)
    requires id !in ids
    ensures Removed(ids + [id], id) == ids
  {
    assert (ids + [id])[..|ids|] == ids;
    RemovedAbsent(ids, id);
  }

  /** A take after an eviction leaves a gap that trimming at the end would fill again. */
  lemma {:induction false} TakeLeavesGap(a: Span, b: Span, c: Span, maxSpans: nat)
    requires a.traceId != b.traceId && a.traceId != c.traceId && b.traceId != c.traceId
    ensures
      var log := [Recorded(a)] + [Recorded(b)] + [Recorded(c)] + [Taken(c.traceId)];
      && Ids(Held(log, 2, maxSpans)) == [b.traceId]
      && LastN(Recency(log), 2) == [a.traceId] + [b.traceId]
  {
    var x, y, z := a.traceId, b.traceId, c.traceId;
    ThreeTraces(a, b, c, maxSpans);
    TakenNext([Recorded(a)] + [Recorded(b)] + [Recorded(c)], z, 2, maxSpans);
    assert LastN([x] + [y] + [z], 2) == [y] + [z];
    RemovedLast([y], z);
    RemovedLast([x] + [y], z);
  }

  lemma {:induction false} RemovedAbsent(ids: seq<string>, id: string)
    requires id !in ids
    ensures Removed(ids, id) == ids
  {
    if ids != [] {
      assert ids == ids[..|ids| - 1] + [ids[|ids| - 1]];
      RemovedAbsent(ids[..|ids| - 1], id);
    }
  }

  // ----- Buckets --------------------------------------------------------------

  /** Every span recorded for a trace since it last entered the buffer. */
  function SinceEntry(log: Log, id: string, maxTraces: nat, maxSpans: nat): seq<Span> {
    if log == [] || id !in Ids(Held(log, maxTraces, maxSpans)) then []
    else
      var before := SinceEntry(log[..|log| - 1], id, maxTraces, maxSpans);
      match log[|log| - 1]
      case Recorded(span) => if span.traceId == id then before + [span] else before
      case Taken(_) => before
  }

  lemma {:induction false} SpansOfWithout(traces: seq<Trace>, id: string, other: string)
    ensures SpansOf(Without(traces, id), other) == if other == id then [] else SpansOf(traces, other)
  {
    if traces != [] {
      var init, last := traces[..|traces| - 1], traces[|traces| - 1];
      SpansOfWithout(init, id, other);
      if last.id != id {
        SpansOfSnoc(Without(init, id), last, other);
      } else {
        assert Without(traces, id) == Without(init, id);
      }
    }
  }

  lemma {:induction false} SpansOfSnoc(traces: seq<Trace>, last: Trace, id: string)
    ensures SpansOf(traces + [last], id) == if last.id == id then last.spans else SpansOf(traces, id)
  {
    assert (traces + [last])[..|traces|] == traces;
  }

  lemma {:induction false} SpansOfAbsent(traces: seq<Trace>, id: string)
    requires id !in Ids(traces)
    ensures SpansOf(traces, id) == []
  {
    if traces != [] {
      var init := traces[..|traces| - 1];
      assert forall i :: 0 <= i < |init| ==> Ids(init)[i] == Ids(traces)[i];
      assert Ids(traces)[|init|] == traces[|init|].id;
      SpansOfAbsent(init, id);
    }
  }

  lemma {:induction false} SpansOfLastN(traces: seq<Trace>, id: string, n: nat)
    requires id in Ids(LastN(traces, n))
    ensures SpansOf(LastN(traces, n), id) == SpansOf(traces, id)
  {
    if n < |traces| && n > 0 {
      var trimmed := LastN(traces, n);
      if traces[|traces| - 1].id != id {
        var init := traces[..|traces| - 1];
        assert trimmed[..n - 1] == LastN(init, n - 1);
        assert Ids(trimmed)[n - 1] != id;
        assert forall i :: 0 <= i < n - 1 ==> Ids(trimmed)[i] == Ids(LastN(init, n - 1))[i];
        SpansOfLastN(init, id, n - 1);
      }
    }
  }

  /** The bucket of a held trace is the first `maxSpans` spans recorded since the trace entered. */
  lemma {:induction false} BucketsAreFirstSinceEntry(log: Log, id: string, maxTraces: nat, maxSpans: nat)
    ensures SpansOf(Held(log, maxTraces, maxSpans), id) ==
            FirstN(SinceEntry(log, id, maxTraces, maxSpans), maxSpans)
  {
    var held := Held(log, maxTraces, maxSpans);
    if id !in Ids(held) {
      SpansOfAbsent(held, id);
    } else if log != [] {
      var init := log[..|log| - 1];
      var before := Held(init, maxTraces, maxSpans);
      BucketsAreFirstSinceEntry(init, id, maxTraces, maxSpans);
      match log[|log| - 1]
      case Taken(other) =>
        SpansOfWithout(before, other, id);
        WithoutIds(before, other);
      case Recorded(span) =>
        var bucket := SpansOf(before, span.traceId);
        var grown := if |bucket| < maxSpans then bucket + [span] else bucket;
        var rest := Without(before, span.traceId);
        SpansOfLastN(rest + [Trace(span.traceId, grown)], id, maxTraces);
        SpansOfWithout(before, span.traceId, id);
        assert (rest + [Trace(span.traceId, grown)])[..|rest|] == rest;
    }
  }

  /** Taking a trace leaves every other trace's bucket and relative place as they were. */
  lemma {:induction false} TakeDisturbsNoOther(traces: seq<Trace>, id: string, other: string)
    requires other != id
    ensures SpansOf(Without(traces, id), other) == SpansOf(traces, other)
    ensures Ids(Without(traces, id)) == Removed(Ids(traces), id)
  {
    SpansOfWithout(traces, id, other);
    WithoutIds(traces, id);
  }

  /** Spans by start, and by identifier where they start together. */
  ghost predicate InOrder(spans: seq<Span>) {
    forall i, j :: 0 <= i < j < |spans| ==>
      || spans[i].startedAt < spans[j].startedAt
      || (spans[i].startedAt == spans[j].startedAt && !LexLess(spans[j].spanId, spans[i].spanId))
  }

  /** What a take returns after any log: the first spans since the trace entered, in order. */
  lemma {:induction false} TakenInOrder(log: Log, id: string, maxTraces: nat, maxSpans: nat)
    ensures
      var taken := SortSpans(SpansOf(Held(log, maxTraces, maxSpans), id));
      && InOrder(taken)
      && multiset(taken) == multiset(FirstN(SinceEntry(log, id, maxTraces, maxSpans), maxSpans))
  {
    BucketsAreFirstSinceEntry(log, id, maxTraces, maxSpans);
    SortSpansSorts(SpansOf(Held(log, maxTraces, maxSpans), id));
    var taken := SortSpans(SpansOf(Held(log, maxTraces, maxSpans), id));
    assert forall i, j :: 0 <= i < j < |taken| ==> !KeyLess(Key(taken[j]), Key(taken[i]));
  }
}
