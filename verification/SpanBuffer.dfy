/**
  The bounded span exporter: an ordered dictionary of traces, each a bounded list
  of spans, against a list of traces in order of their last recorded span.
 */
module SpanBuffer {
  import opened Prelude
  import opened Text

  /** What ordering and bucketing look at in a stored span; `body` stands for the rest. */
  datatype Span = Span(traceId: string, spanId: string, startedAt: int, body: int)

  datatype Trace = Trace(id: string, spans: seq<Span>)

  // ----- The recency list -----------------------------------------------------

  function Ids(traces: seq<Trace>): seq<string> {
    seq(|traces|, i requires 0 <= i < |traces| => traces[i].id)
  }

  function Without(traces: seq<Trace>, id: string): seq<Trace> {
    if traces == [] then []
    else
      var last := traces[|traces| - 1];
      Without(traces[..|traces| - 1], id) + if last.id == id then [] else [last]
  }

  /** The spans held for a trace, none when it is absent. */
  function SpansOf(traces: seq<Trace>, id: string): seq<Span> {
    if traces == [] then []
    else if traces[|traces| - 1].id == id then traces[|traces| - 1].spans
    else SpansOf(traces[..|traces| - 1], id)
  }

  function LastN<T>(s: seq<T>, n: nat): seq<T> {
    if |s| <= n then s else s[|s| - n..]
  }

  function FirstN<T>(s: seq<T>, n: nat): seq<T> {
    if |s| <= n then s else s[..n]
  }

  /** A span refreshes its trace; the stalest traces beyond the bound are dropped. */
  function Record(traces: seq<Trace>, span: Span, maxTraces: nat, maxSpans: nat): seq<Trace> {
    var bucket := SpansOf(traces, span.traceId);
    var grown := if |bucket| < maxSpans then bucket + [span] else bucket;
    LastN(Without(traces, span.traceId) + [Trace(span.traceId, grown)], maxTraces)
  }

  function RecordAll(traces: seq<Trace>, spans: seq<Option<Span>>, maxTraces: nat, maxSpans: nat): seq<Trace> {
    if spans == [] then traces
    else
      var before := RecordAll(traces, spans[..|spans| - 1], maxTraces, maxSpans);
      var last := spans[|spans| - 1];
      if last.None? then before else Record(before, last.value, maxTraces, maxSpans)
  }

  // ----- Sorting what is taken ------------------------------------------------

  datatype SpanKey = SpanKey(startedAt: int, spanId: string)

  function Key(s: Span): SpanKey { SpanKey(s.startedAt, s.spanId) }

  predicate KeyLess(a: SpanKey, b: SpanKey) {
    a.startedAt < b.startedAt || (a.startedAt == b.startedAt && LexLess(a.spanId, b.spanId))
  }

  lemma KeyOrder(a: SpanKey, b: SpanKey, c: SpanKey)
    ensures KeyLess(a, b) || a == b || KeyLess(b, a)
    ensures !(KeyLess(a, b) && KeyLess(b, a)) && !KeyLess(a, a)
    ensures !KeyLess(b, a) && !KeyLess(c, b) ==> !KeyLess(c, a)
  {
    LexTotal(a.spanId, b.spanId);
    LexTotal(b.spanId, c.spanId);
    LexTotal(a.spanId, c.spanId);
    if LexLess(a.spanId, b.spanId) && LexLess(b.spanId, c.spanId) {
      LexTransitive(a.spanId, b.spanId, c.spanId);
    }
  }

  /** Inserted behind every element that is not greater. */
  function Insert(sorted: seq<Span>, s: Span): seq<Span> {
    if sorted == [] then [s]
    else
      var last := sorted[|sorted| - 1];
      if KeyLess(Key(s), Key(last)) then Insert(sorted[..|sorted| - 1], s) + [last] else sorted + [s]
  }

  /** Python's stable `sorted` by `(started_at, span_id)`. */
  function SortSpans(spans: seq<Span>): seq<Span> {
    if spans == [] then [] else Insert(SortSpans(spans[..|spans| - 1]), spans[|spans| - 1])
  }

  ghost predicate Sorted(spans: seq<Span>) {
    forall i, j :: 0 <= i < j < |spans| ==> !KeyLess(Key(spans[j]), Key(spans[i]))
  }

  /** The spans of one key, in the order in which they occur. */
  function WithKey(spans: seq<Span>, key: SpanKey): seq<Span> {
    if spans == [] then []
    else
      var last := spans[|spans| - 1];
      WithKey(spans[..|spans| - 1], key) + if Key(last) == key then [last] else []
  }

  lemma SortedSnoc(sorted: seq<Span>, last: Span)
    requires Sorted(sorted) && forall i :: 0 <= i < |sorted| ==> !KeyLess(Key(last), Key(sorted[i]))
    ensures Sorted(sorted + [last])
  {
  }

  /** Everything in `inner`, which holds `init` and `s`, is at most `last`. */
  lemma AllAtMost(init: seq<Span>, s: Span, inner: seq<Span>, last: Span)
    requires multiset(inner) == multiset(init) + multiset{s} && !KeyLess(Key(last), Key(s))
    requires forall i :: 0 <= i < |init| ==> !KeyLess(Key(last), Key(init[i]))
    ensures forall i :: 0 <= i < |inner| ==> !KeyLess(Key(last), Key(inner[i]))
  {
    forall i | 0 <= i < |inner| ensures !KeyLess(Key(last), Key(inner[i])) {
      assert inner[i] in multiset(inner);
      assert inner[i] == s || inner[i] in multiset(init);
    }
  }

  lemma {:induction false} InsertSorts(sorted: seq<Span>, s: Span)
    requires Sorted(sorted)
    ensures Sorted(Insert(sorted, s)) && multiset(Insert(sorted, s)) == multiset(sorted) + multiset{s}
  {
    if sorted != [] {
      var init, last := sorted[..|sorted| - 1], sorted[|sorted| - 1];
      assert sorted == init + [last];
      if KeyLess(Key(s), Key(last)) {
        InsertSorts(init, s);
        KeyOrder(Key(s), Key(last), Key(last));
        AllAtMost(init, s, Insert(init, s), last);
        SortedSnoc(Insert(init, s), last);
      } else {
        forall i | 0 <= i < |sorted| ensures !KeyLess(Key(s), Key(sorted[i])) {
          KeyOrder(Key(sorted[i]), Key(last), Key(s));
        }
        SortedSnoc(sorted, s);
      }
    }
  }

  lemma {:induction false} InsertStable(sorted: seq<Span>, s: Span, key: SpanKey)
    requires Sorted(sorted)
    ensures WithKey(Insert(sorted, s), key) == WithKey(sorted, key) + if Key(s) == key then [s] else []
  {
    if sorted != [] {
      var init, last := sorted[..|sorted| - 1], sorted[|sorted| - 1];
      if KeyLess(Key(s), Key(last)) {
        InsertStable(init, s, key);
        KeyOrder(Key(s), Key(last), Key(last));
        assert (Insert(init, s) + [last])[..|Insert(init, s)|] == Insert(init, s);
      } else {
        assert (sorted + [s])[..|sorted|] == sorted;
      }
    } else {
      assert WithKey([s], key) == WithKey([], key) + if Key(s) == key then [s] else [];
    }
  }

  /** A sorted permutation in which spans of equal key keep their order. */
  lemma {:induction false} SortSpansSorts(spans: seq<Span>)
    ensures Sorted(SortSpans(spans)) && multiset(SortSpans(spans)) == multiset(spans)
    ensures forall key :: WithKey(SortSpans(spans), key) == WithKey(spans, key)
  {
    if spans != [] {
      var init, last := spans[..|spans| - 1], spans[|spans| - 1];
      assert spans == init + [last];
      SortSpansSorts(init);
      InsertSorts(SortSpans(init), last);
      forall key { InsertStable(SortSpans(init), last, key); }
    }
  }

  // ----- The exporter ---------------------------------------------------------

  /** The ordered dictionary as a list: its keys in order, each with its bucket. */
  function View(order: seq<string>, buckets: map<string, seq<Span>>): seq<Trace>
    requires forall id :: id in order ==> id in buckets
  {
    seq(|order|, i requires 0 <= i < |order| => Trace(order[i], buckets[order[i]]))
  }

  function Removed(order: seq<string>, id: string): (r: seq<string>)
    ensures forall x :: x in r <==> x in order && x != id
  {
    if order == [] then []
    else
      var last := order[|order| - 1];
      assert order == order[..|order| - 1] + [last];
      Removed(order[..|order| - 1], id) + if last == id then [] else [last]
  }

  lemma {:induction false} RemovedKeeps(order: seq<string>, id: string)
    ensures Distinct(order) ==> Distinct(Removed(order, id))
    ensures |Removed(order, id)| <= |order|
  {
    if order != [] {
      var init, last := order[..|order| - 1], order[|order| - 1];
      assert order == init + [last];
      RemovedKeeps(init, id);
      assert Distinct(order) ==> Distinct(init) && last !in init;
    }
  }

  lemma {:induction false} RemovedView(order: seq<string>, buckets: map<string, seq<Span>>, id: string)
    requires forall x :: x in order ==> x in buckets
    ensures View(Removed(order, id), buckets) == Without(View(order, buckets), id)
  {
    if order != [] {
      var init, view := order[..|order| - 1], View(order, buckets);
      RemovedView(init, buckets, id);
      assert view[..|view| - 1] == View(init, buckets);
    }
  }

  lemma {:induction false} BucketView(order: seq<string>, buckets: map<string, seq<Span>>, id: string)
    requires forall x :: x in order ==> x in buckets
    ensures SpansOf(View(order, buckets), id) == if id in order then buckets[id] else []
  {
    if order != [] {
      var init, view := order[..|order| - 1], View(order, buckets);
      BucketView(init, buckets, id);
      assert view[..|view| - 1] == View(init, buckets);
    }
  }

  ghost predicate Indexed(order: seq<string>, buckets: map<string, seq<Span>>) {
    Distinct(order) && forall x :: x in buckets <==> x in order
  }

  lemma {:induction false} TouchedIndex(order: seq<string>, buckets: map<string, seq<Span>>, id: string,
      bucket: seq<Span>)
    requires Indexed(order, buckets)
    ensures Indexed(Removed(order, id) + [id], buckets[id := bucket])
  {
    RemovedKeeps(order, id);
    var kept := Removed(order, id);
    assert forall i :: 0 <= i < |kept| ==> kept[i] in kept;
    assert forall x :: x in kept + [id] <==> x in kept || x == id;
  }

  /** Setting a bucket and moving its key to the end. */
  lemma {:induction false} Touched(order: seq<string>, buckets: map<string, seq<Span>>, id: string, bucket: seq<Span>)
    requires Indexed(order, buckets)
    ensures Indexed(Removed(order, id) + [id], buckets[id := bucket])
    ensures View(Removed(order, id) + [id], buckets[id := bucket]) ==
            Without(View(order, buckets), id) + [Trace(id, bucket)]
  {
    TouchedIndex(order, buckets, id, bucket);
    RemovedView(order, buckets, id);
    var kept := Removed(order, id);
    assert forall i :: 0 <= i < |kept| ==> kept[i] in kept;
    assert View(kept + [id], buckets[id := bucket]) == View(kept, buckets) + [Trace(id, bucket)];
  }

  /** Dropping the first key drops the first trace and no other. */
  lemma Evicted(order: seq<string>, buckets: map<string, seq<Span>>)
    requires Indexed(order, buckets) && order != []
    ensures
      var rest := map x | x in buckets && x != order[0] :: buckets[x];
      Indexed(order[1..], rest) && View(order[1..], rest) == View(order, buckets)[1..]
  {
    assert order == [order[0]] + order[1..];
    assert forall i :: 0 <= i < |order[1..]| ==> order[1..][i] != order[0];
  }

  class BufferedSpanExporter {
    const maxTraces: nat
    const maxSpans: nat
    var order: seq<string>
    var buckets: map<string, seq<Span>>

    ghost predicate Valid()
      reads this
    {
      && maxTraces > 0 && maxSpans > 0
      && Indexed(order, buckets) && |order| <= maxTraces
    }

    function Contents(): seq<Trace>
      requires Valid()
      reads this
    {
      View(order, buckets)
    }

    constructor (maxTraces: nat, maxSpans: nat)
      requires maxTraces > 0 && maxSpans > 0
      ensures Valid() && Contents() == []
      ensures this.maxTraces == maxTraces && this.maxSpans == maxSpans
    {
      this.maxTraces, this.maxSpans := maxTraces, maxSpans;
      order, buckets := [], map[];
    }

    /** A span that cannot be serialised arrives as None. */
    method Export(spans: seq<Option<Span>>)
      requires Valid()
      modifies this
      ensures Valid()
      ensures Contents() == RecordAll(old(Contents()), spans, maxTraces, maxSpans)
    {
      ghost var before := Contents();
      var i := 0;
      while i < |spans|
        invariant 0 <= i <= |spans|
        invariant Valid()
        invariant Contents() == RecordAll(before, spans[..i], maxTraces, maxSpans)
      {
        assert spans[..i + 1][..i] == spans[..i];
        if spans[i].Some? {
          Add(spans[i].value);
        }
        i := i + 1;
      }
      assert spans[..i] == spans;
    }

    method Add(span: Span)
      requires Valid()
      modifies this
      ensures Valid()
      ensures Contents() == Record(old(Contents()), span, maxTraces, maxSpans)
    {
      Refresh(span);
      EvictStalest();
    }

    /** `setdefault`, the bounded append, and `move_to_end`. */
    method Refresh(span: Span)
      requires Valid()
      modifies this
      ensures Indexed(order, buckets) && order != []
      ensures
        var before, id := old(Contents()), span.traceId;
        var bucket := SpansOf(before, id);
        View(order, buckets) == Without(before, id) +
            [Trace(id, if |bucket| < maxSpans then bucket + [span] else bucket)]
    {
      var id := span.traceId;
      BucketView(order, buckets, id);
      var bucket := if id in buckets then buckets[id] else [];
      if |bucket| < maxSpans {
        bucket := bucket + [span];
      }
      Touched(order, buckets, id, bucket);
      buckets := buckets[id := bucket];
      order := Removed(order, id) + [id];
    }

    /** `while len(traces) > max_traces: popitem(last=False)`. */
    method EvictStalest()
      requires Indexed(order, buckets) && maxTraces > 0 && maxSpans > 0
      modifies this
      ensures Valid()
      ensures Contents() == LastN(old(View(order, buckets)), maxTraces)
    {
      ghost var full := View(order, buckets);
      while |order| > maxTraces
        invariant Indexed(order, buckets) && |order| <= |full| && (maxTraces <= |order| || |order| == |full|)
        invariant View(order, buckets) == full[|full| - |order|..]
      {
        Evicted(order, buckets);
        assert full[|full| - |order|..][1..] == full[|full| - |order| + 1..];
        var stalest := order[0];
        buckets := map x | x in buckets && x != stalest :: buckets[x];
        order := order[1..];
      }
    }

    method Take(id: string) returns (spans: seq<Span>)
      requires Valid()
      modifies this
      ensures Valid()
      ensures spans == SortSpans(SpansOf(old(Contents()), id))
      ensures Contents() == Without(old(Contents()), id)
    {
      BucketView(order, buckets, id);
      RemovedView(order, buckets, id);
      RemovedKeeps(order, id);
      var bucket := if id in buckets then buckets[id] else [];
      order := Removed(order, id);
      ghost var before := buckets;
      buckets := map x | x in buckets && x != id :: buckets[x];
      assert View(order, buckets) == View(order, before);
      spans := SortSpans(bucket);
    }

    method Shutdown()
      requires Valid()
      modifies this
      ensures Valid() && Contents() == []
    {
      order, buckets := [], map[];
    }
  }
}
