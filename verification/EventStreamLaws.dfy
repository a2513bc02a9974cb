/**
  Laws of the event-stream decoder: independence from how the network cuts the
  text, the trailing flush, and the order of what is yielded.
 */
module EventStreamLaws {
  import opened Prelude
  import opened Text
  import opened Json
  import opened EventStream

  // ----- Chunk independence ---------------------------------------------------

  predicate SplitsLineEnd(before: string, after: string) {
    before != "" && before[|before| - 1] == '\r' && after != "" && after[0] == '\n'
  }

  /** No cut between two chunks falls inside a CR LF pair. */
  predicate SafeCuts(chunks: seq<string>) {
    chunks == [] || (!SplitsLineEnd(chunks[0], Flatten(chunks[1..])) && SafeCuts(chunks[1..]))
  }

  lemma {:induction false} NormalizedPlain(c: char, s: string)
    requires !(c == '\r' && s != "" && s[0] == '\n')
    ensures Normalized([c] + s) == [c] + Normalized(s)
  {
    assert ([c] + s)[1..] == s;
  }

  lemma {:induction false} NormalizedPair(s: string)
    ensures Normalized("\r\n" + s) == "\n" + Normalized(s)
  {
    assert ("\r\n" + s)[2..] == s;
  }

  /** Two normalised texts put together; a CR LF that the seam splits becomes its LF. */
  ghost predicate Sewn(split: bool, left: string, right: string, whole: string) {
    if split then
      && left != "" && left[|left| - 1] == '\r' && right != "" && right[0] == '\n'
      && whole == left[..|left| - 1] + right
    else whole == left + right
  }

  lemma SewnLonger(split: bool, left: string, right: string, whole: string, c: char)
    requires Sewn(split, left, right, whole)
    ensures Sewn(split, [c] + left, right, [c] + whole)
  {
    if split {
      assert ([c] + left)[..|left|] == [c] + left[..|left| - 1];
    }
  }

  /** How normalising two texts separately compares with normalising them joined. */
  ghost predicate Joins(a: string, b: string) {
    Sewn(SplitsLineEnd(a, b), Normalized(a), Normalized(b), Normalized(a + b))
  }

  lemma {:induction false} NormalizedConcat(a: string, b: string)
    ensures Joins(a, b)
    decreases |a|
  {
    if a == "" {
      assert a + b == b;
    } else if |a| == 1 {
      NormalizedPrepend(a[0], b);
      assert a == [a[0]];
    } else if a[0] == '\r' && a[1] == '\n' {
      assert a == "\r\n" + a[2..];
      NormalizedConcat(a[2..], b);
      JoinsPair(a[2..], b);
    } else {
      assert a == [a[0]] + a[1..];
      NormalizedConcat(a[1..], b);
      JoinsPlain(a[0], a[1..], b);
    }
  }

  lemma JoinsPair(rest: string, b: string)
    requires Joins(rest, b)
    ensures Joins("\r\n" + rest, b)
  {
    NormalizedPair(rest);
    NormalizedPair(rest + b);
    assert "\r\n" + rest + b == "\r\n" + (rest + b);
    assert SplitsLineEnd("\r\n" + rest, b) == SplitsLineEnd(rest, b);
    SewnLonger(SplitsLineEnd(rest, b), Normalized(rest), Normalized(b), Normalized(rest + b), '\n');
  }

  lemma JoinsPlain(c: char, rest: string, b: string)
    requires Joins(rest, b) && rest != "" && !(c == '\r' && rest[0] == '\n')
    ensures Joins([c] + rest, b)
  {
    NormalizedPlain(c, rest);
    NormalizedPlain(c, rest + b);
    assert [c] + rest + b == [c] + (rest + b);
    assert SplitsLineEnd([c] + rest, b) == SplitsLineEnd(rest, b);
    SewnLonger(SplitsLineEnd(rest, b), Normalized(rest), Normalized(b), Normalized(rest + b), c);
  }

  lemma {:induction false} NormalizedPrepend(c: char, b: string)
    ensures Joins([c], b)
  {
    NormalizedPlain(c, "");
    assert [c] + "" == [c];
    if SplitsLineEnd([c], b) {
      NormalizedPair(b[1..]);
      assert [c] + b == "\r\n" + b[1..] && b == ['\n'] + b[1..];
      NormalizedPlain('\n', b[1..]);
    } else {
      NormalizedPlain(c, b);
    }
  }

  lemma {:induction false} NormalizedNeverShorter(chunks: seq<string>)
    ensures |NormalizedChunks(chunks)| >= |Normalized(Flatten(chunks))|
    ensures SafeCuts(chunks) ==> NormalizedChunks(chunks) == Normalized(Flatten(chunks))
    ensures !SafeCuts(chunks) ==> |NormalizedChunks(chunks)| > |Normalized(Flatten(chunks))|
  {
    if chunks != [] {
      NormalizedNeverShorter(chunks[1..]);
      NormalizedConcat(chunks[0], Flatten(chunks[1..]));
    }
  }

  /** Normalising chunk by chunk equals normalising the whole text exactly when no cut splits a CR LF. */
  lemma {:induction false} CutsMatterExactly(chunks: seq<string>)
    ensures NormalizedChunks(chunks) == Normalized(Flatten(chunks)) <==> SafeCuts(chunks)
  {
    NormalizedNeverShorter(chunks);
  }

  lemma {:induction false} NoCarriageReturnIsSafe(chunks: seq<string>)
    requires '\r' !in Flatten(chunks)
    ensures SafeCuts(chunks)
    ensures NormalizedChunks(chunks) == Flatten(chunks)
  {
    if chunks != [] {
      assert forall c :: c in chunks[0] || c in Flatten(chunks[1..]) ==> c in Flatten(chunks);
      NoCarriageReturnIsSafe(chunks[1..]);
      NormalizedWithoutReturn(chunks[0]);
    }
  }

  lemma {:induction false} NormalizedWithoutReturn(text: string)
    requires '\r' !in text
    ensures Normalized(text) == text
  {
    if text != "" {
      assert text[0] in text;
      NormalizedWithoutReturn(text[1..]);
    }
  }

  /** Text without carriage returns decodes alike however it is cut, also in one chunk. */
  lemma {:induction false} PlainTextChunkIndependence(p: Platform, chunks: seq<string>)
    requires '\r' !in Flatten(chunks)
    ensures StreamOutcome(p, chunks) == StreamOutcome(p, [Flatten(chunks)])
    ensures StreamOutcome(p, chunks) == Meaning(p, Flatten(chunks))
  {
    NoCarriageReturnIsSafe(chunks);
    var whole := [Flatten(chunks)];
    assert whole[1..] == [];
    assert Flatten(whole) == Flatten(chunks);
    NoCarriageReturnIsSafe(whole);
  }

  // ----- Lines ----------------------------------------------------------------

  predicate EndsWithReturn(text: string) {
    text != "" && text[|text| - 1] == '\r'
  }

  lemma {:induction false} SplitLinesAt(text: string, k: nat)
    requires k < |text| && text[k] == '\n' && '\n' !in text[..k]
    ensures SplitLines(text) == [DropCarriageReturn(text[..k])] + SplitLines(text[k + 1..])
  {
    IndexOfUnique(text, '\n', k);
  }

  lemma SameDelivery(p: Platform, raw: string, tail: string)
    requires Decoded(raw) == Decoded(tail)
    ensures Decoder(p)(raw) == Decoder(p)(tail)
    ensures Decoded(raw) == None ==> Decoder(p)(raw) == Skip
  {
  }

  // ----- Order of what is yielded ---------------------------------------------

  ghost predicate Increasing(events: seq<StreamEvent>, last: int) {
    && (forall i :: 0 <= i < |events| ==> last < events[i].sequence)
    && (forall i, j :: 0 <= i < j < |events| ==> events[i].sequence < events[j].sequence)
  }

  lemma {:induction false} DeliverIncreasing(steps: seq<Delivery>, last: int)
    ensures Increasing(Deliver(steps, last).events, last)
    ensures forall i :: 0 <= i < |Deliver(steps, last).events| ==>
      Event(Deliver(steps, last).events[i]) in steps
  {
    if steps != [] {
      match steps[0]
      case Skip => DeliverIncreasing(steps[1..], last);
      case Bad(_) =>
      case Event(event) =>
        if last < event.sequence {
          DeliverIncreasing(steps[1..], event.sequence);
          var later := Deliver(steps[1..], event.sequence).events;
          assert steps[0] in steps;
          assert Deliver(steps, last).events == [event] + later;
        }
    }
  }

  /** Events with increasing numbers are all delivered. */
  lemma {:induction false} IncreasingDeliver(steps: seq<Delivery>, last: int)
    requires forall i :: 0 <= i < |steps| ==> steps[i].Event? && last < steps[i].event.sequence
    requires forall i, j :: 0 <= i < j < |steps| ==> steps[i].event.sequence < steps[j].event.sequence
    ensures Deliver(steps, last).error == None && |Deliver(steps, last).events| == |steps|
    ensures forall i :: 0 <= i < |steps| ==> Event(Deliver(steps, last).events[i]) == steps[i]
  {
    if steps != [] {
      IncreasingDeliver(steps[1..], steps[0].event.sequence);
    }
  }

  lemma {:induction false} DeliveriesMember(decode: string -> Delivery, raws: seq<string>, step: Delivery)
    requires step in Deliveries(decode, raws)
    ensures exists raw :: raw in raws && decode(raw) == step
  {
    if step == decode(raws[0]) {
      assert raws[0] in raws;
    } else {
      DeliveriesMember(decode, raws[1..], step);
    }
  }

  /**
    On any input at all, whether or not it ends in an exception, the yielded
    sequence numbers are positive safe integers in strictly increasing order.
   */
  lemma YieldsAreOrdered(p: Platform, chunks: seq<string>)
    ensures Increasing(StreamOutcome(p, chunks).events, 0)
    ensures forall i :: 0 <= i < |StreamOutcome(p, chunks).events| ==>
      1 <= StreamOutcome(p, chunks).events[i].sequence <= MAX_SAFE_INTEGER
  {
    var raws := FrameTexts(NormalizedChunks(chunks));
    var steps := Deliveries(Decoder(p), raws);
    DeliverIncreasing(steps, 0);
    forall i | 0 <= i < |Deliver(steps, 0).events|
      ensures 1 <= Deliver(steps, 0).events[i].sequence <= MAX_SAFE_INTEGER
    {
      var event := Deliver(steps, 0).events[i];
      DeliveriesMember(Decoder(p), raws, Event(event));
      var raw :| raw in raws && Decoder(p)(raw) == Event(event);
      assert DeliveryOf(p, raw) == Event(event);
      ParseEventSequence(p, Decoded(raw).value);
    }
  }
}
