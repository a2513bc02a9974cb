/**
  The frame left over at the end of a stream: when flushing it is the same as ending
  it with a blank line.
 */
module EventStreamFlush {
  import opened Prelude
  import opened Text
  import opened Json
  import opened EventStream
  import opened EventStreamLaws
  import opened EventStreamCuts

  // ----- What the decoder keeps -----------------------------------------------

  const KNOWN := {"id", "event", "data"}

  function KnownFields(fields: seq<Field>): seq<Field> {
    if fields == [] then []
    else
      var last := fields[|fields| - 1];
      KnownFields(fields[..|fields| - 1]) + if last.name in KNOWN then [last] else []
  }

  /** The known fields of each frame that has any: all that becomes of a stream. */
  function FramesFields(raws: seq<string>): seq<seq<Field>> {
    if raws == [] then [] else Kept(raws[0]) + FramesFields(raws[1..])
  }

  function FieldsKept(raw: string): seq<Field> {
    KnownFields(FieldsOf(SplitLines(raw)))
  }

  function Kept(raw: string): seq<seq<Field>> {
    var fields := FieldsKept(raw);
    if fields == [] then [] else [fields]
  }

  function StreamFields(text: string): seq<seq<Field>> {
    FramesFields(FrameTexts(text))
  }

  lemma {:induction false} ValuesSnoc(fields: seq<Field>, last: Field, name: string)
    ensures LastValue(fields + [last], name) == if last.name == name then Some(last.value) else LastValue(fields, name)
    ensures Values(fields + [last], name) == Values(fields, name) + if last.name == name then [last.value] else []
  {
    assert (fields + [last])[..|fields|] == fields;
  }

  lemma {:induction false} KnownValues(fields: seq<Field>, name: string)
    requires name in KNOWN
    ensures LastValue(fields, name) == LastValue(KnownFields(fields), name)
    ensures Values(fields, name) == Values(KnownFields(fields), name)
  {
    if fields != [] {
      var init, last := fields[..|fields| - 1], fields[|fields| - 1];
      assert fields == init + [last];
      KnownValues(init, name);
      ValuesSnoc(init, last, name);
      ValuesSnoc(KnownFields(init), last, name);
      assert last.name !in KNOWN ==> KnownFields(fields) == KnownFields(init) && last.name != name;
      assert Values(init, name) + [] == Values(init, name);
    }
  }

  lemma {:induction false} FrameOfKnown(fields: seq<Field>)
    ensures FrameOf(fields) == FrameOf(KnownFields(fields)) && FrameOf([]) == None
  {
    KnownValues(fields, "id");
    KnownValues(fields, "event");
    KnownValues(fields, "data");
  }

  function FieldsDelivery(p: Platform, fields: seq<Field>): Delivery {
    FrameDelivery(p, FrameOf(fields))
  }

  function FieldsDeliveries(p: Platform, frames: seq<seq<Field>>): seq<Delivery> {
    if frames == [] then [] else [FieldsDelivery(p, frames[0])] + FieldsDeliveries(p, frames[1..])
  }

  lemma RawDelivers(p: Platform, raw: string)
    ensures Decoder(p)(raw) == FieldsDelivery(p, FieldsKept(raw))
    ensures FieldsDelivery(p, []) == Skip
  {
    FrameOfKnown(FieldsOf(SplitLines(raw)));
  }

  lemma DeliverAhead(step: Delivery, xs: seq<Delivery>, ys: seq<Delivery>, last: int)
    requires
      var next := if step.Event? then step.event.sequence else last;
      Deliver(xs, next) == Deliver(ys, next)
    ensures Deliver([step] + xs, last) == Deliver([step] + ys, last)
    ensures step.Skip? ==> Deliver([step] + xs, last) == Deliver(ys, last)
  {
    assert ([step] + xs)[1..] == xs && ([step] + ys)[1..] == ys;
  }

  lemma {:induction false} FramesDeliver(p: Platform, raws: seq<string>, last: int)
    ensures Deliver(Deliveries(Decoder(p), raws), last) == Deliver(FieldsDeliveries(p, FramesFields(raws)), last)
  {
    if raws != [] {
      var step, later := Decoder(p)(raws[0]), FramesFields(raws[1..]);
      RawDelivers(p, raws[0]);
      FramesDeliver(p, raws[1..], if step.Event? then step.event.sequence else last);
      DeliverAhead(step, Deliveries(Decoder(p), raws[1..]), FieldsDeliveries(p, later), last);
      KeptAhead(p, raws[0], later);
    }
  }

  lemma {:induction false} KeptAhead(p: Platform, raw: string, later: seq<seq<Field>>)
    ensures
      var fields, steps := FieldsKept(raw), FieldsDeliveries(p, Kept(raw) + later);
      if fields == [] then steps == FieldsDeliveries(p, later)
      else steps == [FieldsDelivery(p, fields)] + FieldsDeliveries(p, later)
  {
    var fields := FieldsKept(raw);
    if fields == [] {
      assert [] + later == later;
    } else {
      assert ([fields] + later)[1..] == later;
    }
  }

  /** Streams whose frames have the same known fields mean the same events and the same ending. */
  lemma SameFieldsSameMeaning(p: Platform, text: string, other: string)
    requires StreamFields(text) == StreamFields(other)
    ensures Meaning(p, text) == Meaning(p, other)
  {
    FramesDeliver(p, FrameTexts(text), 0);
    FramesDeliver(p, FrameTexts(other), 0);
  }

  // ----- White space ----------------------------------------------------------

  predicate KnownLine(line: string) {
    !Ignored(line) && FieldOf(line).name in KNOWN
  }

  lemma {:induction false} KnownSnoc(lines: seq<string>, line: string)
    ensures KnownFields(FieldsOf(lines + [line])) ==
            KnownFields(FieldsOf(lines)) + if KnownLine(line) then [FieldOf(line)] else []
  {
    assert (lines + [line])[..|lines|] == lines;
    var fields := FieldsOf(lines);
    if Ignored(line) {
      assert fields + [] == fields;
    } else {
      assert (fields + [FieldOf(line)])[..|fields|] == fields;
    }
  }

  lemma BlankIsUnknown(line: string)
    requires JsBlank(line)
    ensures !KnownLine(line)
  {
    if line != "" {
      assert ':' in line ==> IsJsSpace(':');
      assert !IsJsSpace(':') && FieldOf(line).name == line;
      assert line[0] in line && IsJsSpace(line[0]);
      assert !IsJsSpace('i') && !IsJsSpace('e') && !IsJsSpace('d');
    }
  }

  lemma {:induction false} BlankLines(raw: string)
    requires JsBlank(raw)
    ensures forall i :: 0 <= i < |SplitLines(raw)| ==> JsBlank(SplitLines(raw)[i])
    decreases |raw|
  {
    var k := IndexOf(raw, '\n');
    if 0 <= k {
      assert forall c :: c in DropCarriageReturn(raw[..k]) ==> c in raw;
      assert forall c :: c in raw[k + 1..] ==> c in raw;
      BlankLines(raw[k + 1..]);
    }
  }

  lemma {:induction false} BlankLinesUnknown(lines: seq<string>)
    requires forall i :: 0 <= i < |lines| ==> JsBlank(lines[i])
    ensures KnownFields(FieldsOf(lines)) == []
  {
    if lines != [] {
      var init, last := lines[..|lines| - 1], lines[|lines| - 1];
      assert lines == init + [last];
      BlankLinesUnknown(init);
      BlankIsUnknown(last);
      KnownSnoc(init, last);
    }
  }

  lemma BlankKeepsNothing(raw: string)
    requires JsBlank(raw)
    ensures Kept(raw) == []
  {
    BlankLines(raw);
    BlankLinesUnknown(SplitLines(raw));
  }

  /** White space alone decodes to no frame at all. */
  lemma BlankDecodesToNothing(raw: string)
    requires JsBlank(raw)
    ensures Decoded(raw) == None
  {
    BlankKeepsNothing(raw);
    FrameOfKnown(FieldsOf(SplitLines(raw)));
  }

  // ----- The last line --------------------------------------------------------

  lemma {:induction false} TailSnoc(s: string, c: char)
    requires c != '\n'
    ensures Tail(s + [c]) == Tail(s) + [c]
    decreases |s|
  {
    if '\n' in s {
      var line, rest := ByFirstLine(s);
      assert s + [c] == line + "\n" + (rest + [c]);
      TailBehind(line, rest + [c]);
      TailSnoc(rest, c);
    } else {
      NoLineFeed(s);
      NoLineFeed(s + [c]);
    }
  }

  lemma {:induction false} TailBehindAny(front: string, rest: string)
    ensures Tail(front + "\n" + rest) == Tail(rest)
    decreases |front|
  {
    if '\n' in front {
      var line, more := ByFirstLine(front);
      assert front + "\n" + rest == line + "\n" + (more + "\n" + rest);
      TailBehind(line, more + "\n" + rest);
      TailBehindAny(more, rest);
    } else {
      TailBehind(front, rest);
    }
  }

  lemma Regroup<T>(a: seq<T>, b: seq<T>, c: seq<T>)
    ensures a + (b + c) == a + b + c
  {
  }

  lemma EndedStep(line: string, rest: string, later: seq<string>) returns (before: seq<string>)
    requires '\n' !in line && SplitLines(rest) == later + [Tail(rest)]
    requires SplitLines(rest + "\n") == later + [DropCarriageReturn(Tail(rest))] + [""]
    ensures SplitLines(line + "\n" + rest) == before + [Tail(rest)]
    ensures SplitLines(line + "\n" + rest + "\n") == before + [DropCarriageReturn(Tail(rest))] + [""]
  {
    var first, last := [DropCarriageReturn(line)], [DropCarriageReturn(Tail(rest))];
    before := first + later;
    FirstLineEnd(line, rest);
    Regroup(first, later, [Tail(rest)]);
    FirstLineEnd(line, rest + "\n");
    Regroup(line + "\n", rest, "\n");
    Regroup(first, later + last, [""]);
    Regroup(first, later, last);
  }

  /** The lines of a text, and those when a line feed ends it. */
  lemma {:induction false} EndedLines(s: string) returns (before: seq<string>)
    ensures SplitLines(s) == before + [Tail(s)]
    ensures SplitLines(s + "\n") == before + [DropCarriageReturn(Tail(s))] + [""]
    decreases |s|
  {
    if '\n' in s {
      var line, rest := ByFirstLine(s);
      var later := EndedLines(rest);
      before := EndedStep(line, rest, later);
    } else {
      NoLineFeed(s);
      FirstLineEnd(s, "");
      NoLineFeed("");
      assert s + "\n" + "" == s + "\n";
      before := [];
    }
  }

  /** What a line adds to the known fields of its frame. */
  function KnownOf(line: string): seq<Field> {
    if KnownLine(line) then [FieldOf(line)] else []
  }

  /** A carriage return kept at the end of a line matters exactly when the line is a known field. */
  lemma ReturnOnLine(line: string)
    ensures KnownOf(line) == KnownOf(line + "\r") <==> !KnownLine(line)
  {
    var longer, k := line + "\r", IndexOf(line, ':');
    NoNameEndsWithReturn(line);
    if 0 <= k {
      IndexOfUnique(longer, ':', k);
      assert longer[..k] == line[..k] && longer[k + 1..] == line[k + 1..] + "\r";
      LongerValue(line[k + 1..]);
      assert FieldOf(longer).value == FieldOf(line).value + "\r";
      assert FieldOf(line).value != FieldOf(line).value + "\r";
    } else {
      assert ':' !in longer;
    }
  }

  lemma LongerValue(rest: string)
    ensures StartsWith(rest + "\r", " ") == StartsWith(rest, " ")
    ensures StartsWith(rest, " ") ==> (rest + "\r")[1..] == rest[1..] + "\r"
  {
    assert StartsWith(rest, " ") <==> rest != "" && rest[0] == ' ';
    assert (rest + "\r")[0] == if rest == "" then '\r' else rest[0];
  }

  lemma NoNameEndsWithReturn(name: string)
    ensures name + "\r" !in KNOWN
  {
    var longer := name + "\r";
    assert longer[|longer| - 1] == '\r';
  }

  lemma SameBehind<T>(a: seq<T>, x: seq<T>, y: seq<T>)
    ensures a + x == a + y <==> x == y
  {
    if a + x == a + y {
      assert x == (a + x)[|a|..] == (a + y)[|a|..] == y;
    }
  }

  /** What is kept of a frame, before and after its last line is ended. */
  lemma EndedFields(s: string) returns (before: seq<Field>)
    ensures FieldsKept(s) == before + KnownOf(Tail(s))
    ensures FieldsKept(s + "\n") == before + KnownOf(DropCarriageReturn(Tail(s)))
  {
    var lines := EndedLines(s);
    before := KnownFields(FieldsOf(lines));
    KnownSnoc(lines, Tail(s));
    KnownSnoc(lines, DropCarriageReturn(Tail(s)));
    KnownSnoc(lines + [DropCarriageReturn(Tail(s))], "");
  }

  lemma KeptExactly(raw: string, other: string)
    ensures Kept(raw) == Kept(other) <==> FieldsKept(raw) == FieldsKept(other)
  {
  }

  lemma LastLineExactly(last: string)
    ensures KnownOf(last) == KnownOf(DropCarriageReturn(last)) <==>
      !(EndsWithReturn(last) && KnownLine(DropCarriageReturn(last)))
  {
    if EndsWithReturn(last) {
      var dropped := DropCarriageReturn(last);
      assert last == dropped + "\r";
      ReturnOnLine(dropped);
    }
  }

  /** Ending the last line of a text changes what is kept of it exactly when it strips a known field. */
  lemma {:induction false} EndedKept(s: string)
    ensures Kept(s) == Kept(s + "\n") <==>
      !(EndsWithReturn(Tail(s)) && KnownLine(DropCarriageReturn(Tail(s))))
  {
    var before := EndedFields(s);
    KeptExactly(s, s + "\n");
    SameBehind(before, KnownOf(Tail(s)), KnownOf(DropCarriageReturn(Tail(s))));
    LastLineExactly(Tail(s));
  }

  // ----- The flush ------------------------------------------------------------

  lemma {:induction false} FramesFieldsCons(raw: string, rest: string, text: string)
    requires BlankLine(raw + "\n") < 0 && text == raw + "\n\n" + rest
    ensures StreamFields(text) == Kept(raw) + StreamFields(rest)
  {
    FrameEnds(raw, rest);
    assert ([raw] + FrameTexts(rest))[1..] == FrameTexts(rest);
  }

  lemma {:induction false} LastFrameFields(text: string)
    requires BlankLine(text) < 0
    ensures StreamFields(text) == Kept(text)
  {
    if JsBlank(text) {
      BlankKeepsNothing(text);
    } else {
      assert [text][1..] == [] && FramesFields([text]) == Kept(text) + FramesFields([]);
      assert Kept(text) + [] == Kept(text);
    }
  }

  /** A known field line ends the text in a CR LF that a cut has left over. */
  predicate StrayReturn(text: string) {
    && |text| >= 2 && text[|text| - 2] == '\r' && text[|text| - 1] == '\n'
    && KnownLine(Tail(text[..|text| - 2]))
  }

  lemma StrayBehind(raw: string, rest: string)
    ensures StrayReturn(raw + "\n\n" + rest) <==> StrayReturn(rest)
  {
    var text := raw + "\n\n" + rest;
    assert text[|text| - 1] == (if rest == "" then '\n' else rest[|rest| - 1]);
    assert text[|text| - 2] == (if |rest| < 2 then '\n' else rest[|rest| - 2]);
    if |rest| >= 2 {
      assert text[..|text| - 2] == raw + "\n" + "\n" + rest[..|rest| - 2];
      TailBehindAny(raw + "\n", rest[..|rest| - 2]);
    }
  }

  /** The last frame, flushed and ended. */
  lemma {:induction false} LastFrameExactly(text: string)
    requires BlankLine(text) < 0
    ensures StreamFields(text) == StreamFields(text + "\n\n") <==> !StrayReturn(text)
  {
    LastFrameFields(text);
    if text != "" && text[|text| - 1] == '\n' {
      var ended := WithoutLineFeed(text);
      EndedLastFrame(ended);
    } else {
      UnendedLastFrame(text);
    }
  }

  lemma WithoutLineFeed(text: string) returns (ended: string)
    requires text != "" && text[|text| - 1] == '\n'
    ensures text == ended + "\n"
  {
    ended := text[..|text| - 1];
  }

  lemma {:induction false} UnendedLastFrame(text: string)
    requires BlankLine(text) < 0 && (text == "" || text[|text| - 1] != '\n')
    ensures Kept(text) == StreamFields(text + "\n\n") && !StrayReturn(text)
  {
    NoBlankSnoc(text);
    assert text + "\n\n" == text + "\n\n" + "";
    EndedFrame(text, "", text + "\n\n");
  }

  lemma {:induction false} EndedLastFrame(ended: string)
    requires BlankLine(ended + "\n") < 0
    ensures Kept(ended + "\n") == StreamFields(ended + "\n" + "\n\n") <==> !StrayReturn(ended + "\n")
  {
    assert StreamFields(ended + "\n" + "\n\n") == Kept(ended) by {
      LineFeedsRegroup(ended);
      EndedFrame(ended, "\n", ended + "\n" + "\n\n");
    }
    EndedKept(ended);
    StrayTail(ended);
  }

  lemma LineFeedsRegroup(s: string)
    ensures s + "\n" + "\n\n" == s + "\n\n" + "\n"
  {
  }

  lemma {:induction false} EndedFrame(raw: string, left: string, text: string)
    requires BlankLine(raw + "\n") < 0 && (left == "" || left == "\n") && text == raw + "\n\n" + left
    ensures StreamFields(text) == Kept(raw)
  {
    FramesFieldsCons(raw, left, text);
    LastFrameFields(left);
    BlankKeepsNothing(left);
    assert Kept(raw) + [] == Kept(raw);
  }

  lemma {:induction false} NoBlankSnoc(text: string)
    requires BlankLine(text) < 0 && (text == "" || text[|text| - 1] != '\n')
    ensures BlankLine(text + "\n") < 0
  {
    assert forall j :: BlankAt(text + "\n", j) ==> BlankAt(text, j);
  }

  lemma {:induction false} StrayExactly(u: string, text: string)
    requires |text| == |u| + 2 && text[..|u|] == u && text[|u|] == '\r' && text[|u| + 1] == '\n'
    ensures StrayReturn(text) <==> KnownLine(Tail(u))
  {
  }

  lemma {:induction false} StrayTail(ended: string)
    ensures StrayReturn(ended + "\n") <==> EndsWithReturn(Tail(ended)) && KnownLine(DropCarriageReturn(Tail(ended)))
  {
    if EndsWithReturn(ended) {
      WithReturn(ended[..|ended| - 1], ended);
    } else {
      TailEnds(ended);
      WithoutReturn(ended, ended + "\n");
    }
  }

  lemma WithoutReturn(ended: string, text: string)
    requires !EndsWithReturn(ended) && |text| == |ended| + 1
    requires ended != "" ==> text[|ended| - 1] == ended[|ended| - 1]
    ensures !StrayReturn(text)
  {
  }

  lemma {:induction false} WithReturn(u: string, ended: string)
    requires ended == u + "\r"
    ensures StrayReturn(ended + "\n") <==> EndsWithReturn(Tail(ended)) && KnownLine(DropCarriageReturn(Tail(ended)))
  {
    StrayExactly(u, ended + "\n");
    ReturnBehindTail(u, ended);
  }

  lemma {:induction false} ReturnBehindTail(u: string, ended: string)
    requires ended == u + "\r"
    ensures EndsWithReturn(Tail(ended)) && DropCarriageReturn(Tail(ended)) == Tail(u)
  {
    TailSnoc(u, '\r');
    assert ended == u + ['\r'] && Tail(u) + ['\r'] == Tail(u) + "\r";
    DropAdded(Tail(u));
  }

  lemma {:induction false} TailEnds(s: string)
    ensures EndsWithReturn(Tail(s)) ==> EndsWithReturn(s)
    decreases |s|
  {
    if '\n' in s {
      var line, rest := ByFirstLine(s);
      TailEnds(rest);
    } else {
      NoLineFeed(s);
    }
  }

  /**
    Flushing the text behind the last blank line keeps the same fields as ending it
    with a blank line, exactly when no known field is left with a stray CR LF.
   */
  lemma {:induction false} FlushExactly(text: string)
    ensures StreamFields(text) == StreamFields(text + "\n\n") <==> !StrayReturn(text)
    decreases |text|
  {
    var k := BlankLine(text);
    if 0 <= k {
      var raw, rest := text[..k], text[k + 2..];
      assert text == raw + "\n\n" + rest && text + "\n\n" == raw + "\n\n" + (rest + "\n\n");
      assert forall j :: BlankAt(raw + "\n", j) ==> BlankAt(text, j);
      FramesFieldsCons(raw, rest, text);
      FramesFieldsCons(raw, rest + "\n\n", text + "\n\n");
      FlushExactly(rest);
      StrayBehind(raw, rest);
      SameBehind(Kept(raw), StreamFields(rest), StreamFields(rest + "\n\n"));
    } else {
      LastFrameExactly(text);
    }
  }

  /** The flush at the end of the stream treats the last frame as if a blank line followed it. */
  lemma FlushIsBlankLine(p: Platform, text: string)
    requires !StrayReturn(text)
    ensures Meaning(p, text) == Meaning(p, text + "\n\n")
  {
    FlushExactly(text);
    SameFieldsSameMeaning(p, text, text + "\n\n");
  }
}
