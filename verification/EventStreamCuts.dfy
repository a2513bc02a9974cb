/**
  What cutting the text of a stream inside a CR LF does to the frames the decoder
  sees, and exactly which cuts leave them as they are.
 */
module EventStreamCuts {
  import opened Prelude
  import opened Text
  import opened Json
  import opened EventStream
  import opened EventStreamLaws

  // ----- The lines of a stream ------------------------------------------------

  function LinesOf(raws: seq<string>): seq<seq<string>> {
    if raws == [] then [] else [SplitLines(raws[0])] + LinesOf(raws[1..])
  }

  /** The lines of each frame: all that the decoder looks at. */
  function FrameLines(text: string): seq<seq<string>> {
    LinesOf(FrameTexts(text))
  }

  lemma {:induction false} SameDeliveries(p: Platform, raws: seq<string>, others: seq<string>)
    requires LinesOf(raws) == LinesOf(others)
    ensures Deliveries(Decoder(p), raws) == Deliveries(Decoder(p), others)
  {
    if raws != [] && others != [] {
      SameSplit(SplitLines(raws[0]), SplitLines(others[0]), LinesOf(raws[1..]), LinesOf(others[1..]));
      SameDelivery(p, raws[0], others[0]);
      SameDeliveries(p, raws[1..], others[1..]);
    }
  }

  lemma SameSplit<T>(x: T, y: T, s: seq<T>, t: seq<T>)
    ensures [x] + s == [y] + t <==> x == y && s == t
  {
    if [x] + s == [y] + t {
      assert x == ([x] + s)[0] == ([y] + t)[0] == y;
      assert s == ([x] + s)[1..] == ([y] + t)[1..] == t;
    }
  }

  /** Streams of the same lines mean the same events and the same ending. */
  lemma SameLinesSameMeaning(p: Platform, text: string, other: string)
    requires FrameLines(text) == FrameLines(other)
    ensures Meaning(p, text) == Meaning(p, other)
  {
    SameDeliveries(p, FrameTexts(text), FrameTexts(other));
  }

  // ----- Marked text ----------------------------------------------------------

  /** A character of the normalised text; `Split` is a line feed whose CR LF a cut fell into. */
  datatype Unit = Plain(c: char) | Split

  function Reading(u: Unit): char {
    if u.Split? then '\n' else u.c
  }

  /** The text as normalised in one piece. */
  function Whole(m: seq<Unit>): string {
    seq(|m|, i requires 0 <= i < |m| => Reading(m[i]))
  }

  /** The text as normalised piece by piece: the carriage return of a split line end stays. */
  function Cut(m: seq<Unit>): string {
    if m == [] then "" else (if m[0].Split? then "\r\n" else [m[0].c]) + Cut(m[1..])
  }

  function Units(s: string): seq<Unit> {
    seq(|s|, i requires 0 <= i < |s| => Plain(s[i]))
  }

  /** The normalised text of some chunks, with the line ends that their cuts split marked. */
  function Marked(chunks: seq<string>): seq<Unit> {
    if chunks == [] then []
    else
      var text, later := Normalized(chunks[0]), Marked(chunks[1..]);
      if SplitsLineEnd(chunks[0], Flatten(chunks[1..])) && text != "" && later != []
      then Units(text[..|text| - 1]) + [Split] + later[1..]
      else Units(text) + later
  }

  lemma {:induction false} CutConcat(a: seq<Unit>, b: seq<Unit>)
    ensures Cut(a + b) == Cut(a) + Cut(b)
  {
    if a == [] {
      assert a + b == b;
    } else {
      assert (a + b)[1..] == a[1..] + b;
      CutConcat(a[1..], b);
    }
  }

  lemma {:induction false} CutPlain(m: seq<Unit>)
    requires Split !in m
    ensures Cut(m) == Whole(m)
  {
    if m != [] {
      assert m[0] in m && forall u :: u in m[1..] ==> u in m;
      CutPlain(m[1..]);
      assert Whole(m) == [Reading(m[0])] + Whole(m[1..]);
    }
  }

  lemma CutUnits(s: string)
    ensures Cut(Units(s)) == s && Whole(Units(s)) == s && Split !in Units(s)
  {
    assert Whole(Units(s)) == s;
    CutPlain(Units(s));
  }

  lemma WholeConcat(a: seq<Unit>, b: seq<Unit>)
    ensures Whole(a + b) == Whole(a) + Whole(b)
  {
  }

  lemma {:induction false} CutSplit(m: seq<Unit>)
    ensures Cut([Split] + m) == "\r\n" + Cut(m) && Whole([Split] + m) == "\n" + Whole(m)
  {
    assert ([Split] + m)[1..] == m;
  }

  lemma {:induction false} CutOne(c: char, m: seq<Unit>)
    ensures Cut([Plain(c)] + m) == [c] + Cut(m) && Whole([Plain(c)] + m) == [c] + Whole(m)
  {
    assert ([Plain(c)] + m)[1..] == m;
  }

  /** Marked text reads both ways: as its chunks normalised separately, and as the whole normalised. */
  lemma {:induction false} MarkedReads(chunks: seq<string>)
    ensures Cut(Marked(chunks)) == NormalizedChunks(chunks)
    ensures Whole(Marked(chunks)) == Normalized(Flatten(chunks))
    ensures Flatten(chunks) != "" && Flatten(chunks)[0] == '\n' ==>
        Marked(chunks) != [] && Marked(chunks)[0] == Plain('\n')
  {
    if chunks != [] {
      var text, later := Normalized(chunks[0]), Marked(chunks[1..]);
      MarkedReads(chunks[1..]);
      NormalizedConcat(chunks[0], Flatten(chunks[1..]));
      if SplitsLineEnd(chunks[0], Flatten(chunks[1..])) {
        SewnUnits(text, later);
        assert chunks[0][0] == '\n' ==> text[0] == '\n' && |text| > 1;
      } else {
        CutUnits(text);
        CutConcat(Units(text), later);
        WholeConcat(Units(text), later);
      }
    }
  }

  /** A carriage return at the end of one chunk and the line feed that begins the next. */
  lemma SewnUnits(text: string, later: seq<Unit>)
    requires text != "" && text[|text| - 1] == '\r' && later != [] && later[0] == Plain('\n')
    ensures
      var m := Units(text[..|text| - 1]) + [Split] + later[1..];
      Cut(m) == text + Cut(later) && Whole(m) == text[..|text| - 1] + Whole(later)
  {
    var front, rest := text[..|text| - 1], later[1..];
    assert text == front + "\r" && later == [Plain('\n')] + rest;
    CutUnits(front);
    CutSplit(rest);
    CutOne('\n', rest);
    CutConcat(Units(front), [Split] + rest);
    WholeConcat(Units(front), [Split] + rest);
    assert Units(front) + [Split] + rest == Units(front) + ([Split] + rest);
    assert front + "\r" + ("\n" + Cut(rest)) == front + ("\r\n" + Cut(rest));
  }

  // ----- Lines of marked text -------------------------------------------------

  /** A split line end drops its carriage return again, unless another one comes before. */
  predicate LinesKept(m: seq<Unit>) {
    forall i :: 0 < i < |m| && m[i].Split? ==> m[i - 1] != Plain('\r')
  }

  /** The text up to the first line feed, that line feed, and the rest behind it. */
  lemma FirstLine(m: seq<Unit>) returns (front: seq<Unit>, end: Unit, rest: seq<Unit>)
    requires '\n' in Whole(m)
    ensures m == front + [end] + rest && Reading(end) == '\n'
    ensures '\n' !in Whole(front) && Split !in front
  {
    var k := IndexOf(Whole(m), '\n');
    front, end, rest := m[..k], m[k], m[k + 1..];
    assert Whole(front) == Whole(m)[..k];
    forall i | 0 <= i < k ensures front[i] != Split {
      assert Whole(front)[i] in Whole(front);
    }
  }

  lemma {:induction false} NoLineEnd(m: seq<Unit>)
    requires '\n' !in Whole(m)
    ensures Split !in m && Cut(m) == Whole(m)
  {
    forall i | 0 <= i < |m| ensures m[i] != Split {
      assert Whole(m)[i] in Whole(m);
    }
    CutPlain(m);
  }

  /** Both readings of a line and its line end. */
  lemma {:induction false} FirstLineReads(front: seq<Unit>, end: Unit, rest: seq<Unit>)
    requires Reading(end) == '\n' && Split !in front
    ensures Whole(front + [end] + rest) == Whole(front) + "\n" + Whole(rest)
    ensures Cut(front + [end] + rest) == Whole(front) + (if end.Split? then "\r" else "") + "\n" + Cut(rest)
  {
    CutPlain(front);
    CutConcat(front + [end], rest);
    CutConcat(front, [end]);
    CutEnd(end);
    assert Whole(front + [end] + rest) == Whole(front) + [Reading(end)] + Whole(rest);
  }

  lemma {:induction false} FirstLineEnd(line: string, rest: string)
    requires '\n' !in line
    ensures SplitLines(line + "\n" + rest) == [DropCarriageReturn(line)] + SplitLines(rest)
  {
    var text := line + "\n" + rest;
    assert text[..|line|] == line && text[|line| + 1..] == rest;
    SplitLinesAt(text, |line|);
  }

  /** A frame's lines are the same in both readings exactly when no split line end follows a carriage return. */
  lemma {:induction false} LinesExactly(m: seq<Unit>)
    ensures SplitLines(Cut(m)) == SplitLines(Whole(m)) <==> LinesKept(m)
    decreases |m|
  {
    if '\n' in Whole(m) {
      var front, end, rest := FirstLine(m);
      LinesExactly(rest);
      LinesKeptFrom(front, end, rest);
      FirstLinesExactly(front, end, rest);
    } else {
      NoLineEnd(m);
    }
  }

  lemma {:induction false} FirstLinesExactly(front: seq<Unit>, end: Unit, rest: seq<Unit>)
    requires Reading(end) == '\n' && Split !in front && '\n' !in Whole(front)
    ensures
      var m := front + [end] + rest;
      SplitLines(Cut(m)) == SplitLines(Whole(m)) <==>
      (end.Split? ==> !EndsWithReturn(Whole(front))) && SplitLines(Cut(rest)) == SplitLines(Whole(rest))
  {
    var line := Whole(front);
    var kept := line + if end.Split? then "\r" else "";
    FirstLineReads(front, end, rest);
    FirstLineEnd(line, Whole(rest));
    FirstLineEnd(kept, Cut(rest));
    SameSplit(DropCarriageReturn(kept), DropCarriageReturn(line), SplitLines(Cut(rest)), SplitLines(Whole(rest)));
    DropAdded(line);
    assert !end.Split? ==> kept == line;
  }

  lemma DropAdded(line: string)
    ensures DropCarriageReturn(line + "\r") == line
    ensures DropCarriageReturn(line) == line <==> !EndsWithReturn(line)
  {
    assert (line + "\r")[..|line|] == line;
  }

  lemma LinesKeptFrom(front: seq<Unit>, end: Unit, rest: seq<Unit>)
    requires Reading(end) == '\n' && Split !in front
    ensures LinesKept(front + [end] + rest) <==>
      LinesKept(rest) && (end.Split? ==> !EndsWithReturn(Whole(front)))
  {
    var m, k := front + [end] + rest, |front|;
    assert forall i :: 0 <= i < k ==> m[i] == front[i] && m[i] in front;
    assert m[k] == end && forall i :: 0 <= i < |rest| ==> m[k + 1 + i] == rest[i];
    assert k > 0 ==> (EndsWithReturn(Whole(front)) <==> m[k - 1] == Plain('\r'));
    if LinesKept(rest) && (end.Split? ==> !EndsWithReturn(Whole(front))) {
      forall i | 0 < i < |m| && m[i].Split? ensures m[i - 1] != Plain('\r') {
        if k + 1 < i {
          assert rest[i - k - 1].Split? && rest[i - k - 2] == m[i - 1];
        }
      }
    }
    if LinesKept(m) {
      forall i | 0 < i < |rest| && rest[i].Split? ensures rest[i - 1] != Plain('\r') {
        assert m[k + 1 + i].Split?;
      }
    }
  }

  /** The text behind the last line feed. */
  function Tail(s: string): string
    decreases |s|
  {
    var k := IndexOf(s, '\n');
    if k < 0 then s else Tail(s[k + 1..])
  }

  lemma {:induction false} TailBehind(line: string, rest: string)
    requires '\n' !in line
    ensures Tail(line + "\n" + rest) == Tail(rest)
  {
    var text := line + "\n" + rest;
    assert text[..|line|] == line && text[|line| + 1..] == rest;
    IndexOfUnique(text, '\n', |line|);
  }

  /** A text with a line feed, by its first line. */
  lemma ByFirstLine(s: string) returns (line: string, rest: string)
    requires '\n' in s
    ensures s == line + "\n" + rest && '\n' !in line
    ensures SplitLines(s) == [DropCarriageReturn(line)] + SplitLines(rest) && Tail(s) == Tail(rest)
  {
    var k := IndexOf(s, '\n');
    line, rest := s[..k], s[k + 1..];
  }

  lemma {:induction false} NoLineFeed(s: string)
    requires '\n' !in s
    ensures SplitLines(s) == [s] && Tail(s) == s
  {
  }

  lemma {:induction false} LastLine(s: string)
    ensures SplitLines(s)[|SplitLines(s)| - 1] == Tail(s)
    decreases |s|
  {
    if '\n' in s {
      var line, rest := ByFirstLine(s);
      LastLine(rest);
    } else {
      NoLineFeed(s);
    }
  }

  /** A carriage return behind the text stays on its last line. */
  lemma {:induction false} TailReads(m: seq<Unit>)
    ensures Tail(Cut(m) + "\r") == Tail(Whole(m)) + "\r"
    decreases |m|
  {
    if '\n' in Whole(m) {
      var front, end, rest := FirstLine(m);
      var kept := Whole(front) + if end.Split? then "\r" else "";
      TailReads(rest);
      FirstLineReads(front, end, rest);
      TailBehind(Whole(front), Whole(rest));
      TailBehind(kept, Cut(rest) + "\r");
      assert kept + "\n" + Cut(rest) + "\r" == kept + "\n" + (Cut(rest) + "\r");
    } else {
      NoLineEnd(m);
      assert '\n' !in Whole(m) + "\r";
    }
  }

  lemma {:induction false} ReturnShows(m: seq<Unit>)
    ensures SplitLines(Cut(m) + "\r") != SplitLines(Whole(m))
  {
    LastLine(Cut(m) + "\r");
    LastLine(Whole(m));
    TailReads(m);
    assert |Tail(Whole(m)) + "\r"| > |Tail(Whole(m))|;
  }

  // ----- Numbers of lines -----------------------------------------------------

  function LineFeeds(s: string): nat {
    multiset(s)['\n']
  }

  lemma LineFeedsConcat(a: string, b: string)
    ensures LineFeeds(a + b) == LineFeeds(a) + LineFeeds(b)
  {
  }

  lemma {:induction false} LineCount(s: string)
    ensures |SplitLines(s)| == LineFeeds(s) + 1
    decreases |s|
  {
    var k := IndexOf(s, '\n');
    if 0 <= k {
      var line, rest := s[..k], s[k + 1..];
      assert s == line + "\n" + rest;
      LineFeedsConcat(line + "\n", rest);
      LineFeedsConcat(line, "\n");
      assert LineFeeds("\n") == 1 && LineFeeds(line) == 0;
      LineCount(rest);
    } else {
      assert LineFeeds(s) == 0;
    }
  }

  lemma OneUnitFeeds(u: Unit)
    ensures LineFeeds(if u.Split? then "\r\n" else [u.c]) == LineFeeds([Reading(u)])
  {
    assert LineFeeds("\r\n") == 1 && LineFeeds("\n") == 1;
  }

  lemma WholeCons(m: seq<Unit>)
    requires m != []
    ensures Whole(m) == [Reading(m[0])] + Whole(m[1..])
  {
    assert m == [m[0]] + m[1..];
    WholeConcat([m[0]], m[1..]);
    assert Whole([m[0]]) == [Reading(m[0])];
  }

  lemma {:induction false} SameLineFeeds(m: seq<Unit>)
    ensures LineFeeds(Cut(m)) == LineFeeds(Whole(m))
  {
    if m != [] {
      SameLineFeeds(m[1..]);
      WholeCons(m);
      OneUnitFeeds(m[0]);
      LineFeedsConcat([Reading(m[0])], Whole(m[1..]));
      LineFeedsConcat(if m[0].Split? then "\r\n" else [m[0].c], Cut(m[1..]));
    }
  }

  // ----- Frames of marked text ------------------------------------------------

  lemma {:induction false} NoBlankCons(c: char, s: string)
    ensures BlankLine([c] + s) < 0 <==> BlankLine(s) < 0 && !(c == '\n' && s != "" && s[0] == '\n')
  {
    assert ([c] + s)[1..] == s;
  }

  /** A cut ends no frame that was not ended before. */
  lemma {:induction false} NoBlankCut(m: seq<Unit>)
    requires BlankLine(Whole(m)) < 0
    ensures BlankLine(Cut(m)) < 0
  {
    if m != [] {
      var u, rest := m[0], m[1..];
      assert Whole(m) == [Reading(u)] + Whole(rest);
      NoBlankCons(Reading(u), Whole(rest));
      NoBlankCut(rest);
      assert Cut(rest) != "" && Cut(rest)[0] == '\n' ==> Whole(rest)[0] == '\n';
      if u.Split? {
        NoBlankCons('\n', Cut(rest));
        NoBlankCons('\r', "\n" + Cut(rest));
        assert "\r" + ("\n" + Cut(rest)) == "\r\n" + Cut(rest);
      } else {
        NoBlankCons(u.c, Cut(rest));
      }
    }
  }

  /** The first frame of a text, and the text behind its blank line. */
  lemma {:induction false} FrameEnds(raw: string, rest: string)
    requires BlankLine(raw + "\n") < 0
    ensures BlankLine(raw + "\n\n" + rest) == |raw|
    ensures FrameTexts(raw + "\n\n" + rest) == [raw] + FrameTexts(rest)
    ensures FrameLines(raw + "\n\n" + rest) == [SplitLines(raw)] + FrameLines(rest)
  {
    var text := raw + "\n\n" + rest;
    assert forall j :: 0 <= j <= |raw| ==> text[j] == (raw + "\n")[j];
    assert forall j :: 0 <= j < |raw| ==> BlankAt(text, j) == BlankAt(raw + "\n", j);
    assert BlankAt(text, |raw|);
    assert text[..|raw|] == raw && text[|raw| + 2..] == rest;
    assert ([raw] + FrameTexts(rest))[1..] == FrameTexts(rest);
  }

  lemma {:induction false} NoFrameEnds(text: string)
    requires BlankLine(text) < 0
    ensures FrameLines(text) == if JsBlank(text) then [] else [SplitLines(text)]
  {
    assert [text][1..] == [] && LinesOf([text]) == [SplitLines(text)] + LinesOf([]);
  }

  /** The first frame of marked text, the two line ends behind it, and the rest. */
  lemma FirstFrameEnd(m: seq<Unit>) returns (front: seq<Unit>, x: Unit, y: Unit, rest: seq<Unit>)
    requires 0 <= BlankLine(Whole(m))
    ensures m == front + [x] + [y] + rest && |front| == BlankLine(Whole(m))
    ensures Reading(x) == '\n' && Reading(y) == '\n'
    ensures BlankLine(Whole(front) + "\n") < 0 && BlankLine(Whole(front + [x])) < 0
    ensures Whole(m) == Whole(front) + "\n\n" + Whole(rest)
  {
    var k := BlankLine(Whole(m));
    front, x, y, rest := m[..k], m[k], m[k + 1], m[k + 2..];
    assert Whole(m)[k] == Reading(x) && Whole(m)[k + 1] == Reading(y);
    var short := Whole(front + [x]);
    assert short == Whole(front) + "\n";
    assert forall j :: 0 <= j <= k ==> short[j] == Whole(m)[j];
    assert forall j :: BlankAt(short, j) ==> BlankAt(Whole(m), j);
    assert Whole(front + [x] + [y] + rest) == Whole(front) + ['\n'] + ['\n'] + Whole(rest);
  }

  /**
    No frame is changed by the marked cuts: neither line feed of a blank line that
    ends a frame is one that was cut, and in a frame none that was cut follows
    another carriage return. White space after the last frame does not matter.
   */
  predicate Harmless(m: seq<Unit>)
    decreases |m|
  {
    var k := BlankLine(Whole(m));
    if 0 <= k then
      LinesKept(m[..k]) && !m[k].Split? && !m[k + 1].Split? && Harmless(m[k + 2..])
    else JsBlank(Whole(m)) || LinesKept(m)
  }

  lemma {:induction false} BlankReads(m: seq<Unit>)
    ensures JsBlank(Cut(m)) <==> JsBlank(Whole(m))
  {
    if m != [] {
      BlankReads(m[1..]);
      assert Whole(m) == [Reading(m[0])] + Whole(m[1..]);
      assert IsJsSpace('\r') && IsJsSpace('\n');
      BlankConcat([Reading(m[0])], Whole(m[1..]));
      BlankConcat(if m[0].Split? then "\r\n" else [m[0].c], Cut(m[1..]));
      assert forall c :: c in "\r\n" ==> c == '\r' || c == '\n';
      assert forall c, d: char :: c in [d] <==> c == d;
    }
  }

  lemma BlankConcat(a: string, b: string)
    ensures JsBlank(a + b) <==> JsBlank(a) && JsBlank(b)
  {
    assert forall c :: c in a + b <==> c in a || c in b;
  }

  lemma {:induction false} CutFrame(front: seq<Unit>, x: Unit, y: Unit, rest: seq<Unit>)
    requires Reading(x) == '\n' && Reading(y) == '\n'
    ensures Cut(front + [x] + [y] + rest) ==
            Cut(front + [x]) + (if y.Split? then "\r" else "") + "\n" + Cut(rest)
    ensures Cut(front + [x]) == Cut(front) + (if x.Split? then "\r" else "") + "\n"
  {
    CutConcat(front + [x] + [y], rest);
    CutSnoc(front + [x], y);
    CutSnoc(front, x);
  }

  lemma {:induction false} CutSnoc(m: seq<Unit>, x: Unit)
    requires Reading(x) == '\n'
    ensures Cut(m + [x]) == Cut(m) + (if x.Split? then "\r" else "") + "\n"
  {
    CutConcat(m, [x]);
    CutEnd(x);
    assert Cut(m) + ((if x.Split? then "\r" else "") + "\n") == Cut(m) + (if x.Split? then "\r" else "") + "\n";
  }

  lemma CutEnd(x: Unit)
    requires Reading(x) == '\n'
    ensures Cut([x]) == (if x.Split? then "\r" else "") + "\n"
  {
    assert [x][1..] == [];
  }

  /** A blank line whose own line ends are whole ends the frame in both readings. */
  lemma {:induction false} WholeBlankLine(front: seq<Unit>, rest: seq<Unit>)
    requires BlankLine(Whole(front + [Plain('\n')])) < 0
    ensures
      var m := front + [Plain('\n')] + [Plain('\n')] + rest;
      FrameLines(Cut(m)) == [SplitLines(Cut(front))] + FrameLines(Cut(rest))
  {
    var x := Plain('\n');
    CutFrame(front, x, x, rest);
    NoBlankCut(front + [x]);
    assert Cut(front) + "" + "\n" + "" + "\n" + Cut(rest) == Cut(front) + "\n\n" + Cut(rest);
    assert Cut(front) + "" == Cut(front);
    FrameEnds(Cut(front), Cut(rest));
  }

  /** When the first of its line ends was cut, the frame keeps a carriage return that was not in it. */
  lemma FirstEndCut(front: seq<Unit>, rest: seq<Unit>, later: seq<seq<string>>)
    requires BlankLine(Whole(front + [Split])) < 0
    ensures
      var m := front + [Split] + [Plain('\n')] + rest;
      FrameLines(Cut(m)) != [SplitLines(Whole(front))] + later
  {
    CutFrame(front, Split, Plain('\n'), rest);
    NoBlankCut(front + [Split]);
    var raw := Cut(front) + "\r";
    assert raw + "\n" + "" + "\n" + Cut(rest) == raw + "\n\n" + Cut(rest);
    FrameEnds(raw, Cut(rest));
    ReturnShows(front);
    SameSplit(SplitLines(raw), SplitLines(Whole(front)), FrameLines(Cut(rest)), later);
  }

  /** When the second was cut, the frame does not end there. */
  lemma {:induction false} SecondEndCut(front: seq<Unit>, x: Unit, rest: seq<Unit>, later: seq<seq<string>>)
    requires Reading(x) == '\n' && BlankLine(Whole(front + [x])) < 0
    ensures FrameLines(Cut(front + [x] + [Split] + rest)) != [SplitLines(Whole(front))] + later
  {
    var head, behind := Cut(front + [x]), "\r\n" + Cut(rest);
    CutFrame(front, x, Split, rest);
    NoBlankCut(front + [x]);
    assert head + "\r" + "\n" + Cut(rest) == head + behind;
    LongerFrame(head, behind);
    var raws := FrameTexts(head + behind);
    if raws != [] {
      OneLineFeedMore(front, x);
      MoreLines(head, raws[0], Whole(front));
      SameSplit(SplitLines(raws[0]), SplitLines(Whole(front)), LinesOf(raws[1..]), later);
    }
  }

  lemma {:induction false} OneLineFeedMore(front: seq<Unit>, x: Unit)
    requires Reading(x) == '\n'
    ensures LineFeeds(Cut(front + [x])) == LineFeeds(Whole(front)) + 1
  {
    SameLineFeeds(front + [x]);
    assert Whole(front + [x]) == Whole(front) + "\n" && LineFeeds("\n") == 1;
    LineFeedsConcat(Whole(front), "\n");
  }

  lemma {:induction false} MoreLines(head: string, raw: string, frame: string)
    requires head <= raw && LineFeeds(head) > LineFeeds(frame)
    ensures |SplitLines(raw)| > |SplitLines(frame)|
  {
    LineCount(raw);
    LineCount(frame);
    LineFeedsConcat(head, raw[|head|..]);
    assert raw == head + raw[|head|..];
  }

  /** A text without a blank line, followed by a carriage return, lies within one frame. */
  lemma {:induction false} LongerFrame(head: string, behind: string)
    requires BlankLine(head) < 0 && head != "" && behind != "" && behind[0] == '\r'
    ensures FrameTexts(head + behind) == [] || head <= FrameTexts(head + behind)[0]
  {
    var text := head + behind;
    assert forall j :: 0 <= j < |head| - 1 ==> BlankAt(text, j) == BlankAt(head, j);
    assert text[|head|] == '\r';
  }

  /** The frames have the same lines in both readings exactly when every cut is harmless. */
  lemma {:induction false} FramesExactly(m: seq<Unit>)
    ensures FrameLines(Cut(m)) == FrameLines(Whole(m)) <==> Harmless(m)
    decreases |m|
  {
    if 0 <= BlankLine(Whole(m)) {
      var front, x, y, rest := FirstFrameEnd(m);
      var k := |front|;
      assert m[..k] == front && m[k] == x && m[k + 1] == y && m[k + 2..] == rest;
      FrameEnds(Whole(front), Whole(rest));
      if y.Split? {
        SecondEndCut(front, x, rest, FrameLines(Whole(rest)));
      } else if x.Split? {
        FirstEndCut(front, rest, FrameLines(Whole(rest)));
      } else {
        WholeBlankLine(front, rest);
        LinesExactly(front);
        FramesExactly(rest);
        SameSplit(SplitLines(Cut(front)), SplitLines(Whole(front)), FrameLines(Cut(rest)), FrameLines(Whole(rest)));
      }
    } else {
      NoBlankCut(m);
      NoFrameEnds(Whole(m));
      NoFrameEnds(Cut(m));
      BlankReads(m);
      LinesExactly(m);
      SameSplit(SplitLines(Cut(m)), SplitLines(Whole(m)), [], []);
    }
  }

  // ----- Chunk independence ---------------------------------------------------

  /** None of the cuts between the chunks changes a frame. */
  predicate HarmlessCuts(chunks: seq<string>) {
    Harmless(Marked(chunks))
  }

  /**
    Reading a text in chunks and reading it whole give frames of the same lines
    exactly when the cuts are harmless.
   */
  lemma {:induction false} CutsChangeFramesExactly(chunks: seq<string>)
    ensures FrameLines(NormalizedChunks(chunks)) == FrameLines(Normalized(Flatten(chunks))) <==> HarmlessCuts(chunks)
  {
    MarkedReads(chunks);
    FramesExactly(Marked(chunks));
  }

  /** Two ways of cutting the same text harmlessly give the same events and the same ending. */
  lemma {:induction false} ChunkIndependence(p: Platform, chunks: seq<string>, others: seq<string>)
    requires Flatten(chunks) == Flatten(others)
    requires HarmlessCuts(chunks) && HarmlessCuts(others)
    ensures StreamOutcome(p, chunks) == StreamOutcome(p, others)
    ensures StreamOutcome(p, chunks) == Meaning(p, Normalized(Flatten(chunks)))
  {
    CutsChangeFramesExactly(chunks);
    CutsChangeFramesExactly(others);
    SameLinesSameMeaning(p, NormalizedChunks(chunks), Normalized(Flatten(chunks)));
    SameLinesSameMeaning(p, NormalizedChunks(others), Normalized(Flatten(others)));
  }

  /** Cuts that split no CR LF at all are harmless. */
  lemma {:induction false} SafeIsHarmless(chunks: seq<string>)
    requires SafeCuts(chunks)
    ensures HarmlessCuts(chunks)
  {
    CutsMatterExactly(chunks);
    CutsChangeFramesExactly(chunks);
  }

  /** A cut inside the CR LF of an ordinary line end is harmless. */
  lemma LineEndCutIsHarmless(a: string, b: string)
    requires '\r' !in a && '\n' !in a && '\r' !in b && '\n' !in b
    ensures HarmlessCuts([a + "\r", "\n" + b])
    ensures !SafeCuts([a + "\r", "\n" + b])
  {
    TwoChunks(a, b);
    var m := Units(a) + [Split] + Units(b);
    var text := Whole(m);
    assert text == a + "\n" + b;
    forall j ensures !BlankAt(text, j) {
      assert 0 <= j < |a| ==> text[j] == a[j] && a[j] in a;
      assert |a| < j < |text| ==> text[j] == b[j - |a| - 1] && b[j - |a| - 1] in b;
      assert j == |a| && j + 1 < |text| ==> text[j + 1] == b[0] && b[0] in b;
    }
    assert |a| > 0 ==> m[|a| - 1] == Plain(a[|a| - 1]) && a[|a| - 1] in a;
    assert LinesKept(m);
  }

  lemma TwoChunks(a: string, b: string)
    requires '\r' !in a && '\r' !in b
    ensures Marked([a + "\r", "\n" + b]) == Units(a) + [Split] + Units(b)
    ensures SplitsLineEnd(a + "\r", Flatten(["\n" + b]))
  {
    var x, y := a + "\r", "\n" + b;
    assert [x, y][1..] == [y] && [y][1..] == [];
    assert Flatten([y]) == y + [];
    NormalizedWithoutReturn(a);
    NormalizedWithoutReturn(y);
    NormalizedPlain('\r', "");
    assert ['\r'] + "" == "\r";
    NormalizedConcat(a, "\r");
    assert Normalized(x) == x && x[..|x| - 1] == a;
    assert Marked([y]) == Units(y) + [];
    assert Units(y)[1..] == Units(b);
  }
}
