/** What the dialogue loop yields, said by the positions of the turns alone. */
module ConversionLaws {
  import opened Prelude
  import opened Text
  import opened Json
  import opened Conversion

  // ----- First occurrences ----------------------------------------------------

  /** Position of the first `x` in `s`. */
  function FirstIndex(s: seq<string>, x: string): (k: nat)
    requires x in s
    ensures k < |s| && s[k] == x && x !in s[..k]
  {
    if s[0] == x then 0
    else
      assert s == [s[0]] + s[1..];
      var k := FirstIndex(s[1..], x);
      assert s[..k + 1] == [s[0]] + s[1..][..k];
      k + 1
  }

  lemma {:induction false} FirstIndexExtends(s: seq<string>, t: seq<string>, x: string)
    requires x in s
    ensures x in s + t && FirstIndex(s + t, x) == FirstIndex(s, x)
  {
    var k, l := FirstIndex(s, x), FirstIndex(s + t, x);
    assert (s + t)[k] == x;
    assert forall j :: 0 <= j < k ==> (s + t)[..k + 1][j] == s[..k][j];
    assert forall j :: 0 <= j < l ==> (s + t)[..l][j] == (s + t)[j];
    assert l <= k;
    assert forall j :: 0 <= j < k ==> s[j] == s[..k][j];
  }

  /** The dedup keeps each element once, in the order of first occurrence. */
  lemma {:induction false} FirstOccurrencesOrdered(s: seq<string>)
    ensures Distinct(FirstOccurrences(s))
    ensures forall i, j :: 0 <= i < j < |FirstOccurrences(s)| ==>
      FirstIndex(s, FirstOccurrences(s)[i]) < FirstIndex(s, FirstOccurrences(s)[j])
  {
    if s != [] {
      var init, last := s[..|s| - 1], s[|s| - 1];
      assert s == init + [last];
      FirstOccurrencesOrdered(init);
      var kept := FirstOccurrences(init);
      forall i | 0 <= i < |kept| ensures kept[i] in s && FirstIndex(s, kept[i]) == FirstIndex(init, kept[i]) {
        assert kept[i] in kept;
        FirstIndexExtends(init, [last], kept[i]);
      }
      if last !in init {
        FirstIndexOfNew(init, last);
        assert forall i :: 0 <= i < |kept| ==> kept[i] in kept;
      }
    }
  }

  lemma {:induction false} FirstIndexOfNew(init: seq<string>, last: string)
    requires last !in init
    ensures last in init + [last] && FirstIndex(init + [last], last) == |init|
  {
    var s := init + [last];
    assert s[|init|] == last;
    var k := FirstIndex(s, last);
    assert forall j :: 0 <= j < |init| ==> init[j] in init && s[j] == init[j];
    assert forall j :: 0 <= j < k ==> s[..k][j] == s[j];
  }

  lemma {:induction false} ReferencesAreKnown(raws: seq<Json>, known: set<string>)
    requires ReadReferences(raws, known).Ok?
    ensures |ReadReferences(raws, known).value| == |raws|
    ensures forall c :: c in ReadReferences(raws, known).value ==> c.documentId in known
  {
    if raws != [] {
      ReferencesAreKnown(raws[1..], known);
    }
  }

  // ----- One dialogue ---------------------------------------------------------

  /** The turn at a position; a blank one where the payload is malformed. */
  function TurnAt(turns: seq<Json>, j: nat): Turn
    requires j < |turns|
  {
    var turn := ReadTurn(turns[j]);
    if turn.Ok? then turn.value else Turn("", "", 0, None)
  }

  /** An agent turn that directly follows a user turn. */
  predicate AnswersAt(turns: seq<Json>, j: nat)
    requires j < |turns|
  {
    j > 0 && TurnAt(turns, j).role == "agent" && TurnAt(turns, j - 1).role == "user"
  }

  function RawReferences(turn: Turn): seq<Json> {
    if turn.references.Some? && turn.references.value.Array? then turn.references.value.items else []
  }

  /** The turn at a position is readable, has a known role and, if it answers, readable known references. */
  predicate TurnFine(turns: seq<Json>, known: set<string>, j: nat)
    requires j < |turns|
  {
    var turn := TurnAt(turns, j);
    && ReadTurn(turns[j]).Ok? && (turn.role == "user" || turn.role == "agent")
    && (AnswersAt(turns, j) ==>
          turn.references.Some? && turn.references.value.Array? && ReadReferences(RawReferences(turn), known).Ok?)
  }

  function HistoryBefore(turns: seq<Json>, j: nat): seq<string>
    requires j <= |turns|
  {
    seq(j, k requires 0 <= k < j => TurnAt(turns, k).Rendered())
  }

  function CitedAt(turns: seq<Json>, known: set<string>, j: nat): seq<Cited>
    requires j < |turns|
  {
    var cited := ReadReferences(RawReferences(TurnAt(turns, j)), known);
    if cited.Ok? then cited.value else []
  }

  /** The case of the turn at `j`: the user turn before it, all turns before it, and its references. */
  function CaseAt(domain: string, dialogueId: string, known: set<string>, turns: seq<Json>, j: nat): Case
    requires 0 < j < |turns|
  {
    var turn, cited := TurnAt(turns, j), CitedAt(turns, known, j);
    Case(dialogueId + ":" + Decimal(turn.turnId), domain, dialogueId, turn.turnId,
         TurnAt(turns, j - 1).utterance, HistoryBefore(turns, j), turn.utterance,
         FirstOccurrences(CitedDocuments(cited)), CitedSpans(cited))
  }

  /** One case per answering turn with references, among the first `n` turns, in order. */
  function CasesUpTo(domain: string, dialogueId: string, known: set<string>, turns: seq<Json>, n: nat): seq<Case>
    requires n <= |turns|
  {
    if n == 0 then []
    else
      CasesUpTo(domain, dialogueId, known, turns, n - 1) +
      if YieldsCase(turns, n - 1) then [CaseAt(domain, dialogueId, known, turns, n - 1)] else []
  }

  function StateAt(domain: string, dialogueId: string, known: set<string>, turns: seq<Json>, j: nat): DialogueState
    requires j <= |turns|
  {
    DialogueState(HistoryBefore(turns, j),
                  if j > 0 && TurnAt(turns, j - 1).role == "user" then Some(TurnAt(turns, j - 1).utterance) else None,
                  CasesUpTo(domain, dialogueId, known, turns, j))
  }

  /** What an answering turn makes of its references. */
  lemma {:induction false} AnswerMeaning(domain: string, dialogueId: string, known: set<string>, turns: seq<Json>,
      j: nat)
    requires 0 < j < |turns| && AnswersAt(turns, j)
    ensures
      var turn, question := TurnAt(turns, j), TurnAt(turns, j - 1).utterance;
      var made := MakeCase(domain, dialogueId, question, HistoryBefore(turns, j), turn, known);
      if turn.references.Some? && turn.references.value.Array? && ReadReferences(RawReferences(turn), known).Ok? then
        made == Ok(if YieldsCase(turns, j) then [CaseAt(domain, dialogueId, known, turns, j)] else [])
      else made.Err?
  {
    var turn := TurnAt(turns, j);
    if ReadReferences(RawReferences(turn), known).Ok? {
      ReferencesAreKnown(RawReferences(turn), known);
    }
  }

  lemma StepMeaning(domain: string, dialogueId: string, known: set<string>, turns: seq<Json>, j: nat)
    requires j < |turns|
    ensures
      var step := StepTurn(domain, dialogueId, known, StateAt(domain, dialogueId, known, turns, j), turns[j]);
      if TurnFine(turns, known, j) then step == Ok(StateAt(domain, dialogueId, known, turns, j + 1)) else step.Err?
  {
    var state, turn := StateAt(domain, dialogueId, known, turns, j), TurnAt(turns, j);
    assert HistoryBefore(turns, j + 1) == HistoryBefore(turns, j) + [turn.Rendered()];
    assert state.cases + [] == state.cases;
    if AnswersAt(turns, j) {
      AnswerMeaning(domain, dialogueId, known, turns, j);
    }
  }

  /** The step takes turn `j` to the next state when the turn is fine, and stops there otherwise. */
  predicate StepAs(step: Stepper, domain: string, dialogueId: string, known: set<string>, turns: seq<Json>, j: nat)
    requires j < |turns|
  {
    var next := step(StateAt(domain, dialogueId, known, turns, j), turns[j]);
    if TurnFine(turns, known, j) then next == Ok(StateAt(domain, dialogueId, known, turns, j + 1)) else next.Err?
  }

  predicate FineFrom(turns: seq<Json>, known: set<string>, i: nat)
    requires i <= |turns|
    decreases |turns| - i
  {
    i == |turns| || (TurnFine(turns, known, i) && FineFrom(turns, known, i + 1))
  }

  lemma {:induction false} AllFine(turns: seq<Json>, known: set<string>, i: nat)
    requires i <= |turns|
    ensures FineFrom(turns, known, i) <==> forall j :: i <= j < |turns| ==> TurnFine(turns, known, j)
    decreases |turns| - i
  {
    if i < |turns| {
      AllFine(turns, known, i + 1);
    }
  }

  lemma {:induction false} StepsMeaning(step: Stepper, domain: string, dialogueId: string, known: set<string>,
      turns: seq<Json>, i: nat)
    requires i <= |turns|
    requires forall j :: 0 <= j < |turns| ==> StepAs(step, domain, dialogueId, known, turns, j)
    ensures
      var end := StepTurns(step, StateAt(domain, dialogueId, known, turns, i), turns[i..]);
      && (end.Ok? <==> FineFrom(turns, known, i))
      && (end.Ok? ==> end.value == StateAt(domain, dialogueId, known, turns, |turns|))
    decreases |turns| - i
  {
    if i < |turns| {
      assert StepAs(step, domain, dialogueId, known, turns, i);
      StepTurnsAt(step, StateAt(domain, dialogueId, known, turns, i), turns, i);
      if TurnFine(turns, known, i) {
        StepsMeaning(step, domain, dialogueId, known, turns, i + 1);
      }
    }
  }

  /**
    A dialogue converts exactly when all its turns are fine, and then yields, in
    order, one case per answering turn with references.
   */
  lemma {:induction false} DialogueMeaning(domain: string, members: seq<Member>, known: set<string>)
    requires AsText(Get(members, "dial_id"), "dial_id").Ok? && AsSequence(Get(members, "turns"), "turns").Ok?
    ensures
      var dialogueId, turns := Get(members, "dial_id").value.s, Get(members, "turns").value.items;
      var cases := DialogueCases(domain, Object(members), known);
      && (cases.Ok? <==> forall j :: 0 <= j < |turns| ==> TurnFine(turns, known, j))
      && (cases.Ok? ==> cases.value == CasesUpTo(domain, dialogueId, known, turns, |turns|))
  {
    var dialogueId, turns := Get(members, "dial_id").value.s, Get(members, "turns").value.items;
    forall j | 0 <= j < |turns|
      ensures StepAs(TurnStepper(domain, dialogueId, known), domain, dialogueId, known, turns, j)
    {
      StepMeaning(domain, dialogueId, known, turns, j);
    }
    StepsMeaning(TurnStepper(domain, dialogueId, known), domain, dialogueId, known, turns, 0);
    AllFine(turns, known, 0);
    assert turns[0..] == turns && HistoryBefore(turns, 0) == [];
  }

  /** A turn that makes a case: it answers, and names at least one reference. */
  predicate YieldsCase(turns: seq<Json>, j: nat)
    requires j < |turns|
  {
    AnswersAt(turns, j) && RawReferences(TurnAt(turns, j)) != []
  }

  /** `c` is the case of a turn among the first `n`. */
  ghost predicate CaseAmong(domain: string, dialogueId: string, known: set<string>, turns: seq<Json>, n: nat, c: Case)
    requires n <= |turns|
  {
    exists j :: 0 < j < n && YieldsCase(turns, j) && c == CaseAt(domain, dialogueId, known, turns, j)
  }

  lemma CaseAmongStep(domain: string, dialogueId: string, known: set<string>, turns: seq<Json>, n: nat, c: Case)
    requires 0 < n <= |turns|
    ensures CaseAmong(domain, dialogueId, known, turns, n, c) <==>
      || CaseAmong(domain, dialogueId, known, turns, n - 1, c)
      || (YieldsCase(turns, n - 1) && c == CaseAt(domain, dialogueId, known, turns, n - 1))
  {
  }

  lemma CaseListedStep(domain: string, dialogueId: string, known: set<string>, turns: seq<Json>, n: nat, c: Case)
    requires 0 < n <= |turns|
    ensures c in CasesUpTo(domain, dialogueId, known, turns, n) <==>
      || c in CasesUpTo(domain, dialogueId, known, turns, n - 1)
      || (YieldsCase(turns, n - 1) && c == CaseAt(domain, dialogueId, known, turns, n - 1))
  {
    if YieldsCase(turns, n - 1) {
      MemberOfSnoc(CasesUpTo(domain, dialogueId, known, turns, n - 1),
                   CaseAt(domain, dialogueId, known, turns, n - 1), c);
    }
  }

  /** Every listed case is the case of an answering turn, and every such turn has its case. */
  lemma {:induction false} CasesAreAnswers(domain: string, dialogueId: string, known: set<string>, turns: seq<Json>,
                                           n: nat, c: Case)
    requires n <= |turns|
    ensures c in CasesUpTo(domain, dialogueId, known, turns, n) <==> CaseAmong(domain, dialogueId, known, turns, n, c)
  {
    if n > 0 {
      CasesAreAnswers(domain, dialogueId, known, turns, n - 1, c);
      CaseAmongStep(domain, dialogueId, known, turns, n, c);
      CaseListedStep(domain, dialogueId, known, turns, n, c);
    }
  }

  lemma MemberOfSnoc(cases: seq<Case>, last: Case, c: Case)
    ensures c in cases + [last] <==> c in cases || c == last
  {
  }

  lemma CitedIsKnown(cited: seq<Cited>, known: set<string>)
    requires forall c :: c in cited ==> c.documentId in known
    ensures forall d :: d in CitedDocuments(cited) ==> d in known
  {
    forall d | d in CitedDocuments(cited) ensures d in known {
      var i :| 0 <= i < |cited| && CitedDocuments(cited)[i] == d;
      assert cited[i] in cited;
    }
  }

  lemma LastOfHistory(turns: seq<Json>, j: nat)
    requires 0 < j < |turns| && AnswersAt(turns, j)
    ensures |HistoryBefore(turns, j)| == j
    ensures HistoryBefore(turns, j)[j - 1] == "user: " + TurnAt(turns, j - 1).utterance
  {
    var question := TurnAt(turns, j - 1).utterance;
    assert "user" + ": " + question == "user: " + question;
  }

  /** The history of a case ends with its own question, and all its documents are known. */
  lemma CaseShape(domain: string, dialogueId: string, known: set<string>, turns: seq<Json>, j: nat)
    requires 0 < j < |turns| && AnswersAt(turns, j) && TurnFine(turns, known, j)
    ensures
      var c := CaseAt(domain, dialogueId, known, turns, j);
      && |c.history| == j && c.history[j - 1] == "user: " + c.question
      && |c.spanIds| == |RawReferences(TurnAt(turns, j))|
      && Distinct(c.documentIds)
      && forall d :: d in c.documentIds ==> d in known
  {
    ReferencesAreKnown(RawReferences(TurnAt(turns, j)), known);
    var cited := CitedAt(turns, known, j);
    FirstOccurrencesOrdered(CitedDocuments(cited));
    CitedIsKnown(cited, known);
    LastOfHistory(turns, j);
  }

  // ----- Whole payloads -------------------------------------------------------

  lemma {:induction false} DialogueCasesKnown(domain: string, raw: Json, known: set<string>)
    requires DialogueCases(domain, raw, known).Ok?
    ensures forall c :: c in DialogueCases(domain, raw, known).value ==>
      c.documentIds != [] && forall d :: d in c.documentIds ==> d in known
  {
    var members := raw.members;
    DialogueMeaning(domain, members, known);
    var dialogueId, turns := Get(members, "dial_id").value.s, Get(members, "turns").value.items;
    forall c | c in DialogueCases(domain, raw, known).value
      ensures c.documentIds != [] && forall d :: d in c.documentIds ==> d in known
    {
      CasesAreAnswers(domain, dialogueId, known, turns, |turns|, c);
      var j :| 0 < j < |turns| && YieldsCase(turns, j) && c == CaseAt(domain, dialogueId, known, turns, j);
      CaseShape(domain, dialogueId, known, turns, j);
      ReferencesAreKnown(RawReferences(TurnAt(turns, j)), known);
      CitedNothing(CitedAt(turns, known, j));
    }
  }

  lemma {:induction false} DomainCasesKnown(domain: string, dialogues: seq<Json>, known: set<string>)
    requires DomainCases(domain, dialogues, known).Ok?
    ensures forall c :: c in DomainCases(domain, dialogues, known).value ==>
      c.documentIds != [] && forall d :: d in c.documentIds ==> d in known
  {
    if dialogues != [] {
      DialogueCasesKnown(domain, dialogues[0], known);
      DomainCasesKnown(domain, dialogues[1..], known);
    }
  }

  lemma {:induction false} AllCasesKnown(domains: seq<Member>, known: set<string>)
    requires AllCases(domains, known).Ok?
    ensures forall c :: c in AllCases(domains, known).value ==>
      c.documentIds != [] && forall d :: d in c.documentIds ==> d in known
  {
    if domains != [] {
      DomainCasesKnown(domains[0].key, domains[0].value.items, known);
      AllCasesKnown(domains[1..], known);
    }
  }

  lemma {:induction false} CardinalityDistinct<T>(s: seq<T>)
    requires |Elements(s)| == |s|
    ensures Distinct(s)
  {
    if s != [] {
      var init, last := s[..|s| - 1], s[|s| - 1];
      assert s == init + [last] && Elements(s) == Elements(init) + {last};
      ElementsBound(init);
      assert last in init ==> Elements(s) == Elements(init);
      CardinalityDistinct(init);
    }
  }

  lemma {:induction false} ElementsBound<T>(s: seq<T>)
    ensures |Elements(s)| <= |s|
  {
    if s != [] {
      var init, last := s[..|s| - 1], s[|s| - 1];
      assert s == init + [last] && Elements(s) == Elements(init) + {last};
      ElementsBound(init);
    }
  }

  /** What every later stage may rely on in a converted dataset. */
  ghost predicate WellFormed(dataset: Dataset) {
    && Distinct(CaseIds(dataset.cases)) && Distinct(DocumentIds(dataset.documents))
    && (forall c :: c in dataset.cases ==>
          c.documentIds != [] && forall d :: d in c.documentIds ==> d in DocumentIds(dataset.documents))
  }

  lemma ConvertedIsWellFormed(documentsPayload: seq<Member>, dialoguesPayload: seq<Member>, revision: string,
      sha256: string)
    requires Convert(documentsPayload, dialoguesPayload, revision, sha256).Ok?
    ensures WellFormed(Convert(documentsPayload, dialoguesPayload, revision, sha256).value)
  {
    var dataset := Convert(documentsPayload, dialoguesPayload, revision, sha256).value;
    var known := Elements(DocumentIds(dataset.documents));
    CardinalityDistinct(DocumentIds(dataset.documents));
    CardinalityDistinct(CaseIds(dataset.cases));
    AllCasesKnown(SortMembers(Get(dialoguesPayload, "dial_data").value.members), known);
  }
}
