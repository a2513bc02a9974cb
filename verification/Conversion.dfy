/**
  Conversion of MultiDoc2Dial payloads: documents, and the dialogue loop that turns
  agent turns into benchmark cases.

  A payload is parsed JSON; members of an object are visited in key order.
 */
module Conversion {
  import opened Prelude
  import opened Text
  import opened Json

  datatype Document = Document(id: string, title: string, domain: string, text: string, spanIds: seq<string>)

  datatype Case = Case(
    id: string, domain: string, dialogueId: string, turnId: nat, question: string, history: seq<string>,
    expectedAnswer: string, documentIds: seq<string>, spanIds: seq<string>)

  datatype SourceError =
    | NotMapping(what: string) | NotSequence(what: string) | NotText(what: string) | NotInteger(what: string)
    | DomainMismatch | DuplicateDocuments | UnknownDocument | InvalidRole | DuplicateCases | NothingUsable

  // ----- Checked access -------------------------------------------------------

  function AsMapping(v: Option<Json>, what: string): Result<seq<Member>, SourceError> {
    if v.Some? && v.value.Object? then Ok(v.value.members) else Err(NotMapping(what))
  }

  function AsSequence(v: Option<Json>, what: string): Result<seq<Json>, SourceError> {
    if v.Some? && v.value.Array? then Ok(v.value.items) else Err(NotSequence(what))
  }

  function AsText(v: Option<Json>, what: string): Result<string, SourceError> {
    if v.Some? && v.value.String? && !PyBlank(v.value.s) then Ok(v.value.s) else Err(NotText(what))
  }

  function AsInteger(v: Option<Json>, what: string): Result<nat, SourceError> {
    if v.Some? && v.value.Int? && v.value.i >= 0 then Ok(v.value.i) else Err(NotInteger(what))
  }

  // ----- Documents ------------------------------------------------------------

  function ReadDocument(domain: string, item: Json): Result<Document, SourceError> {
    var members :- AsMapping(Some(item), "document");
    var id :- AsText(Get(members, "doc_id"), "doc_id");
    var itemDomain :- AsText(Get(members, "domain"), "domain");
    if itemDomain != domain then Err(DomainMismatch)
    else
      var spans :- AsMapping(Get(members, "spans"), "spans");
      var title :- AsText(Get(members, "title"), "title");
      var text :- AsText(Get(members, "doc_text"), "doc_text");
      Ok(Document(id, title, domain, text, Keys(SortMembers(spans))))
  }

  function DomainDocuments(domain: string, entries: seq<Member>): Result<seq<Document>, SourceError> {
    if entries == [] then Ok([])
    else
      var first :- ReadDocument(domain, entries[0].value);
      var later :- DomainDocuments(domain, entries[1..]);
      Ok([first] + later)
  }

  function AllDocuments(domains: seq<Member>): Result<seq<Document>, SourceError> {
    if domains == [] then Ok([])
    else
      var entries :- AsMapping(Some(domains[0].value), "doc_data." + domains[0].key);
      var first :- DomainDocuments(domains[0].key, SortMembers(entries));
      var later :- AllDocuments(domains[1..]);
      Ok(first + later)
  }

  function DocumentIds(documents: seq<Document>): (ids: seq<string>)
    ensures |ids| == |documents| && forall i :: 0 <= i < |ids| ==> ids[i] == documents[i].id
  {
    seq(|documents|, i requires 0 <= i < |documents| => documents[i].id)
  }

  function Documents(payload: seq<Member>): Result<seq<Document>, SourceError> {
    var domains :- AsMapping(Get(payload, "doc_data"), "doc_data");
    var documents :- AllDocuments(SortMembers(domains));
    if |Elements(DocumentIds(documents))| != |documents| then Err(DuplicateDocuments) else Ok(documents)
  }

  /** The first of the remaining domains, and then the others. */
  lemma {:induction false} AllDocumentsAt(domains: seq<Member>, i: nat)
    requires i < |domains|
    ensures
      var entries := AsMapping(Some(domains[i].value), "doc_data." + domains[i].key);
      AllDocuments(domains[i..]) ==
      if entries.Err? then Err(entries.error)
      else
        var first := DomainDocuments(domains[i].key, SortMembers(entries.value));
        if first.Err? then Err(first.error) else Prepend(first.value, AllDocuments(domains[i + 1..]))
  {
    assert domains[i..][0] == domains[i] && domains[i..][1..] == domains[i + 1..];
  }

  method ConvertDocuments(payload: seq<Member>) returns (result: Result<seq<Document>, SourceError>)
    ensures result == Documents(payload)
  {
    var domainMap := AsMapping(Get(payload, "doc_data"), "doc_data");
    if domainMap.Err? { return Err(domainMap.error); }
    var domains := SortMembers(domainMap.value);
    var documents: seq<Document> := [];
    ghost var whole := AllDocuments(domains);
    var i := 0;
    PrependNothing(whole);
    assert domains[0..] == domains;
    while i < |domains|
      invariant 0 <= i <= |domains|
      invariant whole == Prepend(documents, AllDocuments(domains[i..]))
    {
      AllDocumentsAt(domains, i);
      var entries := AsMapping(Some(domains[i].value), "doc_data." + domains[i].key);
      if entries.Err? { return Err(entries.error); }
      var added := ConvertEntries(domains[i].key, SortMembers(entries.value));
      if added.Err? { return Err(added.error); }
      PrependTwice(documents, added.value, AllDocuments(domains[i + 1..]));
      documents := documents + added.value;
      i := i + 1;
    }
    assert documents + [] == documents;
    if |Elements(DocumentIds(documents))| != |documents| {
      return Err(DuplicateDocuments);
    }
    return Ok(documents);
  }

  /** The first of the remaining entries, and then the others. */
  lemma {:induction false} DomainDocumentsAt(domain: string, entries: seq<Member>, i: nat)
    requires i < |entries|
    ensures
      var first := ReadDocument(domain, entries[i].value);
      DomainDocuments(domain, entries[i..]) ==
      if first.Err? then Err(first.error) else Prepend([first.value], DomainDocuments(domain, entries[i + 1..]))
  {
    assert entries[i..][0] == entries[i] && entries[i..][1..] == entries[i + 1..];
  }

  method ConvertEntries(domain: string, entries: seq<Member>) returns (result: Result<seq<Document>, SourceError>)
    ensures result == DomainDocuments(domain, entries)
  {
    var documents: seq<Document> := [];
    ghost var whole := DomainDocuments(domain, entries);
    var i := 0;
    PrependNothing(whole);
    assert entries[0..] == entries;
    while i < |entries|
      invariant 0 <= i <= |entries|
      invariant whole == Prepend(documents, DomainDocuments(domain, entries[i..]))
    {
      DomainDocumentsAt(domain, entries, i);
      var document := ReadDocument(domain, entries[i].value);
      if document.Err? { return Err(document.error); }
      PrependTwice(documents, [document.value], DomainDocuments(domain, entries[i + 1..]));
      documents := documents + [document.value];
      i := i + 1;
    }
    assert documents + [] == documents;
    return Ok(documents);
  }

  // ----- References -----------------------------------------------------------

  datatype Cited = Cited(documentId: string, spanId: string)

  function ReadReference(raw: Json, known: set<string>): Result<Cited, SourceError> {
    var members :- AsMapping(Some(raw), "reference");
    var documentId :- AsText(Get(members, "doc_id"), "reference.doc_id");
    var spanId :- AsText(Get(members, "id_sp"), "reference.id_sp");
    if documentId !in known then Err(UnknownDocument) else Ok(Cited(documentId, spanId))
  }

  function ReadReferences(raws: seq<Json>, known: set<string>): Result<seq<Cited>, SourceError> {
    if raws == [] then Ok([])
    else
      var first :- ReadReference(raws[0], known);
      var later :- ReadReferences(raws[1..], known);
      Ok([first] + later)
  }

  /** Each element at its first occurrence only. */
  function FirstOccurrences(s: seq<string>): (r: seq<string>)
    ensures forall x :: x in r <==> x in s
  {
    if s == [] then []
    else
      var init, last := s[..|s| - 1], s[|s| - 1];
      assert s == init + [last];
      FirstOccurrences(init) + if last in init then [] else [last]
  }

  function CitedDocuments(cited: seq<Cited>): seq<string> {
    seq(|cited|, i requires 0 <= i < |cited| => cited[i].documentId)
  }

  /** One `document:span` name per reference. */
  function CitedSpans(cited: seq<Cited>): seq<string> {
    seq(|cited|, i requires 0 <= i < |cited| => cited[i].documentId + ":" + cited[i].spanId)
  }

  /** Values put in front of a result that may be an exception. */
  function Prepend<T>(front: seq<T>, r: Result<seq<T>, SourceError>): Result<seq<T>, SourceError> {
    if r.Ok? then Ok(front + r.value) else r
  }

  lemma PrependNothing<T>(r: Result<seq<T>, SourceError>)
    ensures Prepend([], r) == r
  {
    assert r.Ok? ==> [] + r.value == r.value;
  }

  lemma PrependTwice<T>(front: seq<T>, more: seq<T>, r: Result<seq<T>, SourceError>)
    ensures Prepend(front, Prepend(more, r)) == Prepend(front + more, r)
  {
    assert r.Ok? ==> front + (more + r.value) == front + more + r.value;
  }

  lemma {:induction false} ReferencesStep(done: seq<Cited>, raws: seq<Json>, known: set<string>)
    requires raws != []
    ensures
      var first := ReadReference(raws[0], known);
      Prepend(done, ReadReferences(raws, known)) ==
      if first.Err? then Err(first.error) else Prepend(done + [first.value], ReadReferences(raws[1..], known))
  {
    var first := ReadReference(raws[0], known);
    if first.Ok? {
      PrependTwice(done, [first.value], ReadReferences(raws[1..], known));
    }
  }

  method CollectReferences(raws: seq<Json>, known: set<string>)
    returns (result: Result<(seq<string>, seq<string>), SourceError>)
    ensures
      var cited := ReadReferences(raws, known);
      result == if cited.Err? then Err(cited.error)
                else Ok((FirstOccurrences(CitedDocuments(cited.value)), CitedSpans(cited.value)))
  {
    var documentIds: seq<string>, spanIds: seq<string> := [], [];
    ghost var whole := ReadReferences(raws, known);
    ghost var done: seq<Cited> := [];
    var i := 0;
    PrependNothing(whole);
    assert raws[0..] == raws;
    while i < |raws|
      invariant 0 <= i <= |raws|
      invariant whole == Prepend(done, ReadReferences(raws[i..], known))
      invariant documentIds == FirstOccurrences(CitedDocuments(done)) && spanIds == CitedSpans(done)
    {
      var reference := ReadReference(raws[i], known);
      assert raws[i..][1..] == raws[i + 1..];
      ReferencesStep(done, raws[i..], known);
      if reference.Err? {
        return Err(reference.error);
      }
      var cited := reference.value;
      CitedSnoc(done, cited);
      if cited.documentId !in documentIds {
        documentIds := documentIds + [cited.documentId];
      }
      spanIds := spanIds + [cited.documentId + ":" + cited.spanId];
      done := done + [cited];
      i := i + 1;
    }
    assert done + [] == done;
    return Ok((documentIds, spanIds));
  }

  lemma CitedSnoc(cited: seq<Cited>, c: Cited)
    ensures CitedDocuments(cited + [c]) == CitedDocuments(cited) + [c.documentId]
    ensures CitedSpans(cited + [c]) == CitedSpans(cited) + [c.documentId + ":" + c.spanId]
    ensures FirstOccurrences(CitedDocuments(cited + [c])) ==
            FirstOccurrences(CitedDocuments(cited)) +
            if c.documentId in CitedDocuments(cited) then [] else [c.documentId]
  {
    var ids := CitedDocuments(cited);
    assert CitedDocuments(cited + [c]) == ids + [c.documentId];
    assert (ids + [c.documentId])[..|ids|] == ids;
  }

  // ----- Dialogues ------------------------------------------------------------

  datatype Turn = Turn(role: string, utterance: string, turnId: nat, references: Option<Json>) {
    function Rendered(): string { role + ": " + utterance }
  }

  function ReadTurn(raw: Json): Result<Turn, SourceError> {
    var members :- AsMapping(Some(raw), "turn");
    var role :- AsText(Get(members, "role"), "role");
    var utterance :- AsText(Get(members, "utterance"), "utterance");
    var turnId :- AsInteger(Get(members, "turn_id"), "turn_id");
    Ok(Turn(role, utterance, turnId, Get(members, "references")))
  }

  /** The case an agent turn makes of its references, none when it has none. */
  function MakeCase(domain: string, dialogueId: string, question: string, history: seq<string>, turn: Turn,
                    known: set<string>): Result<seq<Case>, SourceError>
  {
    var raws :- AsSequence(turn.references, "references");
    var cited :- ReadReferences(raws, known);
    Ok(if cited == [] then [] else
       [Case(dialogueId + ":" + Decimal(turn.turnId), domain, dialogueId, turn.turnId, question, history,
             turn.utterance, FirstOccurrences(CitedDocuments(cited)), CitedSpans(cited))])
  }

  datatype DialogueState = DialogueState(history: seq<string>, previousUser: Option<string>, cases: seq<Case>)

  function StepTurn(domain: string, dialogueId: string, known: set<string>, state: DialogueState, raw: Json):
    Result<DialogueState, SourceError>
  {
    var turn :- ReadTurn(raw);
    var history := state.history + [turn.Rendered()];
    if turn.role == "user" then Ok(DialogueState(history, Some(turn.utterance), state.cases))
    else if turn.role != "agent" then Err(InvalidRole)
    else if state.previousUser.None? then Ok(DialogueState(history, None, state.cases))
    else
      var made :- MakeCase(domain, dialogueId, state.previousUser.value, state.history, turn, known);
      Ok(DialogueState(history, None, state.cases + made))
  }

  /** The step of one dialogue's turns. */
  type Stepper = (DialogueState, Json) -> Result<DialogueState, SourceError>

  function TurnStepper(domain: string, dialogueId: string, known: set<string>): Stepper {
    (state: DialogueState, raw: Json) => StepTurn(domain, dialogueId, known, state, raw)
  }

  function StepTurns(step: Stepper, state: DialogueState, turns: seq<Json>): Result<DialogueState, SourceError>
    decreases |turns|
  {
    if turns == [] then Ok(state)
    else
      var next :- step(state, turns[0]);
      StepTurns(step, next, turns[1..])
  }

  /** The first of the remaining turns, and then the others. */
  lemma {:induction false} StepTurnsAt(step: Stepper, state: DialogueState, turns: seq<Json>, i: nat)
    requires i < |turns|
    ensures
      var next := step(state, turns[i]);
      StepTurns(step, state, turns[i..]) ==
      if next.Err? then Err(next.error) else StepTurns(step, next.value, turns[i + 1..])
  {
    assert turns[i..][0] == turns[i] && turns[i..][1..] == turns[i + 1..];
  }

  const START := DialogueState([], None, [])

  function DialogueCases(domain: string, raw: Json, known: set<string>): Result<seq<Case>, SourceError> {
    var dialogue :- AsMapping(Some(raw), "dialogue");
    var dialogueId :- AsText(Get(dialogue, "dial_id"), "dial_id");
    var turns :- AsSequence(Get(dialogue, "turns"), "turns");
    var end :- StepTurns(TurnStepper(domain, dialogueId, known), START, turns);
    Ok(end.cases)
  }

  function DomainCases(domain: string, dialogues: seq<Json>, known: set<string>): Result<seq<Case>, SourceError> {
    if dialogues == [] then Ok([])
    else
      var first :- DialogueCases(domain, dialogues[0], known);
      var later :- DomainCases(domain, dialogues[1..], known);
      Ok(first + later)
  }

  function AllCases(domains: seq<Member>, known: set<string>): Result<seq<Case>, SourceError> {
    if domains == [] then Ok([])
    else
      var dialogues :- AsSequence(Some(domains[0].value), "dial_data." + domains[0].key);
      var first :- DomainCases(domains[0].key, dialogues, known);
      var later :- AllCases(domains[1..], known);
      Ok(first + later)
  }

  function CaseIds(cases: seq<Case>): (ids: seq<string>)
    ensures |ids| == |cases| && forall i :: 0 <= i < |ids| ==> ids[i] == cases[i].id
  {
    seq(|cases|, i requires 0 <= i < |cases| => cases[i].id)
  }

  function Cases(payload: seq<Member>, known: set<string>): Result<seq<Case>, SourceError> {
    var domains :- AsMapping(Get(payload, "dial_data"), "dial_data");
    var cases :- AllCases(SortMembers(domains), known);
    if |Elements(CaseIds(cases))| != |cases| then Err(DuplicateCases) else Ok(cases)
  }

  /** The branch for an agent turn that follows a user turn. */
  method ConvertAnswer(domain: string, dialogueId: string, question: string, history: seq<string>, turn: Turn,
                       known: set<string>) returns (result: Result<seq<Case>, SourceError>)
    ensures result == MakeCase(domain, dialogueId, question, history, turn, known)
  {
    var references := AsSequence(turn.references, "references");
    if references.Err? { return Err(references.error); }
    var collected := CollectReferences(references.value, known);
    if collected.Err? { return Err(collected.error); }
    var (documentIds, spanIds) := collected.value;
    CitedNothing(ReadReferences(references.value, known).value);
    if documentIds == [] { return Ok([]); }
    return Ok([Case(dialogueId + ":" + Decimal(turn.turnId), domain, dialogueId, turn.turnId, question, history,
                    turn.utterance, documentIds, spanIds)]);
  }

  /** One turn, with the variables the source keeps. */
  method TakeTurn(domain: string, dialogueId: string, known: set<string>, history: seq<string>,
      previousUser: Option<string>, cases: seq<Case>, raw: Json) returns (result: Result<DialogueState, SourceError>)
    ensures result == StepTurn(domain, dialogueId, known, DialogueState(history, previousUser, cases), raw)
  {
    var read := ReadTurn(raw);
    if read.Err? { return Err(read.error); }
    var turn := read.value;
    var user, all := None, cases;
    if turn.role == "user" {
      user := Some(turn.utterance);
    } else if turn.role == "agent" {
      if previousUser.Some? {
        var made := ConvertAnswer(domain, dialogueId, previousUser.value, history, turn, known);
        if made.Err? { return Err(made.error); }
        all := cases + made.value;
      }
    } else {
      return Err(InvalidRole);
    }
    return Ok(DialogueState(history + [turn.Rendered()], user, all));
  }

  /** The loop over the turns of one dialogue. */
  method ConvertDialogue(domain: string, raw: Json, known: set<string>)
    returns (result: Result<seq<Case>, SourceError>)
    ensures result == DialogueCases(domain, raw, known)
  {
    var dialogue := AsMapping(Some(raw), "dialogue");
    if dialogue.Err? { return Err(dialogue.error); }
    var dialogueId := AsText(Get(dialogue.value, "dial_id"), "dial_id");
    if dialogueId.Err? { return Err(dialogueId.error); }
    var turns := AsSequence(Get(dialogue.value, "turns"), "turns");
    if turns.Err? { return Err(turns.error); }
    var history: seq<string>, cases: seq<Case> := [], [];
    var previousUser: Option<string> := None;
    ghost var step := TurnStepper(domain, dialogueId.value, known);
    var i := 0;
    assert turns.value[0..] == turns.value;
    while i < |turns.value|
      invariant 0 <= i <= |turns.value|
      invariant StepTurns(step, START, turns.value) ==
                StepTurns(step, DialogueState(history, previousUser, cases), turns.value[i..])
    {
      StepTurnsAt(step, DialogueState(history, previousUser, cases), turns.value, i);
      var taken := TakeTurn(domain, dialogueId.value, known, history, previousUser, cases, turns.value[i]);
      if taken.Err? { return Err(taken.error); }
      history, previousUser, cases := taken.value.history, taken.value.previousUser, taken.value.cases;
      i := i + 1;
    }
    return Ok(cases);
  }

  lemma CitedNothing(cited: seq<Cited>)
    ensures FirstOccurrences(CitedDocuments(cited)) == [] <==> cited == []
  {
    if cited != [] {
      assert CitedDocuments(cited)[0] in CitedDocuments(cited);
    }
  }

  /** The first of the remaining domains, and then the others. */
  lemma {:induction false} AllCasesAt(domains: seq<Member>, known: set<string>, i: nat)
    requires i < |domains|
    ensures
      var dialogues := AsSequence(Some(domains[i].value), "dial_data." + domains[i].key);
      AllCases(domains[i..], known) ==
      if dialogues.Err? then Err(dialogues.error)
      else
        var first := DomainCases(domains[i].key, dialogues.value, known);
        if first.Err? then Err(first.error) else Prepend(first.value, AllCases(domains[i + 1..], known))
  {
    assert domains[i..][0] == domains[i] && domains[i..][1..] == domains[i + 1..];
  }

  method ConvertCases(payload: seq<Member>, known: set<string>) returns (result: Result<seq<Case>, SourceError>)
    ensures result == Cases(payload, known)
  {
    var domainMap := AsMapping(Get(payload, "dial_data"), "dial_data");
    if domainMap.Err? { return Err(domainMap.error); }
    var domains := SortMembers(domainMap.value);
    var cases: seq<Case> := [];
    ghost var whole := AllCases(domains, known);
    var i := 0;
    PrependNothing(whole);
    assert domains[0..] == domains;
    while i < |domains|
      invariant 0 <= i <= |domains|
      invariant whole == Prepend(cases, AllCases(domains[i..], known))
    {
      AllCasesAt(domains, known, i);
      ghost var later := AllCases(domains[i + 1..], known);
      var dialogues := AsSequence(Some(domains[i].value), "dial_data." + domains[i].key);
      if dialogues.Err? { return Err(dialogues.error); }
      var added := ConvertDomain(domains[i].key, dialogues.value, known);
      if added.Err? { return Err(added.error); }
      PrependTwice(cases, added.value, later);
      cases := cases + added.value;
      i := i + 1;
    }
    assert cases + [] == cases;
    if |Elements(CaseIds(cases))| != |cases| {
      return Err(DuplicateCases);
    }
    return Ok(cases);
  }

  method ConvertDomain(domain: string, dialogues: seq<Json>, known: set<string>)
    returns (result: Result<seq<Case>, SourceError>)
    ensures result == DomainCases(domain, dialogues, known)
  {
    var cases: seq<Case> := [];
    ghost var whole := DomainCases(domain, dialogues, known);
    var i := 0;
    PrependNothing(whole);
    assert dialogues[0..] == dialogues;
    while i < |dialogues|
      invariant 0 <= i <= |dialogues|
      invariant whole == Prepend(cases, DomainCases(domain, dialogues[i..], known))
    {
      assert dialogues[i..][1..] == dialogues[i + 1..];
      ghost var later := DomainCases(domain, dialogues[i + 1..], known);
      var added := ConvertDialogue(domain, dialogues[i], known);
      if added.Err? { return Err(added.error); }
      PrependTwice(cases, added.value, later);
      cases := cases + added.value;
      i := i + 1;
    }
    assert cases + [] == cases;
    return Ok(cases);
  }

  datatype Dataset = Dataset(revision: string, sourceSha256: string, documents: seq<Document>, cases: seq<Case>)

  function Convert(documentsPayload: seq<Member>, dialoguesPayload: seq<Member>, revision: string, sha256: string):
    Result<Dataset, SourceError>
  {
    var documents :- Documents(documentsPayload);
    var cases :- Cases(dialoguesPayload, Elements(DocumentIds(documents)));
    if documents == [] || cases == [] then Err(NothingUsable) else Ok(Dataset(revision, sha256, documents, cases))
  }
}
