/** What is read from the payloads, key by key, and in which order documents and dialogues come. */
module ConversionPayloads {
  import opened Prelude
  import opened Text
  import opened Json
  import opened Conversion
  import opened ConversionLaws

  // ----- Checked access -------------------------------------------------------

  /** The text under a key, which must not be blank. */
  predicate TextAt(members: seq<Member>, key: string, s: string) {
    Get(members, key) == Some(String(s)) && exists i :: 0 <= i < |s| && !IsPySpace(s[i])
  }

  ghost predicate HasText(members: seq<Member>, key: string) {
    exists s :: TextAt(members, key, s)
  }

  lemma {:induction false} TextRead(members: seq<Member>, key: string, what: string)
    ensures forall s :: AsText(Get(members, key), what) == Ok(s) <==> TextAt(members, key, s)
    ensures AsText(Get(members, key), what) == Err(NotText(what)) <==> !HasText(members, key)
  {
    var v := Get(members, key);
    if v.Some? && v.value.String? {
      var s := v.value.s;
      assert PyBlank(s) <==> forall i :: 0 <= i < |s| ==> IsPySpace(s[i]) by {
        assert forall i :: 0 <= i < |s| ==> s[i] in s;
      }
      if !PyBlank(s) {
        assert TextAt(members, key, s);
      }
    }
  }

  // ----- Turns and references -------------------------------------------------

  /** A turn as its payload words it. */
  predicate Words(raw: Json, turn: Turn) {
    && raw.Object?
    && TextAt(raw.members, "role", turn.role) && TextAt(raw.members, "utterance", turn.utterance)
    && Get(raw.members, "turn_id") == Some(Int(turn.turnId))
    && turn.references == Get(raw.members, "references")
  }

  lemma TurnMeaning(raw: Json)
    ensures forall turn :: ReadTurn(raw) == Ok(turn) <==> Words(raw, turn)
    ensures ReadTurn(raw).Ok? <==>
      && raw.Object? && HasText(raw.members, "role") && HasText(raw.members, "utterance")
      && exists n: nat :: Get(raw.members, "turn_id") == Some(Int(n))
    ensures ReadTurn(raw).Err? ==>
      ReadTurn(raw).error ==
        if !raw.Object? then NotMapping("turn")
        else if !HasText(raw.members, "role") then NotText("role")
        else if !HasText(raw.members, "utterance") then NotText("utterance")
        else NotInteger("turn_id")
  {
    if raw.Object? {
      TextRead(raw.members, "role", "role");
      TextRead(raw.members, "utterance", "utterance");
      var id := Get(raw.members, "turn_id");
      assert id.Some? && id.value.Int? ==> id == Some(Int(id.value.i));
    }
  }

  /** A reference as its payload words it. */
  predicate Refers(raw: Json, cited: Cited) {
    && raw.Object?
    && TextAt(raw.members, "doc_id", cited.documentId) && TextAt(raw.members, "id_sp", cited.spanId)
  }

  lemma ReferenceMeaning(raw: Json, known: set<string>)
    ensures forall cited :: ReadReference(raw, known) == Ok(cited) <==> Refers(raw, cited) && cited.documentId in known
    ensures ReadReference(raw, known) == Err(UnknownDocument) <==>
      exists cited :: Refers(raw, cited) && cited.documentId !in known
    ensures ReadReference(raw, known).Err? && ReadReference(raw, known).error != UnknownDocument ==>
      ReadReference(raw, known).error ==
        if !raw.Object? then NotMapping("reference")
        else if !HasText(raw.members, "doc_id") then NotText("reference.doc_id")
        else NotText("reference.id_sp")
  {
    if raw.Object? {
      TextRead(raw.members, "doc_id", "reference.doc_id");
      TextRead(raw.members, "id_sp", "reference.id_sp");
      var read := ReadReference(raw, known);
      if read == Err(UnknownDocument) {
        var id := AsText(Get(raw.members, "doc_id"), "reference.doc_id").value;
        var span := AsText(Get(raw.members, "id_sp"), "reference.id_sp").value;
        assert Refers(raw, Cited(id, span));
      }
    }
  }

  lemma {:induction false} ReferencesMeaning(raws: seq<Json>, known: set<string>)
    ensures ReadReferences(raws, known).Ok? <==> forall i :: 0 <= i < |raws| ==> ReadReference(raws[i], known).Ok?
    ensures ReadReferences(raws, known).Ok? ==>
      && |ReadReferences(raws, known).value| == |raws|
      && forall i :: 0 <= i < |raws| ==> ReadReference(raws[i], known) == Ok(ReadReferences(raws, known).value[i])
  {
    if raws != [] {
      ReferencesMeaning(raws[1..], known);
      assert forall i :: 0 < i < |raws| ==> raws[i] == raws[1..][i - 1];
      assert forall i :: 0 <= i < |raws[1..]| ==> raws[1..][i] == raws[i + 1];
    }
  }

  // ----- Cases ----------------------------------------------------------------

  /** The identifier of a case names its dialogue and its turn. */
  predicate Identified(c: Case, domain: string, dialogueId: string, raw: Json) {
    && c.id == dialogueId + ":" + Decimal(c.turnId) && c.domain == domain && c.dialogueId == dialogueId
    && raw.Object? && Get(raw.members, "turn_id") == Some(Int(c.turnId))
  }

  /** A turn in the history: who said what. */
  ghost predicate Said(raw: Json, line: string) {
    raw.Object? && exists role, utterance ::
      TextAt(raw.members, "role", role) && TextAt(raw.members, "utterance", utterance)
      && line == role + ": " + utterance
  }

  /** A span name: document and span of a reference. */
  ghost predicate Spanned(raw: Json, known: set<string>, name: string) {
    exists cited :: Refers(raw, cited) && cited.documentId in known && name == cited.documentId + ":" + cited.spanId
  }

  /**
    Every field of a case, from the payload of the dialogue: the turn that answers,
    the one before it, all turns before it, and the references of the answer.
   */
  ghost predicate CaseOf(domain: string, dialogueId: string, known: set<string>, turns: seq<Json>, j: nat, c: Case)
    requires 0 < j < |turns|
  {
    && Identified(c, domain, dialogueId, turns[j])
    && TextAt(turns[j].members, "role", "agent") && TextAt(turns[j].members, "utterance", c.expectedAnswer)
    && turns[j - 1].Object?
    && TextAt(turns[j - 1].members, "role", "user") && TextAt(turns[j - 1].members, "utterance", c.question)
    && |c.history| == j && (forall k :: 0 <= k < j ==> Said(turns[k], c.history[k]))
    && (exists raws :: Get(turns[j].members, "references") == Some(Array(raws)) && CitesAll(raws, known, c))
  }

  /** The documents that references name, in their order. */
  predicate Naming(raws: seq<Json>, named: seq<string>) {
    |named| == |raws| && forall i :: 0 <= i < |raws| ==> raws[i].Object? && TextAt(raws[i].members, "doc_id", named[i])
  }

  /** What is named, each once, in the order in which it is first named. */
  ghost predicate FirstNamed(ids: seq<string>, named: seq<string>) {
    && Distinct(ids) && (forall d :: d in ids <==> d in named)
    && forall i, k :: 0 <= i < k < |ids| && ids[i] in named && ids[k] in named ==>
      FirstIndex(named, ids[i]) < FirstIndex(named, ids[k])
  }

  /** The spans of the references in order, and their documents, each where it is first named. */
  ghost predicate CitesAll(raws: seq<Json>, known: set<string>, c: Case) {
    && |c.spanIds| == |raws| && (forall i :: 0 <= i < |raws| ==> Spanned(raws[i], known, c.spanIds[i]))
    && exists named :: Naming(raws, named) && FirstNamed(c.documentIds, named)
  }

  lemma {:induction false} CitedNames(raws: seq<Json>, known: set<string>, cited: seq<Cited>)
    requires ReadReferences(raws, known) == Ok(cited)
    ensures Naming(raws, CitedDocuments(cited))
    ensures forall i :: 0 <= i < |raws| ==> Spanned(raws[i], known, CitedSpans(cited)[i])
  {
    ReferencesMeaning(raws, known);
    forall i | 0 <= i < |raws|
      ensures raws[i].Object? && TextAt(raws[i].members, "doc_id", CitedDocuments(cited)[i])
      ensures Spanned(raws[i], known, CitedSpans(cited)[i])
    {
      ReferenceMeaning(raws[i], known);
      assert Refers(raws[i], cited[i]);
    }
  }

  lemma {:induction false} FirstsNamed(named: seq<string>)
    ensures FirstNamed(FirstOccurrences(named), named)
  {
    FirstOccurrencesOrdered(named);
  }

  lemma {:induction false} CitedCase(raws: seq<Json>, known: set<string>, cited: seq<Cited>, c: Case)
    requires ReadReferences(raws, known) == Ok(cited)
    requires c.documentIds == FirstOccurrences(CitedDocuments(cited)) && c.spanIds == CitedSpans(cited)
    ensures CitesAll(raws, known, c)
  {
    CitedNames(raws, known, cited);
    FirstsNamed(CitedDocuments(cited));
    assert |CitedDocuments(cited)| == |raws|;
  }

  lemma TurnSaid(turns: seq<Json>, k: nat)
    requires k < |turns| && ReadTurn(turns[k]).Ok?
    ensures Words(turns[k], TurnAt(turns, k)) && Said(turns[k], TurnAt(turns, k).Rendered())
  {
    TurnMeaning(turns[k]);
  }

  lemma AnswerCites(domain: string, dialogueId: string, known: set<string>, turns: seq<Json>, j: nat)
    returns (raws: seq<Json>)
    requires 0 < j < |turns| && AnswersAt(turns, j) && TurnFine(turns, known, j)
    ensures TurnAt(turns, j).references == Some(Array(raws))
    ensures CitesAll(raws, known, CaseAt(domain, dialogueId, known, turns, j))
  {
    raws := RawReferences(TurnAt(turns, j));
    CitedCase(raws, known, CitedAt(turns, known, j), CaseAt(domain, dialogueId, known, turns, j));
  }

  /** The case of an answering turn, by the keys of the payload alone. */
  lemma CaseByKey(domain: string, dialogueId: string, known: set<string>, turns: seq<Json>, j: nat)
    requires 0 < j < |turns| && YieldsCase(turns, j)
    requires forall k :: 0 <= k <= j ==> TurnFine(turns, known, k)
    ensures CaseOf(domain, dialogueId, known, turns, j, CaseAt(domain, dialogueId, known, turns, j))
  {
    forall k | 0 <= k <= j ensures Words(turns[k], TurnAt(turns, k)) && Said(turns[k], TurnAt(turns, k).Rendered()) {
      assert TurnFine(turns, known, k);
      TurnSaid(turns, k);
    }
    assert TurnFine(turns, known, j);
    var raws := AnswerCites(domain, dialogueId, known, turns, j);
  }

  // ----- Documents ------------------------------------------------------------

  /** Texts in code-point order, none twice. */
  ghost predicate Ascending(names: seq<string>) {
    forall i, j :: 0 <= i < j < |names| ==> LexLess(names[i], names[j])
  }

  /** A document as its payload words it; its spans are named in order. */
  ghost predicate Describes(domain: string, item: Json, d: Document) {
    && item.Object? && d.domain == domain
    && TextAt(item.members, "doc_id", d.id) && TextAt(item.members, "domain", domain)
    && TextAt(item.members, "title", d.title) && TextAt(item.members, "doc_text", d.text)
    && exists spans :: Get(item.members, "spans") == Some(Object(spans)) && d.spanIds == Keys(SortMembers(spans))
  }

  lemma DocumentMeaning(domain: string, item: Json)
    ensures forall d :: ReadDocument(domain, item) == Ok(d) <==> Describes(domain, item, d)
    ensures ReadDocument(domain, item) == Err(DomainMismatch) <==>
      && item.Object? && HasText(item.members, "doc_id")
      && exists other :: TextAt(item.members, "domain", other) && other != domain
    ensures ReadDocument(domain, item).Err? && ReadDocument(domain, item).error != DomainMismatch ==>
      ReadDocument(domain, item).error ==
        if !item.Object? then NotMapping("document")
        else if !HasText(item.members, "doc_id") then NotText("doc_id")
        else if !HasText(item.members, "domain") then NotText("domain")
        else if forall spans :: Get(item.members, "spans") != Some(Object(spans)) then NotMapping("spans")
        else if !HasText(item.members, "title") then NotText("title")
        else NotText("doc_text")
  {
    if item.Object? {
      TextRead(item.members, "doc_id", "doc_id");
      TextRead(item.members, "domain", "domain");
      TextRead(item.members, "title", "title");
      TextRead(item.members, "doc_text", "doc_text");
      var spans := Get(item.members, "spans");
      assert spans.Some? && spans.value.Object? ==> spans == Some(Object(spans.value.members));
    }
  }

  /** The names of a mapping's spans: all its keys, in code-point order. */
  lemma {:induction false} SpansInOrder(spans: seq<Member>)
    requires Distinct(Keys(spans))
    ensures
      var names := Keys(SortMembers(spans));
      Ascending(names) && |names| == |spans| && forall name :: name in names <==> name in Keys(spans)
  {
    SortMembersSorts(spans);
    assert |multiset(SortMembers(spans))| == |multiset(spans)|;
    KeysWithin(SortMembers(spans), spans);
    KeysWithin(spans, SortMembers(spans));
  }

  lemma KeysWithin(a: seq<Member>, b: seq<Member>)
    requires multiset(a) == multiset(b)
    ensures forall name :: name in Keys(a) ==> name in Keys(b)
  {
    forall name | name in Keys(a) ensures name in Keys(b) {
      var i :| 0 <= i < |a| && Keys(a)[i] == name;
      assert a[i] in multiset(b);
      var k :| 0 <= k < |b| && b[k] == a[i];
      assert Keys(b)[k] == name;
    }
  }

  // ----- Whole payloads -------------------------------------------------------

  /** A raw entry, and the domain it is listed under. */
  datatype Entry = Entry(domain: string, raw: Json)

  function EntriesOf(domain: string, raws: seq<Json>): seq<Entry> {
    seq(|raws|, i requires 0 <= i < |raws| => Entry(domain, raws[i]))
  }

  function MemberValues(members: seq<Member>): seq<Json> {
    seq(|members|, i requires 0 <= i < |members| => members[i].value)
  }

  /** The documents of a payload: domains in key order, and in each its entries in key order. */
  function ListedDocuments(domains: seq<Member>): seq<Entry> {
    if domains == [] then []
    else
      (if domains[0].value.Object?
       then EntriesOf(domains[0].key, MemberValues(SortMembers(domains[0].value.members))) else []) +
      ListedDocuments(domains[1..])
  }

  /** Each document is read from the entry in its place. */
  ghost predicate ReadFrom(entries: seq<Entry>, documents: seq<Document>) {
    |documents| == |entries| &&
    forall i :: 0 <= i < |entries| ==> Describes(entries[i].domain, entries[i].raw, documents[i])
  }

  ghost predicate Readable(e: Entry) {
    exists d :: Describes(e.domain, e.raw, d)
  }

  ghost predicate AllRead(entries: seq<Entry>) {
    forall i :: 0 <= i < |entries| ==> Readable(entries[i])
  }

  lemma {:induction false} DomainMeaning(domain: string, members: seq<Member>)
    ensures
      var read, entries := DomainDocuments(domain, members), EntriesOf(domain, MemberValues(members));
      && (read.Ok? <==> AllRead(entries)) && (read.Ok? ==> ReadFrom(entries, read.value))
  {
    if members != [] {
      var rest := members[1..];
      DomainMeaning(domain, rest);
      DocumentMeaning(domain, members[0].value);
      var entries, later := EntriesOf(domain, MemberValues(members)), EntriesOf(domain, MemberValues(rest));
      assert entries == [Entry(domain, members[0].value)] + later;
      FirstRead(Entry(domain, members[0].value), later);
      var first := ReadDocument(domain, members[0].value);
      if first.Ok? && DomainDocuments(domain, rest).Ok? {
        BothRead([Entry(domain, members[0].value)], [first.value], later, DomainDocuments(domain, rest).value);
      }
    }
  }

  lemma FirstRead(e: Entry, later: seq<Entry>)
    ensures AllRead([e] + later) <==> ReadDocument(e.domain, e.raw).Ok? && AllRead(later)
  {
    DocumentMeaning(e.domain, e.raw);
    var read := ReadDocument(e.domain, e.raw);
    assert read.Ok? ==> Describes(e.domain, e.raw, read.value);
    BothAllRead([e], later);
    assert AllRead([e]) <==> Readable([e][0]);
  }

  lemma BothAllRead(a: seq<Entry>, b: seq<Entry>)
    ensures AllRead(a + b) <==> AllRead(a) && AllRead(b)
  {
    var all := a + b;
    assert forall i :: 0 <= i < |a| ==> all[i] == a[i];
    forall i | 0 <= i < |b| ensures b[i] == all[|a| + i] {
    }
  }

  lemma BothRead(a: seq<Entry>, x: seq<Document>, b: seq<Entry>, y: seq<Document>)
    requires ReadFrom(a, x) && ReadFrom(b, y)
    ensures ReadFrom(a + b, x + y)
  {
  }

  lemma {:induction false} DomainsMeaning(domains: seq<Member>)
    ensures
      var read, entries := AllDocuments(domains), ListedDocuments(domains);
      && (read.Ok? <==> (forall i :: 0 <= i < |domains| ==> domains[i].value.Object?) && AllRead(entries))
      && (read.Ok? ==> ReadFrom(entries, read.value))
  {
    if domains != [] {
      var rest := domains[1..];
      DomainsMeaning(rest);
      assert forall i :: 0 < i < |domains| ==> domains[i] == rest[i - 1];
      assert forall i :: 0 <= i < |rest| ==> rest[i] == domains[i + 1];
      if domains[0].value.Object? {
        var members := SortMembers(domains[0].value.members);
        var entries := EntriesOf(domains[0].key, MemberValues(members));
        DomainMeaning(domains[0].key, members);
        BothAllRead(entries, ListedDocuments(rest));
        if DomainDocuments(domains[0].key, members).Ok? && AllDocuments(rest).Ok? {
          BothRead(entries, DomainDocuments(domains[0].key, members).value,
                   ListedDocuments(rest), AllDocuments(rest).value);
        }
      }
    }
  }

  ghost predicate AllMappings(domains: seq<Member>) {
    forall i :: 0 <= i < |domains| ==> domains[i].value.Object?
  }

  /**
    The documents of a payload are read when every entry of every domain is, each
    from the entry in its place; two with the same identifier are refused.
   */
  lemma {:induction false} DocumentsMeaning(payload: seq<Member>)
    ensures
      (forall domains :: Get(payload, "doc_data") != Some(Object(domains))) ==>
        Documents(payload) == Err(NotMapping("doc_data"))
    ensures forall domains :: Get(payload, "doc_data") == Some(Object(domains)) ==>
      var entries := ListedDocuments(SortMembers(domains));
      if AllMappings(SortMembers(domains)) && AllRead(entries)
      then exists read :: ReadFrom(entries, read) &&
             Documents(payload) == if Distinct(DocumentIds(read)) then Ok(read) else Err(DuplicateDocuments)
      else Documents(payload).Err?
  {
    var data := Get(payload, "doc_data");
    if data.Some? && data.value.Object? {
      var domains := SortMembers(data.value.members);
      DomainsMeaning(domains);
      assert data == Some(Object(data.value.members));
      if AllDocuments(domains).Ok? {
        var read := AllDocuments(domains).value;
        DistinctByCount(DocumentIds(read));
        assert ReadFrom(ListedDocuments(domains), read);
      }
    }
  }

  lemma DistinctByCount(ids: seq<string>)
    ensures |Elements(ids)| == |ids| <==> Distinct(ids)
  {
    if |Elements(ids)| == |ids| {
      CardinalityDistinct(ids);
    } else if Distinct(ids) {
      DistinctCardinality(ids);
    }
  }

  // ----- Dialogues ------------------------------------------------------------

  /** The dialogues of a payload: domains in key order, and in each its dialogues as listed. */
  function ListedDialogues(domains: seq<Member>): seq<Entry> {
    if domains == [] then []
    else
      (if domains[0].value.Array? then EntriesOf(domains[0].key, domains[0].value.items) else []) +
      ListedDialogues(domains[1..])
  }

  /** A dialogue with an identifier and a list of turns, all of them fine. */
  ghost predicate DialogueFine(e: Entry, known: set<string>) {
    && e.raw.Object? && HasText(e.raw.members, "dial_id")
    && var turns := Get(e.raw.members, "turns");
    && turns.Some? && turns.value.Array?
    && forall j :: 0 <= j < |turns.value.items| ==> TurnFine(turns.value.items, known, j)
  }

  /** The cases of a fine dialogue, under its own identifier. */
  ghost predicate DialogueYields(e: Entry, known: set<string>, cases: seq<Case>) {
    e.raw.Object? && exists id, turns ::
      && TextAt(e.raw.members, "dial_id", id) && Get(e.raw.members, "turns") == Some(Array(turns))
      && cases == CasesUpTo(e.domain, id, known, turns, |turns|)
  }

  lemma DialogueExactly(e: Entry, known: set<string>)
    ensures
      var cases := DialogueCases(e.domain, e.raw, known);
      && (cases.Ok? <==> DialogueFine(e, known)) && (cases.Ok? ==> DialogueYields(e, known, cases.value))
  {
    if e.raw.Object? {
      var members := e.raw.members;
      TextRead(members, "dial_id", "dial_id");
      var turns := Get(members, "turns");
      if HasText(members, "dial_id") && turns.Some? && turns.value.Array? {
        DialogueMeaning(e.domain, members, known);
        assert e.raw == Object(members) && turns == Some(Array(turns.value.items));
        assert TextAt(members, "dial_id", Get(members, "dial_id").value.s);
      }
    }
  }

  ghost predicate AllFine(entries: seq<Entry>, known: set<string>) {
    forall i :: 0 <= i < |entries| ==> DialogueFine(entries[i], known)
  }

  /** Each dialogue yields its own part of the cases. */
  ghost predicate EachYields(entries: seq<Entry>, known: set<string>, parts: seq<seq<Case>>) {
    |parts| == |entries| && forall i :: 0 <= i < |entries| ==> DialogueYields(entries[i], known, parts[i])
  }

  lemma BothFine(a: seq<Entry>, b: seq<Entry>, known: set<string>)
    ensures AllFine(a + b, known) <==> AllFine(a, known) && AllFine(b, known)
  {
    var all := a + b;
    assert forall i :: 0 <= i < |a| ==> all[i] == a[i];
    forall i | 0 <= i < |b| ensures b[i] == all[|a| + i] {
    }
  }

  lemma {:induction false} FlattenBoth(x: seq<seq<Case>>, y: seq<seq<Case>>)
    ensures Flatten(x + y) == Flatten(x) + Flatten(y)
  {
    if x == [] {
      assert x + y == y;
    } else {
      assert (x + y)[1..] == x[1..] + y;
      FlattenBoth(x[1..], y);
    }
  }

  lemma {:induction false} BothYield(a: seq<Entry>, x: seq<seq<Case>>, b: seq<Entry>, y: seq<seq<Case>>,
      known: set<string>)
    requires EachYields(a, known, x) && EachYields(b, known, y)
    ensures EachYields(a + b, known, x + y) && Flatten(x + y) == Flatten(x) + Flatten(y)
  {
    FlattenBoth(x, y);
    BothHold((e, cases) => DialogueYields(e, known, cases), a, x, b, y);
  }

  lemma BothHold<S, T>(holds: (S, T) -> bool, a: seq<S>, x: seq<T>, b: seq<S>, y: seq<T>)
    requires |a| == |x| && forall i :: 0 <= i < |a| ==> holds(a[i], x[i])
    requires |b| == |y| && forall i :: 0 <= i < |b| ==> holds(b[i], y[i])
    ensures forall i :: 0 <= i < |a + b| ==> holds((a + b)[i], (x + y)[i])
  {
  }

  lemma {:induction false} DomainCasesMeaning(domain: string, dialogues: seq<Json>, known: set<string>)
    returns (parts: seq<seq<Case>>)
    ensures
      var cases, entries := DomainCases(domain, dialogues, known), EntriesOf(domain, dialogues);
      && (cases.Ok? <==> AllFine(entries, known))
      && (cases.Ok? ==> EachYields(entries, known, parts) && cases.value == Flatten(parts))
  {
    if dialogues == [] {
      parts := [];
    } else {
      var rest := dialogues[1..];
      var later := DomainCasesMeaning(domain, rest, known);
      var first := Entry(domain, dialogues[0]);
      DialogueExactly(first, known);
      assert EntriesOf(domain, dialogues) == [first] + EntriesOf(domain, rest);
      BothFine([first], EntriesOf(domain, rest), known);
      assert AllFine([first], known) <==> DialogueFine([first][0], known);
      var cases := DialogueCases(domain, dialogues[0], known);
      parts := if cases.Ok? then [cases.value] + later else [];
      if cases.Ok? && DomainCases(domain, rest, known).Ok? {
        OneYields(first, cases.value, known);
        BothYield([first], [cases.value], EntriesOf(domain, rest), later, known);
      }
    }
  }

  lemma OneYields(e: Entry, cases: seq<Case>, known: set<string>)
    requires DialogueYields(e, known, cases)
    ensures EachYields([e], known, [cases]) && Flatten([cases]) == cases
  {
    assert [cases][1..] == [] && Flatten([cases]) == cases + Flatten([]);
  }

  ghost predicate AllLists(domains: seq<Member>) {
    forall i :: 0 <= i < |domains| ==> domains[i].value.Array?
  }

  lemma {:induction false} AllCasesMeaning(domains: seq<Member>, known: set<string>) returns (parts: seq<seq<Case>>)
    ensures
      var cases, entries := AllCases(domains, known), ListedDialogues(domains);
      && (cases.Ok? <==> AllLists(domains) && AllFine(entries, known))
      && (cases.Ok? ==> EachYields(entries, known, parts) && cases.value == Flatten(parts))
  {
    if domains == [] {
      parts := [];
    } else {
      var rest := domains[1..];
      parts := AllCasesMeaning(rest, known);
      assert forall i :: 0 < i < |domains| ==> domains[i] == rest[i - 1];
      assert forall i :: 0 <= i < |rest| ==> rest[i] == domains[i + 1];
      if domains[0].value.Array? {
        var dialogues := domains[0].value.items;
        var first := DomainCasesMeaning(domains[0].key, dialogues, known);
        BothFine(EntriesOf(domains[0].key, dialogues), ListedDialogues(rest), known);
        if DomainCases(domains[0].key, dialogues, known).Ok? && AllCases(rest, known).Ok? {
          BothYield(EntriesOf(domains[0].key, dialogues), first, ListedDialogues(rest), parts, known);
        }
        parts := first + parts;
      }
    }
  }

  /**
    The cases of a payload are read when every dialogue of every domain is fine, and
    are those of the dialogues in their order; two with the same identifier are refused.
   */
  lemma {:induction false} CasesMeaning(payload: seq<Member>, known: set<string>)
    ensures
      (forall domains :: Get(payload, "dial_data") != Some(Object(domains))) ==>
        Cases(payload, known) == Err(NotMapping("dial_data"))
    ensures forall domains :: Get(payload, "dial_data") == Some(Object(domains)) ==>
      var entries := ListedDialogues(SortMembers(domains));
      if AllLists(SortMembers(domains)) && AllFine(entries, known)
      then exists parts :: EachYields(entries, known, parts) &&
             Cases(payload, known) ==
               if Distinct(CaseIds(Flatten(parts))) then Ok(Flatten(parts)) else Err(DuplicateCases)
      else Cases(payload, known).Err?
  {
    var data := Get(payload, "dial_data");
    if data.Some? && data.value.Object? {
      var domains := SortMembers(data.value.members);
      var parts := AllCasesMeaning(domains, known);
      assert data == Some(Object(data.value.members));
      if AllCases(domains, known).Ok? {
        DistinctByCount(CaseIds(Flatten(parts)));
        assert EachYields(ListedDialogues(domains), known, parts);
      }
    }
  }

  /** A dataset is what both payloads convert to, the cases knowing the documents; neither may be empty. */
  lemma ConvertMeaning(documentsPayload: seq<Member>, dialoguesPayload: seq<Member>, revision: string, sha256: string)
    ensures forall dataset: Dataset ::
      Convert(documentsPayload, dialoguesPayload, revision, sha256) == Ok(dataset) <==>
        && dataset.revision == revision && dataset.sourceSha256 == sha256
        && Documents(documentsPayload) == Ok(dataset.documents) && dataset.documents != []
        && Cases(dialoguesPayload, Elements(DocumentIds(dataset.documents))) == Ok(dataset.cases)
        && dataset.cases != []
    ensures
      var documents, converted := Documents(documentsPayload),
          Convert(documentsPayload, dialoguesPayload, revision, sha256);
      if documents.Err? then converted == Err(documents.error)
      else
        var cases := Cases(dialoguesPayload, Elements(DocumentIds(documents.value)));
        if cases.Err? then converted == Err(cases.error)
        else converted == Err(NothingUsable) <==> documents.value == [] || cases.value == []
  {
  }

  // ----- Which defect is raised -----------------------------------------------

  /** The first entry of a domain that cannot be read gives its own defect. */
  lemma {:induction false} FirstBadEntry(domain: string, members: seq<Member>) returns (k: nat)
    requires DomainDocuments(domain, members).Err?
    ensures k < |members| && ReadDocument(domain, members[k].value) == Err(DomainDocuments(domain, members).error)
    ensures forall l :: 0 <= l < k ==> ReadDocument(domain, members[l].value).Ok?
  {
    k := 0;
    if ReadDocument(domain, members[0].value).Ok? {
      var m := FirstBadEntry(domain, members[1..]);
      k := m + 1;
      assert forall l :: 0 < l <= k ==> members[l] == members[1..][l - 1];
    }
  }

  /** The first domain that is no mapping, or has an unreadable entry, gives the defect of the documents. */
  lemma {:induction false} FirstBadDomain(domains: seq<Member>) returns (i: nat)
    requires AllDocuments(domains).Err?
    ensures i < |domains|
    ensures forall l :: 0 <= l < i ==>
      domains[l].value.Object? && DomainDocuments(domains[l].key, SortMembers(domains[l].value.members)).Ok?
    ensures
      if !domains[i].value.Object? then AllDocuments(domains).error == NotMapping("doc_data." + domains[i].key)
      else DomainDocuments(domains[i].key, SortMembers(domains[i].value.members)) == Err(AllDocuments(domains).error)
  {
    i := 0;
    if domains[0].value.Object? && DomainDocuments(domains[0].key, SortMembers(domains[0].value.members)).Ok? {
      var m := FirstBadDomain(domains[1..]);
      i := m + 1;
      assert forall l :: 0 < l <= i ==> domains[l] == domains[1..][l - 1];
    }
  }

  /** What the first turn that is not fine raises. */
  ghost predicate TurnRaises(turns: seq<Json>, known: set<string>, j: nat, e: SourceError)
    requires j < |turns|
  {
    var turn := TurnAt(turns, j);
    if ReadTurn(turns[j]).Err? then ReadTurn(turns[j]) == Err(e)
    else if turn.role != "user" && turn.role != "agent" then e == InvalidRole
    else if turn.references.None? || !turn.references.value.Array? then e == NotSequence("references")
    else ReadReferences(turn.references.value.items, known) == Err(e)
  }

  lemma BadTurn(step: Stepper, domain: string, dialogueId: string, known: set<string>, turns: seq<Json>, j: nat)
    requires j < |turns| && !TurnFine(turns, known, j) && step == TurnStepper(domain, dialogueId, known)
    ensures
      var next := step(StateAt(domain, dialogueId, known, turns, j), turns[j]);
      next.Err? && TurnRaises(turns, known, j, next.error)
  {
    StepMeaning(domain, dialogueId, known, turns, j);
  }

  lemma {:induction false} FirstBadTurn(step: Stepper, domain: string, dialogueId: string, known: set<string>,
      turns: seq<Json>, i: nat) returns (j: nat)
    requires i <= |turns| && step == TurnStepper(domain, dialogueId, known)
    requires forall k :: 0 <= k < |turns| ==> StepAs(step, domain, dialogueId, known, turns, k)
    requires StepTurns(step, StateAt(domain, dialogueId, known, turns, i), turns[i..]).Err?
    ensures i <= j < |turns| && !TurnFine(turns, known, j)
    ensures forall k :: i <= k < j ==> TurnFine(turns, known, k)
    ensures TurnRaises(turns, known, j, StepTurns(step, StateAt(domain, dialogueId, known, turns, i), turns[i..]).error)
    decreases |turns| - i
  {
    if i < |turns| {
      assert StepAs(step, domain, dialogueId, known, turns, i);
      StepTurnsAt(step, StateAt(domain, dialogueId, known, turns, i), turns, i);
      if TurnFine(turns, known, i) {
        j := FirstBadTurn(step, domain, dialogueId, known, turns, i + 1);
      } else {
        j := i;
        BadTurn(step, domain, dialogueId, known, turns, i);
      }
    }
  }

  /** A dialogue that is not fine raises what is missing, or the defect of its first turn that is not fine. */
  lemma {:induction false} DialogueRaises(domain: string, raw: Json, known: set<string>) returns (j: nat)
    requires DialogueCases(domain, raw, known).Err?
    ensures
      var e := DialogueCases(domain, raw, known).error;
      if !raw.Object? then e == NotMapping("dialogue")
      else if !HasText(raw.members, "dial_id") then e == NotText("dial_id")
      else if forall turns :: Get(raw.members, "turns") != Some(Array(turns)) then e == NotSequence("turns")
      else
        var turns := Get(raw.members, "turns").value.items;
        && j < |turns| && !TurnFine(turns, known, j) && TurnRaises(turns, known, j, e)
        && forall k :: 0 <= k < j ==> TurnFine(turns, known, k)
  {
    j := 0;
    if raw.Object? {
      TextRead(raw.members, "dial_id", "dial_id");
      var found := Get(raw.members, "turns");
      if HasText(raw.members, "dial_id") && found.Some? && found.value.Array? {
        var id, turns := Get(raw.members, "dial_id").value.s, found.value.items;
        var step := TurnStepper(domain, id, known);
        forall k | 0 <= k < |turns| ensures StepAs(step, domain, id, known, turns, k) {
          StepMeaning(domain, id, known, turns, k);
        }
        assert turns[0..] == turns && HistoryBefore(turns, 0) == [];
        assert StateAt(domain, id, known, turns, 0) == START;
        assert found == Some(Array(turns));
        j := FirstBadTurn(step, domain, id, known, turns, 0);
      }
    }
  }

  lemma {:induction false} FirstBadDialogue(domain: string, dialogues: seq<Json>, known: set<string>) returns (k: nat)
    requires DomainCases(domain, dialogues, known).Err?
    ensures k < |dialogues|
    ensures DialogueCases(domain, dialogues[k], known) == Err(DomainCases(domain, dialogues, known).error)
    ensures forall l :: 0 <= l < k ==> DialogueCases(domain, dialogues[l], known).Ok?
  {
    k := 0;
    if DialogueCases(domain, dialogues[0], known).Ok? {
      var m := FirstBadDialogue(domain, dialogues[1..], known);
      k := m + 1;
      assert forall l :: 0 < l <= k ==> dialogues[l] == dialogues[1..][l - 1];
    }
  }

  /** The first domain that is no list, or has a dialogue that is not fine, gives the defect of the cases. */
  lemma {:induction false} FirstBadList(domains: seq<Member>, known: set<string>) returns (i: nat)
    requires AllCases(domains, known).Err?
    ensures i < |domains|
    ensures forall l :: 0 <= l < i ==>
      domains[l].value.Array? && DomainCases(domains[l].key, domains[l].value.items, known).Ok?
    ensures
      if !domains[i].value.Array? then AllCases(domains, known).error == NotSequence("dial_data." + domains[i].key)
      else DomainCases(domains[i].key, domains[i].value.items, known) == Err(AllCases(domains, known).error)
  {
    i := 0;
    if domains[0].value.Array? && DomainCases(domains[0].key, domains[0].value.items, known).Ok? {
      var m := FirstBadList(domains[1..], known);
      i := m + 1;
      assert forall l :: 0 < l <= i ==> domains[l] == domains[1..][l - 1];
    }
  }
}
