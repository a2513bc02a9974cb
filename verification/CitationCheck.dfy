/**
  Verification of submitted citations against the authorised roots and leaves, and
  the filtering of ranked search results.

  The repository's answers, one row per id, are the maps `roots` and `leaves`.
 */
module CitationCheck {
  import opened Prelude
  import opened Text
  import opened Json

  type Uuid = nat

  const MAX_QUOTE := 4_000

  datatype StoredRoot = StoredRoot(rootId: string, documentId: Uuid, versionId: Uuid, text: string)

  datatype StoredLeaf = StoredLeaf(leafId: string, rootId: string, documentId: Uuid, versionId: Uuid)

  /** Rows are stored under their own ids. */
  predicate Keyed(roots: map<string, StoredRoot>, leaves: map<string, StoredLeaf>) {
    && (forall id :: id in roots ==> roots[id].rootId == id)
    && (forall id :: id in leaves ==> leaves[id].leafId == id)
  }

  datatype Submitted = Submitted(
    index: nat, citationId: int, documentId: Option<Uuid>, rootId: Option<string>, leafIds: seq<string>,
    quote: Option<string>, invalid: bool)

  datatype Code = InvalidCitation | DuplicateCitation | UnknownRoot | DocumentMismatch | InvalidLeaf | QuoteNotFound

  datatype Issue = Issue(index: nat, code: Code)

  datatype Verdict = Verdict(valid: bool, citationCount: nat, verifiedCount: nat, issues: seq<Issue>)

  // ----- Reading one citation -------------------------------------------------

  function TextItems(items: seq<Json>): Option<seq<string>> {
    if items == [] then Some([])
    else
      var later := TextItems(items[1..]);
      if items[0].String? && later.Some? then Some([items[0].s] + later.value) else None
  }

  predicate AllStartWith(texts: seq<string>, prefix: string) {
    forall i :: 0 <= i < |texts| ==> StartsWith(texts[i], prefix)
  }

  /** `_citation`, where `parseUuid` is the UUID constructor; any defect makes the citation invalid. */
  function ReadCitation(parseUuid: string -> Option<Uuid>, value: seq<Member>, index: nat): Submitted {
    var bad := Submitted(index, index, None, None, [], None, true);
    var id := if Has(value, "id") then Get(value, "id").value else Int(index);
    var rawDocument, root, quote := Get(value, "document_id"), Get(value, "root_id"), Get(value, "quote");
    var rawLeaves := if Has(value, "chunk_ids") then Get(value, "chunk_ids").value
                     else if Has(value, "leaf_ids") then Get(value, "leaf_ids").value else Array([]);
    if !(id.Int? && id.i > 0) then bad
    else
      var document := if rawDocument.Some? && rawDocument.value.String? then parseUuid(rawDocument.value.s) else None;
      if rawDocument.Some? && rawDocument.value.String? && document.None? then bad
      else if !(root.Some? && root.value.String? && StartsWith(root.value.s, "root_")) then bad
      else if !rawLeaves.Array? then bad
      else
        var leafIds := TextItems(rawLeaves.items);
        if leafIds.None? || !AllStartWith(leafIds.value, "leaf_") then bad
        else if !(quote.Some? && quote.value.String? && !PyBlank(quote.value.s) && |quote.value.s| <= MAX_QUOTE)
            then bad
        else Submitted(index, id.i, document, Some(root.value.s), leafIds.value, Some(quote.value.s), false)
  }

  function ReadCitations(parseUuid: string -> Option<Uuid>, citations: seq<seq<Member>>): (parsed: seq<Submitted>)
    ensures |parsed| == |citations|
    ensures forall i :: 0 <= i < |parsed| ==> parsed[i].index == i + 1
  {
    seq(|citations|, i requires 0 <= i < |citations| => ReadCitation(parseUuid, citations[i], i + 1))
  }

  lemma {:induction false} TextItemsMeaning(items: seq<Json>)
    ensures
      var texts := TextItems(items);
      && (texts.Some? <==> forall i :: 0 <= i < |items| ==> items[i].String?)
      && (texts.Some? ==>
            |texts.value| == |items| && forall i :: 0 <= i < |items| ==> items[i] == String(texts.value[i]))
  {
    if items != [] {
      TextItemsMeaning(items[1..]);
    }
  }

  /** An array of leaf keys. */
  predicate LeafKeys(v: Json) {
    v.Array? && forall i :: 0 <= i < |v.items| ==> v.items[i].String? && StartsWith(v.items[i].s, "leaf_")
  }

  /**
    A citation is acceptable: its id, when given, is a positive integer; a textual
    document id is a UUID; the root is a root key; whichever list of leaves is given,
    `chunk_ids` before `leaf_ids`, holds leaf keys only; and the quote is neither
    blank nor too long.
   */
  predicate Acceptable(parseUuid: string -> Option<Uuid>, value: seq<Member>) {
    var id, document, root := Get(value, "id"), Get(value, "document_id"), Get(value, "root_id");
    var chunks, leaves, quote := Get(value, "chunk_ids"), Get(value, "leaf_ids"), Get(value, "quote");
    && (id.Some? ==> id.value.Int? && id.value.i > 0)
    && (IsText(document) ==> parseUuid(document.value.s).Some?)
    && IsText(root) && StartsWith(root.value.s, "root_")
    && (chunks.Some? ==> LeafKeys(chunks.value))
    && (chunks.None? && leaves.Some? ==> LeafKeys(leaves.value))
    && IsText(quote) && !PyBlank(quote.value.s) && |quote.value.s| <= MAX_QUOTE
  }

  /** The leaf items of a citation; none when neither list is given. */
  function LeafItems(value: seq<Member>): Json {
    if Has(value, "chunk_ids") then Get(value, "chunk_ids").value
    else if Has(value, "leaf_ids") then Get(value, "leaf_ids").value else Array([])
  }

  /**
    A citation is read exactly when it is acceptable, and then with the values it
    gives; any other carries nothing but its position.
   */
  lemma {:induction false} ReadCitationMeaning(parseUuid: string -> Option<Uuid>, value: seq<Member>, index: nat)
    requires index > 0
    ensures
      var c := ReadCitation(parseUuid, value, index);
      && c.index == index && c.citationId > 0
      && (c.invalid <==> !Acceptable(parseUuid, value))
      && (c.invalid ==> c == Submitted(index, index, None, None, [], None, true))
      && (!c.invalid ==>
            && c.citationId == (if Has(value, "id") then Get(value, "id").value.i else index)
            && Get(value, "root_id") == Some(String(c.rootId.value))
            && |c.leafIds| == |LeafItems(value).items|
            && (forall i :: 0 <= i < |c.leafIds| ==> LeafItems(value).items[i] == String(c.leafIds[i]))
            && Get(value, "quote") == Some(String(c.quote.value))
            && c.documentId == (var d := Get(value, "document_id"); if IsText(d) then parseUuid(d.value.s) else None))
  {
    var leaves := LeafItems(value);
    if leaves.Array? {
      TextItemsMeaning(leaves.items);
      LeafKeysExactly(leaves);
    }
  }

  lemma LeafKeysExactly(v: Json)
    requires v.Array?
    ensures LeafKeys(v) <==> TextItems(v.items).Some? && AllStartWith(TextItems(v.items).value, "leaf_")
  {
    TextItemsMeaning(v.items);
    var texts := TextItems(v.items);
    if texts.Some? {
      assert forall i :: 0 <= i < |v.items| ==> v.items[i].s == texts.value[i];
    }
  }

  predicate IsText(v: Option<Json>) {
    v.Some? && v.value.String?
  }

  // ----- What makes a citation good -------------------------------------------

  predicate LeavesHold(leaves: map<string, StoredLeaf>, leafIds: seq<string>, rootId: string) {
    leafIds != [] &&
    forall i :: 0 <= i < |leafIds| ==> leafIds[i] in leaves && leaves[leafIds[i]].rootId == rootId
  }

  predicate QuoteHolds(quote: Option<string>, text: string) {
    quote.Some? && Contains(text, quote.value)
  }

  /** Another well-formed citation before this one has the same id. */
  predicate IdUsedBefore(parsed: seq<Submitted>, i: nat)
    requires i < |parsed|
  {
    exists j :: 0 <= j < i && !parsed[j].invalid && parsed[j].citationId == parsed[i].citationId
  }

  /** Well formed, of a fresh id, and quoting text of an authorised root with leaves all of that root. */
  predicate Verified(roots: map<string, StoredRoot>, leaves: map<string, StoredLeaf>, parsed: seq<Submitted>, i: nat)
    requires i < |parsed|
  {
    var c := parsed[i];
    && !c.invalid && !IdUsedBefore(parsed, i)
    && c.rootId.Some? && c.rootId.value in roots
    && (c.documentId.Some? ==> c.documentId.value == roots[c.rootId.value].documentId)
    && LeavesHold(leaves, c.leafIds, c.rootId.value)
    && QuoteHolds(c.quote, roots[c.rootId.value].text)
  }

  /** What the checks of one citation find. */
  datatype Findings = Findings(
    invalid: bool, idUsed: bool, rootKnown: bool, documentDiffers: bool, leavesHold: bool, quoteHolds: bool)

  function FindingsFor(roots: map<string, StoredRoot>, leaves: map<string, StoredLeaf>, c: Submitted, idUsed: bool):
    Findings
  {
    if c.rootId.Some? && c.rootId.value in roots then
      var root := roots[c.rootId.value];
      Findings(c.invalid, idUsed, true, c.documentId.Some? && c.documentId.value != root.documentId,
               LeavesHold(leaves, c.leafIds, c.rootId.value), QuoteHolds(c.quote, root.text))
    else Findings(c.invalid, idUsed, false, false, false, false)
  }

  function FindingsOf(roots: map<string, StoredRoot>, leaves: map<string, StoredLeaf>, parsed: seq<Submitted>, i: nat):
    Findings
    requires i < |parsed|
  {
    FindingsFor(roots, leaves, parsed[i], IdUsedBefore(parsed, i))
  }

  /** The defects of one citation, in the order in which they are looked for. */
  function Codes(f: Findings): seq<Code> {
    if f.invalid then [InvalidCitation]
    else
      (if f.idUsed then [DuplicateCitation] else []) +
      if !f.rootKnown then [UnknownRoot] else RootCodes(f)
  }

  /** The defects of a citation against the root it names. */
  function RootCodes(f: Findings): seq<Code> {
    (if f.documentDiffers then [DocumentMismatch] else []) +
    (if f.leavesHold then [] else [InvalidLeaf]) +
    (if f.quoteHolds then [] else [QuoteNotFound])
  }

  function Defects(roots: map<string, StoredRoot>, leaves: map<string, StoredLeaf>, parsed: seq<Submitted>):
    (defects: seq<seq<Code>>)
    ensures |defects| == |parsed|
  {
    seq(|parsed|, i requires 0 <= i < |parsed| => Codes(FindingsOf(roots, leaves, parsed, i)))
  }

  function IssuesOf(index: nat, codes: seq<Code>): seq<Issue> {
    seq(|codes|, k requires 0 <= k < |codes| => Issue(index, codes[k]))
  }

  /** Every defect of every citation, under indices counted from one. */
  function AllIssues(defects: seq<seq<Code>>): seq<Issue> {
    if defects == [] then []
    else AllIssues(defects[..|defects| - 1]) + IssuesOf(|defects|, defects[|defects| - 1])
  }

  function CountFlawless(defects: seq<seq<Code>>): nat {
    if defects == [] then 0
    else CountFlawless(defects[..|defects| - 1]) + if defects[|defects| - 1] == [] then 1 else 0
  }

  lemma NoDefectsExactly(roots: map<string, StoredRoot>, leaves: map<string, StoredLeaf>, parsed: seq<Submitted>,
      i: nat)
    requires i < |parsed|
    ensures Defects(roots, leaves, parsed)[i] == [] <==> Verified(roots, leaves, parsed, i)
  {
  }

  // ----- The checking loop ----------------------------------------------------

  /** `_issue`: the issue ends up listed, behind what was listed before and at most once. */
  method AddIssue(items: seq<Issue>, index: nat, code: Code) returns (r: seq<Issue>)
    ensures items <= r && Issue(index, code) in r
    ensures |r| == |items| + if Issue(index, code) in items then 0 else 1
    ensures Distinct(items) ==> Distinct(r)
  {
    var item := Issue(index, code);
    r := items;
    if item !in r {
      r := r + [item];
    }
  }

  function SeenIds(parsed: seq<Submitted>, n: nat): set<int>
    requires n <= |parsed|
  {
    set j | 0 <= j < n && !parsed[j].invalid :: parsed[j].citationId
  }

  /** A code not yet reported for this citation has been appended to those that are. */
  lemma CodeAdded(items: seq<Issue>, index: nat, codes: seq<Code>, code: Code, r: seq<Issue>)
    requires code !in codes && forall issue :: issue in items ==> issue.index != index || issue.code != code
    requires
      var before := items + IssuesOf(index, codes);
      && before <= r && Issue(index, code) in r
      && |r| == |before| + if Issue(index, code) in before then 0 else 1
    ensures r == items + IssuesOf(index, codes + [code])
  {
    var before := items + IssuesOf(index, codes);
    assert Issue(index, code) !in IssuesOf(index, codes);
    assert r == before + [r[|before|]];
    assert IssuesOf(index, codes + [code]) == IssuesOf(index, codes) + [Issue(index, code)];
  }

  /** The checks against a known root, none of which has been reported yet. */
  method ReportRoot(items: seq<Issue>, index: nat, f: Findings) returns (after: seq<Issue>)
    requires forall issue :: issue in items && issue.index == index ==> issue.code == DuplicateCitation
    ensures after == items + IssuesOf(index, RootCodes(f))
  {
    ghost var codes: seq<Code> := [];
    assert items == items + IssuesOf(index, codes);
    after := items;
    if f.documentDiffers {
      after := AddIssue(after, index, DocumentMismatch);
      CodeAdded(items, index, codes, DocumentMismatch, after);
      codes := codes + [DocumentMismatch];
    }
    if !f.leavesHold {
      after := AddIssue(after, index, InvalidLeaf);
      CodeAdded(items, index, codes, InvalidLeaf, after);
      codes := codes + [InvalidLeaf];
    }
    if !f.quoteHolds {
      after := AddIssue(after, index, QuoteNotFound);
      CodeAdded(items, index, codes, QuoteNotFound, after);
      codes := codes + [QuoteNotFound];
    }
    assert codes == RootCodes(f);
  }

  lemma IssuesTogether(index: nat, a: seq<Code>, b: seq<Code>)
    ensures IssuesOf(index, a) + IssuesOf(index, b) == IssuesOf(index, a + b)
  {
  }

  /** Reports what the checks found; nothing of it is listed yet, so nothing is suppressed. */
  method Report(issues: seq<Issue>, index: nat, f: Findings) returns (after: seq<Issue>)
    requires forall issue :: issue in issues ==> issue.index != index
    ensures after == issues + IssuesOf(index, Codes(f))
  {
    ghost var codes: seq<Code> := [];
    assert issues == issues + IssuesOf(index, codes);
    after := issues;
    if f.invalid {
      after := AddIssue(after, index, InvalidCitation);
      CodeAdded(issues, index, codes, InvalidCitation, after);
      return;
    }
    if f.idUsed {
      after := AddIssue(after, index, DuplicateCitation);
      CodeAdded(issues, index, codes, DuplicateCitation, after);
      codes := [DuplicateCitation];
    }
    if !f.rootKnown {
      after := AddIssue(after, index, UnknownRoot);
      CodeAdded(issues, index, codes, UnknownRoot, after);
      return;
    }
    after := ReportRoot(after, index, f);
    IssuesTogether(index, codes, RootCodes(f));
    assert after == issues + (IssuesOf(index, codes) + IssuesOf(index, RootCodes(f)));
  }

  lemma SeenExactly(parsed: seq<Submitted>, i: nat)
    requires i < |parsed|
    ensures parsed[i].citationId in SeenIds(parsed, i) <==> IdUsedBefore(parsed, i)
  {
  }

  /** The findings as the loop computes them, from the ids seen so far and the loaded rows. */
  method Examine(roots: map<string, StoredRoot>, leaves: map<string, StoredLeaf>, seen: set<int>, item: Submitted)
    returns (f: Findings)
    requires Keyed(roots, leaves)
    ensures f == FindingsFor(roots, leaves, item, item.citationId in seen)
  {
    var duplicate := item.citationId in seen;
    if item.rootId.None? || item.rootId.value !in roots {
      return Findings(item.invalid, duplicate, false, false, false, false);
    }
    var root := roots[item.rootId.value];
    return Findings(item.invalid, duplicate, true,
                    item.documentId.Some? && item.documentId.value != root.documentId,
                    LeavesHold(leaves, item.leafIds, root.rootId), QuoteHolds(item.quote, root.text));
  }

  lemma OneCitationMore(defects: seq<seq<Code>>, i: nat)
    requires i < |defects|
    ensures AllIssues(defects[..i + 1]) == AllIssues(defects[..i]) + IssuesOf(i + 1, defects[i])
    ensures |AllIssues(defects[..i + 1])| == |AllIssues(defects[..i])| + |defects[i]|
    ensures CountFlawless(defects[..i + 1]) == CountFlawless(defects[..i]) + if defects[i] == [] then 1 else 0
  {
    assert defects[..i + 1][..i] == defects[..i];
  }

  method VerifyAnswer(roots: map<string, StoredRoot>, leaves: map<string, StoredLeaf>, parsed: seq<Submitted>)
    returns (verdict: Verdict)
    requires Keyed(roots, leaves)
    requires forall i :: 0 <= i < |parsed| ==> parsed[i].index == i + 1
    ensures
      var defects := Defects(roots, leaves, parsed);
      verdict == Verdict(AllIssues(defects) == [], |parsed|, CountFlawless(defects), AllIssues(defects))
  {
    var issues: seq<Issue> := [];
    var verified := 0;
    var seen: set<int> := {};
    var i := 0;
    ghost var defects := Defects(roots, leaves, parsed);
    while i < |parsed|
      invariant 0 <= i <= |parsed|
      invariant issues == AllIssues(defects[..i]) && verified == CountFlawless(defects[..i])
      invariant seen == SeenIds(parsed, i)
    {
      var before := |issues|;
      IssueIndices(defects[..i]);
      OneCitationMore(defects, i);
      SeenExactly(parsed, i);
      var findings := Examine(roots, leaves, seen, parsed[i]);
      issues := Report(issues, parsed[i].index, findings);
      if !parsed[i].invalid {
        seen := seen + {parsed[i].citationId};
      }
      if |issues| == before {
        verified := verified + 1;
      }
      i := i + 1;
    }
    assert defects[..i] == defects;
    return Verdict(issues == [], |parsed|, verified, issues);
  }

  // ----- What the verdict means -----------------------------------------------

  lemma {:induction false} IssueIndices(defects: seq<seq<Code>>)
    ensures forall issue :: issue in AllIssues(defects) ==> 1 <= issue.index <= |defects|
  {
    if defects != [] {
      IssueIndices(defects[..|defects| - 1]);
    }
  }

  function Flawless(defects: seq<seq<Code>>): set<nat> {
    set i | 0 <= i < |defects| && defects[i] == []
  }

  lemma FlawlessSnoc(init: seq<seq<Code>>, last: seq<Code>)
    ensures Flawless(init + [last]) == Flawless(init) + if last == [] then {|init|} else {}
    ensures |Flawless(init + [last])| == |Flawless(init)| + if last == [] then 1 else 0
  {
    var longer := init + [last];
    assert forall i :: 0 <= i < |init| ==> longer[i] == init[i];
    assert Flawless(longer) == Flawless(init) + if last == [] then {|init|} else {};
  }

  lemma {:induction false} FlawlessCount(defects: seq<seq<Code>>)
    ensures CountFlawless(defects) == |Flawless(defects)|
  {
    if defects != [] {
      var init, last := defects[..|defects| - 1], defects[|defects| - 1];
      assert defects == init + [last];
      FlawlessCount(init);
      FlawlessSnoc(init, last);
    }
  }

  lemma {:induction false} AllFlawless(defects: seq<seq<Code>>)
    ensures CountFlawless(defects) <= |defects|
    ensures CountFlawless(defects) == |defects| <==> AllIssues(defects) == []
    ensures AllIssues(defects) == [] <==> forall i :: 0 <= i < |defects| ==> defects[i] == []
  {
    if defects != [] {
      var n := |defects| - 1;
      AllFlawless(defects[..n]);
      assert defects[..n + 1] == defects;
      OneCitationMore(defects, n);
      assert forall i :: 0 <= i < n ==> defects[..n][i] == defects[i];
    }
  }

  /** The count is that of the verified citations, and the answer is valid exactly when that is all of them. */
  lemma VerdictMeaning(roots: map<string, StoredRoot>, leaves: map<string, StoredLeaf>, parsed: seq<Submitted>)
    ensures
      var defects := Defects(roots, leaves, parsed);
      && CountFlawless(defects) == |set i | 0 <= i < |parsed| && Verified(roots, leaves, parsed, i)|
      && (AllIssues(defects) == [] <==> CountFlawless(defects) == |parsed|)
      && (AllIssues(defects) == [] <==> forall i :: 0 <= i < |parsed| ==> Verified(roots, leaves, parsed, i))
  {
    var defects := Defects(roots, leaves, parsed);
    FlawlessCount(defects);
    AllFlawless(defects);
    forall i | 0 <= i < |parsed| ensures defects[i] == [] <==> Verified(roots, leaves, parsed, i) {
      NoDefectsExactly(roots, leaves, parsed, i);
    }
    assert Flawless(defects) == (set i | 0 <= i < |parsed| && Verified(roots, leaves, parsed, i));
  }

  lemma CodesDistinct(f: Findings)
    ensures Distinct(Codes(f))
  {
  }

  /** No issue is reported twice. */
  lemma {:induction false} IssuesDistinct(defects: seq<seq<Code>>)
    requires forall i :: 0 <= i < |defects| ==> Distinct(defects[i])
    ensures Distinct(AllIssues(defects))
  {
    if defects != [] {
      var init, last := defects[..|defects| - 1], defects[|defects| - 1];
      IssuesDistinct(init);
      IssueIndices(init);
      var earlier := AllIssues(init);
      assert forall k :: 0 <= k < |earlier| ==> earlier[k] in earlier;
      assert Distinct(last);
      assert Distinct(IssuesOf(|defects|, last));
    }
  }

  lemma ReportedIssuesDistinct(roots: map<string, StoredRoot>, leaves: map<string, StoredLeaf>, parsed: seq<Submitted>)
    ensures Distinct(AllIssues(Defects(roots, leaves, parsed)))
  {
    forall i | 0 <= i < |parsed| ensures Distinct(Defects(roots, leaves, parsed)[i]) {
      CodesDistinct(FindingsOf(roots, leaves, parsed, i));
    }
    IssuesDistinct(Defects(roots, leaves, parsed));
  }

  /** An issue is listed exactly when the citation of its index has that defect. */
  lemma {:induction false} IssuesAreDefects(defects: seq<seq<Code>>, issue: Issue)
    ensures issue in AllIssues(defects) <==>
            1 <= issue.index <= |defects| && issue.code in defects[issue.index - 1]
  {
    if defects != [] {
      var n, last := |defects|, defects[|defects| - 1];
      IssuesAreDefects(defects[..n - 1], issue);
      assert issue in IssuesOf(n, last) <==> issue.index == n && issue.code in last by {
        if issue.index == n && issue.code in last {
          var k :| 0 <= k < |last| && last[k] == issue.code;
          assert IssuesOf(n, last)[k] == issue;
        }
      }
    }
  }

  /** A text stands somewhere in another. */
  ghost predicate StandsIn(quote: string, text: string) {
    exists before, after :: text == before + quote + after
  }

  lemma ContainsExactly(text: string, quote: string)
    ensures Contains(text, quote) <==> StandsIn(quote, text)
  {
    if Contains(text, quote) {
      var k :| 0 <= k <= |text| && OccursAt(text, quote, k);
      assert text == text[..k] + quote + text[k + |quote|..];
    }
    if StandsIn(quote, text) {
      var before, after :| text == before + quote + after;
      assert text[|before|..] == quote + after && OccursAt(text, quote, |before|);
    }
  }

  /** The condition of each code, in terms of the citation, the roots and the leaves. */
  ghost predicate HasDefect(roots: map<string, StoredRoot>, leaves: map<string, StoredLeaf>, parsed: seq<Submitted>,
                            i: nat, code: Code)
    requires i < |parsed|
  {
    var c := parsed[i];
    var known := c.rootId.Some? && c.rootId.value in roots;
    match code
    case InvalidCitation => c.invalid
    case DuplicateCitation =>
      !c.invalid && exists j :: 0 <= j < i && !parsed[j].invalid && parsed[j].citationId == c.citationId
    case UnknownRoot => !c.invalid && !known
    case DocumentMismatch =>
      !c.invalid && known && c.documentId.Some? && c.documentId.value != roots[c.rootId.value].documentId
    case InvalidLeaf =>
      && !c.invalid && known
      && (c.leafIds == []
          || exists k :: 0 <= k < |c.leafIds| &&
               (c.leafIds[k] !in leaves || leaves[c.leafIds[k]].rootId != c.rootId.value))
    case QuoteNotFound =>
      !c.invalid && known && !(c.quote.Some? && StandsIn(c.quote.value, roots[c.rootId.value].text))
  }

  /** Each code is found exactly under its own condition. */
  lemma EachCodeExactly(roots: map<string, StoredRoot>, leaves: map<string, StoredLeaf>, parsed: seq<Submitted>,
      i: nat, code: Code)
    requires i < |parsed|
    ensures code in Defects(roots, leaves, parsed)[i] <==> HasDefect(roots, leaves, parsed, i, code)
  {
    var c := parsed[i];
    CodesExactly(FindingsOf(roots, leaves, parsed, i), code);
    if c.rootId.Some? && c.rootId.value in roots && c.quote.Some? {
      ContainsExactly(roots[c.rootId.value].text, c.quote.value);
    }
  }

  lemma CodesExactly(f: Findings, code: Code)
    ensures code in Codes(f) <==> match code
      case InvalidCitation => f.invalid
      case DuplicateCitation => !f.invalid && f.idUsed
      case UnknownRoot => !f.invalid && !f.rootKnown
      case DocumentMismatch => !f.invalid && f.rootKnown && f.documentDiffers
      case InvalidLeaf => !f.invalid && f.rootKnown && !f.leavesHold
      case QuoteNotFound => !f.invalid && f.rootKnown && !f.quoteHolds
  {
  }

  /** The order in which the defects of one citation are looked for. */
  function Place(code: Code): nat {
    match code
    case InvalidCitation => 0
    case DuplicateCitation => 1
    case UnknownRoot => 2
    case DocumentMismatch => 3
    case InvalidLeaf => 4
    case QuoteNotFound => 5
  }

  /** Issues by citation, and for one citation in the order in which they are looked for. */
  ghost predicate InPlace(issues: seq<Issue>) {
    forall k, l :: 0 <= k < l < |issues| ==>
      || issues[k].index < issues[l].index
      || (issues[k].index == issues[l].index && Place(issues[k].code) < Place(issues[l].code))
  }

  lemma CodesInPlace(f: Findings)
    ensures forall k, l :: 0 <= k < l < |Codes(f)| ==> Place(Codes(f)[k]) < Place(Codes(f)[l])
  {
  }

  lemma {:induction false} IssuesInPlace(defects: seq<seq<Code>>)
    requires forall i :: 0 <= i < |defects| ==>
      forall k, l :: 0 <= k < l < |defects[i]| ==> Place(defects[i][k]) < Place(defects[i][l])
    ensures InPlace(AllIssues(defects))
  {
    if defects != [] {
      var init, last := defects[..|defects| - 1], defects[|defects| - 1];
      IssuesInPlace(init);
      IssueIndices(init);
      var earlier := AllIssues(init);
      assert forall k :: 0 <= k < |earlier| ==> earlier[k] in earlier;
      assert InPlace(IssuesOf(|defects|, last));
    }
  }

  /**
    From the submitted citations to the verdict: what is counted, when the answer is
    valid, and which issues are listed, each once.
   */
  method CheckAnswer(parseUuid: string -> Option<Uuid>, roots: map<string, StoredRoot>,
                     leaves: map<string, StoredLeaf>, citations: seq<seq<Member>>) returns (verdict: Verdict)
    requires Keyed(roots, leaves)
    ensures
      var parsed := ReadCitations(parseUuid, citations);
      && verdict.citationCount == |citations|
      && verdict.verifiedCount == |set i | 0 <= i < |parsed| && Verified(roots, leaves, parsed, i)|
      && (verdict.valid <==> forall i :: 0 <= i < |parsed| ==> Verified(roots, leaves, parsed, i))
      && Distinct(verdict.issues)
      && (forall issue :: issue in verdict.issues <==>
            1 <= issue.index <= |parsed| && issue.code in Defects(roots, leaves, parsed)[issue.index - 1])
      && (forall issue :: issue in verdict.issues <==>
            1 <= issue.index <= |parsed| && HasDefect(roots, leaves, parsed, issue.index - 1, issue.code))
      && InPlace(verdict.issues)
  {
    var parsed := ReadCitations(parseUuid, citations);
    verdict := VerifyAnswer(roots, leaves, parsed);
    VerdictMeaning(roots, leaves, parsed);
    ReportedIssuesDistinct(roots, leaves, parsed);
    forall issue: Issue
      ensures issue in verdict.issues <==>
        1 <= issue.index <= |parsed| && issue.code in Defects(roots, leaves, parsed)[issue.index - 1]
      ensures 1 <= issue.index <= |parsed| ==>
        (issue.code in Defects(roots, leaves, parsed)[issue.index - 1] <==>
         HasDefect(roots, leaves, parsed, issue.index - 1, issue.code))
    {
      IssuesAreDefects(Defects(roots, leaves, parsed), issue);
      if 1 <= issue.index <= |parsed| {
        EachCodeExactly(roots, leaves, parsed, issue.index - 1, issue.code);
      }
    }
    forall i | 0 <= i < |parsed| { CodesInPlace(FindingsOf(roots, leaves, parsed, i)); }
    IssuesInPlace(Defects(roots, leaves, parsed));
  }

  // ----- Ranked search --------------------------------------------------------

  datatype Hit = Hit(leafId: string, rootId: string)

  datatype Ranked = Ranked(leafId: string, rootId: string, denseRank: Option<nat>, sparseRank: Option<nat>)

  /** Hits of one method with their ranks, counted from one, cut at `topK`. */
  function RankBranch(dense: bool, hits: seq<Hit>, topK: nat): seq<Ranked> {
    var taken := if topK <= |hits| then hits[..topK] else hits;
    seq(|taken|, i requires 0 <= i < |taken| =>
      Ranked(taken[i].leafId, taken[i].rootId, if dense then Some(i + 1) else None,
             if dense then None else Some(i + 1)))
  }

  /** Leaf and root are both authorised and agree with each other and with the ranked hit. */
  predicate Consistent(roots: map<string, StoredRoot>, leaves: map<string, StoredLeaf>, r: Ranked) {
    && r.leafId in leaves && r.rootId in roots
    && leaves[r.leafId].rootId == r.rootId
    && leaves[r.leafId].documentId == roots[r.rootId].documentId
    && leaves[r.leafId].versionId == roots[r.rootId].versionId
  }

  function Filtered(roots: map<string, StoredRoot>, leaves: map<string, StoredLeaf>, ranked: seq<Ranked>): seq<Ranked> {
    if ranked == [] then []
    else
      var last := ranked[|ranked| - 1];
      Filtered(roots, leaves, ranked[..|ranked| - 1]) + if Consistent(roots, leaves, last) then [last] else []
  }

  /** Items returned and hits dropped, as the diagnostics report them. */
  function SearchItems(roots: map<string, StoredRoot>, leaves: map<string, StoredLeaf>, ranked: seq<Ranked>, topK: nat):
    (seq<Ranked>, int)
  {
    var kept := Filtered(roots, leaves, ranked);
    var items := if topK <= |kept| then kept[..topK] else kept;
    (items, |ranked| - |items|)
  }

  ghost predicate Increasing(at: seq<nat>) {
    forall i, j :: 0 <= i < j < |at| ==> at[i] < at[j]
  }

  /** The positions that are flagged, in order. */
  function Positions(flags: seq<bool>): (at: seq<nat>)
    ensures Increasing(at) && forall i :: 0 <= i < |at| ==> at[i] < |flags|
    ensures forall j :: 0 <= j < |flags| ==> (flags[j] <==> j in at)
  {
    if flags == [] then []
    else
      var n := |flags| - 1;
      var before := Positions(flags[..n]);
      assert forall j :: 0 <= j < n ==> flags[..n][j] == flags[j];
      assert n !in before;
      if flags[n] then before + [n] else before
  }

  function Flags(roots: map<string, StoredRoot>, leaves: map<string, StoredLeaf>, ranked: seq<Ranked>): seq<bool> {
    seq(|ranked|, i requires 0 <= i < |ranked| => Consistent(roots, leaves, ranked[i]))
  }

  ghost predicate Picks(kept: seq<Ranked>, ranked: seq<Ranked>, at: seq<nat>) {
    |kept| == |at| && forall i :: 0 <= i < |at| ==> at[i] < |ranked| && kept[i] == ranked[at[i]]
  }

  lemma PicksMore(kept: seq<Ranked>, ranked: seq<Ranked>, at: seq<nat>, last: Ranked)
    requires Picks(kept, ranked, at)
    ensures Picks(kept, ranked + [last], at) && Picks(kept + [last], ranked + [last], at + [|ranked|])
  {
  }

  /** The kept hits are those at the flagged positions. */
  lemma {:induction false} FilteredMeaning(roots: map<string, StoredRoot>, leaves: map<string, StoredLeaf>,
                                           ranked: seq<Ranked>)
    ensures Picks(Filtered(roots, leaves, ranked), ranked, Positions(Flags(roots, leaves, ranked)))
  {
    if ranked != [] {
      var init, last := ranked[..|ranked| - 1], ranked[|ranked| - 1];
      var flags := Flags(roots, leaves, ranked);
      assert ranked == init + [last] && flags[..|init|] == Flags(roots, leaves, init);
      FilteredMeaning(roots, leaves, init);
      PicksMore(Filtered(roots, leaves, init), init, Positions(flags[..|init|]), last);
      assert flags[|init|] == Consistent(roots, leaves, last);
    }
  }

  /** The scope holds this leaf, of this root, and both belong to one version of one document. */
  ghost predicate Authorised(roots: map<string, StoredRoot>, leaves: map<string, StoredLeaf>, leafId: string,
                             rootId: string) {
    exists leaf, root :: leafId in leaves && leaves[leafId] == leaf && rootId in roots && roots[rootId] == root
      && leaf.rootId == rootId && leaf.documentId == root.documentId && leaf.versionId == root.versionId
  }

  /**
    A search, whatever ranked its hits, returns consistent hits in their ranked order
    and misses one only behind `topK` others.
   */
  lemma SearchMeaning(roots: map<string, StoredRoot>, leaves: map<string, StoredLeaf>, ranked: seq<Ranked>, topK: nat)
    returns (at: seq<nat>)
    ensures
      var (items, dropped) := SearchItems(roots, leaves, ranked, topK);
      && |at| == |items| <= topK && Increasing(at)
      && (forall i :: 0 <= i < |at| ==>
            && at[i] < |ranked| && items[i] == ranked[at[i]] && Consistent(roots, leaves, items[i])
            && Authorised(roots, leaves, items[i].leafId, items[i].rootId))
      && (forall j :: 0 <= j < |ranked| && Authorised(roots, leaves, ranked[j].leafId, ranked[j].rootId) ==>
            j in at || (|at| == topK && forall i :: 0 <= i < |at| ==> at[i] < j))
      && dropped == |ranked| - |items| >= 0
  {
    var flags := Flags(roots, leaves, ranked);
    var all := Positions(flags);
    FilteredMeaning(roots, leaves, ranked);
    at := if topK <= |all| then all[..topK] else all;
    forall i | 0 <= i < |all| ensures Consistent(roots, leaves, ranked[all[i]]) {
      assert all[i] in all && flags[all[i]];
    }
    forall j | 0 <= j < |ranked| && Consistent(roots, leaves, ranked[j])
      ensures j in at || (|at| == topK && forall i :: 0 <= i < |at| ==> at[i] < j)
    {
      assert flags[j] && j in all;
      if topK <= |all| {
        CutBehind(all, topK, j);
      }
    }
    IncreasingBound(all, |ranked|);
  }

  lemma CutBehind(all: seq<nat>, n: nat, j: nat)
    requires Increasing(all) && n <= |all| && j in all
    ensures j in all[..n] || forall i :: 0 <= i < n ==> all[..n][i] < j
  {
    var k :| 0 <= k < |all| && all[k] == j;
    if k < n {
      assert all[..n][k] == j;
    }
  }

  lemma {:induction false} IncreasingBound(at: seq<nat>, n: nat)
    requires Increasing(at) && forall i :: 0 <= i < |at| ==> at[i] < n
    ensures |at| <= n
  {
    if at != [] {
      IncreasingBound(at[..|at| - 1], at[|at| - 1]);
    }
  }

  /** A search by one method: the hits it returns keep the ranks of that method, and stay among its first `topK`. */
  lemma OneMethodSearch(roots: map<string, StoredRoot>, leaves: map<string, StoredLeaf>, dense: bool, hits: seq<Hit>,
      topK: nat) returns (at: seq<nat>)
    ensures
      var (items, dropped) := SearchItems(roots, leaves, RankBranch(dense, hits, topK), topK);
      && |at| == |items| && Increasing(at)
      && (forall i :: 0 <= i < |at| ==>
            && at[i] < |hits| && at[i] < topK && Hit(items[i].leafId, items[i].rootId) == hits[at[i]]
            && (if dense then items[i].denseRank else items[i].sparseRank) == Some(at[i] + 1)
            && Authorised(roots, leaves, items[i].leafId, items[i].rootId))
      && (forall j :: 0 <= j < |hits| && j < topK && j !in at ==>
            !Authorised(roots, leaves, hits[j].leafId, hits[j].rootId))
      && dropped + |items| == (if |hits| < topK then |hits| else topK)
  {
    var ranked := RankBranch(dense, hits, topK);
    at := SearchMeaning(roots, leaves, ranked, topK);
    forall j | 0 <= j < |ranked| && j !in at ensures !Consistent(roots, leaves, ranked[j]) {
      if Consistent(roots, leaves, ranked[j]) {
        IncreasingBound(at, j);
      }
    }
  }
}
