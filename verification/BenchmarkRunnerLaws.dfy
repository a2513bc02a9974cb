/**
  Histories of benchmark runs: the checkpoint is always a prefix, a finished run
  has the output of an uninterrupted one, and work is not repeated.
 */
module BenchmarkRunnerLaws {
  import opened Prelude
  import opened Json
  import opened Conversion
  import opened ConversionLaws
  import opened BenchmarkRunner

  // ----- What is selected and written -----------------------------------------

  lemma SelectionIsPrefix(cases: seq<Case>, mode: Mode, maxCases: Option<int>)
    ensures
      var selected := SelectCases(cases, mode, maxCases);
      && (selected.Ok? <==> if mode.Full? then maxCases.None? else maxCases.Some? && maxCases.value > 0)
      && (selected.Ok? ==> selected.value <= cases)
      && (selected.Ok? && mode.Sample? ==>
            |selected.value| <= maxCases.value && (selected.value == cases || |selected.value| == maxCases.value))
      && (selected.Ok? && mode.Full? ==> selected.value == cases)
  {
  }

  lemma {:induction false} DocumentsOfMember(documents: seq<Document>, wanted: set<string>)
    ensures forall d :: d in DocumentsOf(documents, wanted) <==> d in documents && d.id in wanted
  {
    if documents != [] {
      DocumentsOfMember(documents[1..], wanted);
    }
  }

  /** The written documents are exactly those the written cases reference, and none is missing. */
  lemma OutputDocuments(job: Job, selected: seq<Case>)
    requires WellFormed(job.dataset) && selected <= job.dataset.cases
    ensures
      var output := OutputOf(job, selected);
      && (forall d :: d in output.documents <==>
            d in job.dataset.documents && exists c :: c in output.cases && d.id in c.documentIds)
      && (forall c, id :: c in output.cases && id in c.documentIds ==> id in DocumentIds(output.documents))
  {
    var output := OutputOf(job, selected);
    DocumentsOfMember(job.dataset.documents, ReferencedDocuments(selected));
    forall c, id | c in output.cases && id in c.documentIds ensures id in DocumentIds(output.documents) {
      assert c in job.dataset.cases;
      var i :| 0 <= i < |job.dataset.documents| && DocumentIds(job.dataset.documents)[i] == id;
      assert id in ReferencedDocuments(selected);
      assert job.dataset.documents[i] in output.documents;
      var j :| 0 <= j < |output.documents| && output.documents[j] == job.dataset.documents[i];
      assert DocumentIds(output.documents)[j] == id;
    }
  }

  /** Documents taken from a list in its order: `at` says where each comes from. */
  ghost predicate TakenInOrder(documents: seq<Document>, written: seq<Document>, at: seq<nat>) {
    && |at| == |written|
    && (forall i :: 0 <= i < |at| ==> at[i] < |documents| && documents[at[i]] == written[i])
    && (forall i, j :: 0 <= i < j < |at| ==> at[i] < at[j])
  }

  /** The written documents keep the order of the dataset. */
  lemma {:induction false} DocumentsKeepOrder(documents: seq<Document>, wanted: set<string>) returns (at: seq<nat>)
    ensures TakenInOrder(documents, DocumentsOf(documents, wanted), at)
  {
    if documents == [] {
      at := [];
    } else {
      var tail := DocumentsOf(documents[1..], wanted);
      var rest := DocumentsKeepOrder(documents[1..], wanted);
      at := Later(documents, tail, rest);
      if documents[0].id in wanted {
        at := FirstToo(documents, tail, at);
      }
    }
  }

  lemma Later(documents: seq<Document>, tail: seq<Document>, rest: seq<nat>) returns (at: seq<nat>)
    requires documents != [] && TakenInOrder(documents[1..], tail, rest)
    ensures TakenInOrder(documents, tail, at) && forall i :: 0 <= i < |at| ==> at[i] > 0
  {
    at := seq(|rest|, i requires 0 <= i < |rest| => rest[i] + 1);
    forall i | 0 <= i < |at| ensures at[i] < |documents| && documents[at[i]] == tail[i] {
      assert documents[1..][rest[i]] == tail[i];
    }
  }

  lemma FirstToo(documents: seq<Document>, tail: seq<Document>, later: seq<nat>) returns (at: seq<nat>)
    requires documents != [] && TakenInOrder(documents, tail, later)
    requires forall i :: 0 <= i < |later| ==> later[i] > 0
    ensures TakenInOrder(documents, [documents[0]] + tail, at)
  {
    at := [0] + later;
    assert forall i :: 0 < i < |at| ==> at[i] == later[i - 1];
  }

  // ----- One run --------------------------------------------------------------

  /** A run is refused for one of four reasons, each with its own condition, and then nothing has happened. */
  lemma RefusesExactly(p: Platform, job: Job, limit: Option<int>, budget: Option<nat>, disk: Disk)
    ensures
      var ran := RunOnce(p, job, limit, budget, disk);
      var own := p.fingerprint(Identity(job.dataset.revision, job.dataset.sourceSha256, job.mode, job.maxCases,
          job.commitSha));
      var suits := if job.mode.Full? then job.maxCases.None? else job.maxCases.Some? && job.maxCases.value > 0;
      && (ran.ending == Refused(FullTakesNoLimit) <==> !suits && job.mode.Full?)
      && (ran.ending == Refused(SampleNeedsLimit) <==> !suits && job.mode.Sample?)
      && (ran.ending == Refused(MalformedCheckpoint) <==> suits && disk.checkpoint == Some(Unreadable))
      && (ran.ending == Refused(OtherRun) <==>
            && suits && disk.checkpoint.Some? && disk.checkpoint.value.Checkpoint?
            && disk.checkpoint.value.fingerprint != own)
      && (ran.ending.Refused? ==> ran.disk == disk && ran.calls == [])
  {
    var fingerprint := Fingerprint(p, job);
    if disk.checkpoint != Some(Unreadable) && SelectCases(job.dataset.cases, job.mode, job.maxCases).Ok? {
      LoopNeverRefuses(fingerprint, job.processing, limit,
                       SelectCases(job.dataset.cases, job.mode, job.maxCases).value,
                       if disk.checkpoint.None? then [] else disk.checkpoint.value.ids, 0,
                       Progress(disk.checkpoint, [], budget, None));
    }
  }

  lemma {:induction false} LoopNeverRefuses(fingerprint: string, processing: bool, limit: Option<int>,
      pending: seq<Case>, completed: seq<string>, processed: nat, now: Progress)
    requires now.stopped.None?
    ensures
      var stopped := RunCases(fingerprint, processing, limit, pending, completed, processed, now).stopped;
      stopped.Some? ==> !stopped.value.Refused?
    decreases |pending|
  {
    if pending == [] {
    } else if pending[0].id in completed {
      LoopNeverRefuses(fingerprint, processing, limit, pending[1..], completed, processed, now);
    } else if !(processing && Exhausted(now.budget)) {
      var id := pending[0].id;
      var called := if processing then now.(calls := now.calls + [id], budget := Spent(now.budget)) else now;
      if !Exhausted(called.budget) {
        LoopNeverRefuses(fingerprint, processing, limit, pending[1..], completed + [id], processed + 1,
                         called.(checkpoint := Some(Checkpoint(fingerprint, completed + [id])),
                                 budget := Spent(called.budget)));
      }
    }
  }

  ghost predicate Selects(job: Job, selected: seq<Case>) {
    SelectCases(job.dataset.cases, job.mode, job.maxCases) == Ok(selected) && Distinct(CaseIds(selected))
  }

  /** A job over a converted dataset whose limit fits its mode selects a prefix of cases with distinct ids. */
  lemma ConvertedJobsSelect(job: Job, documentsPayload: seq<Member>, dialoguesPayload: seq<Member>)
    requires Convert(documentsPayload, dialoguesPayload, job.dataset.revision, job.dataset.sourceSha256) ==
        Ok(job.dataset)
    requires if job.mode.Full? then job.maxCases.None? else job.maxCases.Some? && job.maxCases.value > 0
    ensures SelectCases(job.dataset.cases, job.mode, job.maxCases).Ok? && WellFormed(job.dataset)
    ensures
      var selected := SelectCases(job.dataset.cases, job.mode, job.maxCases).value;
      Selects(job, selected) && selected <= job.dataset.cases
  {
    ConvertedIsWellFormed(documentsPayload, dialoguesPayload, job.dataset.revision, job.dataset.sourceSha256);
    SelectionIsPrefix(job.dataset.cases, job.mode, job.maxCases);
    var selected := SelectCases(job.dataset.cases, job.mode, job.maxCases).value;
    forall i, j | 0 <= i < j < |selected| ensures CaseIds(selected)[i] != CaseIds(selected)[j] {
      assert CaseIds(selected)[i] == CaseIds(job.dataset.cases)[i];
      assert CaseIds(selected)[j] == CaseIds(job.dataset.cases)[j];
    }
  }

  /** The first `n` selected cases are checkpointed, and what is written besides is final. */
  ghost predicate OnTrack(p: Platform, job: Job, selected: seq<Case>, disk: Disk, n: nat) {
    && n <= |selected|
    && (disk.checkpoint == Some(Checkpoint(Fingerprint(p, job), CaseIds(selected)[..n]))
        || (n == 0 && disk.checkpoint == None))
    && (disk.output.Some? ==> disk.output.value == OutputOf(job, selected))
    && (disk.report.Some? ==> SameButResumed(disk.report.value, ReportOf(p, job, selected, 0)))
  }

  predicate SameButResumed(a: Report, b: Report) {
    a.(resumed := 0) == b.(resumed := 0)
  }

  /** Where a case loop ends that had `n` cases checkpointed: at `m`, with `c` cases processed. */
  ghost predicate LoopEnds(fingerprint: string, processing: bool, limit: Option<int>, selected: seq<Case>, n: nat,
                           processed: nat, now: Progress, end: Progress, m: nat, c: nat)
    requires n <= |selected|
  {
    var ids := CaseIds(selected);
    && n <= m <= c <= m + 1 && c <= |selected|
    && end.checkpoint == (if m == n then now.checkpoint else Some(Checkpoint(fingerprint, ids[..m])))
    && end.calls == now.calls + (if processing then ids[n..c] else [])
    && (end.stopped.None? ==> m == c == |selected|)
    && (end.stopped.Some? ==> end.stopped.value.Crashed? || (end.stopped.value.Interrupted? && c == m > n))
    && (now.budget.None? ==> end.budget.None? && c == m && (end.stopped.Some? ==> end.stopped.value.Interrupted?))
    && (now.budget.None? && limit.Some? && limit.value >= 1 ==>
          if |selected| - n >= limit.value - processed
          then end.stopped.Some? && m == n + limit.value - processed
          else end.stopped.None?)
    && (now.budget.None? && limit.None? ==> end.stopped.None?)
    && (now.budget.Some? ==>
          var effects := (if processing then c - n else 0) + (m - n);
          if end.stopped == Some(Crashed) then now.budget.value == effects
          else end.budget.Some? && end.budget.value == now.budget.value - effects)
  }

  /** How far the rest of a case loop gets. */
  lemma {:induction false} LoopMeaning(fingerprint: string, processing: bool, limit: Option<int>, selected: seq<Case>,
                                       i: nat, n: nat, processed: nat, now: Progress) returns (m: nat, c: nat)
    requires Distinct(CaseIds(selected)) && i <= n <= |selected| && now.stopped.None?
    requires LimitReached(limit, processed) ==> processed == 0
    ensures LoopEnds(fingerprint, processing, limit, selected, n, processed, now,
                     RunCases(fingerprint, processing, limit, selected[i..], CaseIds(selected)[..n], processed, now),
                         m, c)
    decreases |selected| - i
  {
    var ids := CaseIds(selected);
    if i == |selected| {
      m, c := n, n;
    } else {
      assert selected[i..][0] == selected[i] && selected[i..][1..] == selected[i + 1..];
      if i < n {
        assert ids[..n][i] == selected[i].id;
        m, c := LoopMeaning(fingerprint, processing, limit, selected, i + 1, n, processed, now);
      } else {
        assert ids[n] !in ids[..n];
        m, c := PendingCase(fingerprint, processing, limit, selected, n, processed, now);
      }
    }
  }

  /** The branch of the loop for a case that is not yet checkpointed. */
  lemma {:induction false} PendingCase(fingerprint: string, processing: bool, limit: Option<int>, selected: seq<Case>,
                                       n: nat, processed: nat, now: Progress) returns (m: nat, c: nat)
    requires Distinct(CaseIds(selected)) && n < |selected| && now.stopped.None?
    requires LimitReached(limit, processed) ==> processed == 0
    requires CaseIds(selected)[n] !in CaseIds(selected)[..n]
    ensures LoopEnds(fingerprint, processing, limit, selected, n, processed, now,
                     RunCases(fingerprint, processing, limit, selected[n..], CaseIds(selected)[..n], processed, now),
                         m, c)
    decreases |selected| - n, 0
  {
    var ids := CaseIds(selected);
    var id := ids[n];
    assert selected[n..][0] == selected[n] && selected[n..][1..] == selected[n + 1..];
    assert ids[..n] + [id] == ids[..n + 1];
    assert now.calls + [] == now.calls && ids[n..n] == [] && ids[n..n + 1] == [id];
    if processing && Exhausted(now.budget) {
      m, c := n, n;
    } else {
      var called := if processing then now.(calls := now.calls + [id], budget := Spent(now.budget)) else now;
      if Exhausted(called.budget) {
        m, c := n, if processing then n + 1 else n;
      } else {
        var written := called.(checkpoint := Some(Checkpoint(fingerprint, ids[..n + 1])),
            budget := Spent(called.budget));
        if LimitReached(limit, processed + 1) {
          m, c := n + 1, n + 1;
        } else {
          m, c := LoopMeaning(fingerprint, processing, limit, selected, n + 1, n + 1, processed + 1, written);
          OneCaseMore(fingerprint, processing, limit, selected, n, processed, now, written,
                      RunCases(fingerprint, processing, limit, selected[n + 1..], ids[..n + 1],
                                processed + 1, written), m, c);
        }
      }
    }
  }

  /** A loop that ends well from the case after a processed one ends well from that one. */
  lemma OneCaseMore(fingerprint: string, processing: bool, limit: Option<int>, selected: seq<Case>, n: nat,
                    processed: nat, now: Progress, written: Progress, end: Progress, m: nat, c: nat)
    requires n < |selected| && !LimitReached(limit, processed + 1)
    requires LoopEnds(fingerprint, processing, limit, selected, n + 1, processed + 1, written, end, m, c)
    requires written.checkpoint == Some(Checkpoint(fingerprint, CaseIds(selected)[..n + 1]))
    requires written.calls == (if processing then now.calls + [CaseIds(selected)[n]] else now.calls)
    requires
      if now.budget.None? then written.budget.None?
      else written.budget.Some? && written.budget.value == now.budget.value - if processing then 2 else 1
    ensures LoopEnds(fingerprint, processing, limit, selected, n, processed, now, end, m, c)
  {
    var ids := CaseIds(selected);
    assert [ids[n]] + ids[n + 1..c] == ids[n..c];
    assert now.calls + [ids[n]] + ids[n + 1..c] == now.calls + ([ids[n]] + ids[n + 1..c]);
  }

  function Lost(ran: Ran): nat { if ran.ending.Crashed? then 1 else 0 }

  /** Where a run leaves off that found `n` cases checkpointed: at `m`. */
  ghost predicate RunEnds(p: Platform, job: Job, selected: seq<Case>, limit: Option<int>, budget: Option<nat>,
                          n: nat, ran: Ran, m: nat)
  {
    && n <= m && OnTrack(p, job, selected, ran.disk, m)
    && |ran.calls| <= m - n + Lost(ran) && n + |ran.calls| <= |selected|
    && ran.calls == (if job.processing then CaseIds(selected)[n..n + |ran.calls|] else [])
    && !ran.ending.Refused?
    && (ran.ending.Finished? ==>
          && m == |selected| && ran.disk.output == Some(OutputOf(job, selected))
          && ran.ending.report == ReportOf(p, job, selected, n) && ran.disk.report == Some(ran.ending.report))
    && (budget.None? && limit.None? ==> ran.ending.Finished?)
    && (job.processing ==> |ran.calls| >= m - n)
    && (budget.None? && limit.Some? && limit.value >= 1 ==>
          if |selected| - n >= limit.value then ran.ending.Interrupted? && m == n + limit.value
          else ran.ending.Finished?)
    && (budget.Some? ==> WithinBudget(job, selected, budget.value, |ran.calls| + m - n, ran, m))
    && (ran.ending.Crashed? ==> budget.Some?)
  }

  /** A run is cut off exactly when its budget is used up; the output and the report are one effect each. */
  ghost predicate WithinBudget(job: Job, selected: seq<Case>, budget: nat, effects: int, ran: Ran, m: nat) {
    && (ran.ending.Finished? ==> effects + 2 <= budget)
    && (ran.ending.Interrupted? ==> effects <= budget)
    && (ran.ending.Crashed? ==>
          budget == effects
          || (budget == effects + 1 && m == |selected| && ran.disk.output == Some(OutputOf(job, selected))))
  }

  /** One run, from any on-track disk, under any limit and any crash. */
  lemma RunMeaning(p: Platform, job: Job, selected: seq<Case>, limit: Option<int>, budget: Option<nat>, disk: Disk,
      n: nat)
    returns (m: nat)
    requires Selects(job, selected) && OnTrack(p, job, selected, disk, n)
    ensures RunEnds(p, job, selected, limit, budget, n, RunOnce(p, job, limit, budget, disk), m)
  {
    var c;
    m, c := LoopFromDisk(p, job, selected, limit, budget, disk, n);
    var now := Progress(disk.checkpoint, [], budget, None);
    var end := RunCases(Fingerprint(p, job), job.processing, limit, selected, CaseIds(selected)[..n], 0, now);
    ConcludeMeaning(p, job, selected, limit, disk, n, now, end, m, c);
  }

  lemma ConcludeMeaning(p: Platform, job: Job, selected: seq<Case>, limit: Option<int>, disk: Disk, n: nat,
                        now: Progress, end: Progress, m: nat, c: nat)
    requires OnTrack(p, job, selected, disk, n) && now.checkpoint == disk.checkpoint
    requires LoopEnds(Fingerprint(p, job), job.processing, limit, selected, n, 0, now, end, m, c)
    requires end.calls == if job.processing then CaseIds(selected)[n..c] else []
    ensures RunEnds(p, job, selected, limit, now.budget, n,
                    Conclude(p, job, selected, n, disk.(checkpoint := end.checkpoint), end), m)
  {
    ConcludedDisk(p, job, selected, disk.(checkpoint := end.checkpoint), n, end, m);
  }

  lemma ConcludedDisk(p: Platform, job: Job, selected: seq<Case>, after: Disk, n: nat, end: Progress, m: nat)
    requires OnTrack(p, job, selected, after, m)
    ensures
      var ran := Conclude(p, job, selected, n, after, end);
      && OnTrack(p, job, selected, ran.disk, m) && ran.calls == end.calls
      && (end.stopped.Some? ==> ran.ending == end.stopped.value)
      && (end.stopped.None? ==> ran.ending.Crashed? || ran.ending == Finished(ReportOf(p, job, selected, n)))
      && (end.stopped.None? && end.budget.None? ==> ran.ending.Finished?)
      && (end.stopped.None? && ran.ending.Finished? ==>
            ran.disk.output == Some(OutputOf(job, selected)) && ran.disk.report == Some(ran.ending.report))
  {
  }

  /** The checkpoint on disk is what the loop starts from. */
  lemma LoopFromDisk(p: Platform, job: Job, selected: seq<Case>, limit: Option<int>, budget: Option<nat>, disk: Disk,
      n: nat)
    returns (m: nat, c: nat)
    requires Selects(job, selected) && OnTrack(p, job, selected, disk, n)
    ensures LoadCheckpoint(disk.checkpoint, Fingerprint(p, job)) == Ok(CaseIds(selected)[..n])
    ensures
      var now := Progress(disk.checkpoint, [], budget, None);
      var end := RunCases(Fingerprint(p, job), job.processing, limit, selected, CaseIds(selected)[..n], 0, now);
      && LoopEnds(Fingerprint(p, job), job.processing, limit, selected, n, 0, now, end, m, c)
      && end.calls == if job.processing then CaseIds(selected)[n..c] else []
  {
    var ids := CaseIds(selected);
    assert ids[..0] == [];
    m, c := LoopMeaning(Fingerprint(p, job), job.processing, limit, selected, 0, n, 0,
                        Progress(disk.checkpoint, [], budget, None));
    assert selected[0..] == selected;
    assert [] + ids[n..c] == ids[n..c];
  }

  // ----- Histories ------------------------------------------------------------

  datatype Attempt = Attempt(limit: Option<int>, budget: Option<nat>)

  function LastDisk(history: seq<Ran>): Disk {
    if history == [] then EMPTY_DISK else history[|history| - 1].disk
  }

  /** The runs of a job that starts without a checkpoint, one after the other. */
  function History(p: Platform, job: Job, attempts: seq<Attempt>): (history: seq<Ran>)
    ensures |history| == |attempts|
  {
    if attempts == [] then []
    else
      var earlier := History(p, job, attempts[..|attempts| - 1]);
      var last := attempts[|attempts| - 1];
      earlier + [RunOnce(p, job, last.limit, last.budget, LastDisk(earlier))]
  }

  function AllCalls(history: seq<Ran>): seq<string> {
    if history == [] then [] else AllCalls(history[..|history| - 1]) + history[|history| - 1].calls
  }

  function Crashes(history: seq<Ran>): nat {
    if history == [] then 0 else Crashes(history[..|history| - 1]) + Lost(history[|history| - 1])
  }

  lemma {:induction false} HistoryMeaning(p: Platform, job: Job, selected: seq<Case>, attempts: seq<Attempt>)
    returns (n: nat)
    requires Selects(job, selected)
    ensures Accounted(p, job, selected, History(p, job, attempts), n)
  {
    if attempts == [] {
      n := 0;
    } else {
      var init, last := attempts[..|attempts| - 1], attempts[|attempts| - 1];
      var before := HistoryMeaning(p, job, selected, init);
      n := AccountedStep(p, job, selected, init, last, before);
      assert attempts == init + [last];
    }
  }

  /** A history that left `n` cases checkpointed, and called for at most one more per crash. */
  ghost predicate Accounted(p: Platform, job: Job, selected: seq<Case>, history: seq<Ran>, n: nat) {
    && OnTrack(p, job, selected, LastDisk(history), n)
    && |AllCalls(history)| <= n + Crashes(history)
  }

  lemma AccountedStep(p: Platform, job: Job, selected: seq<Case>, init: seq<Attempt>, last: Attempt, before: nat)
    returns (n: nat)
    requires Selects(job, selected) && Accounted(p, job, selected, History(p, job, init), before)
    ensures Accounted(p, job, selected, History(p, job, init + [last]), n)
  {
    n := RunMeaning(p, job, selected, last.limit, last.budget, LastDisk(History(p, job, init)), before);
    HistorySnoc(p, job, init, last);
  }

  lemma {:induction false} HistorySnoc(p: Platform, job: Job, init: seq<Attempt>, last: Attempt)
    ensures
      var earlier, history := History(p, job, init), History(p, job, init + [last]);
      var ran := RunOnce(p, job, last.limit, last.budget, LastDisk(earlier));
      && history == earlier + [ran] && LastDisk(history) == ran.disk
      && AllCalls(history) == AllCalls(earlier) + ran.calls && Crashes(history) == Crashes(earlier) + Lost(ran)
  {
    assert (init + [last])[..|init|] == init;
    var earlier := History(p, job, init);
    assert History(p, job, init + [last])[..|init|] == earlier;
  }

  /** After any history the checkpoint lists a duplicate-free prefix of the selected cases. */
  lemma {:induction false} CheckpointIsPrefix(p: Platform, job: Job, selected: seq<Case>, attempts: seq<Attempt>)
    requires Selects(job, selected)
    ensures
      var checkpoint := LastDisk(History(p, job, attempts)).checkpoint;
      checkpoint.Some? ==>
        && checkpoint.value.Checkpoint? && checkpoint.value.fingerprint == Fingerprint(p, job)
        && checkpoint.value.ids <= CaseIds(selected) && Distinct(checkpoint.value.ids)
  {
    var n := HistoryMeaning(p, job, selected, attempts);
    assert CaseIds(selected)[..n] <= CaseIds(selected);
  }

  /** The run that finishes, after any history, writes what one uninterrupted run writes. */
  lemma {:induction false} ResumeEquivalence(p: Platform, job: Job, selected: seq<Case>, attempts: seq<Attempt>)
    requires Selects(job, selected) && attempts != []
    requires History(p, job, attempts)[|attempts| - 1].ending.Finished?
    ensures
      var last := History(p, job, attempts)[|attempts| - 1];
      var straight := RunOnce(p, job, None, None, EMPTY_DISK);
      && straight.ending.Finished?
      && last.disk.output == straight.disk.output
      && (selected != [] ==> last.disk.checkpoint == straight.disk.checkpoint)
      && SameButResumed(last.ending.report, straight.ending.report) && straight.ending.report.resumed == 0
  {
    var init, a := attempts[..|attempts| - 1], attempts[|attempts| - 1];
    assert attempts == init + [a];
    HistorySnoc(p, job, init, a);
    var n := HistoryMeaning(p, job, selected, init);
    Finishes(p, job, selected, a, LastDisk(History(p, job, init)), n);
    Straight(p, job, selected);
  }

  /** What the files of a finishing run say, and what the report says about them. */
  ghost predicate Reports(p: Platform, job: Job, selected: seq<Case>, before: Option<Stored>, ran: Ran) {
    && ran.ending.Finished? && ran.disk.report == Some(ran.ending.report) && ran.disk.output.Some?
    && var report, output := ran.ending.report, ran.disk.output.value;
    && output.cases == selected
    && (forall d :: d in output.documents <==>
          d in job.dataset.documents && exists c :: c in output.cases && d.id in c.documentIds)
    && (exists at :: TakenInOrder(job.dataset.documents, output.documents, at))
    && output.revision == report.revision == job.dataset.revision
    && output.mode == report.mode == job.mode
    && (output.isFull <==> job.mode.Full?) && (report.isFull <==> job.mode.Full?)
    && report.sourceSha256 == job.dataset.sourceSha256 && report.commitSha == job.commitSha
    && report.outputSha256 == p.outputSha256(output)
    && report.totalAvailable == |job.dataset.cases|
    && report.processed == |selected|
    && report.resumed == (if before.Some? && before.value.Checkpoint? then |before.value.ids| else 0)
    && (job.processing ==> report.resumed + |ran.calls| == report.processed)
    && (selected != [] ==>
          && ran.disk.checkpoint.Some? && ran.disk.checkpoint.value.Checkpoint?
          && ran.disk.checkpoint.value.ids == CaseIds(output.cases)
          && report.processed == |ran.disk.checkpoint.value.ids|)
  }

  /** The run that finishes, after any history, reports what its files hold and what was done. */
  lemma {:induction false} FinishedReport(p: Platform, job: Job, selected: seq<Case>, attempts: seq<Attempt>)
    requires Selects(job, selected) && attempts != []
    requires History(p, job, attempts)[|attempts| - 1].ending.Finished?
    ensures
      var before := LastDisk(History(p, job, attempts[..|attempts| - 1])).checkpoint;
      Reports(p, job, selected, before, History(p, job, attempts)[|attempts| - 1])
  {
    var init, a := attempts[..|attempts| - 1], attempts[|attempts| - 1];
    assert attempts == init + [a];
    HistorySnoc(p, job, init, a);
    var n := HistoryMeaning(p, job, selected, init);
    ReportOfRun(p, job, selected, a, LastDisk(History(p, job, init)), n);
  }

  lemma ReportOfRun(p: Platform, job: Job, selected: seq<Case>, a: Attempt, disk: Disk, n: nat)
    requires Selects(job, selected) && OnTrack(p, job, selected, disk, n)
    ensures
      var ran := RunOnce(p, job, a.limit, a.budget, disk);
      ran.ending.Finished? ==> Reports(p, job, selected, disk.checkpoint, ran)
  {
    var m := RunMeaning(p, job, selected, a.limit, a.budget, disk, n);
    SelectionIsPrefix(job.dataset.cases, job.mode, job.maxCases);
    assert CaseIds(selected)[..|selected|] == CaseIds(selected);
    DocumentsOfMember(job.dataset.documents, ReferencedDocuments(selected));
    var at := DocumentsKeepOrder(job.dataset.documents, ReferencedDocuments(selected));
  }

  /**
    A checkpoint that a job left behind is refused by another job exactly when the two
    differ in revision, source, mode, limit or commit, as long as the fingerprints of
    the two do not collide.
   */
  lemma {:induction false} CheckpointBelongs(p: Platform, job: Job, selected: seq<Case>, attempts: seq<Attempt>,
      other: Job, limit: Option<int>, budget: Option<nat>)
    requires Selects(job, selected) && SelectCases(other.dataset.cases, other.mode, other.maxCases).Ok?
    requires
      var a := Identity(job.dataset.revision, job.dataset.sourceSha256, job.mode, job.maxCases, job.commitSha);
      var b := Identity(other.dataset.revision, other.dataset.sourceSha256, other.mode, other.maxCases,
          other.commitSha);
      p.fingerprint(a) == p.fingerprint(b) ==> a == b
    requires LastDisk(History(p, job, attempts)).checkpoint.Some?
    ensures
      RunOnce(p, other, limit, budget, LastDisk(History(p, job, attempts))).ending == Refused(OtherRun) <==>
        || job.dataset.revision != other.dataset.revision || job.dataset.sourceSha256 != other.dataset.sourceSha256
        || job.mode != other.mode || job.maxCases != other.maxCases || job.commitSha != other.commitSha
  {
    CheckpointIsPrefix(p, job, selected, attempts);
    RefusesExactly(p, other, limit, budget, LastDisk(History(p, job, attempts)));
  }

  ghost predicate FinalDisk(p: Platform, job: Job, selected: seq<Case>, disk: Disk) {
    && disk.output == Some(OutputOf(job, selected))
    && (selected == [] || disk.checkpoint == Some(Checkpoint(Fingerprint(p, job), CaseIds(selected))))
  }

  lemma Finishes(p: Platform, job: Job, selected: seq<Case>, a: Attempt, disk: Disk, n: nat)
    requires Selects(job, selected) && OnTrack(p, job, selected, disk, n)
    ensures
      var ran := RunOnce(p, job, a.limit, a.budget, disk);
      ran.ending.Finished? ==>
        FinalDisk(p, job, selected, ran.disk) && ran.ending.report == ReportOf(p, job, selected, n)
  {
    var m := RunMeaning(p, job, selected, a.limit, a.budget, disk, n);
    assert CaseIds(selected)[..|selected|] == CaseIds(selected);
  }

  lemma Straight(p: Platform, job: Job, selected: seq<Case>)
    requires Selects(job, selected)
    ensures
      var straight := RunOnce(p, job, None, None, EMPTY_DISK);
      && straight.ending.Finished? && FinalDisk(p, job, selected, straight.disk)
      && straight.ending.report == ReportOf(p, job, selected, 0)
  {
    var m := RunMeaning(p, job, selected, None, None, EMPTY_DISK, 0);
    Finishes(p, job, selected, Attempt(None, None), EMPTY_DISK, 0);
  }

  /** Any number of crashes costs at most one repeated processor call each. */
  lemma {:induction false} CallsAreBounded(p: Platform, job: Job, selected: seq<Case>, attempts: seq<Attempt>)
    requires Selects(job, selected)
    ensures |AllCalls(History(p, job, attempts))| <= |selected| + Crashes(History(p, job, attempts))
  {
    var n := HistoryMeaning(p, job, selected, attempts);
  }

  // ----- Runs stopped by their own limit --------------------------------------

  function Repeated(limit: nat, runs: nat): seq<Attempt> {
    seq(runs, _ => Attempt(Some(limit), None))
  }

  /** One uncrashed run: `limit` more cases, or all that are left. */
  lemma LimitedRun(p: Platform, job: Job, selected: seq<Case>, limit: nat, disk: Disk, n: nat)
    requires Selects(job, selected) && job.processing && limit >= 1 && OnTrack(p, job, selected, disk, n)
    ensures
      var ids, ran := CaseIds(selected), RunOnce(p, job, Some(limit), None, disk);
      if n + limit <= |selected|
      then ran.ending.Interrupted? && OnTrack(p, job, selected, ran.disk, n + limit) && ran.calls == ids[n..n + limit]
      else ran.ending.Finished? && ran.calls == ids[n..]
  {
    var m := RunMeaning(p, job, selected, Some(limit), None, disk, n);
  }

  /** Every run so far was interrupted, and together they processed the first `n` cases, once each. */
  ghost predicate AllInterrupted(p: Platform, job: Job, selected: seq<Case>, history: seq<Ran>, n: nat) {
    && (forall i :: 0 <= i < |history| ==> history[i].ending.Interrupted?)
    && OnTrack(p, job, selected, LastDisk(history), n)
    && AllCalls(history) == CaseIds(selected)[..n]
  }

  lemma SlicesJoin<T>(s: seq<T>, i: nat, j: nat)
    requires i <= j <= |s|
    ensures s[..i] + s[i..j] == s[..j]
  {
  }

  lemma {:induction false} InterruptedStep(p: Platform, job: Job, selected: seq<Case>, limit: nat,
      init: seq<Attempt>, n: nat, longer: seq<Attempt>)
    requires Selects(job, selected) && job.processing && limit >= 1 && n + limit <= |selected|
    requires AllInterrupted(p, job, selected, History(p, job, init), n)
    requires longer == init + [Attempt(Some(limit), None)]
    ensures AllInterrupted(p, job, selected, History(p, job, longer), n + limit)
  {
    LimitedRun(p, job, selected, limit, LastDisk(History(p, job, init)), n);
    HistorySnoc(p, job, init, Attempt(Some(limit), None));
    SlicesJoin(CaseIds(selected), n, n + limit);
  }

  lemma {:induction false} NoRuns(p: Platform, job: Job, selected: seq<Case>)
    ensures AllInterrupted(p, job, selected, History(p, job, []), 0)
  {
    assert CaseIds(selected)[..0] == [] && AllCalls([]) == [];
  }

  /** As long as `limit` cases for each run exist, every run is interrupted and does `limit` of them. */
  lemma {:induction false} InterruptedRuns(p: Platform, job: Job, selected: seq<Case>, limit: nat,
      attempts: seq<Attempt>, done: nat)
    requires Selects(job, selected) && job.processing && limit >= 1
    requires forall i :: 0 <= i < |attempts| ==> attempts[i] == Attempt(Some(limit), None)
    requires |attempts| * limit == done <= |selected|
    ensures AllInterrupted(p, job, selected, History(p, job, attempts), done)
    decreases |attempts|
  {
    if attempts == [] {
      NoRuns(p, job, selected);
    } else {
      var init := attempts[..|attempts| - 1];
      var before := OneFewer(|attempts|, limit);
      InterruptedRuns(p, job, selected, limit, init, before);
      assert attempts == init + [Attempt(Some(limit), None)];
      InterruptedStep(p, job, selected, limit, init, before, attempts);
    }
  }

  lemma RepeatedSnoc(limit: nat, runs: nat)
    ensures Repeated(limit, runs + 1) == Repeated(limit, runs) + [Attempt(Some(limit), None)]
  {
  }

  lemma OneFewer(runs: nat, limit: nat) returns (before: nat)
    requires runs >= 1
    ensures before == (runs - 1) * limit && before + limit == runs * limit
  {
    before := (runs - 1) * limit;
  }

  /** Only the last run finishes, and together they process each case once, in order. */
  ghost predicate LastIsFirstToFinish(history: seq<Ran>, runs: nat, selected: seq<Case>) {
    && |history| == runs + 1 && history[runs].ending.Finished?
    && (forall i :: 0 <= i < runs ==> history[i].ending.Interrupted?)
    && AllCalls(history) == CaseIds(selected)
  }

  lemma RunsUntilFinished(p: Platform, job: Job, selected: seq<Case>, limit: nat, runs: nat)
    requires Selects(job, selected) && job.processing && limit >= 1
    requires runs * limit <= |selected| < runs * limit + limit
    ensures LastIsFirstToFinish(History(p, job, Repeated(limit, runs + 1)), runs, selected)
  {
    InterruptedRuns(p, job, selected, limit, Repeated(limit, runs), runs * limit);
    RepeatedSnoc(limit, runs);
    FinishingStep(p, job, selected, limit, Repeated(limit, runs), runs * limit, Repeated(limit, runs + 1));
  }

  lemma {:induction false} FinishingStep(p: Platform, job: Job, selected: seq<Case>, limit: nat, init: seq<Attempt>,
      n: nat, longer: seq<Attempt>)
    requires Selects(job, selected) && job.processing && limit >= 1 && n <= |selected| < n + limit
    requires AllInterrupted(p, job, selected, History(p, job, init), n)
    requires longer == init + [Attempt(Some(limit), None)]
    ensures LastIsFirstToFinish(History(p, job, longer), |init|, selected)
  {
    LimitedRun(p, job, selected, limit, LastDisk(History(p, job, init)), n);
    HistorySnoc(p, job, init, Attempt(Some(limit), None));
    SlicesJoin(CaseIds(selected), n, |selected|);
    assert CaseIds(selected)[n..|selected|] == CaseIds(selected)[n..];
    assert CaseIds(selected)[..|selected|] == CaseIds(selected);
  }

  lemma DivisionBounds(a: nat, b: nat) returns (q: nat)
    requires b >= 1
    ensures q == a / b && q * b <= a < q * b + b
  {
    q := a / b;
    assert a == b * q + a % b;
  }

  /**
    With `interrupt_after = limit` and no crash, run number |selected| / limit + 1
    is the first to finish, and each selected case is processed exactly once.
   */
  lemma FirstFinishingRun(p: Platform, job: Job, selected: seq<Case>, limit: nat)
    requires Selects(job, selected) && job.processing && limit >= 1
    ensures
      var runs := |selected| / limit;
      LastIsFirstToFinish(History(p, job, Repeated(limit, runs + 1)), runs, selected)
  {
    var runs := DivisionBounds(|selected|, limit);
    RunsUntilFinished(p, job, selected, limit, runs);
  }
}
