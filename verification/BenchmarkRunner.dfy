/**
  The checkpointed benchmark runner: one run, stopped by its own limit, by a crash
  between any two effects, or not at all.

  An effect is a call of the processor or the atomic replacement of a file. A crash
  is a budget: how many effects still happen before the process is gone.
 */
module BenchmarkRunner {
  import opened Prelude
  import opened Conversion

  datatype Mode = Sample | Full

  datatype RunError = FullTakesNoLimit | SampleNeedsLimit | OtherRun | MalformedCheckpoint

  /** What the fingerprint is computed from. */
  datatype Identity = Identity(revision: string, sourceSha256: string, mode: Mode, maxCases: Option<int>,
      commitSha: string)

  datatype Output = Output(revision: string, mode: Mode, isFull: bool, documents: seq<Document>, cases: seq<Case>)

  datatype Report = Report(
    revision: string, sourceSha256: string, mode: Mode, isFull: bool, totalAvailable: nat, processed: nat,
    resumed: nat, commitSha: string, outputSha256: string)

  datatype Platform = Platform(fingerprint: Identity -> string, outputSha256: Output -> string)

  datatype Job = Job(dataset: Dataset, mode: Mode, maxCases: Option<int>, commitSha: string, processing: bool)

  /** A checkpoint file as the loader sees it. */
  datatype Stored = Checkpoint(fingerprint: string, ids: seq<string>) | Unreadable

  datatype Disk = Disk(checkpoint: Option<Stored>, output: Option<Output>, report: Option<Report>)

  const EMPTY_DISK := Disk(None, None, None)

  datatype Ending = Finished(report: Report) | Interrupted | Crashed | Refused(error: RunError)

  /** Disk after a run, the cases handed to the processor, and how the run ended. */
  datatype Ran = Ran(disk: Disk, calls: seq<string>, ending: Ending)

  function SelectCases(cases: seq<Case>, mode: Mode, maxCases: Option<int>): Result<seq<Case>, RunError> {
    if mode.Full? then if maxCases.Some? then Err(FullTakesNoLimit) else Ok(cases)
    else if maxCases.None? || maxCases.value <= 0 then Err(SampleNeedsLimit)
    else Ok(if maxCases.value <= |cases| then cases[..maxCases.value] else cases)
  }

  function Fingerprint(p: Platform, job: Job): string {
    p.fingerprint(Identity(job.dataset.revision, job.dataset.sourceSha256, job.mode, job.maxCases, job.commitSha))
  }

  function LoadCheckpoint(checkpoint: Option<Stored>, fingerprint: string): Result<seq<string>, RunError> {
    if checkpoint.None? then Ok([])
    else match checkpoint.value
      case Unreadable => Err(MalformedCheckpoint)
      case Checkpoint(stored, ids) => if stored != fingerprint then Err(OtherRun) else Ok(ids)
  }

  function DocumentsOf(documents: seq<Document>, wanted: set<string>): seq<Document> {
    if documents == [] then []
    else (if documents[0].id in wanted then [documents[0]] else []) + DocumentsOf(documents[1..], wanted)
  }

  function ReferencedDocuments(cases: seq<Case>): set<string> {
    set c, d | c in cases && d in c.documentIds :: d
  }

  function OutputOf(job: Job, selected: seq<Case>): Output {
    Output(job.dataset.revision, job.mode, job.mode.Full? && |selected| == |job.dataset.cases|,
           DocumentsOf(job.dataset.documents, ReferencedDocuments(selected)), selected)
  }

  function ReportOf(p: Platform, job: Job, selected: seq<Case>, resumed: nat): Report {
    Report(job.dataset.revision, job.dataset.sourceSha256, job.mode,
           job.mode.Full? && |selected| == |job.dataset.cases|, |job.dataset.cases|, |selected|, resumed,
           job.commitSha, p.outputSha256(OutputOf(job, selected)))
  }

  // ----- One run --------------------------------------------------------------

  function Exhausted(budget: Option<nat>): bool { budget == Some(0) }

  function Spent(budget: Option<nat>): Option<nat>
    requires !Exhausted(budget)
  {
    if budget.None? then None else Some(budget.value - 1)
  }

  predicate LimitReached(limit: Option<int>, processed: nat) {
    limit.Some? && processed >= limit.value
  }

  /** How far the case loop got; `stopped` unless it ran to its end. */
  datatype Progress = Progress(checkpoint: Option<Stored>, calls: seq<string>, budget: Option<nat>,
      stopped: Option<Ending>)

  function RunCases(fingerprint: string, processing: bool, limit: Option<int>, pending: seq<Case>,
                    completed: seq<string>, processed: nat, now: Progress): Progress
    requires now.stopped.None?
    decreases |pending|
  {
    if pending == [] then now
    else if pending[0].id in completed then
      RunCases(fingerprint, processing, limit, pending[1..], completed, processed, now)
    else if processing && Exhausted(now.budget) then now.(stopped := Some(Crashed))
    else
      var id := pending[0].id;
      var called := if processing then now.(calls := now.calls + [id], budget := Spent(now.budget)) else now;
      if Exhausted(called.budget) then called.(stopped := Some(Crashed))
      else
        var written := called.(checkpoint := Some(Checkpoint(fingerprint, completed + [id])),
            budget := Spent(called.budget));
        if LimitReached(limit, processed + 1) then written.(stopped := Some(Interrupted))
        else RunCases(fingerprint, processing, limit, pending[1..], completed + [id], processed + 1, written)
  }

  /** What follows the case loop: the output file, then the report. */
  function Conclude(p: Platform, job: Job, selected: seq<Case>, resumed: nat, after: Disk, end: Progress): Ran {
    if end.stopped.Some? then Ran(after, end.calls, end.stopped.value)
    else if Exhausted(end.budget) then Ran(after, end.calls, Crashed)
    else
      var withOutput := after.(output := Some(OutputOf(job, selected)));
      if Exhausted(Spent(end.budget)) then Ran(withOutput, end.calls, Crashed)
      else
        var report := ReportOf(p, job, selected, resumed);
        Ran(withOutput.(report := Some(report)), end.calls, Finished(report))
  }

  function RunOnce(p: Platform, job: Job, limit: Option<int>, budget: Option<nat>, disk: Disk): Ran {
    var selected := SelectCases(job.dataset.cases, job.mode, job.maxCases);
    if selected.Err? then Ran(disk, [], Refused(selected.error))
    else
      var fingerprint := Fingerprint(p, job);
      var completed := LoadCheckpoint(disk.checkpoint, fingerprint);
      if completed.Err? then Ran(disk, [], Refused(completed.error))
      else
        var end := RunCases(fingerprint, job.processing, limit, selected.value, completed.value, 0,
                            Progress(disk.checkpoint, [], budget, None));
        Conclude(p, job, selected.value, |completed.value|, disk.(checkpoint := end.checkpoint), end)
  }

  /** The files of a run, replaced in place. */
  class Workspace {
    var checkpoint: Option<Stored>
    var output: Option<Output>
    var report: Option<Report>

    function Contents(): Disk
      reads this
    {
      Disk(checkpoint, output, report)
    }

    constructor ()
      ensures Contents() == EMPTY_DISK
    {
      checkpoint, output, report := None, None, None;
    }

    /** `run`, with the crash budget as a parameter; `calls` lists the processor's cases. */
    method Run(p: Platform, job: Job, limit: Option<int>, budget: Option<nat>)
      returns (calls: seq<string>, ending: Ending)
      modifies this
      ensures Ran(Contents(), calls, ending) == RunOnce(p, job, limit, budget, old(Contents()))
    {
      calls := [];
      var selection := SelectCases(job.dataset.cases, job.mode, job.maxCases);
      if selection.Err? {
        return calls, Refused(selection.error);
      }
      var selected := selection.value;
      var fingerprint := Fingerprint(p, job);
      var loaded := LoadCheckpoint(checkpoint, fingerprint);
      if loaded.Err? {
        return calls, Refused(loaded.error);
      }
      var completed := loaded.value;
      var resumed := |completed|;
      var processed := 0;
      var left := budget;
      var i := 0;
      assert selected[0..] == selected;
      while i < |selected|
        invariant 0 <= i <= |selected| && output == old(output) && report == old(report)
        invariant
          RunCases(fingerprint, job.processing, limit, selected, loaded.value, 0,
                   Progress(old(checkpoint), [], budget, None)) ==
          RunCases(fingerprint, job.processing, limit, selected[i..], completed, processed,
                   Progress(checkpoint, calls, left, None))
      {
        var id := selected[i].id;
        assert selected[i..][1..] == selected[i + 1..];
        i := i + 1;
        if id in completed {
          continue;
        }
        if job.processing {
          if Exhausted(left) { return calls, Crashed; }
          calls, left := calls + [id], Spent(left);
        }
        completed := completed + [id];
        if Exhausted(left) { return calls, Crashed; }
        checkpoint, left := Some(Checkpoint(fingerprint, completed)), Spent(left);
        processed := processed + 1;
        if LimitReached(limit, processed) {
          return calls, Interrupted;
        }
      }
      if Exhausted(left) { return calls, Crashed; }
      output, left := Some(OutputOf(job, selected)), Spent(left);
      if Exhausted(left) { return calls, Crashed; }
      var result := ReportOf(p, job, selected, resumed);
      report := Some(result);
      return calls, Finished(result);
    }
  }
}
