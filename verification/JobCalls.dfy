/** The job table as its callers see it: the kernel's reports come in only while the shell waits, and every
    wait ends with a removal (src/job.cpp). */
module JobCalls {
  import opened JobObjects
  import opened ProcTables
  import opened JobSteps
  import opened JobInvariant
  import opened JobKeeps
  import opened JobRuns

  /** `waitForAny` and `waitForJob` take in reports and end with a removal; every other call is one step. */
  datatype Call = Do(step: Step) | Wait(results: seq<WaitResult>)

  /** Between two calls the table is consistent and nothing waits for compaction. */
  ghost predicate Quiet(s: State) {
    Inv(s) && s.deleted == 0
  }

  /** The live processes of the job have pids of their own, among themselves and among the live entries. */
  ghost predicate FreshAmongLive(es: seq<Entry>, job: Job) {
    && (forall i :: 0 <= i < |job.procs| && Live(job.procs[i]) ==>
          0 < job.procs[i].pid && !LiveTracks(es, job.procs[i].pid))
    && (forall i, j :: 0 <= i < j < |job.procs| && Live(job.procs[i]) && Live(job.procs[j]) ==>
          job.procs[i].pid != job.procs[j].pid)
  }

  ghost predicate LiveTracks(es: seq<Entry>, pid: int) {
    exists x :: 0 <= x < |es| && es[x].pid == pid && es[x].jobId != 0
  }

  /** What the environment grants. A kernel never gives a live process's pid to another process. */
  ghost predicate Granted(s: State, call: Call) {
    match call
    case Wait(results) => CanRun(s, Reports(results))
    case Do(step) =>
      && !step.KernelReport? && !step.RemoveTerminated?
      && if step.AttachJob? then
           && step.j in s.heap
           && (Unattached(s, step.j) ==> |s.jobs| < 65535 && FreshAmongLive(s.entries, Of(s.heap, step.j)))
         else Enabled(s, step)
  }

  function After(s: State, call: Call): State {
    match call
    case Wait(results) => Remove(Run(s, Reports(results)))
    case Do(step) => Apply(s, step)
  }

  /** With nothing deleted, being told apart from the live entries is being told apart from all. */
  lemma {:induction false} FreshEnough(es: seq<Entry>, job: Job)
    requires DeletedCount(es) == 0
    ensures FreshPids(es, job) <==> FreshAmongLive(es, job)
  {
    DeletedCountZero(es);
    forall pid ensures Tracks(es, pid) <==> LiveTracks(es, pid) {
      if Tracks(es, pid) {
        var x :| 0 <= x < |es| && es[x].pid == pid;
        assert es[x] in es;
      }
    }
  }

  /** Every call finds and leaves the table settled; so an attached job has to be told apart from live
      processes only. */
  lemma {:induction false} CallKeeps(s: State, call: Call)
    requires Quiet(s) && Granted(s, call)
    ensures Quiet(After(s, call))
  {
    hide Inv, Remove, Run, Reports;
    match call
    case Wait(results) =>
      RunKeeps(s, Reports(results));
      RemoveKeeps(Run(s, Reports(results)));
      RemoveSettles(Run(s, Reports(results)));
    case Do(step) =>
      GrantedIsEnabled(s, step);
      StepKeeps(s, step);
      StepDeletesNothing(s, step);
  }

  lemma {:induction false} RemoveSettles(s: State)
    requires Inv(s)
    ensures Remove(s).deleted == 0
  {
    AfterRemove(s);
  }

  lemma {:induction false} GrantedIsEnabled(s: State, step: Step)
    requires Quiet(s) && Granted(s, Do(step))
    ensures Enabled(s, step)
  {
    hide FreshPids, FreshAmongLive;
    if step.AttachJob? {
      FreshEnough(s.entries, Of(s.heap, step.j));
    }
  }

  lemma {:induction false} StepDeletesNothing(s: State, step: Step)
    requires s.deleted == 0 && !step.KernelReport?
    ensures Apply(s, step).deleted == 0
  {
    hide FreeIndex, AddJob, Inserted, Pick, Prune;
  }

  ghost predicate AllGranted(s: State, calls: seq<Call>)
    decreases |calls|
  {
    calls == [] || (Granted(s, calls[0]) && AllGranted(After(s, calls[0]), calls[1..]))
  }

  function AfterAll(s: State, calls: seq<Call>): State
    decreases |calls|
  {
    if calls == [] then s else AfterAll(After(s, calls[0]), calls[1..])
  }

  /** Over every sequence of calls the invariant holds, no entry is deleted and no job in the table is
      terminated whenever a call returns. */
  lemma {:induction false} CallsKeep(s: State, calls: seq<Call>)
    requires Quiet(s) && AllGranted(s, calls)
    ensures var t := AfterAll(s, calls);
      && Quiet(t) && (forall e :: e in t.entries ==> e.jobId != 0)
      && (forall j :: j in t.jobs ==> Of(t.heap, j).status != TERMINATED)
    decreases |calls|
  {
    hide Inv, Granted, After;
    if calls == [] {
      NothingPending(s);
    } else {
      CallKeeps(s, calls[0]);
      CallsKeep(After(s, calls[0]), calls[1..]);
    }
  }

  lemma {:induction false} NothingPending(s: State)
    requires Quiet(s)
    ensures forall e :: e in s.entries ==> e.jobId != 0
    ensures forall j :: j in s.jobs ==> Of(s.heap, j).status != TERMINATED
  {
    hide EveryEntryOwned, EveryJobCovered, CurPrevOk, LastPipeOk, JobsOk;
    DeletedCountZero(s.entries);
  }
}
