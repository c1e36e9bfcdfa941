/** What each operation on the job table changes, field by field (src/job.h, src/job.cpp). */
module JobLaws {
  import opened JobObjects
  import opened ProcTables
  import opened JobSteps
  import opened JobInvariant
  import opened JobKeeps
  import opened JobSync
  import opened JobRuns

  /** `j`, unless it is missing or disowned. */
  function IfKept(h: Heap, j: JobObject?): JobObject? {
    if j != null && !Of(h, j).disowned then j else null
  }

  /** `j`, unless it is missing or terminated. */
  function IfAlive(h: Heap, j: JobObject?): JobObject? {
    if j != null && Of(h, j).status != TERMINATED then j else null
  }

  /** Only an attached, available, owned job that is no last pipe becomes current; the old current job then
      becomes the previous one unless it is disowned. */
  lemma AfterSetCurrent(s: State, j: JobObject)
    ensures var t := SetCurrent(s, j);
      var job := Of(s.heap, j);
      && t == s.(cur := t.cur, prev := t.prev)
      && (job.id == 0 || job.status != AVAILABLE || job.disowned || job.lastPipe ==> t == s)
      && (job.id != 0 && job.status == AVAILABLE && !job.disowned && !job.lastPipe ==>
            && t.cur == j && t.prev == if s.cur == j then s.prev else IfKept(s.heap, s.cur))
  {
  }

  /** An attached job is in the table with its processes. Attached as disowned it changes nothing else;
      otherwise it becomes the current job, or, as the last part of a pipe, possibly the top-level one. */
  lemma {:induction false} AfterAttach(s: State, j: JobObject, disowned: bool)
    requires Inv(s) && j in s.heap && Unattached(s, j) && Attachable(s, j)
    ensures var t := Attach(s, j, disowned);
      var job := s.heap[j];
      && (forall i :: i in t.jobs <==> i == j || i in s.jobs)
      && t.heap.Keys == s.heap.Keys && (forall i :: i in s.heap && i != j ==> t.heap[i] == s.heap[i])
      && t.heap[j] == job.(id := t.heap[j].id, disowned := disowned)
      && (disowned || job.lastPipe ==> t.cur == s.cur && t.prev == s.prev)
      && (!disowned && !job.lastPipe ==> t.cur == j && t.prev == IfKept(s.heap, s.cur))
      && t.lastPipe
         == if s.lastPipe == null && !disowned && job.lastPipe && job.procs[0].groupLeader then j else s.lastPipe
  {
    hide Inv, Enter, Attachable;
    CurrentIsOther(s, j);
    EnterIs(s, j);
  }

  lemma {:induction false} EnterIs(s: State, j: JobObject)
    requires Inv(s) && j in s.heap && Unattached(s, j) && Attachable(s, j)
    ensures var t := Enter(s, j);
      && (forall i :: i in t.jobs <==> i == j || i in s.jobs)
      && j in t.heap && t.heap[j].id != 0 && t.heap == s.heap[j := s.heap[j].(id := t.heap[j].id)]
      && t.cur == s.cur && t.prev == s.prev && t.lastPipe == s.lastPipe
  {
    hide TableOk, JobsOk, EntriesOk, EveryEntryOwned, EveryJobCovered, RemovalPending, FreeIndex, AddJob, Inserted, FreshPids,
      CurPrevOk, LastPipeOk;
    var k := FreeIndex(s.heap, s.jobs, 0);
    LeastIdOfTable(s.heap, s.jobs);
    forall i ensures i in Inserted(s.jobs, k, j) <==> i == j || i in s.jobs { InsertedHas(s.jobs, k, j, i); }
  }

  /** A job that is not attached yet is not the current one. */
  lemma {:induction false} CurrentIsOther(s: State, j: JobObject)
    requires Inv(s) && j in s.heap && Unattached(s, j)
    ensures s.cur != j && !s.heap[j].disowned && s.heap[j].procs != []
  {
    hide TableOk, EntriesOk, EveryEntryOwned, EveryJobCovered, RemovalPending;
  }

  /** A removal that finds a job to drop forgets the terminated current and previous jobs; an owned previous
      job that is still alive moves up. A removal that finds none leaves them. */
  lemma {:induction false} RemoveMovesUp(s: State)
    ensures var t := Remove(s);
      var cur, prev := IfAlive(s.heap, s.cur), IfAlive(s.heap, s.prev);
      if s.deleted > 0 && exists k :: 0 <= k < |s.jobs| && Of(s.heap, s.jobs[k]).status != AVAILABLE then
        && t.cur == (if cur != null || s.cur == null then cur else prev)
        && t.prev == (if cur != null || s.cur == null then prev else null)
        && t.lastPipe == IfAlive(s.heap, s.lastPipe)
      else t == s.(entries := t.entries, deleted := t.deleted)
  {
    hide Available, LiveEntries, DropUnavailable;
  }

  /** Losing control touches the state of the jobs in the table alone. */
  lemma AfterLoseControl(s: State)
    ensures var t := LoseControl(s);
      && t == s.(heap := t.heap, entries := [], deleted := 0, lastPipe := null) && t.heap.Keys == s.heap.Keys
      && forall j :: j in s.heap ==>
           t.heap[j] == s.heap[j].(status := if j in s.jobs then UNCONTROLLED else s.heap[j].status)
  {
  }

  /** Choosing looks at the state and the two flags of the jobs only. */
  lemma {:induction false} PickSame(g: Heap, h: Heap, jobs: seq<JobObject>, n: nat, cur: JobObject?)
    requires n <= |jobs| && forall k :: 0 <= k < |jobs| ==> SameFlags(Of(g, jobs[k]), Of(h, jobs[k]))
    ensures Pick(g, jobs, n, cur) == Pick(h, jobs, n, cur)
  {
    if n == 0 {
    } else {
      assert SameFlags(Of(g, jobs[n - 1]), Of(h, jobs[n - 1]));
      PickSame(g, h, jobs, n - 1, cur);
      PickSame(g, h, jobs, n - 1, jobs[n - 1]);
    }
  }

  predicate SameFlags(a: Job, b: Job) {
    a.status == b.status && a.disowned == b.disowned && a.lastPipe == b.lastPipe
  }

  lemma {:induction false} SyncSame(s: State, j: JobObject, job: Job)
    requires j in s.heap && SameFlags(job, s.heap[j])
    ensures var u := Sync(s.(heap := s.heap[j := job])); u.cur == Sync(s).cur && u.prev == Sync(s).prev
  {
    hide Pick;
    var h := s.heap[j := job];
    var cp := Prune(s.heap, s.cur, s.prev);
    assert Prune(h, s.cur, s.prev) == cp;
    PickSame(s.heap, h, s.jobs, |s.jobs|, cp.0);
  }

  /** A report leaves the current and the previous job alone, except that the first process to end after a
      compaction makes the table sync them when jobs are announced. */
  lemma {:induction false} ReportSyncs(s: State, ret: WaitResult)
    requires Inv(s) && TrackedLive(s, ret.pid)
    ensures var t := Report(s, ret);
      if ret.kind in {EXITED, SIGNALED} && s.notify && s.deleted == 0
      then t.cur == Sync(s).cur && t.prev == Sync(s).prev
      else t.cur == s.cur && t.prev == s.prev
  {
    hide EveryJobCovered, JobsOk, RemovalPending, CurPrevOk, TableOk, LowerBound, JobObjects.Settled, Sorted, DeletedCount,
      Sync, EveryEntryOwned, LastPipeOk;
    ReachedIs(s, ret.pid);
    var x := Reached(s, ret.pid);
    var e := s.entries[x];
    var j := Lookup(s.heap, s.jobs, e.jobId);
    var job := Told(s.heap[j], e.offset, ret);
    SyncSame(s, j, job);
    var t := s.(heap := s.heap[j := job]);
    SyncEntries(t, EntriesTold(s.entries, x, false), s.deleted + 1);
  }

  /** The entries play no part in a sync. */
  lemma SyncEntries(s: State, es: seq<Entry>, deleted: nat)
    ensures var u := Sync(s.(entries := es, deleted := deleted)); u.cur == Sync(s).cur && u.prev == Sync(s).prev
  {
  }

  /** A report without a process changes nothing. */
  lemma NoProcessNoChange(s: State, ret: WaitResult)
    requires ret.pid <= 0
    ensures Report(s, ret) == s
  {
  }
}
