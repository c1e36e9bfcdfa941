/** What every operation on the job table keeps, and what follows for whole runs. */
module JobInvariant {
  import opened JobObjects
  import opened ProcTables
  import opened JobSteps

  // ---------------------------------------------------------------- the invariant

  /** The table holds exactly the jobs with an id, strictly sorted by id. */
  ghost predicate TableOk(h: Heap, jobs: seq<JobObject>) {
    && (forall k :: 0 <= k < |jobs| ==> jobs[k] in h && 1 <= Of(h, jobs[k]).id < ID_LIMIT)
    && (forall k, l :: 0 <= k < l < |jobs| ==> Of(h, jobs[k]).id < Of(h, jobs[l]).id)
    && (forall j :: j in h && h[j].id != 0 ==> j in jobs)
  }

  /** A controlled job is terminated exactly when all its processes are; a job not yet attached is owned. */
  ghost predicate JobOk(job: Job) {
    && job.procs != []
    && (job.status != UNCONTROLLED ==> (job.status == TERMINATED <==> AllDone(job.procs)))
    && (job.id == 0 && job.status == AVAILABLE ==> !job.disowned)
  }

  ghost predicate JobsOk(h: Heap) {
    forall j :: j in h ==> JobOk(h[j])
  }

  ghost predicate EntriesOk(es: seq<Entry>, deleted: nat) {
    Sorted(es) && deleted == DeletedCount(es) && (forall e :: e in es ==> e.pid > 0)
  }

  /** The entry names a live process of this available job. */
  ghost predicate Owns(job: Job, e: Entry) {
    && job.id == e.jobId && job.status == AVAILABLE
    && e.offset < |job.procs| && job.procs[e.offset].pid == e.pid && Live(job.procs[e.offset])
  }

  ghost predicate Owned(h: Heap, e: Entry) {
    exists j :: j in h && Owns(h[j], e)
  }

  ghost predicate EveryEntryOwned(h: Heap, es: seq<Entry>) {
    forall e :: e in es && e.jobId != 0 ==> Owned(h, e)
  }

  /** Every live process of an attached, available job has its entry. */
  ghost predicate Covered(job: Job, es: seq<Entry>) {
    job.id != 0 && job.status == AVAILABLE ==>
      forall i :: 0 <= i < |job.procs| && Live(job.procs[i]) ==> Entry(job.procs[i].pid, job.id, i) in es
  }

  ghost predicate EveryJobCovered(h: Heap, es: seq<Entry>) {
    forall j :: j in h ==> Covered(h[j], es)
  }

  /** A terminated job still in the table will be removed by the next removal. */
  ghost predicate RemovalPending(h: Heap, deleted: nat) {
    deleted == 0 ==> forall j :: j in h && h[j].id != 0 ==> h[j].status != TERMINATED
  }

  ghost predicate Known(h: Heap, j: JobObject?) {
    j != null ==> j in h && (h[j].id != 0 || h[j].disowned)
  }

  ghost predicate CurPrevOk(h: Heap, cur: JobObject?, prev: JobObject?) {
    Known(h, cur) && Known(h, prev) && (prev != null ==> cur != null && cur != prev)
  }

  ghost predicate LastPipeOk(h: Heap, j: JobObject?) {
    j != null ==> j in h && h[j].Grouped()
  }

  ghost predicate Inv(s: State) {
    && TableOk(s.heap, s.jobs) && JobsOk(s.heap)
    && EntriesOk(s.entries, s.deleted)
    && EveryEntryOwned(s.heap, s.entries) && EveryJobCovered(s.heap, s.entries)
    && RemovalPending(s.heap, s.deleted)
    && CurPrevOk(s.heap, s.cur, s.prev) && LastPipeOk(s.heap, s.lastPipe)
  }

  // ---------------------------------------------------------------- lookups

  /** Ids are unique. */
  lemma SameId(h: Heap, jobs: seq<JobObject>, a: JobObject, b: JobObject)
    requires TableOk(h, jobs) && a in h && b in h && h[a].id == h[b].id != 0
    ensures a == b
  {
  }

  lemma {:induction false} LookupIs(h: Heap, jobs: seq<JobObject>, k: nat)
    requires k < |jobs|
    requires forall l :: 0 <= l < k ==> Of(h, jobs[l]).id != Of(h, jobs[k]).id
    ensures Lookup(h, jobs, Of(h, jobs[k]).id) == jobs[k]
  {
    if k == 0 {
    } else {
      LookupIs(h, jobs[1..], k - 1);
    }
  }

  lemma {:induction false} LookupSound(h: Heap, jobs: seq<JobObject>, id: nat)
    ensures var j := Lookup(h, jobs, id); j != null ==> j in jobs && Of(h, j).id == id
    ensures Lookup(h, jobs, id) == null ==> forall k :: 0 <= k < |jobs| ==> Of(h, jobs[k]).id != id
  {
    if jobs != [] && Of(h, jobs[0]).id != id {
      LookupSound(h, jobs[1..], id);
      if Lookup(h, jobs, id) == null {
        forall k | 0 <= k < |jobs| ensures Of(h, jobs[k]).id != id {
          assert k > 0 ==> jobs[k] == jobs[1..][k - 1];
        }
      }
    }
  }

  /** Looking an id up finds the one job that has it. */
  lemma {:induction false} LookupFinds(h: Heap, jobs: seq<JobObject>, j: JobObject)
    requires TableOk(h, jobs) && j in h && h[j].id != 0
    ensures Lookup(h, jobs, h[j].id) == j
  {
    var k :| 0 <= k < |jobs| && jobs[k] == j;
    LookupIs(h, jobs, k);
  }

  /** A report reaches a live process of a job in the table, the one with the reported pid. */
  ghost predicate TrackedLive(s: State, pid: int) {
    exists x :: 0 <= x < |s.entries| && s.entries[x].pid == pid && s.entries[x].jobId != 0
  }

  lemma {:induction false} ReachedIs(s: State, pid: int)
    requires Inv(s) && TrackedLive(s, pid)
    ensures Reached(s, pid) >= 0
    ensures var e := s.entries[Reached(s, pid)];
      var j := Lookup(s.heap, s.jobs, e.jobId);
      e.pid == pid && e.jobId != 0 && j != null && j in s.heap && Owns(s.heap[j], e)
  {
    hide EveryJobCovered, JobsOk, RemovalPending, CurPrevOk, LastPipeOk;
    var x :| 0 <= x < |s.entries| && s.entries[x].pid == pid && s.entries[x].jobId != 0;
    LowerBoundFinds(s.entries, x);
    assert s.entries[x] in s.entries;
    var j :| j in s.heap && Owns(s.heap[j], s.entries[x]);
    LookupFinds(s.heap, s.jobs, j);
  }
}
