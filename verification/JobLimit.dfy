/** The job table at its limit: ids are 16 bits wide (src/job.h), so a table of 65535 jobs is full. */
module JobLimit {
  import opened JobObjects
  import opened ProcTables
  import S = JobSteps
  import opened JobInvariant
  import opened JobKeeps
  import opened JobTables

  function Process(pid: int): Proc {
    Proc(pid, Running, 0, false, false, false)
  }

  ghost predicate PidsUpTo(es: seq<Entry>, n: nat) {
    forall e :: e in es ==> e.pid <= n
  }

  /** A new pid above all others can be told apart, so only room is needed. */
  lemma {:induction false} NextFits(s: S.State, j: JobObject, n: nat)
    requires PidsUpTo(s.entries, n) && j in s.heap && s.heap[j].procs == [Process(n + 1)]
    ensures Attachable(s, j) <==> |s.jobs| < 65535
  {
    forall x | 0 <= x < |s.entries| ensures s.entries[x].pid != n + 1 {
      assert s.entries[x] in s.entries;
    }
  }

  lemma {:induction false} NotDone(n: nat)
    ensures !AllDone([Process(n + 1)])
  {
    assert DoneCount([Process(n + 1)], 0) == 0;
  }

  /** What attaching one process does to the sizes and the pids. */
  lemma {:induction false} AttachedOne(s: S.State, j: JobObject, n: nat)
    requires Inv(s) && PidsUpTo(s.entries, n) && S.Unattached(s, j)
    requires j in s.heap && s.heap[j].procs == [Process(n + 1)]
    ensures var t := S.Attach(s, j, false);
      |t.jobs| == |s.jobs| + 1 && PidsUpTo(t.entries, n + 1) && j in t.heap
      && t.heap[j].id == (S.FreeIndex(s.heap, s.jobs, 0) + 1) % S.ID_LIMIT
  {
    hide TableOk, EveryEntryOwned, EveryJobCovered, JobsOk, RemovalPending, CurPrevOk, LastPipeOk, AddJob, S.FreeIndex,
      Sorted, DeletedCount, FreshPids;
    var k := S.FreeIndex(s.heap, s.jobs, 0);
    var job := s.heap[j].(id := (k + 1) % S.ID_LIMIT);
    AddJobBounds(s.entries, job, 1);
  }

  /** Creates a job with one process and attaches it; `s` is the state in between. */
  method AttachProcess(t: JobTable, n: nat) returns (j: JobObject, ghost s: S.State)
    requires t.Valid() && PidsUpTo(t.procTable.entries, n)
    modifies t, t.procTable
    ensures fresh(j) && t.known == old(t.known) + {j}
    ensures Inv(s) && j in s.heap && S.Unattached(s, j) && s.jobs == old(t.jobs)
    ensures t.St() == S.Attach(s, j, false)
    ensures |t.jobs| == old(|t.jobs|) + 1 && PidsUpTo(t.procTable.entries, n + 1)
    ensures j.id == (S.FreeIndex(s.heap, s.jobs, 0) + 1) % S.ID_LIMIT
    ensures t.Valid() <==> old(|t.jobs|) < 65535
  {
    hide Inv, S.Attach, PidsUpTo, AllDone, Attachable, JobTable.Contents;
    NotDone(n);
    j := t.CreateJob([Process(n + 1)], false);
    s := t.St();
    NextFits(s, j, n);
    AttachedOne(s, j, n);
    t.Attach(j, false);
    t.ContentsAt(j);
  }

  /** A valid table with any number of jobs up to the limit can be built. */
  method FillTable(n: nat) returns (t: JobTable)
    requires n <= 65535
    ensures fresh(t) && fresh(t.procTable) && fresh(t.known)
    ensures t.Valid() && |t.jobs| == n && PidsUpTo(t.procTable.entries, n)
  {
    hide Inv, S.Attach, PidsUpTo, JobTable.Contents;
    t := new JobTable(false);
    NoPids();
    var i := 0;
    while i < n
      invariant 0 <= i <= n && fresh(t) && fresh(t.procTable) && fresh(t.known)
      invariant t.Valid() && |t.jobs| == i && PidsUpTo(t.procTable.entries, i)
    {
      var _, _ := AttachProcess(t, i);
      i := i + 1;
    }
  }

  lemma NoPids()
    ensures PidsUpTo([], 0)
  {
  }

  /** One job more than the limit: `s` is a valid table of 65535 jobs in which every id is used, and the
      job attached to it gets the id 0, which breaks the table. */
  method ExceedLimit() returns (t: JobTable, j: JobObject, ghost s: S.State)
    ensures Inv(s) && |s.jobs| == 65535 && j in s.heap && S.Unattached(s, j)
    ensures t.St() == S.Attach(s, j, false)
    ensures j in t.known && j.id == 0 && !LeastUnused(s.heap, j.id)
    ensures !t.Valid()
  {
    hide Inv, S.Attach, PidsUpTo, JobTable.Contents, LeastUnused;
    t := FillTable(65535);
    j, s := AttachProcess(t, 65535);
    AttachGivesLeastId(s, j, false);
    FullTable(s);
    t.ContentsAt(j);
  }

  lemma {:induction false} FullTable(s: S.State)
    requires Inv(s) && |s.jobs| == 65535
    ensures (S.FreeIndex(s.heap, s.jobs, 0) + 1) % S.ID_LIMIT == 0
  {
    hide S.FreeIndex;
    LeastIdOfTable(s.heap, s.jobs);
  }
}
