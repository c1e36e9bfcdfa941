/** Every operation on the job table keeps the invariant. */
module JobKeeps {
  import opened JobObjects
  import opened ProcTables
  import opened JobSteps
  import opened JobInvariant

  // ---------------------------------------------------------------- changing one job

  lemma TableUpdate(h: Heap, jobs: seq<JobObject>, j: JobObject, job: Job)
    requires TableOk(h, jobs) && j in h && job.id == h[j].id
    ensures TableOk(h[j := job], jobs)
  {
  }

  lemma CurPrevUpdate(h: Heap, cur: JobObject?, prev: JobObject?, j: JobObject, job: Job)
    requires CurPrevOk(h, cur, prev) && j in h
    requires h[j].id != 0 ==> job.id != 0 || job.disowned
    requires h[j].disowned ==> job.disowned
    ensures CurPrevOk(h[j := job], cur, prev)
  {
  }

  // ---------------------------------------------------------------- the least free id

  lemma {:induction false} IdGap(h: Heap, jobs: seq<JobObject>, k: nat, l: nat)
    requires TableOk(h, jobs) && k <= l < |jobs|
    ensures Of(h, jobs[l]).id - Of(h, jobs[k]).id >= l - k
    decreases l - k
  {
    if k == l {
    } else {
      IdGap(h, jobs, k, l - 1);
    }
  }

  lemma {:induction false} IdAbove(h: Heap, jobs: seq<JobObject>, k: nat)
    requires TableOk(h, jobs) && k < |jobs|
    ensures Of(h, jobs[k]).id >= k + 1
  {
    IdGap(h, jobs, 0, k);
  }

  /** "The id is the index plus one" is a prefix property, which is what the binary search relies on. */
  lemma {:induction false} PrefixProperty(h: Heap, jobs: seq<JobObject>, k: nat, l: nat)
    requires TableOk(h, jobs) && k <= l < |jobs| && Of(h, jobs[l]).id == l + 1
    ensures Of(h, jobs[k]).id == k + 1
  {
    IdGap(h, jobs, k, l);
    IdAbove(h, jobs, k);
  }

  lemma {:induction false} BelowFreeIndex(h: Heap, jobs: seq<JobObject>, m: nat, k: nat)
    requires m <= k < |jobs| && k < FreeIndex(h, jobs, m)
    ensures Of(h, jobs[k]).id == k + 1
    decreases k - m
  {
    if m == k {
    } else {
      BelowFreeIndex(h, jobs, m + 1, k);
    }
  }

  lemma {:induction false} AtFreeIndex(h: Heap, jobs: seq<JobObject>, m: nat)
    requires m <= |jobs|
    ensures var r := FreeIndex(h, jobs, m); r < |jobs| ==> Of(h, jobs[r]).id != r + 1
    decreases |jobs| - m
  {
    if m < |jobs| && Of(h, jobs[m]).id == m + 1 {
      AtFreeIndex(h, jobs, m + 1);
    }
  }

  lemma {:induction false} FreeIndexIs(h: Heap, jobs: seq<JobObject>, r: nat)
    requires r <= |jobs|
    requires forall k :: 0 <= k < r ==> Of(h, jobs[k]).id == k + 1
    requires r < |jobs| ==> Of(h, jobs[r]).id != r + 1
    ensures FreeIndex(h, jobs, 0) == r
  {
    var f := FreeIndex(h, jobs, 0);
    AtFreeIndex(h, jobs, 0);
    if r < f {
      BelowFreeIndex(h, jobs, 0, r);
    }
  }

  /** Around the free index: ids below it are "index plus one", ids from it on are larger. */
  lemma {:induction false} AroundFreeIndex(h: Heap, jobs: seq<JobObject>)
    requires TableOk(h, jobs)
    ensures var r := FreeIndex(h, jobs, 0);
      && (forall k :: 0 <= k < r ==> Of(h, jobs[k]).id == k + 1)
      && (forall k :: r <= k < |jobs| ==> Of(h, jobs[k]).id > r + 1)
  {
    var r := FreeIndex(h, jobs, 0);
    AtFreeIndex(h, jobs, 0);
    forall k | 0 <= k < r ensures Of(h, jobs[k]).id == k + 1 { BelowFreeIndex(h, jobs, 0, k); }
    forall k | r <= k < |jobs| ensures Of(h, jobs[k]).id > r + 1 {
      IdAbove(h, jobs, r);
      IdGap(h, jobs, r, k);
    }
  }

  ghost predicate UsedId(h: Heap, n: nat) {
    exists j :: j in h && h[j].id == n
  }

  ghost predicate LeastUnused(h: Heap, n: nat) {
    1 <= n && !UsedId(h, n) && forall m :: 1 <= m < n ==> UsedId(h, m)
  }

  lemma {:induction false} LeastIdOfTable(h: Heap, jobs: seq<JobObject>)
    requires TableOk(h, jobs)
    ensures var k := FreeIndex(h, jobs, 0); LeastUnused(h, k + 1) && (k >= 65535 <==> |jobs| >= 65535)
    ensures |jobs| <= 65535
  {
    hide FreeIndex;
    var k := FreeIndex(h, jobs, 0);
    AroundFreeIndex(h, jobs);
    if |jobs| > 0 {
      IdAbove(h, jobs, |jobs| - 1);
    }
    forall m | 1 <= m < k + 1 ensures UsedId(h, m) {
      assert jobs[m - 1] in h;
    }
    if k < |jobs| {
      IdGap(h, jobs, k, |jobs| - 1);
    }
  }

  /** `attach` gives the least positive id not in use, exactly as long as fewer than 65535 jobs are in
      the table. */
  lemma {:induction false} AttachGivesLeastId(s: State, j: JobObject, disowned: bool)
    requires Inv(s) && j in s.heap && Unattached(s, j)
    ensures j in Attach(s, j, disowned).heap
    ensures LeastUnused(s.heap, Attach(s, j, disowned).heap[j].id) <==> |s.jobs| < 65535
  {
    hide TableOk, EntriesOk, EveryEntryOwned, EveryJobCovered, JobsOk, RemovalPending, AddJob, CurPrevOk, FreeIndex;
    LeastIdOfTable(s.heap, s.jobs);
  }

  // ---------------------------------------------------------------- attach

  /** What a caller of `attach` must provide: room in the table and pids that can be told apart. */
  ghost predicate Attachable(s: State, j: JobObject) {
    |s.jobs| < 65535 && FreshPids(s.entries, Of(s.heap, j))
  }

  lemma InsertedAt(h: Heap, jobs: seq<JobObject>, k: nat, j: JobObject, job: Job, x: nat)
    requires TableOk(h, jobs) && k <= |jobs| && j in h && h[j].id == 0 && x <= |jobs|
    ensures |Inserted(jobs, k, j)| == |jobs| + 1 && Inserted(jobs, k, j)[x] in h
    ensures Of(h[j := job], Inserted(jobs, k, j)[x])
         == if x < k then Of(h, jobs[x]) else if x == k then job else Of(h, jobs[x - 1])
  {
  }

  lemma {:induction false} AttachTable(h: Heap, jobs: seq<JobObject>, j: JobObject, job: Job)
    requires TableOk(h, jobs) && |jobs| < 65535 && j in h && h[j].id == 0
    requires job.id == FreeIndex(h, jobs, 0) + 1
    ensures TableOk(h[j := job], Inserted(jobs, FreeIndex(h, jobs, 0), j))
  {
    hide FreeIndex, Inserted;
    var k := FreeIndex(h, jobs, 0);
    AroundFreeIndex(h, jobs);
    InsertedAt(h, jobs, k, j, job, 0);
    var g, js := h[j := job], Inserted(jobs, k, j);
    forall x | 0 <= x < |js| ensures js[x] in g && 1 <= Of(g, js[x]).id < ID_LIMIT {
      InsertedAt(h, jobs, k, j, job, x);
    }
    forall x, y | 0 <= x < y < |js| ensures Of(g, js[x]).id < Of(g, js[y]).id {
      InsertedAt(h, jobs, k, j, job, x);
      InsertedAt(h, jobs, k, j, job, y);
    }
    forall i | i in g && g[i].id != 0 ensures i in js {
      InsertedHas(jobs, k, j, i);
    }
  }

  lemma InsertedHas(jobs: seq<JobObject>, k: nat, j: JobObject, i: JobObject)
    requires k <= |jobs|
    ensures i in Inserted(jobs, k, j) <==> i == j || i in jobs
  {
  }

  /** The entries after the job was added: everything that was owned still is, and so are the new ones. */
  lemma {:induction false} AttachEntries(h: Heap, jobs: seq<JobObject>, es: seq<Entry>, deleted: nat, j: JobObject, job: Job)
    requires TableOk(h, jobs) && EntriesOk(es, deleted) && EveryEntryOwned(h, es) && EveryJobCovered(h, es)
    requires j in h && h[j].id == 0 && job.id != 0 && job.status == AVAILABLE && FreshPids(es, job)
    ensures var r := AddJob(es, job, |job.procs|);
      EntriesOk(r, deleted) && EveryEntryOwned(h[j := job], r) && EveryJobCovered(h[j := job], r)
  {
    hide AddJob, TableOk, Sorted, DeletedCount;
    var g, r := h[j := job], AddJob(es, job, |job.procs|);
    AddJobBounds(es, job, |job.procs|);
    AddJobCovers(es, job, |job.procs|);
    forall e | e in r && e.jobId != 0 ensures Owned(g, e) {
      if e in es {
        var i: JobObject :| i in h && Owns(h[i], e);
        assert i in g && Owns(g[i], e);
      } else {
        assert j in g && Owns(g[j], e);
      }
    }
    forall i | i in g ensures Covered(g[i], r) {
      assert i != j ==> Covered(h[i], es);
    }
  }

  lemma {:induction false} SetCurrentKeeps(s: State, j: JobObject)
    requires Inv(s) && j in s.heap
    ensures Inv(SetCurrent(s, j))
  {
    hide TableOk, EntriesOk, EveryEntryOwned, EveryJobCovered, JobsOk, RemovalPending;
  }

  lemma {:induction false} DisownKeeps(s: State, j: JobObject)
    requires Inv(s) && j in s.heap && (s.heap[j].id != 0 || s.heap[j].status != AVAILABLE)
    ensures Inv(Disown(s, j))
  {
    var h, es := s.heap, s.entries;
    var job := h[j].(disowned := true);
    TableUpdate(h, s.jobs, j, job);
    CurPrevUpdate(h, s.cur, s.prev, j, job);
    OwnersUpdate(h, es, j, job);
  }

  /** The links between entries and jobs depend on ids, states and processes only. */
  lemma {:induction false} OwnersUpdate(h: Heap, es: seq<Entry>, j: JobObject, job: Job)
    requires EveryEntryOwned(h, es) && EveryJobCovered(h, es)
    requires j in h && job.id == h[j].id && job.status == h[j].status && job.procs == h[j].procs
    ensures EveryEntryOwned(h[j := job], es) && EveryJobCovered(h[j := job], es)
  {
    var g := h[j := job];
    forall e | e in es && e.jobId != 0 ensures Owned(g, e) {
      var i: JobObject :| i in h && Owns(h[i], e);
      assert i in g && Owns(g[i], e);
    }
    forall i | i in g ensures Covered(g[i], es) {
      assert Covered(h[i], es);
    }
  }

  lemma {:induction false} EnterKeeps(s: State, j: JobObject)
    requires Inv(s) && j in s.heap && Unattached(s, j) && Attachable(s, j)
    ensures Inv(Enter(s, j))
  {
    hide TableOk, EntriesOk, EveryEntryOwned, EveryJobCovered, FreeIndex, AddJob, Inserted;
    LeastIdOfTable(s.heap, s.jobs);
    var job := s.heap[j].(id := FreeIndex(s.heap, s.jobs, 0) + 1);
    AttachTable(s.heap, s.jobs, j, job);
    AttachEntries(s.heap, s.jobs, s.entries, s.deleted, j, job);
    CurPrevUpdate(s.heap, s.cur, s.prev, j, job);
  }

  lemma {:induction false} EnteredJob(s: State, j: JobObject)
    requires Inv(s)
    ensures Attachable(s, j) ==> |s.jobs| < 65535
    ensures j in Enter(s, j).heap && Enter(s, j).heap[j] == Of(s.heap, j).(id := (FreeIndex(s.heap, s.jobs, 0) + 1) % ID_LIMIT)
    ensures TableOk(s.heap, s.jobs)
    ensures SetCurrent(Enter(s, j), j).heap == Enter(s, j).heap
  {
    hide TableOk, EntriesOk, EveryEntryOwned, EveryJobCovered, JobsOk, RemovalPending, CurPrevOk, LastPipeOk, AddJob;
  }

  lemma EnterLastPipeKeeps(s: State, j: JobObject)
    requires Inv(s) && j in s.heap
    ensures Inv(EnterLastPipe(s, j))
  {
  }

  /** Room in the table and pids that can be told apart are exactly what `attach` needs. */
  lemma {:induction false} AttachExact(s: State, j: JobObject, disowned: bool)
    requires Inv(s) && j in s.heap
    ensures Inv(Attach(s, j, disowned)) <==> (Unattached(s, j) ==> Attachable(s, j))
  {
    hide Inv, Enter, SetCurrent, FreeIndex, Attachable;
    if Unattached(s, j) {
      EnteredJob(s, j);
      LeastIdOfTable(s.heap, s.jobs);
      if Attachable(s, j) {
        EnterKeeps(s, j);
        if disowned {
          DisownKeeps(Enter(s, j), j);
        } else {
          SetCurrentKeeps(Enter(s, j), j);
          EnterLastPipeKeeps(SetCurrent(Enter(s, j), j), j);
        }
      } else if Inv(Attach(s, j, disowned)) {
        AttachShows(s, j, disowned);
        EnterNeeds(s, j);
      }
    }
  }

  lemma {:induction false} AttachShows(s: State, j: JobObject, disowned: bool)
    requires Unattached(s, j) && Inv(Attach(s, j, disowned))
    ensures var t := Enter(s, j);
      j in t.heap && t.heap[j].id != 0 && EntriesOk(t.entries, t.deleted) && Covered(t.heap[j], t.entries)
  {
    hide AddJob, FreeIndex, EntriesOk, Inserted;
    var u := Attach(s, j, disowned);
    assert j in u.heap && Covered(u.heap[j], u.entries);
    InsertedHas(s.jobs, FreeIndex(s.heap, s.jobs, 0), j, j);
    assert j in u.jobs;
  }

  lemma {:induction false} EnterNeeds(s: State, j: JobObject)
    requires Inv(s) && j in s.heap && Unattached(s, j)
    requires var t := Enter(s, j);
      j in t.heap && t.heap[j].id != 0 && EntriesOk(t.entries, t.deleted) && Covered(t.heap[j], t.entries)
    ensures Attachable(s, j)
  {
    hide FreeIndex, Inserted, EntriesOk, AddJob, TableOk, EveryEntryOwned, EveryJobCovered, FreshPids, CurPrevOk;
    var t := Enter(s, j);
    LeastIdOfTable(s.heap, s.jobs);
    EntriesNeed(s, t.heap[j], t.entries);
    SamePids(s.entries, t.heap[j], s.heap[j]);
  }

  lemma SamePids(es: seq<Entry>, a: Job, b: Job)
    requires a.procs == b.procs && FreshPids(es, a)
    ensures FreshPids(es, b)
  {
  }

  lemma {:induction false} EntriesNeed(s: State, job: Job, es: seq<Entry>)
    requires Inv(s) && job.id != 0 && job.status == AVAILABLE && !UsedId(s.heap, job.id)
    requires es == AddJob(s.entries, job, |job.procs|) && EntriesOk(es, s.deleted) && Covered(job, es)
    ensures FreshPids(s.entries, job)
  {
    hide AddJob, TableOk, EveryEntryOwned, EveryJobCovered, CurPrevOk, JobsOk, DeletedCount, LastPipeOk, UsedId;
    AddJobBounds(s.entries, job, |job.procs|);
    forall i | 0 <= i < |job.procs| && Live(job.procs[i])
      ensures 0 < job.procs[i].pid && !Tracks(s.entries, job.procs[i].pid)
    {
      NewEntry(s, es, Own(job, i));
    }
    forall i, l | 0 <= i < l < |job.procs| && Live(job.procs[i]) && Live(job.procs[l])
      ensures job.procs[i].pid != job.procs[l].pid
    {
      assert Own(job, i) in es && Own(job, l) in es;
    }
  }

  lemma NewEntry(s: State, es: seq<Entry>, e: Entry)
    requires Inv(s) && Sorted(es) && e in es && e.jobId != 0 && !UsedId(s.heap, e.jobId)
    requires forall d :: d in s.entries ==> d in es
    ensures !Tracks(s.entries, e.pid)
  {
  }
}
