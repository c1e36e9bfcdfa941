/** Reports, removals and whole runs of the job table. */
module JobRuns {
  import opened JobObjects
  import opened ProcTables
  import opened JobSteps
  import opened JobInvariant
  import opened JobKeeps
  import opened JobSync

  // ---------------------------------------------------------------- reports

  /** The job after the report about one of its processes. */
  function Told(job: Job, i: nat, ret: WaitResult): Job
    requires i < |job.procs|
  {
    job.(procs := job.procs[i := UpdateProc(job.procs[i], ret)])
  }

  lemma {:induction false} ToldOk(job: Job, i: nat, ret: WaitResult)
    requires JobOk(job) && job.status == AVAILABLE && i < |job.procs|
    ensures JobOk(Settled(Told(job, i, ret)))
    ensures forall l :: 0 <= l < |job.procs| && Live(Told(job, i, ret).procs[l]) ==> Settled(Told(job, i, ret)).status == AVAILABLE
    ensures Settled(Told(job, i, ret)).Grouped() <==> job.Grouped()
  {
    hide DoneCount;
    AllDoneIs(Told(job, i, ret).procs);
  }

  /** The entries after the report: the reported one is deleted if its process is done. */
  function EntriesTold(es: seq<Entry>, x: nat, live: bool): seq<Entry>
    requires x < |es|
  {
    if live then es else es[x := es[x].(jobId := 0)]
  }

  lemma {:induction false} EntriesToldOk(es: seq<Entry>, deleted: nat, x: nat, live: bool)
    requires EntriesOk(es, deleted) && x < |es| && es[x].jobId != 0
    ensures EntriesOk(EntriesTold(es, x, live), deleted + if live then 0 else 1)
  {
    if !live {
      DeletedCountUpdate(es, x, es[x].(jobId := 0));
      var r := EntriesTold(es, x, live);
      assert forall y :: 0 <= y < |es| ==> r[y].pid == es[y].pid;
      assert forall y :: 0 <= y < |es| ==> es[y] in es;
    }
  }

  lemma EntriesToldHas(es: seq<Entry>, x: nat, live: bool, e: Entry)
    requires Sorted(es) && x < |es| && e.jobId != 0
    ensures e in EntriesTold(es, x, live) <==> e in es && (live || e.pid != es[x].pid)
  {
  }

  lemma {:induction false} ReportOwners(h: Heap, jobs: seq<JobObject>, es: seq<Entry>, x: nat, j: JobObject, ret: WaitResult)
    requires TableOk(h, jobs) && JobsOk(h) && Sorted(es) && EveryEntryOwned(h, es)
    requires x < |es| && es[x].jobId != 0 && j in h && Owns(h[j], es[x])
    ensures var job := Told(h[j], es[x].offset, ret);
      var live := Live(UpdateProc(h[j].procs[es[x].offset], ret));
      EveryEntryOwned(h[j := Settled(job)], EntriesTold(es, x, live))
  {
    hide TableOk, JobsOk, EntriesTold, Settled, Sorted;
    var i := es[x].offset;
    var job := Told(h[j], i, ret);
    var live := Live(UpdateProc(h[j].procs[i], ret));
    var g, r := h[j := Settled(job)], EntriesTold(es, x, live);
    SettledOnlyStatus(job);
    OkAt(h, j);
    ToldOk(h[j], i, ret);
    forall e | e in r && e.jobId != 0 ensures Owned(g, e) {
      EntriesToldHas(es, x, live, e);
      var a: JobObject :| a in h && Owns(h[a], e);
      if a == j {
        assert Live(job.procs[e.offset]);
        assert j in g && Owns(g[j], e);
      } else {
        assert a in g && Owns(g[a], e);
      }
    }
  }

  lemma OkAt(h: Heap, j: JobObject)
    requires JobsOk(h) && j in h
    ensures JobOk(h[j])
  {
  }

  lemma SettledOnlyStatus(job: Job)
    ensures Settled(job).procs == job.procs && Settled(job).id == job.id && Settled(job).disowned == job.disowned
    ensures Settled(job).status == AVAILABLE ==> job.status == AVAILABLE
  {
  }

  lemma {:induction false} ReportCovers(h: Heap, jobs: seq<JobObject>, es: seq<Entry>, x: nat, j: JobObject, ret: WaitResult)
    requires TableOk(h, jobs) && Sorted(es) && EveryJobCovered(h, es)
    requires x < |es| && es[x].jobId != 0 && j in h && Owns(h[j], es[x])
    ensures var job := Told(h[j], es[x].offset, ret);
      var live := Live(UpdateProc(h[j].procs[es[x].offset], ret));
      EveryJobCovered(h[j := Settled(job)], EntriesTold(es, x, live))
  {
    hide TableOk, EntriesTold, Settled, Sorted, EveryJobCovered;
    var i := es[x].offset;
    var job := Told(h[j], i, ret);
    var live := Live(UpdateProc(h[j].procs[i], ret));
    var g, r := h[j := Settled(job)], EntriesTold(es, x, live);
    SettledOnlyStatus(job);
    forall a | a in g ensures Covered(g[a], r) {
      CoveredAt(h, es, a);
      if g[a].id != 0 && g[a].status == AVAILABLE {
        forall l | 0 <= l < |g[a].procs| && Live(g[a].procs[l]) ensures Entry(g[a].procs[l].pid, g[a].id, l) in r {
          var e := Entry(g[a].procs[l].pid, g[a].id, l);
          assert Live(h[a].procs[l]) && h[a].procs[l].pid == g[a].procs[l].pid;
          assert e in es;
          EntriesToldHas(es, x, live, e);
          if e.pid == es[x].pid {
            SamePid(es, x, e);
            SameId(h, jobs, a, j);
          }
        }
      }
    }
    CoveredAll(g, r);
  }

  lemma CoveredAt(h: Heap, es: seq<Entry>, a: JobObject)
    requires EveryJobCovered(h, es) && a in h
    ensures Covered(h[a], es)
  {
  }

  lemma CoveredAll(h: Heap, es: seq<Entry>)
    requires forall a :: a in h ==> Covered(h[a], es)
    ensures EveryJobCovered(h, es)
  {
  }

  lemma SamePid(es: seq<Entry>, x: nat, e: Entry)
    requires Sorted(es) && x < |es| && e in es && e.pid == es[x].pid
    ensures e == es[x]
  {
  }

  /** What a report about a tracked live process changes. */
  lemma {:induction false} ReportIs(s: State, ret: WaitResult)
    requires Inv(s) && TrackedLive(s, ret.pid)
    ensures Reached(s, ret.pid) >= 0
    ensures var x := Reached(s, ret.pid);
      var e := s.entries[x];
      var j := Lookup(s.heap, s.jobs, e.jobId);
      && e.pid == ret.pid && e.jobId != 0 && j != null && j in s.heap && Owns(s.heap[j], e)
      && var job := Told(s.heap[j], e.offset, ret);
        var live := Live(UpdateProc(s.heap[j].procs[e.offset], ret));
        var t := Report(s, ret);
        && t.heap == s.heap[j := Settled(job)]
        && t.entries == EntriesTold(s.entries, x, live)
        && t.deleted == s.deleted + (if live then 0 else 1)
        && t.jobs == s.jobs && t.lastPipe == s.lastPipe && t.notify == s.notify
        && CurPrevOk(t.heap, t.cur, t.prev)
  {
    hide EveryJobCovered, JobsOk, RemovalPending, CurPrevOk, TableOk, LowerBound, Settled, Sorted, DeletedCount, Sync,
      EveryEntryOwned, LastPipeOk;
    ReachedIs(s, ret.pid);
    var x := Reached(s, ret.pid);
    var e := s.entries[x];
    var j := Lookup(s.heap, s.jobs, e.jobId);
    var job := Told(s.heap[j], e.offset, ret);
    var t := s.(heap := s.heap[j := job]);
    SettledOnlyStatus(job);
    TableUpdate(s.heap, s.jobs, j, job);
    CurPrevUpdate(s.heap, s.cur, s.prev, j, job);
    var u := t.(entries := EntriesTold(s.entries, x, false), deleted := s.deleted + 1);
    SyncFrame(u);
    SyncKeeps(u);
    CurPrevUpdate(t.heap, t.cur, t.prev, j, Settled(job));
    CurPrevUpdate(t.heap, Sync(u).cur, Sync(u).prev, j, Settled(job));
    assert t.heap[j := Settled(job)] == s.heap[j := Settled(job)];
  }

  lemma SyncFrame(s: State)
    ensures Sync(s).(cur := s.cur, prev := s.prev) == s
  {
  }

  lemma {:induction false} ReportKeeps(s: State, ret: WaitResult)
    requires Inv(s) && TrackedLive(s, ret.pid)
    ensures Inv(Report(s, ret))
  {
    hide EveryJobCovered, CurPrevOk, TableOk, Settled, Sorted, DeletedCount, EveryEntryOwned, Report, EntriesTold,
      EntriesOk, TrackedLive, Lookup;
    ReportIs(s, ret);
    var x := Reached(s, ret.pid);
    var e := s.entries[x];
    var j := Lookup(s.heap, s.jobs, e.jobId);
    var job := Told(s.heap[j], e.offset, ret);
    var live := Live(UpdateProc(s.heap[j].procs[e.offset], ret));
    SortedEntries(s.entries, s.deleted);
    SettledOnlyStatus(job);
    TableUpdate(s.heap, s.jobs, j, Settled(job));
    ToldOk(s.heap[j], e.offset, ret);
    EntriesToldOk(s.entries, s.deleted, x, live);
    ReportOwners(s.heap, s.jobs, s.entries, x, j, ret);
    ReportCovers(s.heap, s.jobs, s.entries, x, j, ret);
    assert live ==> Live(job.procs[e.offset]);
  }

  lemma SortedEntries(es: seq<Entry>, deleted: nat)
    requires EntriesOk(es, deleted)
    ensures Sorted(es)
  {
  }

  // ---------------------------------------------------------------- removal

  lemma {:induction false} AvailableHas(h: Heap, jobs: seq<JobObject>, j: JobObject)
    ensures j in Available(h, jobs) <==> j in jobs && Of(h, j).status == AVAILABLE
  {
    if jobs == [] {
    } else {
      var n := |jobs| - 1;
      AvailableHas(h, jobs[..n], j);
      assert jobs == jobs[..n] + [jobs[n]];
    }
  }

  lemma {:induction false} AvailableSorted(h: Heap, jobs: seq<JobObject>)
    requires forall k, l :: 0 <= k < l < |jobs| ==> Of(h, jobs[k]).id < Of(h, jobs[l]).id
    ensures var r := Available(h, jobs); forall k, l :: 0 <= k < l < |r| ==> Of(h, r[k]).id < Of(h, r[l]).id
  {
    if jobs == [] {
    } else {
      var n := |jobs| - 1;
      AvailableSorted(h, jobs[..n]);
      var front := Available(h, jobs[..n]);
      forall k | 0 <= k < |front| ensures Of(h, front[k]).id < Of(h, jobs[n]).id {
        AvailableHas(h, jobs[..n], front[k]);
      }
    }
  }

  lemma {:induction false} RemoveTable(h: Heap, jobs: seq<JobObject>)
    requires TableOk(h, jobs)
    ensures TableOk(DropUnavailable(h, jobs), Available(h, jobs))
  {
    hide Available;
    var g, r := DropUnavailable(h, jobs), Available(h, jobs);
    AvailableSorted(h, jobs);
    forall j | j in h ensures j in r <==> j in jobs && Of(h, j).status == AVAILABLE { AvailableHas(h, jobs, j); }
    forall k | 0 <= k < |r| ensures r[k] in h && Of(g, r[k]) == Of(h, r[k]) && r[k] in jobs {
      AvailableHas(h, jobs, r[k]);
    }
  }

  lemma {:induction false} RemoveOwners(h: Heap, jobs: seq<JobObject>, es: seq<Entry>)
    requires EveryEntryOwned(h, es) && EveryJobCovered(h, es)
    ensures EveryEntryOwned(DropUnavailable(h, jobs), LiveEntries(es))
    ensures EveryJobCovered(DropUnavailable(h, jobs), LiveEntries(es))
  {
    hide LiveEntries, EveryJobCovered, DeletedCount, Sorted;
    LiveEntriesAre(es);
    var g, r := DropUnavailable(h, jobs), LiveEntries(es);
    forall e | e in r && e.jobId != 0 ensures Owned(g, e) {
      var a: JobObject :| a in h && Owns(h[a], e);
      assert a in g && Owns(g[a], e);
    }
    forall a | a in g ensures Covered(g[a], r) {
      CoveredAt(h, es, a);
    }
    CoveredAll(g, r);
  }

  lemma DropNothing(h: Heap, jobs: seq<JobObject>)
    requires TableOk(h, jobs) && AllAvailable(h, jobs)
    ensures DropUnavailable(h, jobs) == h
  {
  }

  /** Dropped jobs stay in order with the rest of the invariant. */
  lemma DropKeeps(h: Heap, jobs: seq<JobObject>)
    requires TableOk(h, jobs) && JobsOk(h)
    ensures var g := DropUnavailable(h, jobs); JobsOk(g) && RemovalPending(g, 0)
  {
  }

  lemma ForgetKeeps(h: Heap, jobs: seq<JobObject>, cur: JobObject?, prev: JobObject?)
    requires CurPrevOk(h, cur, prev)
    ensures var cp := Forget(h, cur, prev); CurPrevOk(DropUnavailable(h, jobs), cp.0, cp.1)
  {
  }

  lemma {:induction false} RemoveKeeps(s: State)
    requires Inv(s)
    ensures Inv(Remove(s))
  {
    hide TableOk, JobsOk, EveryEntryOwned, EveryJobCovered, DropUnavailable, Available, LiveEntries, DeletedCount,
      CurPrevOk, Forget, RemovalPending, Sorted, AllAvailable;
    LiveEntriesAre(s.entries);
    RemoveTable(s.heap, s.jobs);
    RemoveOwners(s.heap, s.jobs, s.entries);
    DropKeeps(s.heap, s.jobs);
    ForgetKeeps(s.heap, s.jobs, s.cur, s.prev);
    if AllAvailable(s.heap, s.jobs) {
      DropNothing(s.heap, s.jobs);
    }
    DropLeaves(s.heap, s.jobs, s.lastPipe);
  }

  lemma DropLeaves(h: Heap, jobs: seq<JobObject>, j: JobObject?)
    requires LastPipeOk(h, j)
    ensures LastPipeOk(DropUnavailable(h, jobs), j)
  {
  }

  /** After a removal no entry is deleted and no job in the table is terminated; the jobs kept are
      exactly the others, with their ids and hence in their order. */
  lemma {:induction false} AfterRemove(s: State)
    requires Inv(s)
    ensures var t := Remove(s);
      && t.deleted == 0 && (forall e :: e in t.entries <==> e in s.entries && e.jobId != 0)
      && (forall j :: j in t.jobs ==> Of(t.heap, j).status != TERMINATED && Of(t.heap, j) == Of(s.heap, j))
      && (forall j :: j in s.jobs && Of(s.heap, j).status == AVAILABLE ==> j in t.jobs)
      && (forall j :: j in s.jobs && j !in t.jobs ==>
           j in t.heap && t.heap[j] == s.heap[j].(id := 0, disowned := true))
      && (forall j :: j in s.heap && j !in s.jobs ==> j in t.heap && t.heap[j] == s.heap[j])
  {
    hide EveryEntryOwned, EveryJobCovered, Available, LiveEntries, DeletedCount, CurPrevOk, Forget, Sorted, JobsOk, LastPipeOk;
    LiveEntriesAre(s.entries);
    forall j ensures j in Available(s.heap, s.jobs) <==> j in s.jobs && Of(s.heap, j).status == AVAILABLE {
      AvailableHas(s.heap, s.jobs, j);
    }
    if s.deleted == 0 {
      DeletedCountZero(s.entries);
    }
  }

  // ---------------------------------------------------------------- the other operations

  lemma {:induction false} LoseControlKeeps(s: State)
    requires Inv(s)
    ensures Inv(LoseControl(s))
  {
    hide EveryEntryOwned;
    var t := LoseControl(s);
    assert forall j :: j in s.heap ==> Of(t.heap, j).id == Of(s.heap, j).id;
    assert forall j :: j in t.heap ==> t.heap[j].id == 0 || t.heap[j].status == UNCONTROLLED;
    NoEntries(t.heap);
  }

  lemma NoEntries(h: Heap)
    ensures EveryEntryOwned(h, [])
  {
  }

  /** A job object as `JobObject::create` makes it, or after its first wait, before it is attached. */
  ghost predicate Newborn(job: Job) {
    JobOk(job) && job.id == 0 && !job.disowned && job.status != UNCONTROLLED
  }

  lemma {:induction false} CreateKeeps(s: State, j: JobObject, job: Job)
    requires Inv(s) && j !in s.heap && Newborn(job)
    ensures Inv(Create(s, j, job))
  {
    var t := Create(s, j, job);
    assert forall i :: i in s.heap ==> Of(t.heap, i) == Of(s.heap, i);
    forall e | e in s.entries && e.jobId != 0 ensures Owned(t.heap, e) {
      var a: JobObject :| a in s.heap && Owns(s.heap[a], e);
      assert a in t.heap && Owns(t.heap[a], e);
    }
  }

  /** A new job is consistent exactly if one of its processes is still live. */
  lemma {:induction false} CreateExact(s: State, j: JobObject, job: Job)
    requires Inv(s) && j !in s.heap && job.id == 0 && !job.disowned && job.status == AVAILABLE
    ensures Inv(Create(s, j, job)) <==> !AllDone(job.procs)
  {
    hide TableOk, EntriesOk, EveryEntryOwned, EveryJobCovered, RemovalPending, CurPrevOk, LastPipeOk;
    if !AllDone(job.procs) {
      assert job.procs != [];
      CreateKeeps(s, j, job);
    } else {
      assert j in Create(s, j, job).heap && !JobOk(Create(s, j, job).heap[j]);
    }
  }

  // ---------------------------------------------------------------- runs

  datatype Step =
    | NewJob(j: JobObject, job: Job)
    | AttachJob(j: JobObject, disowned: bool)
    | KernelReport(ret: WaitResult)
    | RemoveTerminated
    | DisownJob(j: JobObject)
    | LoseControlOfJobs
    | MakeCurrent(j: JobObject)
    | SyncCurPrev
    | EndLastPipe(j: JobObject)

  /** What the environment grants: objects are created once, attached jobs fit, and the kernel reports
      pids that are tracked and live, or that reach no entry. */
  ghost predicate Enabled(s: State, step: Step) {
    match step
    case NewJob(j, job) => j !in s.heap && Newborn(job)
    case AttachJob(j, _) => j in s.heap && (Unattached(s, j) ==> Attachable(s, j))
    case KernelReport(ret) => TrackedLive(s, ret.pid) || Reached(s, ret.pid) < 0
    case DisownJob(j) => j in s.heap && !Unattached(s, j)
    case MakeCurrent(j) => j in s.heap
    case EndLastPipe(j) => j in s.heap
    case _ => true
  }

  function Apply(s: State, step: Step): State {
    match step
    case NewJob(j, job) => Create(s, j, job)
    case AttachJob(j, disowned) => Attach(s, j, disowned)
    case KernelReport(ret) => Report(s, ret)
    case RemoveTerminated => Remove(s)
    case DisownJob(j) => Disown(s, j)
    case LoseControlOfJobs => LoseControl(s)
    case MakeCurrent(j) => SetCurrent(s, j)
    case SyncCurPrev => Sync(s)
    case EndLastPipe(j) => LeaveLastPipe(s, j)
  }

  const EMPTY := State(map[], [], [], 0, null, null, null, false)

  lemma EmptyOk(notify: bool)
    ensures Inv(EMPTY.(notify := notify))
  {
  }

  lemma {:induction false} StepKeeps(s: State, step: Step)
    requires Inv(s) && Enabled(s, step)
    ensures Inv(Apply(s, step))
  {
    hide Inv, Attach, Report, Remove, Disown, LoseControl, SetCurrent, Create, Attachable, TrackedLive, Newborn, Sync;
    match step
    case NewJob(j, job) => CreateKeeps(s, j, job);
    case AttachJob(j, disowned) => AttachExact(s, j, disowned);
    case KernelReport(ret) =>
      if Reached(s, ret.pid) < 0 {
        ReportNothing(s, ret);
      } else {
        ReportKeeps(s, ret);
      }
    case RemoveTerminated => RemoveKeeps(s);
    case DisownJob(j) => DisownKeeps(s, j);
    case LoseControlOfJobs => LoseControlKeeps(s);
    case MakeCurrent(j) => SetCurrentKeeps(s, j);
    case SyncCurPrev => SyncKeepsAll(s);
    case EndLastPipe(j) => LeaveLastPipeKeeps(s, j);
  }

  lemma ReportNothing(s: State, ret: WaitResult)
    requires Reached(s, ret.pid) < 0
    ensures Report(s, ret) == s
  {
  }

  lemma {:induction false} SyncKeepsAll(s: State)
    requires Inv(s)
    ensures Inv(Sync(s))
  {
    SyncKeeps(s);
  }

  lemma LeaveLastPipeKeeps(s: State, j: JobObject)
    requires Inv(s)
    ensures Inv(LeaveLastPipe(s, j))
  {
  }

  ghost predicate CanRun(s: State, steps: seq<Step>)
    decreases |steps|
  {
    steps == [] || (Enabled(s, steps[0]) && CanRun(Apply(s, steps[0]), steps[1..]))
  }

  function Run(s: State, steps: seq<Step>): State
    decreases |steps|
  {
    if steps == [] then s else Run(Apply(s, steps[0]), steps[1..])
  }

  /** Every run of enabled steps keeps the invariant. */
  lemma {:induction false} RunKeeps(s: State, steps: seq<Step>)
    requires Inv(s) && CanRun(s, steps)
    ensures Inv(Run(s, steps))
    decreases |steps|
  {
    hide Inv, Enabled, Apply;
    if steps == [] {
    } else {
      StepKeeps(s, steps[0]);
      RunKeeps(Apply(s, steps[0]), steps[1..]);
    }
  }

  /** The kernel's reports, as steps. */
  function Reports(results: seq<WaitResult>): (r: seq<Step>)
    ensures |r| == |results|
  {
    if results == [] then [] else [KernelReport(results[0])] + Reports(results[1..])
  }

  lemma {:induction false} NextReport(s: State, results: seq<WaitResult>, i: nat)
    requires i < |results| && CanRun(s, Reports(results[i..]))
    ensures TrackedLive(s, results[i].pid) || Reached(s, results[i].pid) < 0
    ensures CanRun(Report(s, results[i]), Reports(results[i + 1..]))
    ensures Run(s, Reports(results[i..])) == Run(Report(s, results[i]), Reports(results[i + 1..]))
  {
    hide Report, TrackedLive;
    assert results[i..][1..] == results[i + 1..];
    assert Reports(results[i..])[1..] == Reports(results[i + 1..]);
  }

  lemma NoReport(s: State, results: seq<WaitResult>)
    ensures Run(s, Reports(results[|results|..])) == s
  {
  }

  // ---------------------------------------------------------------- what a run never undoes

  /** `b` is a later content of the same job: same processes, and a process once done stays as it is. */
  ghost predicate Later(a: Job, b: Job) {
    && |b.procs| == |a.procs| && b.lastPipe == a.lastPipe
    && (a.disowned ==> b.disowned)
    && (a.status == UNCONTROLLED ==> b.status == UNCONTROLLED)
    && (a.status != AVAILABLE ==> b.status != AVAILABLE && (a.id == 0 ==> b.id == 0))
    && (a.id != 0 ==> b.id == a.id || (b.id == 0 && b.status != AVAILABLE && b.disowned))
    && (forall i :: 0 <= i < |a.procs| ==> LaterProc(a.procs[i], b.procs[i]))
  }

  ghost predicate LaterProc(p: Proc, q: Proc) {
    q.pid == p.pid && (!Live(p) ==> q == p)
  }

  ghost predicate AllLater(h: Heap, g: Heap) {
    forall j :: j in h ==> j in g && Later(h[j], g[j])
  }

  lemma LaterUpdate(h: Heap, j: JobObject, job: Job)
    requires j in h ==> Later(h[j], job)
    ensures AllLater(h, h[j := job])
  {
  }

  lemma {:induction false} StepLater(s: State, step: Step)
    requires Inv(s) && Enabled(s, step)
    ensures AllLater(s.heap, Apply(s, step).heap)
  {
    hide Inv, AllLater, Attachable, Newborn, TrackedLive, Report, FreeIndex, Remove, LoseControl, SetCurrent, Later, Sync;
    Same(s.heap);
    match step
    case NewJob(j, job) => LaterUpdate(s.heap, j, job);
    case AttachJob(j, disowned) => AttachLater(s, j, disowned);
    case KernelReport(ret) =>
      if Reached(s, ret.pid) < 0 {
        ReportNothing(s, ret);
      } else {
        ReportLater(s, ret);
      }
    case RemoveTerminated => RemoveLater(s);
    case DisownJob(j) => DisownLater(s, j);
    case LoseControlOfJobs => LoseControlLater(s);
    case MakeCurrent(j) => SetCurrentFrame(s, j);
    case SyncCurPrev => SyncFrame(s);
    case EndLastPipe(j) =>
  }

  lemma Same(h: Heap)
    ensures AllLater(h, h)
  {
  }

  lemma SetCurrentFrame(s: State, j: JobObject)
    ensures SetCurrent(s, j).heap == s.heap
  {
  }

  lemma DisownLater(s: State, j: JobObject)
    requires j in s.heap
    ensures AllLater(s.heap, Disown(s, j).heap)
  {
  }

  lemma {:induction false} AttachLater(s: State, j: JobObject, disowned: bool)
    requires j in s.heap
    ensures AllLater(s.heap, Attach(s, j, disowned).heap)
  {
    hide FreeIndex, AddJob, Inserted;
  }

  lemma {:induction false} ReportLater(s: State, ret: WaitResult)
    requires Inv(s) && TrackedLive(s, ret.pid)
    ensures AllLater(s.heap, Report(s, ret).heap)
  {
    hide Inv, Report, TrackedLive, Lookup, EntriesTold;
    ReportIs(s, ret);
    var e := s.entries[Reached(s, ret.pid)];
    var j := Lookup(s.heap, s.jobs, e.jobId);
    LaterUpdate(s.heap, j, Settled(Told(s.heap[j], e.offset, ret)));
  }

  lemma {:induction false} RemoveLater(s: State)
    ensures AllLater(s.heap, Remove(s).heap)
  {
    hide Available, LiveEntries, Forget, AllAvailable;
  }

  lemma LoseControlLater(s: State)
    ensures AllLater(s.heap, LoseControl(s).heap)
  {
  }

  lemma LaterTrans(f: Heap, g: Heap, h: Heap)
    requires AllLater(f, g) && AllLater(g, h)
    ensures AllLater(f, h)
  {
  }

  /** Over every run: objects persist with the same processes, a done process never changes again, a job
      keeps its id until it is removed for good, and is never attached a second time. */
  lemma {:induction false} RunLater(s: State, steps: seq<Step>)
    requires Inv(s) && CanRun(s, steps)
    ensures AllLater(s.heap, Run(s, steps).heap)
    decreases |steps|
  {
    hide Inv, Enabled, Apply, AllLater;
    Same(s.heap);
    if steps == [] {
    } else {
      StepKeeps(s, steps[0]);
      StepLater(s, steps[0]);
      RunLater(Apply(s, steps[0]), steps[1..]);
      LaterTrans(s.heap, Apply(s, steps[0]).heap, Run(s, steps).heap);
    }
  }

  /** Jobs that survive a run are in the order in which they were before it. */
  lemma {:induction false} RunKeepsOrder(s: State, steps: seq<Step>, k: nat, l: nat, m: nat, n: nat)
    requires Inv(s) && CanRun(s, steps)
    requires k < l < |s.jobs| && m < |Run(s, steps).jobs| && n < |Run(s, steps).jobs|
    requires Run(s, steps).jobs[m] == s.jobs[k] && Run(s, steps).jobs[n] == s.jobs[l]
    ensures m < n
    ensures Of(Run(s, steps).heap, s.jobs[k]).id == Of(s.heap, s.jobs[k]).id
  {
    hide Run, CanRun, EntriesOk, EveryEntryOwned, EveryJobCovered, JobsOk, RemovalPending, CurPrevOk;
    RunLater(s, steps);
    RunKeeps(s, steps);
    var t := Run(s, steps);
    assert Later(s.heap[s.jobs[k]], t.heap[s.jobs[k]]) && Later(s.heap[s.jobs[l]], t.heap[s.jobs[l]]);
    assert Of(t.heap, t.jobs[m]).id < Of(t.heap, t.jobs[n]).id;
  }
}
