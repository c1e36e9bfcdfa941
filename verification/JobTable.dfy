/** `JobTable` (src/job.h, src/job.cpp): the operations that change the table and the jobs in place. */
module JobTables {
  import opened JobObjects
  import opened ProcTables
  import S = JobSteps
  import opened JobInvariant
  import opened JobKeeps
  import R = JobRuns

  class JobTable {
    var jobs: seq<JobObject>
    const procTable: ProcTable
    var cur: JobObject?
    var prev: JobObject?
    var toplevelLastPipeJob: JobObject?
    const notify: bool

    /** Every job object made so far. */
    ghost var known: set<JobObject>

    ghost function Contents(): S.Heap
      reads this`known, known
    {
      map j | j in known :: j.View()
    }

    ghost function St(): S.State
      reads this, procTable, known
    {
      S.State(Contents(), jobs, procTable.entries, procTable.deletedCount, cur, prev, toplevelLastPipeJob, notify)
    }

    ghost predicate Valid()
      reads this, procTable, known
    {
      Inv(St())
    }

    constructor (notify: bool)
      ensures Valid() && St() == R.EMPTY.(notify := notify) && fresh(procTable) && known == {}
    {
      jobs, cur, prev, toplevelLastPipeJob, known := [], null, null, null, {};
      this.notify := notify;
      procTable := new ProcTable();
      new;
      R.EmptyOk(notify);
    }

    /** The table stays valid exactly if one of the new job's processes is still live. */
    method CreateJob(procs: seq<Proc>, saveStdin: bool) returns (j: JobObject)
      requires Valid()
      modifies this`known
      ensures fresh(j) && known == old(known) + {j}
      ensures St() == S.Create(old(St()), j, Job(0, AVAILABLE, false, saveStdin, procs))
      ensures Valid() <==> !AllDone(procs)
    {
      hide Inv, AllDone;
      j := new JobObject(procs, saveStdin);
      known := known + {j};
      assert Contents() == old(Contents())[j := j.View()];
      R.CreateExact(old(St()), j, j.View());
    }

    // -------------------------------------------------------------- lookups

    /** The index at which a new job is inserted, by binary search. */
    method FindEmptyEntry() returns (r: nat)
      requires Valid()
      ensures r == S.FreeIndex(Contents(), jobs, 0)
    {
      hide EntriesOk, EveryEntryOwned, EveryJobCovered, JobsOk, RemovalPending, CurPrevOk, S.FreeIndex, TableOk;
      ghost var h := Contents();
      var first, dist := 0, |jobs|;
      while dist > 0
        invariant 0 <= first <= first + dist <= |jobs|
        invariant forall k :: 0 <= k < first ==> S.Of(h, jobs[k]).id == k + 1
        invariant first + dist < |jobs| ==> S.Of(h, jobs[first + dist]).id != first + dist + 1
      {
        var half := dist / 2;
        var mid := half + first;
        InHeap(h, jobs, mid);
        if jobs[mid].id == mid + 1 {
          forall k | 0 <= k < mid ensures S.Of(h, jobs[k]).id == k + 1 {
            PrefixProperty(h, jobs, k, mid);
          }
          first, dist := mid + 1, dist - half - 1;
        } else {
          dist := half;
        }
      }
      FreeIndexIs(h, jobs, first);
      r := first;
    }

    /** The index of the job with this id, or the size of the table. */
    method FindIndex(jobId: nat) returns (r: nat)
      requires Valid()
      ensures r <= |jobs|
      ensures r < |jobs| ==> jobId > 0 && jobs[r].id == jobId && jobs[r] == S.Lookup(Contents(), jobs, jobId)
      ensures r == |jobs| && jobId > 0 ==> S.Lookup(Contents(), jobs, jobId) == null
    {
      hide EntriesOk, EveryEntryOwned, EveryJobCovered, JobsOk, RemovalPending, CurPrevOk, S.Lookup;
      if jobId > 0 {
        var first, size := 0, |jobs|;
        while size > 0
          invariant 0 <= first <= first + size <= |jobs|
          invariant forall k :: 0 <= k < first ==> S.Of(Contents(), jobs[k]).id < jobId
          invariant forall k :: first + size <= k < |jobs| ==> jobId <= S.Of(Contents(), jobs[k]).id
        {
          var half := size / 2;
          assert jobs[first + half] in Contents();
          if jobs[first + half].id < jobId {
            first, size := first + half + 1, size - half - 1;
          } else {
            size := half;
          }
        }
        LookupSound(Contents(), jobs, jobId);
        if first < |jobs| {
          assert jobs[first] in Contents();
        }
        if first < |jobs| && jobs[first].id == jobId {
          LookupIs(Contents(), jobs, first);
          return first;
        }
      }
      return |jobs|;
    }

    /** The job with this id; a disowned job is not found. */
    method Find(jobId: nat) returns (j: JobObject?)
      requires Valid()
      ensures j != null ==> j in jobs && j.id == jobId && !j.disowned
      ensures j == null ==> forall i :: i in jobs && i.id == jobId ==> i.disowned
    {
      var r := FindIndex(jobId);
      if jobId > 0 {
        LookupSound(Contents(), jobs, jobId);
      }
      if r == |jobs| || jobs[r].disowned {
        return null;
      }
      return jobs[r];
    }
  
    // -------------------------------------------------------------- attaching and the current job

    method SetCurrentJob(j: JobObject)
      requires Valid() && j in known
      modifies this`cur, this`prev
      ensures St() == S.SetCurrent(old(St()), j)
      ensures Valid()
    {
      hide Inv;
      SetCurrentKeeps(St(), j);
      TableFacts(St());
      SetCurrent(j);
    }

    /** The update itself, which also serves `attach` before the table is known to be consistent. */
    method SetCurrent(j: JobObject)
      requires j in known && (cur != null ==> cur in known)
      modifies this`cur, this`prev
      ensures St() == S.SetCurrent(old(St()), j)
    {
      if j.id != 0 && j.status == AVAILABLE && !j.disowned && !j.lastPipe && cur != j {
        if cur != null && cur.disowned {
          cur := null;
        }
        prev := cur;
        cur := j;
      }
    }

    method Attach(j: JobObject, disowned: bool)
      requires Valid() && j in known
      modifies this`jobs, this`cur, this`prev, this`toplevelLastPipeJob, procTable, j
      ensures St() == S.Attach(old(St()), j, disowned)
      ensures Valid() <==> (old(S.Unattached(St(), j)) ==> old(Attachable(St(), j)))
    {
      hide Inv, S.FreeIndex, AddJob, S.Inserted, S.SetCurrent, EntriesOk, S.Enter, Attachable, CurPrevOk, TableOk,
        JobTable.Contents, S.Disown;
      ContentsAt(j);
      AttachExact(St(), j, disowned);
      if j.id == 0 && j.status == AVAILABLE {
        TableFacts(St());
        CurKnown(Contents(), cur, prev);
        KnownAre();
        Enter(j);
        ghost var entered := St();
        if disowned {
          DisownJob(j);
        } else {
          SetCurrent(j);
          SetCurrentHeap(entered, j);
          ContentsAt(j);
          if toplevelLastPipeJob == null && j.lastPipe && j.View().Grouped() {
            toplevelLastPipeJob := j;
          }
        }
      }
    }

    /** A place in the table, an id and entries for the processes. */
    method Enter(j: JobObject)
      requires Valid() && j in known
      modifies this`jobs, procTable, j
      ensures St() == S.Enter(old(St()), j)
      ensures j.View() == old(j.View()).(id := j.id)
    {
      hide Inv, S.FreeIndex, AddJob, EntriesOk, JobTable.Contents, TableOk, CurPrevOk;
      ContentsAt(j);
      var r := FindEmptyEntry();
      TableFacts(St());
      jobs := jobs[..r] + [j] + jobs[r..];
      GiveId(j, (r + 1) % S.ID_LIMIT);
      procTable.Add(j);
    }

    method GiveId(j: JobObject, id: nat)
      requires j in known
      modifies j
      ensures j.View() == old(j.View()).(id := id)
      ensures Contents() == old(Contents())[j := j.View()]
    {
      j.id := id;
    }

    method DisownJob(j: JobObject)
      requires j in known
      modifies j
      ensures j.View() == old(j.View()).(disowned := true)
      ensures St() == S.Disown(old(St()), j)
    {
      j.Disown();
      assert Contents() == old(Contents())[j := j.View()];
    }

    /** The scan for new current and previous jobs runs from the highest id down. */
    method SyncAndGetCurPrevJobs()
      requires TableOk(Contents(), jobs) && CurPrevOk(Contents(), cur, prev)
      modifies this`cur, this`prev
      ensures St() == S.Sync(old(St()))
    {
      hide TableOk, S.Pick, CurPrevOk;
      CurKnown(Contents(), cur, prev);
      ghost var h := Contents();
      var c, p := cur, prev;
      if p != null && p.disowned {
        p := null;
      }
      if c != null && c.disowned {
        c, p := p, null;
      }
      assert (c, p) == S.Prune(h, cur, prev);
      if p == null {
        c, p := PickFrom(c);
      } else {
        assert c != null;
      }
      cur, prev := c, p;
    }

    method PickFrom(start: JobObject?) returns (c: JobObject?, p: JobObject?)
      requires TableOk(Contents(), jobs)
      ensures (c, p) == S.Pick(Contents(), jobs, |jobs|, start)
    {
      hide TableOk;
      ghost var h := Contents();
      c, p := start, null;
      var n := |jobs|;
      while n > 0
        invariant 0 <= n <= |jobs| && p == null
        invariant S.Pick(h, jobs, n, c) == S.Pick(h, jobs, |jobs|, start)
      {
        n := n - 1;
        var j := jobs[n];
        InHeap(h, jobs, n);
        if j.status == TERMINATED || j.disowned || j.lastPipe {
          continue;
        }
        if j != c {
          if c == null {
            c := j;
          } else {
            p := j;
            break;
          }
        }
      }
    }
  
    // -------------------------------------------------------------- reports

    /** The kernel's report about one process. */
    method UpdateProcState(ret: WaitResult) returns (j: JobObject?, offset: nat)
      requires Valid() && (TrackedLive(St(), ret.pid) || S.Reached(St(), ret.pid) < 0)
      modifies this`cur, this`prev, procTable, known
      ensures St() == S.Report(old(St()), ret)
      ensures Valid()
      ensures j == null <==> old(S.Reached(St(), ret.pid)) < 0
      ensures j != null ==> j in jobs && offset < |j.procs| && j.procs[offset].pid == ret.pid
    {
      hide Inv, S.Report, S.Lookup, TrackedLive, LowerBound, Sorted, S.Sync, TableOk, CurPrevOk, Owns;
      TableFacts(St());
      R.StepKeeps(St(), R.KernelReport(ret));
      var x := procTable.FindProc(ret.pid);
      if x < 0 {
        R.ReportNothing(St(), ret);
        return null, 0;
      }
      ReachedIs(St(), ret.pid);
      var e := procTable.entries[x];
      LiveOffset(Contents(), S.Lookup(Contents(), jobs, e.jobId), e);
      var k := FindIndex(e.jobId);
      j, offset := jobs[k], e.offset;
      Tell(x, j, ret);
    }

    /** Changes the process, its entry and its job. */
    method Tell(x: nat, j: JobObject, ret: WaitResult)
      requires TableOk(Contents(), jobs) && CurPrevOk(Contents(), cur, prev)
      requires ret.pid > 0 && x == LowerBound(procTable.entries, ret.pid) < |procTable.entries|
      requires j in known && j == S.Lookup(Contents(), jobs, procTable.entries[x].jobId)
      requires procTable.entries[x].offset < |j.procs|
      modifies this`cur, this`prev, procTable, j
      ensures St() == S.Report(old(St()), ret)
      ensures |j.procs| == old(|j.procs|)
      ensures j.procs[old(procTable.entries[x].offset)].pid == old(j.procs[procTable.entries[x].offset].pid)
    {
      hide S.Lookup, LowerBound, Settled, S.Deleted, TableOk, CurPrevOk, S.Report, S.Reached, JobTable.Contents;
      var e := procTable.entries[x];
      ghost var s := St();
      ContentsAt(j);
      ReportAt(s, ret, x, j);
      TellProc(j, e.offset, ret);
      ghost var told := j.View();
      TableUpdate(s.heap, jobs, j, told);
      CurPrevUpdate(s.heap, cur, prev, j, told);
      if j.procs[e.offset].state.Terminated? {
        DeleteEntry(x);
        DeletedFrame(s.(heap := s.heap[j := told]), x);
      }
      R.SettledOnlyStatus(told);
      Settle(j);
    }

    lemma KnownAre()
      ensures Contents().Keys == known
    {
    }

    lemma ContentsAt(j: JobObject)
      requires j in known
      ensures j in Contents() && Contents()[j] == j.View()
    {
    }

    method TellProc(j: JobObject, offset: nat, ret: WaitResult)
      requires j in known && offset < |j.procs|
      modifies j
      ensures j.View() == R.Told(old(j.View()), offset, ret)
      ensures Contents() == old(Contents())[j := j.View()]
    {
      j.UpdateProcAt(offset, ret);
    }

    method Settle(j: JobObject)
      requires j in known
      modifies j
      ensures j.View() == Settled(old(j.View()))
      ensures Contents() == old(Contents())[j := j.View()]
    {
      j.UpdateState();
    }

    method DeleteEntry(x: nat)
      requires x < |procTable.entries| && TableOk(Contents(), jobs) && CurPrevOk(Contents(), cur, prev)
      modifies this`cur, this`prev, procTable
      ensures St() == S.Deleted(old(St()), x)
    {
      hide TableOk, CurPrevOk, S.Sync;
      procTable.DeleteProc(x);
      if notify && procTable.deletedCount == 1 {
        SyncAndGetCurPrevJobs();
      }
    }

    /** Takes in the kernel's reports one by one and then removes the terminated jobs. */
    method WaitForAny(results: seq<WaitResult>)
      requires Valid() && R.CanRun(St(), R.Reports(results))
      modifies this`jobs, this`cur, this`prev, this`toplevelLastPipeJob, procTable, known
      ensures St() == S.Remove(R.Run(old(St()), R.Reports(results)))
      ensures Valid() && procTable.deletedCount == 0
    {
      hide Inv, S.Report, S.Remove, TrackedLive;
      var i := 0;
      while i < |results|
        invariant 0 <= i <= |results| && Valid()
        invariant R.CanRun(St(), R.Reports(results[i..]))
        invariant R.Run(St(), R.Reports(results[i..])) == R.Run(old(St()), R.Reports(results))
      {
        R.NextReport(St(), results, i);
        var _, _ := UpdateProcState(results[i]);
        i := i + 1;
      }
      R.NoReport(St(), results);
      R.AfterRemove(St());
      RemoveTerminatedJobs();
    }

    // -------------------------------------------------------------- removal and the rest

    method LoseControlOfJobs()
      requires Valid()
      modifies this`toplevelLastPipeJob, procTable, known
      ensures St() == S.LoseControl(old(St()))
      ensures Valid()
    {
      hide Inv, TableOk, CurPrevOk, JobTable.Contents;
      TableFacts(St());
      R.LoseControlKeeps(St());
      Release();
      procTable.Clear();
      toplevelLastPipeJob := null;
    }

    method Release()
      requires TableOk(Contents(), jobs)
      modifies known
      ensures Contents() == S.LoseControl(old(St())).heap
    {
      hide TableOk;
      ghost var h := Contents();
      var i := 0;
      while i < |jobs|
        invariant 0 <= i <= |jobs|
        invariant forall j :: j in known ==>
          j.View() == if j in jobs[..i] then h[j].(status := UNCONTROLLED) else h[j]
      {
        InHeap(h, jobs, i);
        jobs[i].SetState(UNCONTROLLED);
        assert jobs[..i + 1] == jobs[..i] + [jobs[i]];
        i := i + 1;
      }
      assert jobs[..i] == jobs;
    }

    method RemoveToplevelLastPipeJobIfSame(j: JobObject)
      requires Valid() && j in known
      modifies this`toplevelLastPipeJob
      ensures St() == S.LeaveLastPipe(old(St()), j)
      ensures Valid()
    {
      hide Inv;
      R.LeaveLastPipeKeeps(St(), j);
      if toplevelLastPipeJob == j {
        toplevelLastPipeJob := null;
      }
    }

    method RemoveTerminatedJobs()
      requires Valid()
      modifies this`jobs, this`cur, this`prev, this`toplevelLastPipeJob, procTable, known
      ensures St() == S.Remove(old(St()))
      ensures Valid()
    {
      hide Inv, TableOk, CurPrevOk, LiveEntries, S.AllAvailable, S.Available, S.DropUnavailable, Sorted, Tail, S.Forget, S.IsTerminated,
        JobTable.Contents;
      TableFacts(St());
      CurKnown(Contents(), cur, prev);
      KnownAre();
      R.RemoveKeeps(St());
      if procTable.deletedCount == 0 {
        return;
      }
      procTable.BatchedRemove();
      ghost var h := Contents();
      var js, kept := Compact();
      if kept == |js| {
        return;
      }
      TableHas(h, jobs);
      jobs := js;
      Drop(kept, h, old(jobs));
      DropKeepsKeys(h, old(jobs));
      ForgetTerminated();
      ForgetDropped(h, old(jobs), old(cur), old(prev), old(toplevelLastPipeJob));
    }

    /** Clears what refers to a terminated job. */
    method ForgetTerminated()
      requires cur != null ==> cur in known
      requires prev != null ==> prev in known
      requires toplevelLastPipeJob != null ==> toplevelLastPipeJob in known
      modifies this`cur, this`prev, this`toplevelLastPipeJob
      ensures (cur, prev) == S.Forget(Contents(), old(cur), old(prev))
      ensures toplevelLastPipeJob
           == if S.IsTerminated(Contents(), old(toplevelLastPipeJob)) then null else old(toplevelLastPipeJob)
    {
      if prev != null && prev.status == TERMINATED {
        prev := null;
      }
      if cur != null && cur.status == TERMINATED {
        cur := prev;
        prev := null;
      }
      if toplevelLastPipeJob != null && toplevelLastPipeJob.status == TERMINATED {
        toplevelLastPipeJob := null;
      }
    }

    /** Compaction of the table by swapping each available job into the first hole. */
    method Compact() returns (js: seq<JobObject>, kept: nat)
      requires TableOk(Contents(), jobs)
      ensures kept <= |js| && js[..kept] == S.Available(Contents(), jobs)
      ensures Tail(Contents(), jobs, js, kept)
      ensures kept == |js| <==> S.AllAvailable(Contents(), jobs)
      ensures kept == |js| ==> js == jobs
    {
      hide TableOk, S.Available;
      ghost var h, was := Contents(), jobs;
      js, kept := jobs, 0;
      NoneAvailable(h);
      while kept < |js| && js[kept].status == AVAILABLE
        invariant 0 <= kept <= |js|
        invariant S.Available(h, js[..kept]) == js[..kept]
        invariant forall k :: 0 <= k < kept ==> S.Of(h, js[k]).status == AVAILABLE
      {
        InHeap(h, was, kept);
        AvailableStep(h, js, kept);
        assert js[..kept + 1] == js[..kept] + [js[kept]];
        kept := kept + 1;
      }
      assert js[..|js|] == js;
      if kept == |js| {
        return;
      }
      InHeap(h, was, kept);
      AvailableStep(h, js, kept);
      var i := kept + 1;
      while i < |js|
        invariant 0 <= kept < i <= |js| == |was|
        invariant js[..kept] == S.Available(h, was[..i])
        invariant forall k :: kept <= k < i ==> S.Of(h, js[k]).status != AVAILABLE
        invariant js[i..] == was[i..]
        invariant forall j :: j in js <==> j in was
      {
        InHeap(h, was, i);
        AvailableStep(h, was, i);
        assert js[i] == js[i..][0] == was[i];
        if js[i].status == AVAILABLE {
          SwapHas(js, i, kept);
          js := js[i := js[kept]][kept := js[i]];
          kept := kept + 1;
        }
        i := i + 1;
      }
      assert was[..i] == was;
      TailIs(h, was, js, kept);
    }

    /** The jobs behind the first `kept` leave the table one by one. */
    method Drop(kept: nat, ghost h: S.Heap, ghost was: seq<JobObject>)
      requires h == Contents() && Tail(h, was, jobs, kept) && (forall j :: j in was ==> j in known)
      modifies this`jobs, known
      ensures jobs == old(jobs)[..kept]
      ensures Contents() == S.DropUnavailable(h, was)
    {
      ghost var all := jobs;
      while |jobs| != kept
        invariant kept <= |jobs| <= |all| && jobs == all[..|jobs|]
        invariant forall j :: j in known ==> j.View() == if j in all[|jobs|..] then S.Dropped(h[j]) else h[j]
      {
        var n := |jobs| - 1;
        var job := jobs[n];
        assert all[n..] == [job] + all[n + 1..];
        assert job in all[kept..];
        job.id := 0;
        job.Disown();
        jobs := jobs[..n];
      }
    }
  }

  lemma DropKeepsKeys(h: S.Heap, jobs: seq<JobObject>)
    ensures S.DropUnavailable(h, jobs).Keys == h.Keys
  {
  }

  lemma ForgetDropped(h: S.Heap, jobs: seq<JobObject>, cur: JobObject?, prev: JobObject?, last: JobObject?)
    ensures S.Forget(S.DropUnavailable(h, jobs), cur, prev) == S.Forget(h, cur, prev)
    ensures S.IsTerminated(S.DropUnavailable(h, jobs), last) == S.IsTerminated(h, last)
  {
  }

  lemma TableHas(h: S.Heap, jobs: seq<JobObject>)
    requires TableOk(h, jobs)
    ensures forall j :: j in jobs ==> j in h
  {
  }

  lemma NoneAvailable(h: S.Heap)
    ensures S.Available(h, []) == []
  {
  }

  lemma {:induction false} AvailableStep(h: S.Heap, jobs: seq<JobObject>, i: nat)
    requires i < |jobs|
    ensures S.Available(h, jobs[..i + 1])
         == S.Available(h, jobs[..i]) + if S.Of(h, jobs[i]).status == AVAILABLE then [jobs[i]] else []
  {
    assert jobs[..i + 1][..i] == jobs[..i];
  }

  lemma {:induction false} SwapHas(js: seq<JobObject>, a: nat, b: nat)
    requires a < |js| && b < |js|
    ensures forall j :: j in js[a := js[b]][b := js[a]] <==> j in js
  {
    var r := js[a := js[b]][b := js[a]];
    forall j | j in js ensures j in r {
      var x :| 0 <= x < |js| && js[x] == j;
      assert r[if x == a then b else if x == b then a else x] == j;
    }
  }

  lemma {:induction false} TailIs(h: S.Heap, was: seq<JobObject>, js: seq<JobObject>, kept: nat)
    requires kept < |js| && js[..kept] == S.Available(h, was)
    requires forall j :: j in js <==> j in was
    requires forall k :: kept <= k < |js| ==> S.Of(h, js[k]).status != AVAILABLE
    ensures Tail(h, was, js, kept) && !S.AllAvailable(h, was)
  {
    assert js == js[..kept] + js[kept..];
    forall j | j in was && S.Of(h, j).status != AVAILABLE ensures j in js[kept..] {
      R.AvailableHas(h, was, j);
    }
    assert js[kept] in js[kept..];
  }

  /** What is left behind the first `kept` jobs are exactly the unavailable ones. */
  ghost predicate Tail(h: S.Heap, was: seq<JobObject>, jobs: seq<JobObject>, kept: nat) {
    && kept <= |jobs|
    && (forall j :: j in was && S.Of(h, j).status != AVAILABLE ==> j in jobs[kept..])
    && (forall j :: j in jobs[kept..] ==> j in was && S.Of(h, j).status != AVAILABLE)
  }

  lemma CurKnown(h: S.Heap, cur: JobObject?, prev: JobObject?)
    requires CurPrevOk(h, cur, prev)
    ensures cur != null ==> cur in h
    ensures prev != null ==> prev in h && cur != null
  {
  }

  lemma InHeap(h: S.Heap, jobs: seq<JobObject>, k: nat)
    requires TableOk(h, jobs) && k < |jobs|
    ensures jobs[k] in h
  {
  }

  lemma SetCurrentHeap(s: S.State, j: JobObject)
    ensures S.SetCurrent(s, j).heap == s.heap
  {
  }

  lemma TableFacts(s: S.State)
    requires Inv(s)
    ensures Sorted(s.entries) && TableOk(s.heap, s.jobs) && CurPrevOk(s.heap, s.cur, s.prev)
    ensures s.lastPipe != null ==> s.lastPipe in s.heap
  {
  }

  lemma LiveOffset(h: S.Heap, j: JobObject, e: Entry)
    requires j in h && Owns(h[j], e)
    ensures e.offset < |h[j].procs| && h[j].procs[e.offset].pid == e.pid
  {
  }

  lemma {:induction false} ReportAt(s: S.State, ret: WaitResult, x: nat, j: JobObject)
    requires ret.pid > 0 && x == LowerBound(s.entries, ret.pid) < |s.entries|
    requires j in s.heap && j == S.Lookup(s.heap, s.jobs, s.entries[x].jobId)
    requires s.entries[x].offset < |s.heap[j].procs|
    ensures
      var i := s.entries[x].offset;
      var told := R.Told(s.heap[j], i, ret);
      var t := s.(heap := s.heap[j := told]);
      var u := if Live(told.procs[i]) then t else S.Deleted(t, x);
      S.Report(s, ret) == u.(heap := u.heap[j := Settled(told)])
  {
    hide S.Lookup, LowerBound, Settled, S.Sync, S.Deleted;
  }

  lemma DeletedFrame(s: S.State, x: nat)
    requires x < |s.entries|
    ensures S.Deleted(s, x).heap == s.heap
  {
  }
}
