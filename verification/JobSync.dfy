/** The current and the previous job after `syncAndGetCurPrevJobs`. */
module JobSync {
  import opened JobObjects
  import opened JobSteps
  import opened JobInvariant

  /** Job `l` of the table could be chosen: it is not terminated, owned, and not the last part of a pipe. */
  predicate Candidate(h: Heap, jobs: seq<JobObject>, l: int) {
    && 0 <= l < |jobs|
    && Of(h, jobs[l]).status != TERMINATED && !Of(h, jobs[l]).disowned && !Of(h, jobs[l]).lastPipe
  }

  ghost predicate InTable(h: Heap, jobs: seq<JobObject>, j: JobObject?) {
    j != null && j in jobs && !Of(h, j).disowned
  }

  /** No candidate among the first `n` other than `but` has an id above that of `j`. */
  ghost predicate Highest(h: Heap, jobs: seq<JobObject>, n: nat, j: JobObject?, but: JobObject?) {
    forall l :: 0 <= l < n && Candidate(h, jobs, l) && jobs[l] != but ==> j != null && Of(h, jobs[l]).id <= Of(h, j).id
  }

  /** `j` is the candidate with the highest id other than `but`, and missing only if there is none. */
  ghost predicate Chosen(h: Heap, jobs: seq<JobObject>, j: JobObject?, but: JobObject?) {
    && Highest(h, jobs, |jobs|, j, but)
    && (j != null ==> j != but && exists l :: Candidate(h, jobs, l) && jobs[l] == j)
  }

  /** There is such a job and it has not been disowned. */
  predicate Kept(h: Heap, j: JobObject?) {
    j != null && !Of(h, j).disowned
  }

  lemma {:induction false} PickIs(h: Heap, jobs: seq<JobObject>, n: nat, cur: JobObject?)
    requires TableOk(h, jobs) && n <= |jobs|
    ensures var r := Pick(h, jobs, n, cur);
      && (cur != null ==> r.0 == cur)
      && (cur == null && r.0 != null ==> InTable(h, jobs, r.0) && exists l :: Candidate(h, jobs, l) && jobs[l] == r.0)
      && (r.1 != null ==>
            && InTable(h, jobs, r.1) && r.0 != null && r.0 != r.1
            && exists l :: Candidate(h, jobs, l) && jobs[l] == r.1)
      && (cur == null ==> Highest(h, jobs, n, r.0, null))
      && Highest(h, jobs, n, r.1, r.0)
  {
    if n == 0 {
    } else {
      var j := jobs[n - 1];
      if !Eligible(Of(h, j)) || j == cur {
        PickIs(h, jobs, n - 1, cur);
      } else if cur == null {
        PickIs(h, jobs, n - 1, j);
      }
    }
  }

  lemma {:induction false} SyncKeeps(s: State)
    requires TableOk(s.heap, s.jobs) && CurPrevOk(s.heap, s.cur, s.prev)
    ensures CurPrevOk(Sync(s).heap, Sync(s).cur, Sync(s).prev)
  {
    var cp := Prune(s.heap, s.cur, s.prev);
    if cp.1 == null {
      PickIs(s.heap, s.jobs, |s.jobs|, cp.0);
    }
  }

  /** After a sync the current and the previous job are in the table and owned. An owned current job stays,
      a disowned one is replaced by an owned previous one; what is then missing is chosen from the table. */
  lemma {:induction false} AfterSync(s: State)
    requires Inv(s)
    ensures var t := Sync(s);
      && t == s.(cur := t.cur, prev := t.prev)
      && (t.cur != null ==> InTable(t.heap, t.jobs, t.cur))
      && (t.prev != null ==> InTable(t.heap, t.jobs, t.prev) && t.cur != null && t.cur != t.prev)
      && (Kept(s.heap, s.cur) ==> t.cur == s.cur)
      && (!Kept(s.heap, s.cur) && Kept(s.heap, s.prev) ==> t.cur == s.prev)
      && (!Kept(s.heap, s.cur) && !Kept(s.heap, s.prev) ==> Chosen(t.heap, t.jobs, t.cur, null))
      && (if Kept(s.heap, s.cur) && Kept(s.heap, s.prev) then t.prev == s.prev
          else Chosen(t.heap, t.jobs, t.prev, t.cur))
  {
    hide EntriesOk, EveryEntryOwned, EveryJobCovered, JobsOk, RemovalPending, Highest;
    var cp := Prune(s.heap, s.cur, s.prev);
    if cp.1 == null {
      PickIs(s.heap, s.jobs, |s.jobs|, cp.0);
    }
  }

  /** A second sync changes nothing. */
  lemma {:induction false} SyncTwice(s: State)
    requires Inv(s)
    ensures Sync(Sync(s)) == Sync(s)
  {
    hide EntriesOk, EveryEntryOwned, EveryJobCovered, JobsOk, RemovalPending, Highest;
    var t := Sync(s);
    AfterSync(s);
    var cp := Prune(s.heap, s.cur, s.prev);
    if cp.1 == null && t.prev == null {
      PickIs(s.heap, s.jobs, |s.jobs|, cp.0);
      PickAgain(s.heap, s.jobs, |s.jobs|, cp.0);
    }
  }

  lemma {:induction false} PickAgain(h: Heap, jobs: seq<JobObject>, n: nat, cur: JobObject?)
    requires n <= |jobs| && Pick(h, jobs, n, cur).1 == null
    ensures Pick(h, jobs, n, Pick(h, jobs, n, cur).0) == Pick(h, jobs, n, cur)
  {
    if n == 0 {
    } else {
      var j := jobs[n - 1];
      if !Eligible(Of(h, j)) || j == cur {
        PickAgain(h, jobs, n - 1, cur);
        PickStays(h, jobs, n - 1, cur);
      } else if cur == null {
        PickAgain(h, jobs, n - 1, j);
        PickStays(h, jobs, n - 1, j);
      }
    }
  }

  lemma {:induction false} PickStays(h: Heap, jobs: seq<JobObject>, n: nat, cur: JobObject?)
    requires n <= |jobs|
    ensures cur != null ==> Pick(h, jobs, n, cur).0 == cur
  {
    if n == 0 {
    } else {
      PickStays(h, jobs, n - 1, cur);
    }
  }
}
