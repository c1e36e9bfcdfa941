/** The job table as a state machine (src/job.h, src/job.cpp): every operation as a function of the state. */
module JobSteps {
  import opened JobObjects
  import opened ProcTables

  type Heap = map<JobObject, Job>

  /** `heap` holds the content of every job object that exists; `jobs` is the table. */
  datatype State = State(
    heap: Heap, jobs: seq<JobObject>, entries: seq<Entry>, deleted: nat,
    cur: JobObject?, prev: JobObject?, lastPipe: JobObject?, notify: bool)

  const NO_JOB := Job(0, UNCONTROLLED, false, false, [])

  function Of(h: Heap, j: JobObject): Job {
    if j in h then h[j] else NO_JOB
  }

  // ---------------------------------------------------------------- attach

  /** `unsigned short`. */
  const ID_LIMIT: nat := 65536

  /** The first index at or after `k` whose job does not have the id "index plus one". */
  function FreeIndex(h: Heap, jobs: seq<JobObject>, k: nat): (r: nat)
    requires k <= |jobs|
    ensures k <= r <= |jobs|
    decreases |jobs| - k
  {
    if k == |jobs| || Of(h, jobs[k]).id != k + 1 then k else FreeIndex(h, jobs, k + 1)
  }

  /** The table with `j` inserted before index `k`. */
  function Inserted(jobs: seq<JobObject>, k: nat, j: JobObject): seq<JobObject>
    requires k <= |jobs|
  {
    jobs[..k] + [j] + jobs[k..]
  }

  /** The job gets its id, its place in the table and entries for its processes. */
  function Enter(s: State, j: JobObject): State {
    var k := FreeIndex(s.heap, s.jobs, 0);
    var job := Of(s.heap, j).(id := (k + 1) % ID_LIMIT);
    s.(
      heap := s.heap[j := job],
      jobs := Inserted(s.jobs, k, j),
      entries := AddJob(s.entries, job, |job.procs|))
  }

  predicate Unattached(s: State, j: JobObject) {
    Of(s.heap, j).id == 0 && Of(s.heap, j).status == AVAILABLE
  }

  function Attach(s: State, j: JobObject, disowned: bool): State {
    if !Unattached(s, j) then s
    else if disowned then Disown(Enter(s, j), j)
    else EnterLastPipe(SetCurrent(Enter(s, j), j), j)
  }

  function EnterLastPipe(s: State, j: JobObject): State {
    var job := Of(s.heap, j);
    if s.lastPipe == null && job.lastPipe && job.Grouped() then s.(lastPipe := j) else s
  }

  function SetCurrent(s: State, j: JobObject): State {
    var job := Of(s.heap, j);
    if job.id != 0 && job.status == AVAILABLE && !job.disowned && !job.lastPipe && s.cur != j then
      s.(prev := if IsDisowned(s.heap, s.cur) then null else s.cur, cur := j)
    else s
  }

  predicate IsDisowned(h: Heap, j: JobObject?) {
    j != null && Of(h, j).disowned
  }

  predicate IsTerminated(h: Heap, j: JobObject?) {
    j != null && Of(h, j).status == TERMINATED
  }

  // ---------------------------------------------------------------- current and previous job

  predicate Eligible(job: Job) {
    job.status != TERMINATED && !job.disowned && !job.lastPipe
  }

  /** Scans the first `n` jobs from the highest id down, for a current job if there is none, then for a
      previous one. */
  function Pick(h: Heap, jobs: seq<JobObject>, n: nat, cur: JobObject?): (JobObject?, JobObject?)
    requires n <= |jobs|
  {
    if n == 0 then (cur, null)
    else
      var j := jobs[n - 1];
      if !Eligible(Of(h, j)) || j == cur then Pick(h, jobs, n - 1, cur)
      else if cur == null then Pick(h, jobs, n - 1, j)
      else (cur, j)
  }

  /** Drops a disowned previous job and replaces a disowned current job by the previous one. */
  function Prune(h: Heap, cur: JobObject?, prev: JobObject?): (JobObject?, JobObject?) {
    var p := if IsDisowned(h, prev) then null else prev;
    if IsDisowned(h, cur) then (p, null) else (cur, p)
  }

  function Sync(s: State): State {
    var cp := Prune(s.heap, s.cur, s.prev);
    var r := if cp.1 == null then Pick(s.heap, s.jobs, |s.jobs|, cp.0) else cp;
    s.(cur := r.0, prev := r.1)
  }

  // ---------------------------------------------------------------- reports

  /** The job with this id. */
  function Lookup(h: Heap, jobs: seq<JobObject>, id: nat): JobObject? {
    if jobs == [] then null
    else if Of(h, jobs[0]).id == id then jobs[0]
    else Lookup(h, jobs[1..], id)
  }

  /** The index of the entry that a report for `pid` reaches, or -1. */
  function Reached(s: State, pid: int): (x: int)
    ensures -1 <= x < |s.entries|
  {
    if pid > 0 && LowerBound(s.entries, pid) < |s.entries| then LowerBound(s.entries, pid) else -1
  }

  function Report(s: State, ret: WaitResult): State {
    var x := Reached(s, ret.pid);
    if x < 0 then s
    else
      var e := s.entries[x];
      var j := Lookup(s.heap, s.jobs, e.jobId);
      if j == null || |Of(s.heap, j).procs| <= e.offset then s
      else
        var job := Of(s.heap, j);
        var proc := UpdateProc(job.procs[e.offset], ret);
        var told := job.(procs := job.procs[e.offset := proc]);
        var t := s.(heap := s.heap[j := told]);
        var u := if Live(proc) then t else Deleted(t, x);
        u.(heap := u.heap[j := Settled(told)])
  }

  /** Deletes an entry; the first deletion after a compaction also syncs when jobs are announced. */
  function Deleted(s: State, x: nat): State
    requires x < |s.entries|
  {
    var t := s.(
      entries := s.entries[x := s.entries[x].(jobId := 0)],
      deleted := s.deleted + if s.entries[x].jobId == 0 then 0 else 1);
    if t.notify && t.deleted == 1 then Sync(t) else t
  }

  // ---------------------------------------------------------------- removal

  predicate AllAvailable(h: Heap, jobs: seq<JobObject>) {
    forall k :: 0 <= k < |jobs| ==> Of(h, jobs[k]).status == AVAILABLE
  }

  function Available(h: Heap, jobs: seq<JobObject>): seq<JobObject> {
    if jobs == [] then []
    else
      var j := jobs[|jobs| - 1];
      Available(h, jobs[..|jobs| - 1]) + if Of(h, j).status == AVAILABLE then [j] else []
  }

  /** A job dropped from the table loses its id and its owner. */
  function Dropped(job: Job): Job {
    job.(id := 0, disowned := true)
  }

  function DropUnavailable(h: Heap, jobs: seq<JobObject>): (r: Heap)
    ensures r.Keys == h.Keys
  {
    map j | j in h :: if j in jobs && h[j].status != AVAILABLE then Dropped(h[j]) else h[j]
  }

  /** Forgets a terminated previous job, and replaces a terminated current job by the previous one. */
  function Forget(h: Heap, cur: JobObject?, prev: JobObject?): (JobObject?, JobObject?) {
    var p := if IsTerminated(h, prev) then null else prev;
    if IsTerminated(h, cur) then (p, null) else (cur, p)
  }

  function Remove(s: State): State {
    if s.deleted == 0 then s
    else
      var t := s.(entries := LiveEntries(s.entries), deleted := 0);
      if AllAvailable(s.heap, s.jobs) then t
      else
        var cp := Forget(s.heap, s.cur, s.prev);
        t.(
          jobs := Available(s.heap, s.jobs),
          heap := DropUnavailable(s.heap, s.jobs),
          cur := cp.0,
          prev := cp.1,
          lastPipe := if IsTerminated(s.heap, s.lastPipe) then null else s.lastPipe)
  }

  // ---------------------------------------------------------------- the other operations

  function Create(s: State, j: JobObject, job: Job): State {
    s.(heap := s.heap[j := job])
  }

  function Disown(s: State, j: JobObject): State {
    s.(heap := s.heap[j := Of(s.heap, j).(disowned := true)])
  }

  function LoseControl(s: State): State {
    s.(
      heap := map j | j in s.heap :: if j in s.jobs then s.heap[j].(status := UNCONTROLLED) else s.heap[j],
      entries := [],
      deleted := 0,
      lastPipe := null)
  }

  function LeaveLastPipe(s: State, j: JobObject): State {
    if s.lastPipe == j then s.(lastPipe := null) else s
  }
}
