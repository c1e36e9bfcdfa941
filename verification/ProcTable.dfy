/** The process table (src/job.h, src/job.cpp): entries sorted by pid, deleted lazily. */
module ProcTables {
  import opened JobObjects

  /** An entry whose job id is 0 is deleted. */
  datatype Entry = Entry(pid: int, jobId: nat, offset: nat)

  ghost predicate Sorted(es: seq<Entry>) {
    forall x, y :: 0 <= x < y < |es| ==> es[x].pid < es[y].pid
  }

  function DeletedCount(es: seq<Entry>): nat {
    if es == [] then 0 else DeletedCount(es[..|es| - 1]) + if es[|es| - 1].jobId == 0 then 1 else 0
  }

  function LiveEntries(es: seq<Entry>): seq<Entry> {
    if es == [] then []
    else LiveEntries(es[..|es| - 1]) + if es[|es| - 1].jobId == 0 then [] else [es[|es| - 1]]
  }

  /** The first index whose pid is not below `pid`. */
  function LowerBound(es: seq<Entry>, pid: int): (r: nat)
    ensures r <= |es|
    ensures r < |es| ==> pid <= es[r].pid
  {
    if es == [] || pid <= es[0].pid then 0 else 1 + LowerBound(es[1..], pid)
  }

  function AddProc(es: seq<Entry>, pid: int, jobId: nat, offset: nat): seq<Entry> {
    if pid < 0 || jobId == 0 then es
    else
      var x := LowerBound(es, pid);
      if x < |es| && es[x].pid == pid then es
      else es[..x] + [Entry(pid, jobId, offset)] + es[x..]
  }

  /** The table after the first `n` processes of the job were offered to it. */
  function AddJob(es: seq<Entry>, job: Job, n: nat): seq<Entry> {
    if n == 0 then es else AddProc(AddJob(es, job, n - 1), job.ValidPid(n - 1), job.id, n - 1)
  }

  // ---------------------------------------------------------------- facts about the functions

  lemma {:induction false} BelowLowerBound(es: seq<Entry>, pid: int, x: nat)
    requires x < LowerBound(es, pid)
    ensures es[x].pid < pid
  {
    if x == 0 {
    } else {
      BelowLowerBound(es[1..], pid, x - 1);
    }
  }

  lemma {:induction false} LowerBoundIs(es: seq<Entry>, pid: int, r: nat)
    requires r <= |es|
    requires forall x :: 0 <= x < r ==> es[x].pid < pid
    requires r < |es| ==> pid <= es[r].pid
    ensures LowerBound(es, pid) == r
  {
    var l := LowerBound(es, pid);
    if r < l {
      BelowLowerBound(es, pid, r);
    }
  }

  /** A pid that occurs is found where it occurs. */
  lemma {:induction false} LowerBoundFinds(es: seq<Entry>, x: nat)
    requires Sorted(es) && x < |es|
    ensures LowerBound(es, es[x].pid) == x
  {
    LowerBoundIs(es, es[x].pid, x);
  }

  lemma TracksAtLowerBound(es: seq<Entry>, pid: int)
    requires Sorted(es)
    ensures Tracks(es, pid) <==> LowerBound(es, pid) < |es| && es[LowerBound(es, pid)].pid == pid
  {
  }

  /** `findProc` does not compare the pid it lands on: what it returns carries the asked pid exactly when
      the pid is in the table or above every pid there (and then nothing is returned). */
  lemma FindProcExact(es: seq<Entry>, pid: int)
    requires Sorted(es)
    ensures (LowerBound(es, pid) < |es| ==> es[LowerBound(es, pid)].pid == pid)
       <==> Tracks(es, pid) || Above(es, pid)
  {
  }

  /** For instance: a report for pid 5 would land on pid 7. */
  lemma FindProcLandsElsewhere()
    ensures var es := [Entry(3, 1, 0), Entry(7, 1, 1)];
      Sorted(es) && LowerBound(es, 5) == 1 && !Tracks(es, 5)
  {
  }

  ghost predicate Tracks(es: seq<Entry>, pid: int) {
    exists x :: 0 <= x < |es| && es[x].pid == pid
  }

  ghost predicate Above(es: seq<Entry>, pid: int) {
    forall x :: 0 <= x < |es| ==> es[x].pid < pid
  }

  lemma {:induction false} DeletedCountAppend(a: seq<Entry>, b: seq<Entry>)
    ensures DeletedCount(a + b) == DeletedCount(a) + DeletedCount(b)
  {
    if b == [] {
      assert a + b == a;
    } else {
      var n := |b| - 1;
      assert (a + b)[..|a + b| - 1] == a + b[..n];
      DeletedCountAppend(a, b[..n]);
    }
  }

  lemma DeletedCountOne(e: Entry)
    ensures DeletedCount([e]) == if e.jobId == 0 then 1 else 0
  {
  }

  lemma {:induction false} DeletedCountAround(a: seq<Entry>, e: Entry, b: seq<Entry>)
    ensures DeletedCount(a + [e] + b) == DeletedCount(a + b) + if e.jobId == 0 then 1 else 0
  {
    DeletedCountAppend(a + [e], b);
    DeletedCountAppend(a, [e]);
    DeletedCountAppend(a, b);
    DeletedCountOne(e);
  }

  lemma {:induction false} DeletedCountUpdate(es: seq<Entry>, x: nat, e: Entry)
    requires x < |es| && es[x].jobId != 0 && e.jobId == 0
    ensures DeletedCount(es[x := e]) == DeletedCount(es) + 1
  {
    assert es == es[..x] + [es[x]] + es[x + 1..];
    assert es[x := e] == es[..x] + [e] + es[x + 1..];
    DeletedCountAround(es[..x], es[x], es[x + 1..]);
    DeletedCountAround(es[..x], e, es[x + 1..]);
  }

  lemma {:induction false} DeletedCountZero(es: seq<Entry>)
    requires DeletedCount(es) == 0
    ensures forall e :: e in es ==> e.jobId != 0
  {
    if es == [] {
    } else {
      var n := |es| - 1;
      DeletedCountZero(es[..n]);
      assert es == es[..n] + [es[n]];
    }
  }

  /** Compaction keeps exactly the live entries, in their order. */
  lemma {:induction false} LiveEntriesAre(es: seq<Entry>)
    ensures forall e :: e in LiveEntries(es) <==> e in es && e.jobId != 0
    ensures Sorted(es) ==> Sorted(LiveEntries(es))
    ensures DeletedCount(LiveEntries(es)) == 0
    ensures |LiveEntries(es)| + DeletedCount(es) == |es|
  {
    hide *;
    forall e ensures e in LiveEntries(es) <==> e in es && e.jobId != 0 { LiveEntriesHas(es, e); }
    if Sorted(es) {
      LiveEntriesSorted(es);
    }
    LiveEntriesCount(es);
  }

  lemma {:induction false} LiveEntriesHas(es: seq<Entry>, e: Entry)
    ensures e in LiveEntries(es) <==> e in es && e.jobId != 0
  {
    if es == [] {
    } else {
      var n := |es| - 1;
      LiveEntriesHas(es[..n], e);
      assert es == es[..n] + [es[n]];
    }
  }

  lemma {:induction false} LiveEntriesSorted(es: seq<Entry>)
    requires Sorted(es)
    ensures Sorted(LiveEntries(es))
  {
    if es == [] {
    } else {
      var n := |es| - 1;
      LiveEntriesSorted(es[..n]);
      var front := LiveEntries(es[..n]);
      forall x | 0 <= x < |front| ensures front[x].pid < es[n].pid {
        LiveEntriesHas(es[..n], front[x]);
      }
    }
  }

  lemma {:induction false} LiveEntriesCount(es: seq<Entry>)
    ensures DeletedCount(LiveEntries(es)) == 0
    ensures |LiveEntries(es)| + DeletedCount(es) == |es|
  {
    if es == [] {
    } else {
      var n := |es| - 1;
      LiveEntriesCount(es[..n]);
      DeletedCountAppend(LiveEntries(es[..n]), [es[n]]);
      assert LiveEntries(es[..n]) + [] == LiveEntries(es[..n]);
      DeletedCountOne(es[n]);
    }
  }

  // ---------------------------------------------------------------- adding the processes of a job

  lemma {:induction false} AddProcContents(es: seq<Entry>, pid: int, jobId: nat, offset: nat)
    requires Sorted(es)
    ensures var r := AddProc(es, pid, jobId, offset);
      Sorted(r) && DeletedCount(r) == DeletedCount(es)
      && (forall e :: e in r <==> e in es || (Added(es, pid, jobId) && e == Entry(pid, jobId, offset)))
  {
    hide DeletedCount, Sorted, LowerBound;
    if 0 <= pid && jobId != 0 {
      var x := LowerBound(es, pid);
      if Tracks(es, pid) {
        var y :| 0 <= y < |es| && es[y].pid == pid;
        LowerBoundFinds(es, y);
      } else {
        InsertSorted(es, pid, Entry(pid, jobId, offset));
        assert es == es[..x] + es[x..];
        DeletedCountAround(es[..x], Entry(pid, jobId, offset), es[x..]);
      }
    }
  }

  lemma {:induction false} InsertSorted(es: seq<Entry>, pid: int, entry: Entry)
    requires Sorted(es) && !Tracks(es, pid) && entry.pid == pid
    ensures var x := LowerBound(es, pid);
      Sorted(es[..x] + [entry] + es[x..])
  {
    hide LowerBound;
    var x := LowerBound(es, pid);
    forall y | 0 <= y < x ensures es[y].pid < pid { BelowLowerBound(es, pid, y); }
  }

  ghost predicate Added(es: seq<Entry>, pid: int, jobId: nat) {
    0 <= pid && jobId != 0 && !Tracks(es, pid)
  }

  function Own(job: Job, i: nat): Entry {
    Entry(job.ValidPid(i), job.id, i)
  }

  /** Adding a job never drops or changes an entry and adds entries of that job only. */
  lemma {:induction false} AddJobBounds(es: seq<Entry>, job: Job, n: nat)
    requires Sorted(es) && n <= |job.procs|
    ensures var r := AddJob(es, job, n);
      Sorted(r) && DeletedCount(r) == DeletedCount(es)
      && (forall e :: e in es ==> e in r)
      && (forall e :: e in r ==> e in es || (e.offset < n && e == Own(job, e.offset) && 0 <= e.pid && job.id != 0))
  {
    hide DeletedCount, Sorted, AddProc;
    if n == 0 {
    } else {
      AddJobBounds(es, job, n - 1);
      AddProcContents(AddJob(es, job, n - 1), job.ValidPid(n - 1), job.id, n - 1);
    }
  }

  /** Every live process of the job can be told apart by its pid, from the others and from the table. */
  ghost predicate FreshPids(es: seq<Entry>, job: Job) {
    && (forall i :: 0 <= i < |job.procs| && Live(job.procs[i]) ==> 0 < job.procs[i].pid && !Tracks(es, job.procs[i].pid))
    && (forall i, j :: 0 <= i < j < |job.procs| && Live(job.procs[i]) && Live(job.procs[j]) ==>
          job.procs[i].pid != job.procs[j].pid)
  }

  lemma {:induction false} AddJobCovers(es: seq<Entry>, job: Job, n: nat)
    requires Sorted(es) && n <= |job.procs| && FreshPids(es, job)
    requires job.id != 0 && job.status != UNCONTROLLED
    ensures forall i :: 0 <= i < n && Live(job.procs[i]) ==> Own(job, i) in AddJob(es, job, n)
  {
    hide DeletedCount, Sorted, AddProc;
    if n == 0 {
    } else {
      var before, m := AddJob(es, job, n - 1), n - 1;
      AddJobCovers(es, job, m);
      AddJobBounds(es, job, m);
      AddProcContents(before, job.ValidPid(m), job.id, m);
      if Live(job.procs[m]) && Tracks(before, job.procs[m].pid) {
        NotYetTracked(es, job, before, m);
      }
    }
  }

  lemma NotYetTracked(es: seq<Entry>, job: Job, before: seq<Entry>, m: nat)
    requires m < |job.procs| && FreshPids(es, job) && Live(job.procs[m])
    requires forall e :: e in before ==> e in es || (e.offset < m && e == Own(job, e.offset) && 0 <= e.pid)
    ensures !Tracks(before, job.procs[m].pid)
  {
  }

  // ---------------------------------------------------------------- the table object

  class ProcTable {
    var entries: seq<Entry>
    var deletedCount: nat

    constructor ()
      ensures entries == [] && deletedCount == 0
    {
      entries, deletedCount := [], 0;
    }

    /** The library's binary search for the first entry not below `pid`. */
    method LowerBoundIndex(pid: int) returns (r: nat)
      requires Sorted(entries)
      ensures r == LowerBound(entries, pid)
    {
      var first, size := 0, |entries|;
      while size > 0
        invariant 0 <= first <= first + size <= |entries|
        invariant forall x :: 0 <= x < first ==> entries[x].pid < pid
        invariant first + size < |entries| ==> pid <= entries[first + size].pid
      {
        var half := size / 2;
        if entries[first + half].pid < pid {
          first, size := first + half + 1, size - half - 1;
        } else {
          size := half;
        }
      }
      LowerBoundIs(entries, pid, first);
      r := first;
    }

    method AddProcess(pid: int, jobId: nat, offset: nat) returns (added: bool)
      requires Sorted(entries)
      modifies this
      ensures entries == AddProc(old(entries), pid, jobId, offset) && deletedCount == old(deletedCount)
      ensures added <==> Added(old(entries), pid, jobId)
    {
      if pid < 0 || jobId == 0 {
        return false;
      }
      var x := LowerBoundIndex(pid);
      TracksAtLowerBound(entries, pid);
      if x == |entries| || entries[x].pid != pid {
        entries := entries[..x] + [Entry(pid, jobId, offset)] + entries[x..];
        return true;
      }
      return false;
    }

    /** Offers every live process of a job to the table. */
    method Add(job: JobObject)
      requires Sorted(entries)
      modifies this
      ensures entries == AddJob(old(entries), job.View(), |job.procs|) && deletedCount == old(deletedCount)
    {
      var i := 0;
      while i < |job.procs|
        invariant 0 <= i <= |job.procs| && deletedCount == old(deletedCount)
        invariant entries == AddJob(old(entries), job.View(), i)
      {
        AddJobBounds(old(entries), job.View(), i);
        var _ := AddProcess(job.View().ValidPid(i), job.id, i);
        i := i + 1;
      }
    }

    /** Returns the index of the entry found, or -1. */
    method FindProc(pid: int) returns (r: int)
      requires Sorted(entries)
      ensures r == if pid > 0 && LowerBound(entries, pid) < |entries| then LowerBound(entries, pid) else -1
    {
      if pid > 0 {
        var x := LowerBoundIndex(pid);
        if x != |entries| {
          return x;
        }
      }
      return -1;
    }

    method DeleteProc(x: nat)
      requires x < |entries|
      modifies this
      ensures entries == old(entries)[x := old(entries)[x].(jobId := 0)]
      ensures deletedCount == old(deletedCount) + if old(entries)[x].jobId == 0 then 0 else 1
    {
      if entries[x].jobId != 0 {
        entries := entries[x := entries[x].(jobId := 0)];
        deletedCount := deletedCount + 1;
      }
    }

    method Clear()
      modifies this
      ensures entries == [] && deletedCount == 0
    {
      entries, deletedCount := [], 0;
    }

    /** Compaction by swapping each live entry into the first hole. */
    method BatchedRemove()
      modifies this
      ensures entries == LiveEntries(old(entries)) && deletedCount == 0
    {
      hide LiveEntries;
      deletedCount := 0;
      NoLiveEntries();
      ghost var was := entries;
      var removed := 0;
      while removed < |entries| && entries[removed].jobId != 0
        invariant 0 <= removed <= |entries| && entries == was && deletedCount == 0
        invariant LiveEntries(was[..removed]) == was[..removed]
      {
        LiveEntriesStep(was, removed);
        removed := removed + 1;
      }
      if removed == |entries| {
        assert was[..removed] == was;
        return;
      }
      LiveEntriesStep(was, removed);
      var i := removed + 1;
      while i < |entries|
        invariant 0 <= removed < i <= |entries| == |was| && deletedCount == 0
        invariant entries[..removed] == LiveEntries(was[..i])
        invariant forall x :: removed <= x < i ==> entries[x].jobId == 0
        invariant entries[i..] == was[i..]
      {
        LiveEntriesStep(was, i);
        assert entries[i] == entries[i..][0] == was[i];
        if entries[i].jobId != 0 {
          assert entries[removed].jobId == 0;
          entries := entries[i := entries[removed]][removed := entries[i]];
          removed := removed + 1;
        }
        i := i + 1;
      }
      assert was[..i] == was;
      entries := entries[..removed];
    }
  }

  lemma NoLiveEntries()
    ensures LiveEntries([]) == []
  {
  }

  lemma {:induction false} LiveEntriesStep(es: seq<Entry>, i: nat)
    requires i < |es|
    ensures LiveEntries(es[..i + 1]) == LiveEntries(es[..i]) + if es[i].jobId == 0 then [] else [es[i]]
  {
    assert es[..i + 1][..i] == es[..i];
  }
}
