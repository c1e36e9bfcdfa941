/** Processes and jobs (src/job.h): the values the kernel's reports change. */
module JobObjects {

  datatype ProcState = Running | Stopped | Terminated

  datatype Proc = Proc(
    pid: int, state: ProcState, exitStatus: int, signaled: bool, coreDump: bool, groupLeader: bool)

  datatype WaitKind = EXITED | SIGNALED | STOPPED | CONTINUED | ERROR

  datatype WaitResult = WaitResult(pid: int, kind: WaitKind, exitStatus: int, coreDump: bool)

  /** `Proc::updateState`: a terminated process ignores every further report. */
  function UpdateProc(p: Proc, ret: WaitResult): (r: Proc)
    ensures r.pid == p.pid && r.groupLeader == p.groupLeader
    ensures !Live(p) ==> r == p
    ensures Live(p) && ret.kind in {EXITED, SIGNALED} ==> !Live(r)
    ensures Live(p) && ret.kind == STOPPED ==> r.state == Stopped
    ensures Live(p) && ret.kind == CONTINUED ==> r.state == Running
    ensures Live(p) && ret.kind == ERROR ==> r == p
    ensures Live(p) && ret.kind in {EXITED, SIGNALED, STOPPED} ==> r.exitStatus == ret.exitStatus
    ensures ret.kind == CONTINUED ==> r.exitStatus == p.exitStatus
    ensures r.signaled <==> p.signaled || (Live(p) && ret.kind == SIGNALED)
    ensures r.coreDump <==> p.coreDump || (Live(p) && ret.kind == SIGNALED && ret.coreDump)
  {
    if p.state.Terminated? then p
    else
      match ret.kind
      case EXITED => p.(state := Terminated, exitStatus := ret.exitStatus)
      case SIGNALED =>
        p.(state := Terminated, exitStatus := ret.exitStatus, signaled := true, coreDump := p.coreDump || ret.coreDump)
      case STOPPED => p.(state := Stopped, exitStatus := ret.exitStatus)
      case CONTINUED => p.(state := Running)
      case ERROR => p
  }

  predicate Live(p: Proc) { !p.state.Terminated? }

  /** How many of the first `n` processes are done. */
  function DoneCount(procs: seq<Proc>, n: nat): (c: nat)
    requires n <= |procs|
    ensures c <= n
  {
    if n == 0 then 0 else DoneCount(procs, n - 1) + if Live(procs[n - 1]) then 0 else 1
  }

  predicate AllDone(procs: seq<Proc>) {
    DoneCount(procs, |procs|) == |procs|
  }

  lemma {:induction false} DoneBelow(procs: seq<Proc>, n: nat)
    requires n <= |procs|
    ensures DoneCount(procs, n) == n <==> forall i :: 0 <= i < n ==> !Live(procs[i])
  {
    if n == 0 {
    } else {
      DoneBelow(procs, n - 1);
    }
  }

  lemma {:induction false} AllDoneIs(procs: seq<Proc>)
    ensures AllDone(procs) <==> forall i :: 0 <= i < |procs| ==> !Live(procs[i])
  {
    DoneBelow(procs, |procs|);
  }

  datatype JobStatus = AVAILABLE | TERMINATED | UNCONTROLLED

  /** The content of a job object at one moment. */
  datatype Job = Job(id: nat, status: JobStatus, disowned: bool, lastPipe: bool, procs: seq<Proc>) {

    predicate Grouped() { procs != [] && procs[0].groupLeader }

    function ValidPid(i: nat): int {
      if status != UNCONTROLLED && i < |procs| && Live(procs[i]) then procs[i].pid else -1
    }
  }

  /** `JobObject::updateState`: an available job all of whose processes are done becomes terminated. */
  function Settled(job: Job): Job {
    if job.status == AVAILABLE && AllDone(job.procs) then job.(status := TERMINATED) else job
  }

  class JobObject {
    var id: nat
    var status: JobStatus
    var disowned: bool
    var lastPipe: bool
    var procs: seq<Proc>

    function View(): Job
      reads this
    {
      Job(id, status, disowned, lastPipe, procs)
    }

    /** `JobObject::create`. */
    constructor (procs: seq<Proc>, saveStdin: bool)
      ensures View() == Job(0, AVAILABLE, false, saveStdin, procs)
    {
      this.id, this.status, this.disowned, this.lastPipe, this.procs := 0, AVAILABLE, false, saveStdin, procs;
    }

    method Disown()
      modifies this
      ensures View() == old(View()).(disowned := true)
    {
      disowned := true;
    }

    method SetState(s: JobStatus)
      modifies this
      ensures View() == old(View()).(status := s)
    {
      status := s;
    }

    method UpdateState()
      modifies this
      ensures View() == Settled(old(View()))
    {
      if status == AVAILABLE {
        var c, i := 0, 0;
        while i < |procs|
          invariant 0 <= i <= |procs| && View() == old(View())
          invariant c == DoneCount(procs, i)
        {
          if procs[i].state.Terminated? {
            c := c + 1;
          }
          i := i + 1;
        }
        if c == |procs| {
          SetState(TERMINATED);
        }
      }
    }

    /** The report for one process of the job. */
    method UpdateProcAt(offset: nat, ret: WaitResult)
      requires offset < |procs|
      modifies this
      ensures View() == old(View()).(procs := old(procs)[offset := UpdateProc(old(procs)[offset], ret)])
    {
      procs := procs[offset := UpdateProc(procs[offset], ret)];
    }
  }
}
