/** The merge sort with an explicit stack of frames (src/core.cpp). */
module MergeSort {
  import opened SortSpec

  const MAX_ARRAY_SIZE: nat := 0x7fff_ffff

  function Pow2(n: nat): (r: nat)
    ensures r >= 1
  {
    if n == 0 then 1 else 2 * Pow2(n - 1)
  }

  /** The least depth whose power of two covers the size. */
  method GetStackDepth(size: nat) returns (depth: nat)
    requires size <= MAX_ARRAY_SIZE
    ensures size <= Pow2(depth) && depth <= 31
    ensures forall d :: 0 <= d < depth ==> Pow2(d) < size
  {
    depth := 0;
    var power := 1;
    while depth < 32 && size > power
      invariant 0 <= depth <= 31 && power == Pow2(depth)
      invariant forall d :: 0 <= d < depth ==> Pow2(d) < size
    {
      PowersOf32();
      depth := depth + 1;
      power := 2 * power;
    }
  }

  lemma {:induction false} PowersOf32()
    ensures Pow2(31) == 0x8000_0000
  {
    assert Pow2(8) == 256;
    assert Pow2(16) == 65536 by {
      assert Pow2(12) == 4096;
    }
    assert Pow2(24) == 16777216 by {
      assert Pow2(20) == 1048576;
    }
    assert Pow2(28) == 268435456;
  }

  // ---------------------------------------------------------------- one merge

  /** Fills the buffer with the merge of two neighbouring runs. The comparator fails at the calls that
      `fails` tells. */
  method FillBuffer<T(0)>(
    a: array<T>, buf: array<T>, cmp: Comparator<T>, fails: nat -> bool, calls: nat, left: nat, mid: nat, right: nat)
    returns (ok: bool, count: nat)
    requires left <= mid <= right <= a.Length == buf.Length && a != buf
    modifies buf
    ensures ok ==> buf[..right - left] == Merge(cmp, a[left..mid], a[mid..right])
    ensures (forall n :: !fails(n)) ==> ok
  {
    hide Merge;
    ghost var s := a[..];
    SliceOf(a, left, mid);
    SliceOf(a, mid, right);
    ghost var merged := Merge(cmp, s[left..mid], s[mid..right]);
    var i, j, k := left, mid, 0;
    count := calls;
    while i < mid && j < right
      invariant left <= i <= mid <= j <= right && k == (i - left) + (j - mid)
      invariant buf[..k] + Merge(cmp, s[i..mid], s[j..right]) == merged
    {
      var x, y := a[i], a[j];
      count := count + 1;
      if fails(count - 1) {
        return false, count;
      }
      MergeStep(cmp, s, i, mid, j, right);
      ghost var before := buf[..k];
      if cmp(x, y) <= 0 {
        buf[k] := x;
        i := i + 1;
      } else {
        buf[k] := y;
        j := j + 1;
      }
      assert buf[..k + 1] == before + [buf[k]];
      k := k + 1;
    }
    MergeTail(cmp, s, i, mid, j, right);
    if i == mid {
      CopyRun(a, j, right, buf, k);
    } else {
      CopyRun(a, i, mid, buf, k);
    }
    ok := true;
  }

  /** Appends what is left of a run to the buffer. */
  method CopyRun<T(0)>(a: array<T>, from: nat, to: nat, buf: array<T>, at: nat)
    requires from <= to <= a.Length && at + (to - from) <= buf.Length && a != buf
    modifies buf
    ensures buf[..at + (to - from)] == old(buf[..at]) + a[..][from..to]
  {
    var i, k := from, at;
    while i < to
      invariant from <= i <= to && k == at + (i - from)
      invariant buf[..k] == old(buf[..at]) + a[..][from..i]
    {
      ghost var before := buf[..k];
      buf[k] := a[i];
      assert buf[..k + 1] == before + [a[i]];
      i, k := i + 1, k + 1;
    }
  }

  lemma SliceOf<T>(a: array<T>, i: nat, j: nat)
    requires i <= j <= a.Length
    ensures a[..][i..j] == a[i..j]
  {
  }

  /** Merges two neighbouring runs in place, through the buffer; on a failure nothing was written. */
  method MergeRuns<T(0)>(
    a: array<T>, buf: array<T>, cmp: Comparator<T>, fails: nat -> bool, calls: nat, left: nat, mid: nat, right: nat)
    returns (ok: bool, count: nat)
    requires left <= mid <= right <= a.Length == buf.Length && a != buf
    modifies a, buf
    ensures ok ==> a[..] == Replaced(old(a[..]), left, Merge(cmp, old(a[left..mid]), old(a[mid..right])))
    ensures !ok ==> a[..] == old(a[..])
    ensures (forall n :: !fails(n)) ==> ok
  {
    hide Merge, Replaced;
    ok, count := FillBuffer(a, buf, cmp, fails, calls, left, mid, right);
    if ok {
      CopyBack(a, left, buf, right - left);
    }
  }

  method CopyBack<T(0)>(a: array<T>, left: nat, buf: array<T>, k: nat)
    requires k <= buf.Length && left + k <= a.Length && a != buf
    modifies a
    ensures a[..] == Replaced(old(a[..]), left, buf[..k])
  {
    ghost var s := a[..];
    var l := 0;
    while l < k
      invariant 0 <= l <= k
      invariant a[..] == Replaced(s, left, buf[..l])
    {
      assert buf[..l + 1] == buf[..l] + [buf[l]];
      a[left + l] := buf[l];
      l := l + 1;
    }
  }

  /** The sequence with `part` written over it from index `at` on. */
  function Replaced<T>(s: seq<T>, at: nat, part: seq<T>): seq<T> {
    if at + |part| <= |s| then s[..at] + part + s[at + |part|..] else s
  }

  lemma MergeTail<T>(cmp: Comparator<T>, s: seq<T>, i: nat, mid: nat, j: nat, right: nat)
    requires i <= mid <= j <= right <= |s| && (i == mid || j == right)
    ensures Merge(cmp, s[i..mid], s[j..right]) == if i == mid then s[j..right] else s[i..mid]
  {
  }

  lemma MergeStep<T>(cmp: Comparator<T>, s: seq<T>, i: nat, mid: nat, j: nat, right: nat)
    requires i < mid <= j < right <= |s|
    ensures Merge(cmp, s[i..mid], s[j..right])
         == if cmp(s[i], s[j]) <= 0 then [s[i]] + Merge(cmp, s[i + 1..mid], s[j..right])
            else [s[j]] + Merge(cmp, s[i..mid], s[j + 1..right])
  {
  }

  // ---------------------------------------------------------------- the frames

  /** A range to be sorted, with the number of its halves already started. */
  datatype Frame = Frame(left: nat, right: nat, count: nat) {

    function Mid(): nat { (left + right) / 2 }

    /** The first (0) or the second (1) half. */
    function Half(which: nat): Frame {
      if which == 0 then Frame(left, Mid(), 0) else Frame(Mid(), right, 0)
    }

    predicate Leaf() { left + 1 >= right }
  }

  predicate Covers(f: Frame, g: Frame) {
    f.left <= g.left && g.right <= f.right
  }

  /** The first frame is the whole array, every further one is the half its predecessor started last, and
      the sizes are bounded by falling powers of two. */
  ghost predicate Chain(frames: seq<Frame>, n: nat, depth: nat) {
    && (frames != [] ==> frames[0].left == 0 && frames[0].right == n)
    && (forall k :: 0 <= k < |frames| ==> Link(frames, k, n, depth))
  }

  ghost predicate Link(frames: seq<Frame>, k: nat, n: nat, depth: nat)
    requires k < |frames|
  {
    var f := frames[k];
    && f.left <= f.right <= n && f.count <= 2 && k <= depth && f.right - f.left <= Pow2(depth - k)
    && (f.Leaf() ==> f.count == 0)
    && (k + 1 < |frames| ==>
          var g := frames[k + 1];
          !f.Leaf() && f.count >= 1 && f.Half(f.count - 1) == g.(count := 0))
  }

  lemma {:induction false} Nested(frames: seq<Frame>, n: nat, depth: nat, k: nat, m: nat)
    requires Chain(frames, n, depth) && k <= m < |frames|
    ensures Covers(frames[k], frames[m])
    decreases m - k
  {
    if k == m {
    } else {
      Nested(frames, n, depth, k + 1, m);
      assert Link(frames, k, n, depth) && Link(frames, k + 1, n, depth);
    }
  }

  /** What a frame that waits for its last started half knows about the other half. */
  ghost predicate Idle<T>(cmp: Comparator<T>, f: Frame, s: seq<T>, was: seq<T>) {
    && f.left <= f.right <= |s| == |was|
    && (f.count == 1 ==> s[f.Mid()..f.right] == was[f.Mid()..f.right])
    && (f.count == 2 ==> s[f.left..f.Mid()] == MergeSorted(cmp, was[f.left..f.Mid()]))
  }

  /** The frame on top: its started halves are sorted, the others untouched. */
  ghost predicate Ready<T>(cmp: Comparator<T>, f: Frame, s: seq<T>, was: seq<T>) {
    var m := f.Mid();
    && f.left <= f.right <= |s| == |was|
    && s[f.left..m] == (if f.count >= 1 then MergeSorted(cmp, was[f.left..m]) else was[f.left..m])
    && s[m..f.right] == (if f.count >= 2 then MergeSorted(cmp, was[m..f.right]) else was[m..f.right])
  }

  ghost predicate Progress<T>(cmp: Comparator<T>, frames: seq<Frame>, s: seq<T>, was: seq<T>) {
    && |s| == |was|
    && (forall k :: 0 <= k < |frames| - 1 ==> Idle(cmp, frames[k], s, was))
    && (frames != [] ==> Ready(cmp, frames[|frames| - 1], s, was))
    && (frames == [] ==> s == MergeSorted(cmp, was))
  }

  // ---------------------------------------------------------------- starting a half

  function Started(frames: seq<Frame>): seq<Frame>
    requires frames != []
  {
    var last := |frames| - 1;
    var f := frames[last];
    frames[..last] + [f.(count := f.count + 1), f.Half(f.count)]
  }

  lemma {:induction false} StartKeepsChain(frames: seq<Frame>, n: nat, depth: nat)
    requires Chain(frames, n, depth) && frames != []
    requires var f := frames[|frames| - 1]; !f.Leaf() && f.count < 2
    ensures Chain(Started(frames), n, depth) && |Started(frames)| <= depth + 1
  {
    var last := |frames| - 1;
    var r := Started(frames);
    assert Link(frames, last, n, depth);
    var f := frames[last];
    assert Pow2(0) == 1;
    forall k | 0 <= k < |r| ensures Link(r, k, n, depth) {
      if k < last {
        assert Link(frames, k, n, depth);
      }
    }
  }

  lemma {:induction false} StartKeeps<T>(cmp: Comparator<T>, frames: seq<Frame>, s: seq<T>, was: seq<T>)
    requires frames != [] && Progress(cmp, frames, s, was)
    requires var f := frames[|frames| - 1]; !f.Leaf() && f.count < 2
    ensures Progress(cmp, Started(frames), s, was)
  {
    hide MergeSorted, Idle, Ready;
    var last := |frames| - 1;
    var f, r := frames[last], Started(frames);
    StartHalf(cmp, f, s, was);
    forall k | 0 <= k < |r| - 1 ensures Idle(cmp, r[k], s, was) {
      if k < last {
        assert Idle(cmp, frames[k], s, was);
      }
    }
  }

  lemma {:induction false} StartHalf<T>(cmp: Comparator<T>, f: Frame, s: seq<T>, was: seq<T>)
    requires Ready(cmp, f, s, was) && f.count < 2
    ensures Idle(cmp, f.(count := f.count + 1), s, was) && Ready(cmp, f.Half(f.count), s, was)
  {
    hide MergeSorted;
    SubSlices(s, was, f.Half(f.count));
  }

  lemma {:induction false} SubSlices<T>(s: seq<T>, was: seq<T>, f: Frame)
    requires f.left <= f.right <= |s| == |was|
    ensures s[f.left..f.right] == was[f.left..f.right] ==>
      s[f.left..f.Mid()] == was[f.left..f.Mid()] && s[f.Mid()..f.right] == was[f.Mid()..f.right]
  {
    var n := f.Mid() - f.left;
    assert s[f.left..f.right][..n] == s[f.left..f.Mid()] && s[f.left..f.right][n..] == s[f.Mid()..f.right];
    assert was[f.left..f.right][..n] == was[f.left..f.Mid()] && was[f.left..f.right][n..] == was[f.Mid()..f.right];
  }

  // ---------------------------------------------------------------- finishing a frame

  lemma {:induction false} PopKeepsChain(frames: seq<Frame>, n: nat, depth: nat)
    requires Chain(frames, n, depth) && frames != []
    ensures Chain(frames[..|frames| - 1], n, depth)
  {
    var r := frames[..|frames| - 1];
    forall k | 0 <= k < |r| ensures Link(r, k, n, depth) {
      assert Link(frames, k, n, depth);
    }
  }

  /** The range of the frame on top is sorted, and nothing outside of it has changed. */
  ghost predicate Finished<T>(cmp: Comparator<T>, f: Frame, s: seq<T>, t: seq<T>, was: seq<T>) {
    && f.left <= f.right <= |s| == |was| == |t|
    && t[f.left..f.right] == MergeSorted(cmp, was[f.left..f.right])
    && t[..f.left] == s[..f.left] && t[f.right..] == s[f.right..]
  }

  lemma SameOutside<T>(f: Frame, s: seq<T>, t: seq<T>, x: nat, y: nat)
    requires f.left <= f.right <= |s| == |t| && x <= y <= |s| && (y <= f.left || f.right <= x)
    requires t[..f.left] == s[..f.left] && t[f.right..] == s[f.right..]
    ensures t[x..y] == s[x..y]
  {
  }

  lemma {:induction false} IdleOutside<T>(cmp: Comparator<T>, p: Frame, g: Frame, f: Frame, s: seq<T>, t: seq<T>, was: seq<T>)
    requires p.left <= p.right <= |s| == |t| == |was| && f.left <= f.right <= |s| && 1 <= p.count <= 2
    requires p.Half(p.count - 1) == g.(count := 0) && Covers(g, f) && Idle(cmp, p, s, was)
    requires t[..f.left] == s[..f.left] && t[f.right..] == s[f.right..]
    ensures Idle(cmp, p, t, was)
  {
    hide MergeSorted;
    if p.count == 1 {
      SameOutside(f, s, t, p.Mid(), p.right);
    } else {
      SameOutside(f, s, t, p.left, p.Mid());
    }
  }

  lemma {:induction false} FinishKeeps<T>(cmp: Comparator<T>, frames: seq<Frame>, depth: nat, s: seq<T>, t: seq<T>, was: seq<T>)
    requires Chain(frames, |was|, depth) && frames != [] && Progress(cmp, frames, s, was)
    requires Finished(cmp, frames[|frames| - 1], s, t, was)
    ensures Progress(cmp, frames[..|frames| - 1], t, was)
  {
    hide MergeSorted, Chain, Idle, Ready, Link;
    var last := |frames| - 1;
    var f, r := frames[last], frames[..last];
    forall k | 0 <= k < last ensures Idle(cmp, frames[k], t, was) {
      LinkAt(frames, |was|, depth, k);
      Nested(frames, |was|, depth, k + 1, last);
      IdleOutside(cmp, frames[k], frames[k + 1], f, s, t, was);
    }
    if last == 0 {
      FirstIsAll(frames, |was|, depth);
      assert t[0..|was|] == t && was[0..|was|] == was;
    } else {
      LinkAt(frames, |was|, depth, last - 1);
      ParentReady(cmp, frames[last - 1], f, t, was);
    }
  }

  lemma {:induction false} LinkAt(frames: seq<Frame>, n: nat, depth: nat, k: nat)
    requires Chain(frames, n, depth) && k < |frames| - 1
    ensures var f := frames[k];
      f.left <= f.right <= n && 1 <= f.count <= 2 && f.Half(f.count - 1) == frames[k + 1].(count := 0)
  {
    assert Link(frames, k, n, depth);
  }

  lemma FirstIsAll(frames: seq<Frame>, n: nat, depth: nat)
    requires Chain(frames, n, depth) && frames != []
    ensures frames[0].left == 0 && frames[0].right == n
  {
  }

  lemma {:induction false} ParentReady<T>(cmp: Comparator<T>, p: Frame, f: Frame, t: seq<T>, was: seq<T>)
    requires p.left <= p.right <= |t| == |was| && 1 <= p.count <= 2 && p.Half(p.count - 1) == f.(count := 0)
    requires Idle(cmp, p, t, was) && t[f.left..f.right] == MergeSorted(cmp, was[f.left..f.right])
    ensures Ready(cmp, p, t, was)
  {
    hide MergeSorted;
  }

  // ---------------------------------------------------------------- how much is left to do

  /** The number of steps for a range with some halves already started. */
  ghost function Work(f: Frame): nat
    decreases f.right - f.left, 2 - f.count
  {
    if f.Leaf() || f.count >= 2 then 1
    else 1 + Work(f.Half(f.count)) + Work(f.(count := f.count + 1))
  }

  ghost function TotalWork(frames: seq<Frame>): nat {
    if frames == [] then 0 else TotalWork(frames[..|frames| - 1]) + Work(frames[|frames| - 1])
  }

  lemma {:induction false} StartWorks(frames: seq<Frame>)
    requires frames != []
    requires var f := frames[|frames| - 1]; !f.Leaf() && f.count < 2
    ensures TotalWork(Started(frames)) < TotalWork(frames)
  {
    hide Work, TotalWork;
    var older, f := frames[..|frames| - 1], frames[|frames| - 1];
    var g := f.(count := f.count + 1);
    assert frames == older + [f] && Started(frames) == older + [g] + [f.Half(f.count)];
    WorkPushed(older, f);
    WorkPushed(older, g);
    WorkPushed(older + [g], f.Half(f.count));
    WorkStarted(f);
  }

  lemma {:induction false} WorkPushed(frames: seq<Frame>, f: Frame)
    ensures TotalWork(frames + [f]) == TotalWork(frames) + Work(f)
  {
    hide Work;
    assert (frames + [f])[..|frames|] == frames;
  }

  lemma {:induction false} WorkStarted(f: Frame)
    requires !f.Leaf() && f.count < 2
    ensures Work(f) == 1 + Work(f.Half(f.count)) + Work(f.(count := f.count + 1))
  {
  }

  // ---------------------------------------------------------------- the sort

  /** Writing the merge of the two halves finishes the frame. */
  lemma {:induction false} MergeFinishes<T>(cmp: Comparator<T>, f: Frame, s: seq<T>, was: seq<T>)
    requires Ready(cmp, f, s, was) && !f.Leaf() && f.count == 2
    ensures Finished(cmp, f, s, Replaced(s, f.left, Merge(cmp, s[f.left..f.Mid()], s[f.Mid()..f.right])), was)
    ensures multiset(Replaced(s, f.left, Merge(cmp, s[f.left..f.Mid()], s[f.Mid()..f.right]))) == multiset(s)
  {
    hide Merge;
    var m := f.Mid();
    var a, b := s[f.left..m], s[m..f.right];
    MergeElements(cmp, a, b);
    var w, h := was[f.left..f.right], m - f.left;
    assert w[..h] == was[f.left..m] && w[h..] == was[m..f.right];
    assert s == s[..f.left] + (a + b) + s[f.right..];
  }

  lemma LeafFinished<T>(cmp: Comparator<T>, f: Frame, s: seq<T>, was: seq<T>)
    requires Ready(cmp, f, s, was) && f.Leaf() && f.count == 0
    ensures Finished(cmp, f, s, s, was)
  {
  }

  /** Sorts in place. Without a failing comparison the result is sorted and stable; with one the array
      is still a permutation of what it was. `peak` is the largest number of frames held at a time, and
      the midpoint never leaves 32 bits. */
  method Sort<T(0, !new)>(a: array<T>, cmp: Comparator<T>, fails: nat -> bool) returns (ok: bool, ghost peak: nat)
    requires a.Length <= MAX_ARRAY_SIZE
    modifies a
    ensures ok ==> a[..] == MergeSorted(cmp, old(a[..]))
    ensures ok && TotalPreorder(cmp) ==> Sorted(cmp, a[..])
    ensures ok && TotalPreorder(cmp) ==> forall e :: Equivalents(cmp, a[..], e) == Equivalents(cmp, old(a[..]), e)
    ensures multiset(a[..]) == multiset(old(a[..]))
    ensures (forall n :: !fails(n)) ==> ok
    ensures forall d: nat :: a.Length <= Pow2(d) ==> peak <= d + 1
  {
    hide Sorted, Equivalents, TotalPreorder, Merge, MergeSorted, Ready, Idle, Progress, Chain, Replaced, Finished, TotalWork, Started;
    ghost var was := a[..];
    var buf := new T[a.Length];
    var depth := GetStackDepth(a.Length);
    var frames := [Frame(0, a.Length, 0)];
    var calls := 0;
    peak := 1;
    FirstFrame(cmp, was, depth);
    while frames != []
      invariant Chain(frames, |was|, depth) && Progress(cmp, frames, a[..], was)
      invariant multiset(a[..]) == multiset(was)
      invariant |frames| <= peak <= depth + 1
      decreases TotalWork(frames)
    {
      var last := |frames| - 1;
      var f := frames[last];
      TopFrame(cmp, frames, a[..], was, depth);
      PopKeepsChain(frames, |was|, depth);
      PopWorks(frames);
      if f.left + 1 >= f.right {
        LeafFinished(cmp, f, a[..], was);
        FinishKeeps(cmp, frames, depth, a[..], a[..], was);
        frames := frames[..last];
      } else {
        assert f.left + f.right <= 0xffff_ffff;
        var mid := (f.left + f.right) / 2;
        if f.count < 2 {
          StartKeepsChain(frames, |was|, depth);
          StartKeeps(cmp, frames, a[..], was);
          StartWorks(frames);
          StartedIs(frames);
          var child := if f.count == 0 then Frame(f.left, mid, 0) else Frame(mid, f.right, 0);
          frames := frames[..last] + [f.(count := f.count + 1), child];
          peak := if peak < |frames| then |frames| else peak;
        } else {
          ghost var s := a[..];
          SliceOf(a, f.left, mid);
          SliceOf(a, mid, f.right);
          MergeFinishes(cmp, f, s, was);
          ok, calls := MergeRuns(a, buf, cmp, fails, calls, f.left, mid, f.right);
          if !ok {
            return;
          }
          FinishKeeps(cmp, frames, depth, s, a[..], was);
          frames := frames[..last];
        }
      }
    }
    AllDone(cmp, a[..], was);
    if TotalPreorder(cmp) {
      MergeSortedIs(cmp, was);
      forall e ensures Equivalents(cmp, a[..], e) == Equivalents(cmp, was, e) { MergeSortedStable(cmp, was, e); }
    }
    ok := true;
  }

  lemma FirstFrame<T>(cmp: Comparator<T>, was: seq<T>, depth: nat)
    requires |was| <= Pow2(depth)
    ensures Chain([Frame(0, |was|, 0)], |was|, depth) && Progress(cmp, [Frame(0, |was|, 0)], was, was)
  {
  }

  lemma {:induction false} TopFrame<T>(cmp: Comparator<T>, frames: seq<Frame>, s: seq<T>, was: seq<T>, depth: nat)
    requires frames != [] && Chain(frames, |was|, depth) && Progress(cmp, frames, s, was)
    ensures var f := frames[|frames| - 1];
      Ready(cmp, f, s, was) && f.left <= f.right <= |was| == |s| && f.count <= 2 && (f.Leaf() ==> f.count == 0)
  {
    assert Link(frames, |frames| - 1, |was|, depth);
  }

  lemma PopWorks(frames: seq<Frame>)
    requires frames != []
    ensures TotalWork(frames[..|frames| - 1]) < TotalWork(frames)
  {
  }

  lemma StartedIs(frames: seq<Frame>)
    requires frames != []
    ensures var last := |frames| - 1;
      var f := frames[last];
      Started(frames) == frames[..last] + [f.(count := f.count + 1), f.Half(f.count)]
  {
  }

  lemma AllDone<T>(cmp: Comparator<T>, s: seq<T>, was: seq<T>)
    requires Progress(cmp, [], s, was)
    ensures s == MergeSorted(cmp, was)
  {
  }
}
