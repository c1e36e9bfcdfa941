/** Binary search in a sorted array (src/core.cpp). */
module SearchSorted {
  import opened SortSpec

  /** The comparator answers both ways round with opposite signs, and transitively. */
  ghost predicate SignConsistent<T(!new)>(cmp: Comparator<T>) {
    && TotalPreorder(cmp)
    && (forall x, y :: cmp(x, y) < 0 <==> cmp(y, x) > 0)
  }

  /** Everything before `i` is below the value, everything from `i` on is not. */
  ghost predicate InsertionPoint<T>(cmp: Comparator<T>, s: seq<T>, value: T, i: int) {
    && 0 <= i <= |s|
    && (forall k :: 0 <= k < i ==> cmp(s[k], value) < 0)
    && (forall k :: i <= k < |s| ==> cmp(s[k], value) >= 0)
  }

  /** What the search returns for an insertion point. */
  ghost predicate Answers<T>(cmp: Comparator<T>, s: seq<T>, value: T, r: int) {
    if r >= 0 then r < |s| && InsertionPoint(cmp, s, value, r) && cmp(value, s[r]) == 0
    else InsertionPoint(cmp, s, value, -r - 1) && (forall k :: 0 <= k < |s| ==> cmp(value, s[k]) != 0)
  }

  const MAX_SIZE := 0x7fff_ffff

  /** The comparator fails at the calls that `fails` tells. A failure while narrowing ends the search with
      the number that stands for it; one in the last comparison counts as "not equal". */
  method Search<T(!new)>(value: T, a: array<T>, cmp: Comparator<T>, fails: nat -> bool) returns (r: int, ok: bool)
    requires SignConsistent(cmp) && Sorted(cmp, a[..])
    ensures ok ==> Answers(cmp, a[..], value, r)
    ensures !ok ==> r == -0x7fff_ffff || InsertionPoint(cmp, a[..], value, -r - 1)
    ensures (forall n :: !fails(n)) ==> ok
  {
    var first, size, calls := 0, a.Length, 0;
    while size != 0
      invariant 0 <= first <= first + size <= a.Length && 0 <= calls
      invariant forall k :: 0 <= k < first ==> cmp(a[k], value) < 0
      invariant forall k :: first + size <= k < a.Length ==> cmp(a[k], value) >= 0
    {
      var half := size / 2;
      var mid := first + half;
      ghost var s := a[..];
      calls := calls + 1;
      if fails(calls - 1) {
        return -MAX_SIZE, false;
      }
      if cmp(a[mid], value) < 0 {
        forall k | 0 <= k <= mid ensures cmp(a[k], value) < 0 { DownTo(cmp, s, value, k, mid); }
        first, size := mid + 1, size - (half + 1);
      } else {
        forall k | mid <= k < a.Length ensures cmp(a[k], value) >= 0 { UpFrom(cmp, s, value, mid, k); }
        size := half;
      }
    }
    assert InsertionPoint(cmp, a[..], value, first);
    if first < a.Length && fails(calls) {
      return -first - 1, false;
    }
    if first == a.Length || cmp(value, a[first]) != 0 {
      NoEqual(cmp, a[..], value, first);
      return -first - 1, true;
    }
    return first, true;
  }

  lemma DownTo<T(!new)>(cmp: Comparator<T>, s: seq<T>, value: T, k: nat, m: nat)
    requires SignConsistent(cmp) && Sorted(cmp, s) && k <= m < |s| && cmp(s[m], value) < 0
    ensures cmp(s[k], value) < 0
  {
  }

  lemma UpFrom<T(!new)>(cmp: Comparator<T>, s: seq<T>, value: T, m: nat, k: nat)
    requires SignConsistent(cmp) && Sorted(cmp, s) && m <= k < |s| && cmp(s[m], value) >= 0
    ensures cmp(s[k], value) >= 0
  {
  }

  /** When the element at the insertion point is not equal, none is. */
  lemma NoEqual<T(!new)>(cmp: Comparator<T>, s: seq<T>, value: T, i: nat)
    requires SignConsistent(cmp) && Sorted(cmp, s) && InsertionPoint(cmp, s, value, i)
    requires i == |s| || cmp(value, s[i]) != 0
    ensures forall k :: 0 <= k < |s| ==> cmp(value, s[k]) != 0
  {
  }

  /** There is exactly one answer. */
  lemma {:induction false} AnswerUnique<T>(cmp: Comparator<T>, s: seq<T>, value: T, q: int, r: int)
    requires Answers(cmp, s, value, q) && Answers(cmp, s, value, r)
    ensures q == r
  {
    var i, j := if q >= 0 then q else -q - 1, if r >= 0 then r else -r - 1;
    InsertionPointUnique(cmp, s, value, i, j);
  }

  lemma {:induction false} InsertionPointUnique<T>(cmp: Comparator<T>, s: seq<T>, value: T, i: int, j: int)
    requires InsertionPoint(cmp, s, value, i) && InsertionPoint(cmp, s, value, j)
    ensures i == j
  {
    assert i < |s| ==> cmp(s[i], value) >= 0;
    assert j < |s| ==> cmp(s[j], value) >= 0;
  }

  /** A found index is the leftmost one of an equal element. */
  lemma FoundLeftmost<T(!new)>(cmp: Comparator<T>, s: seq<T>, value: T, r: int)
    requires SignConsistent(cmp) && Answers(cmp, s, value, r) && r >= 0
    ensures cmp(value, s[r]) == 0 && forall k :: 0 <= k < r ==> cmp(value, s[k]) != 0
  {
  }

  /** Inserting at the point that a failed search returns keeps the array sorted. */
  lemma {:induction false} InsertKeepsSorted<T(!new)>(cmp: Comparator<T>, s: seq<T>, value: T, i: nat)
    requires SignConsistent(cmp) && Sorted(cmp, s) && InsertionPoint(cmp, s, value, i)
    ensures Sorted(cmp, s[..i] + [value] + s[i..])
  {
    var t := s[..i] + [value] + s[i..];
    forall x, y | 0 <= x < y < |t| ensures cmp(t[x], t[y]) <= 0 {
      if x == i {
        assert cmp(s[y - 1], value) >= 0;
      }
    }
  }
}
