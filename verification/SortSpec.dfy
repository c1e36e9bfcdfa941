/** What merge sort computes (src/core.cpp): a sorted and stable rearrangement. */
module SortSpec {

  type Comparator<!T> = (T, T) -> int

  /** Any two elements compare, and comparing is transitive. */
  ghost predicate TotalPreorder<T(!new)>(cmp: Comparator<T>) {
    && (forall x, y :: cmp(x, y) <= 0 || cmp(y, x) <= 0)
    && (forall x, y, z :: cmp(x, y) <= 0 && cmp(y, z) <= 0 ==> cmp(x, z) <= 0)
  }

  ghost predicate Sorted<T>(cmp: Comparator<T>, s: seq<T>) {
    forall i, j :: 0 <= i < j < |s| ==> cmp(s[i], s[j]) <= 0
  }

  predicate Equivalent<T>(cmp: Comparator<T>, x: T, y: T) {
    cmp(x, y) <= 0 && cmp(y, x) <= 0
  }

  /** The elements equivalent to `e`, in their order. */
  function Equivalents<T>(cmp: Comparator<T>, s: seq<T>, e: T): seq<T> {
    if s == [] then []
    else (if Equivalent(cmp, s[0], e) then [s[0]] else []) + Equivalents(cmp, s[1..], e)
  }

  /** Merges two runs; the left one goes first among equals. */
  function Merge<T>(cmp: Comparator<T>, xs: seq<T>, ys: seq<T>): seq<T> {
    if xs == [] then ys
    else if ys == [] then xs
    else if cmp(xs[0], ys[0]) <= 0 then [xs[0]] + Merge(cmp, xs[1..], ys)
    else [ys[0]] + Merge(cmp, xs, ys[1..])
  }

  function MergeSorted<T>(cmp: Comparator<T>, s: seq<T>): seq<T> {
    if |s| <= 1 then s
    else
      var m := |s| / 2;
      Merge(cmp, MergeSorted(cmp, s[..m]), MergeSorted(cmp, s[m..]))
  }

  // ---------------------------------------------------------------- the merge of two runs

  lemma {:induction false} MergeElements<T>(cmp: Comparator<T>, xs: seq<T>, ys: seq<T>)
    ensures multiset(Merge(cmp, xs, ys)) == multiset(xs) + multiset(ys)
    ensures |Merge(cmp, xs, ys)| == |xs| + |ys|
  {
    if xs != [] && ys != [] {
      if cmp(xs[0], ys[0]) <= 0 {
        MergeElements(cmp, xs[1..], ys);
        assert xs == [xs[0]] + xs[1..];
      } else {
        MergeElements(cmp, xs, ys[1..]);
        assert ys == [ys[0]] + ys[1..];
      }
    }
  }

  /** Below everything in the sequence. */
  ghost predicate Below<T>(cmp: Comparator<T>, x: T, s: seq<T>) {
    forall i :: 0 <= i < |s| ==> cmp(x, s[i]) <= 0
  }

  lemma ConsSorted<T>(cmp: Comparator<T>, x: T, s: seq<T>)
    requires Below(cmp, x, s) && Sorted(cmp, s)
    ensures Sorted(cmp, [x] + s)
  {
  }

  lemma HeadBelow<T(!new)>(cmp: Comparator<T>, x: T, s: seq<T>)
    requires TotalPreorder(cmp) && Sorted(cmp, s) && (s == [] || cmp(x, s[0]) <= 0)
    ensures Below(cmp, x, s)
  {
  }

  lemma TailSorted<T>(cmp: Comparator<T>, s: seq<T>)
    requires Sorted(cmp, s) && s != []
    ensures Sorted(cmp, s[1..]) && Below(cmp, s[0], s[1..])
  {
  }

  lemma {:induction false} MergeBelow<T>(cmp: Comparator<T>, x: T, xs: seq<T>, ys: seq<T>)
    requires Below(cmp, x, xs) && Below(cmp, x, ys)
    ensures Below(cmp, x, Merge(cmp, xs, ys))
  {
    if xs != [] && ys != [] {
      if cmp(xs[0], ys[0]) <= 0 {
        MergeBelow(cmp, x, xs[1..], ys);
      } else {
        MergeBelow(cmp, x, xs, ys[1..]);
      }
    }
  }

  lemma {:induction false} MergeIsSorted<T(!new)>(cmp: Comparator<T>, xs: seq<T>, ys: seq<T>)
    requires TotalPreorder(cmp) && Sorted(cmp, xs) && Sorted(cmp, ys)
    ensures Sorted(cmp, Merge(cmp, xs, ys))
  {
    hide Sorted, Below;
    if xs != [] && ys != [] {
      TailSorted(cmp, xs);
      TailSorted(cmp, ys);
      if cmp(xs[0], ys[0]) <= 0 {
        MergeIsSorted(cmp, xs[1..], ys);
        HeadBelow(cmp, xs[0], ys);
        MergeBelow(cmp, xs[0], xs[1..], ys);
        ConsSorted(cmp, xs[0], Merge(cmp, xs[1..], ys));
      } else {
        MergeIsSorted(cmp, xs, ys[1..]);
        HeadBelow(cmp, ys[0], xs);
        MergeBelow(cmp, ys[0], xs, ys[1..]);
        ConsSorted(cmp, ys[0], Merge(cmp, xs, ys[1..]));
      }
    }
  }

  // ---------------------------------------------------------------- stability

  lemma EquivalentsCons<T>(cmp: Comparator<T>, x: T, s: seq<T>, e: T)
    ensures Equivalents(cmp, [x] + s, e) == (if Equivalent(cmp, x, e) then [x] else []) + Equivalents(cmp, s, e)
  {
  }

  lemma {:induction false} EquivalentsConcat<T>(cmp: Comparator<T>, a: seq<T>, b: seq<T>, e: T)
    ensures Equivalents(cmp, a + b, e) == Equivalents(cmp, a, e) + Equivalents(cmp, b, e)
  {
    hide Equivalents;
    EquivalentsNone(cmp, e);
    if a == [] {
      assert a + b == b;
    } else {
      var x, rest := a[0], a[1..];
      assert a == [x] + rest && a + b == [x] + (rest + b);
      EquivalentsCons(cmp, x, rest, e);
      EquivalentsCons(cmp, x, rest + b, e);
      EquivalentsConcat(cmp, rest, b, e);
    }
  }

  /** Nothing in a run is equivalent to an element that is strictly below all of it. */
  lemma {:induction false} NoneEquivalent<T(!new)>(cmp: Comparator<T>, s: seq<T>, e: T)
    requires TotalPreorder(cmp) && Sorted(cmp, s) && (s == [] || cmp(s[0], e) > 0)
    ensures Equivalents(cmp, s, e) == []
  {
    if s == [] {
    } else {
      TailSorted(cmp, s);
      if |s| > 1 {
        assert cmp(s[0], s[1]) <= 0;
      }
      NoneEquivalent(cmp, s[1..], e);
    }
  }

  lemma {:induction false} MergeIsStable<T(!new)>(cmp: Comparator<T>, xs: seq<T>, ys: seq<T>, e: T)
    requires TotalPreorder(cmp) && Sorted(cmp, xs)
    ensures Equivalents(cmp, Merge(cmp, xs, ys), e) == Equivalents(cmp, xs, e) + Equivalents(cmp, ys, e)
  {
    hide Sorted, Equivalents;
    EquivalentsNone(cmp, e);
    if xs != [] && ys != [] {
      TailSorted(cmp, xs);
      assert xs == [xs[0]] + xs[1..] && ys == [ys[0]] + ys[1..];
      EquivalentsCons(cmp, xs[0], xs[1..], e);
      EquivalentsCons(cmp, ys[0], ys[1..], e);
      if cmp(xs[0], ys[0]) <= 0 {
        MergeIsStable(cmp, xs[1..], ys, e);
        EquivalentsCons(cmp, xs[0], Merge(cmp, xs[1..], ys), e);
      } else {
        MergeIsStable(cmp, xs, ys[1..], e);
        EquivalentsCons(cmp, ys[0], Merge(cmp, xs, ys[1..]), e);
        if Equivalent(cmp, ys[0], e) {
          NoneEquivalent(cmp, xs, e);
        }
      }
    }
  }

  lemma EquivalentsNone<T>(cmp: Comparator<T>, e: T)
    ensures Equivalents(cmp, [], e) == []
  {
  }

  // ---------------------------------------------------------------- the whole sort

  /** Merge sort yields a sorted permutation. */
  lemma {:induction false} MergeSortedIs<T(!new)>(cmp: Comparator<T>, s: seq<T>)
    requires TotalPreorder(cmp)
    ensures Sorted(cmp, MergeSorted(cmp, s))
    ensures multiset(MergeSorted(cmp, s)) == multiset(s)
  {
    hide Sorted, Merge;
    if |s| <= 1 {
      OneSorted(cmp, s);
    } else {
      var m := |s| / 2;
      var a, b := s[..m], s[m..];
      assert s == a + b;
      MergeSortedIs(cmp, a);
      MergeSortedIs(cmp, b);
      MergeIsSorted(cmp, MergeSorted(cmp, a), MergeSorted(cmp, b));
      MergeElements(cmp, MergeSorted(cmp, a), MergeSorted(cmp, b));
    }
  }

  lemma OneSorted<T>(cmp: Comparator<T>, s: seq<T>)
    requires |s| <= 1
    ensures Sorted(cmp, s)
  {
  }

  /** It keeps the elements equivalent to any `e` in their order. */
  lemma {:induction false} MergeSortedStable<T(!new)>(cmp: Comparator<T>, s: seq<T>, e: T)
    requires TotalPreorder(cmp)
    ensures Equivalents(cmp, MergeSorted(cmp, s), e) == Equivalents(cmp, s, e)
  {
    hide Sorted, Equivalents, Merge;
    if |s| > 1 {
      var m := |s| / 2;
      var a, b := s[..m], s[m..];
      assert s == a + b;
      MergeSortedStable(cmp, a, e);
      MergeSortedStable(cmp, b, e);
      MergeSortedIs(cmp, a);
      MergeIsStable(cmp, MergeSorted(cmp, a), MergeSorted(cmp, b), e);
      EquivalentsConcat(cmp, a, b, e);
    }
  }

  lemma EquivalentsHead<T(!new)>(cmp: Comparator<T>, s: seq<T>, e: T)
    requires TotalPreorder(cmp) && s != [] && Equivalent(cmp, s[0], e)
    ensures Equivalents(cmp, s, e) == [s[0]] + Equivalents(cmp, s[1..], e)
  {
  }

  /** Sorted and stable leaves only one possibility. */
  lemma {:induction false} SortedStableUnique<T(!new)>(cmp: Comparator<T>, s: seq<T>, t: seq<T>)
    requires TotalPreorder(cmp) && Sorted(cmp, s) && Sorted(cmp, t) && |s| == |t|
    requires forall e :: Equivalents(cmp, s, e) == Equivalents(cmp, t, e)
    ensures s == t
  {
    hide Sorted, Equivalents;
    if s == [] {
    } else {
      SameHead(cmp, s, t);
      TailSorted(cmp, s);
      TailSorted(cmp, t);
      assert s == [s[0]] + s[1..] && t == [t[0]] + t[1..];
      forall e ensures Equivalents(cmp, s[1..], e) == Equivalents(cmp, t[1..], e) {
        EquivalentsCons(cmp, s[0], s[1..], e);
        EquivalentsCons(cmp, t[0], t[1..], e);
        SameTail(if Equivalent(cmp, s[0], e) then [s[0]] else [], Equivalents(cmp, s[1..], e), Equivalents(cmp, t[1..], e));
      }
      SortedStableUnique(cmp, s[1..], t[1..]);
    }
  }

  lemma {:induction false} SameTail<T>(h: seq<T>, a: seq<T>, b: seq<T>)
    requires h + a == h + b
    ensures a == b
  {
    assert (h + a)[|h|..] == a && (h + b)[|h|..] == b;
  }

  lemma {:induction false} SameHead<T(!new)>(cmp: Comparator<T>, s: seq<T>, t: seq<T>)
    requires TotalPreorder(cmp) && Sorted(cmp, s) && Sorted(cmp, t) && s != [] && t != []
    requires forall e :: Equivalents(cmp, s, e) == Equivalents(cmp, t, e)
    ensures s[0] == t[0]
  {
    hide Sorted, Equivalents;
    assert Equivalent(cmp, s[0], s[0]) && Equivalent(cmp, t[0], t[0]);
    EquivalentsHead(cmp, s, s[0]);
    EquivalentsHead(cmp, t, t[0]);
    if cmp(t[0], s[0]) > 0 {
      NoneEquivalent(cmp, t, s[0]);
    } else if cmp(s[0], t[0]) > 0 {
      NoneEquivalent(cmp, s, t[0]);
    } else {
      EquivalentsHead(cmp, t, s[0]);
      assert Equivalents(cmp, s, s[0])[0] == s[0] && Equivalents(cmp, t, s[0])[0] == t[0];
    }
  }
}
