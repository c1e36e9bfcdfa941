/** Brace expansion as recursion: what one pass over the token list must list, and in which order. */
module BraceSpec {
  import opened BraceRange
  import opened BraceTokens

  type Fragments = seq<Value>

  /** `prefix` put in front of every list. */
  function Prepend(prefix: Fragments, lists: seq<Fragments>): (r: seq<Fragments>)
    ensures |r| == |lists|
  {
    seq(|lists|, i requires 0 <= i < |lists| => prefix + lists[i])
  }

  /** Every value of a range in turn, each followed by every tail. */
  function SeqRun(vs: seq<int64>, r: Range, tails: seq<Fragments>): seq<Fragments> {
    if vs == [] then [] else Prepend([Number(vs[0], r)], tails) + SeqRun(vs[1..], r, tails)
  }

  /** Everything that can follow from position `i` on: an opening brace offers its alternatives in
      order, and the end of an alternative continues behind its brace. */
  ghost function Run(ts: seq<Token>, i: nat): seq<Fragments>
    requires i <= |ts|
    decreases |ts| - i
  {
    if i == |ts| then [[]] else
    match ts[i]
    case Plain(v) => Prepend([v], Run(ts, i + 1))
    case Open(b) => Run(ts, i + 1) + After(ts, FindMark(ts, i + 1, b))
    case Sep(b) => if FindClose(ts, i, b) < |ts| then Run(ts, FindClose(ts, i, b) + 1) else []
    case Close(_) => Run(ts, i + 1)
    case SeqOpen(_) =>
      if i + 3 <= |ts| && ts[i + 1].Bounds? && ts[i + 1].r.Valid()
      then SeqRun(Values(ts[i + 1].r), ts[i + 1].r, Run(ts, i + 3))
      else []
    case _ => []
  }

  /** The alternatives that follow the mark at `m`. */
  ghost function After(ts: seq<Token>, m: nat): seq<Fragments>
    requires m <= |ts|
    decreases |ts| - m
  {
    if m < |ts| && ts[m].Sep?
    then Run(ts, m + 1) + After(ts, FindMark(ts, m + 1, ts[m].id))
    else []
  }

  lemma PrependAppend(p: Fragments, xs: seq<Fragments>, ys: seq<Fragments>)
    ensures Prepend(p, xs + ys) == Prepend(p, xs) + Prepend(p, ys)
  {
  }

  lemma {:induction false} PrependPrepend(p: Fragments, q: Fragments, xs: seq<Fragments>)
    ensures Prepend(p, Prepend(q, xs)) == Prepend(p + q, xs)
  {
    var l, r := Prepend(p, Prepend(q, xs)), Prepend(p + q, xs);
    forall i | 0 <= i < |xs|
      ensures l[i] == r[i]
    {
      assert p + (q + xs[i]) == (p + q) + xs[i];
    }
  }

  lemma {:induction false} PrependEmpty(xs: seq<Fragments>)
    ensures Prepend([], xs) == xs
  {
    forall i | 0 <= i < |xs|
      ensures Prepend([], xs)[i] == xs[i]
    {
      assert [] + xs[i] == xs[i];
    }
  }
}
