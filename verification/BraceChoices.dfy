/** What the choice points of brace expansion stand for, and what each step of the machine does to the
    lists it has still to produce. */
module BraceChoices {
  import opened Wrappers
  import opened BraceRange
  import opened BraceTokens
  import opened BraceSpec

  /** What one choice point stands for: the brace it belongs to, how much of the buffer it keeps, and
      what it has still to offer (the alternatives behind `mark`, or the values after `cur`). */
  datatype Choice =
    | Alt(id: nat, open: nat, used: nat, close: nat, mark: nat)
    | Seq(id: nat, open: nat, used: nat, close: nat, cur: int64)
  {
    function R(ts: seq<Token>): Range
      requires open + 1 < |ts| && ts[open + 1].Bounds?
    {
      ts[open + 1].r
    }
  }

  ghost predicate IsChoice(ts: seq<Token>, c: Choice) {
    && c.used <= c.open < c.close < |ts|
    && match c
       case Alt(b, o, _, cl, m) => ts[o] == Open(b) && cl == FindClose(ts, o + 1, b) && o < m <= cl && IsMark(ts[m], b)
       case Seq(b, o, _, cl, cur) => ts[o] == SeqOpen(b) && cl == o + 2 && ts[o + 1].Bounds? && ts[cl] == SeqClose(b)
                                     && ts[o + 1].r.Valid() && Within(cur, ts[o + 1].r)
  }

  predicate HasAlt(cs: seq<Choice>, x: nat) {
    exists j :: 0 <= j < |cs| && cs[j].Alt? && cs[j].id == x
  }

  predicate Covered(cs: seq<Choice>, ids: seq<nat>) {
    forall x :: x in ids ==> HasAlt(cs, x)
  }

  /** Choice `c` was made before `d`; when `d` lies inside its brace, it lies in its current alternative. */
  predicate Before(ts: seq<Token>, c: Choice, d: Choice) {
    && c.open < d.open <= |ts| && c.used <= d.used
    && (c.Alt? && d.open <= c.close ==> c.mark == FindMark(ts, d.open, c.id))
  }

  ghost predicate Placed(ts: seq<Token>, cs: seq<Choice>, k: nat)
    requires k < |cs|
  {
    && IsChoice(ts, cs[k])
    && Covered(cs[..k], Enclosing(ts, cs[k].open))
    && forall j :: 0 <= j < k ==> Before(ts, cs[j], cs[k])
  }

  /** The choice points, oldest first. */
  ghost predicate Choices(ts: seq<Token>, cs: seq<Choice>) {
    forall k :: 0 <= k < |cs| ==> Placed(ts, cs, k)
  }

  /** Position `i` comes after the choice and, inside its brace, the current alternative ends at the
      next mark. */
  predicate Agrees(ts: seq<Token>, i: nat, c: Choice)
    requires i <= |ts|
  {
    && c.open < i
    && (c.Seq? ==> c.close <= i)
    && (c.Alt? && i <= c.close ==> c.mark == FindMark(ts, i, c.id))
  }

  predicate AllAgree(ts: seq<Token>, i: nat, cs: seq<Choice>)
    requires i <= |ts|
  {
    forall k :: 0 <= k < |cs| ==> Agrees(ts, i, cs[k])
  }

  /** A sequence is only entered through its own choice. */
  predicate Entered(ts: seq<Token>, i: nat, cs: seq<Choice>) {
    i < |ts| ==>
      && !ts[i].Bounds?
      && (ts[i].SeqClose? ==> cs != [] && cs[|cs| - 1].Seq? && cs[|cs| - 1].close == i)
  }

  /** The position agrees with the choices made so far. */
  predicate At(ts: seq<Token>, i: nat, cs: seq<Choice>) {
    i <= |ts| && Covered(cs, Enclosing(ts, i)) && AllAgree(ts, i, cs) && Entered(ts, i, cs)
  }

  /** The counter stack: one counter per sequence choice. */
  function Counters(cs: seq<Choice>): seq<int64> {
    if cs == [] then []
    else
      var c := cs[|cs| - 1];
      Counters(cs[..|cs| - 1]) + if c.Seq? then [c.cur] else []
  }

  /** What the current path goes on to produce. */
  ghost function Pending(ts: seq<Token>, i: nat, cs: seq<Choice>): seq<Fragments> {
    if |ts| < i then []
    else if i < |ts| && ts[i].SeqClose? && cs != [] && cs[|cs| - 1].Seq? && IsChoice(ts, cs[|cs| - 1]) then
      var c := cs[|cs| - 1];
      Prepend([Number(c.cur, c.R(ts))], Run(ts, i + 1))
    else Run(ts, i)
  }

  /** What a choice point has not offered yet. */
  ghost function Untried(ts: seq<Token>, c: Choice): seq<Fragments> {
    if !IsChoice(ts, c) then []
    else if c.Alt? then After(ts, c.mark)
    else
      SeqRun(Enumerate(c.cur, c.R(ts))[1..], c.R(ts), Run(ts, c.close + 1))
  }

  function Take(vals: seq<Value>, n: nat): seq<Value> {
    if n <= |vals| then vals[..n] else vals
  }

  /** What the choice points still have to produce, newest first. */
  ghost function Backlog(ts: seq<Token>, cs: seq<Choice>, vals: seq<Value>): seq<Fragments> {
    if cs == [] then []
    else
      var c := cs[|cs| - 1];
      Prepend(Take(vals, c.used), Untried(ts, c)) + Backlog(ts, cs[..|cs| - 1], vals)
  }

  // ---------------------------------------------------------------- one step forward

  lemma CoveredSub(cs: seq<Choice>, cs': seq<Choice>, ids: seq<nat>)
    requires Covered(cs, ids) && |cs| <= |cs'|
    requires forall k :: 0 <= k < |cs| && cs[k].Alt? ==> cs'[k].Alt? && cs'[k].id == cs[k].id
    ensures Covered(cs', ids)
  {
  }

  /** Without a mark in between, a choice goes on agreeing. */
  lemma {:induction false} AgreesSkip(ts: seq<Token>, i: nat, j: nat, cs: seq<Choice>)
    requires i <= j <= |ts| && AllAgree(ts, i, cs)
    requires forall p :: i <= p < j ==> !ts[p].Sep? && !ts[p].Close?
    ensures AllAgree(ts, j, cs)
  {
    forall k | 0 <= k < |cs|
      ensures Agrees(ts, j, cs[k])
    {
      assert Agrees(ts, i, cs[k]);
      if cs[k].Alt? {
        FindMarkSkips(ts, i, j, cs[k].id);
      }
    }
  }

  /** Stepping over a token that is no mark changes nothing for the choices. */
  lemma {:induction false} StepOver(ts: seq<Token>, i: nat, cs: seq<Choice>)
    requires WellNested(ts) && At(ts, i, cs) && i < |ts| && (ts[i].Plain? || ts[i].SeqClose?)
    ensures At(ts, i + 1, cs)
  {
    if i + 1 < |ts| {
      assert NestedAt(ts, i + 1);
    }
    AgreesSkip(ts, i, i + 1, cs);
  }

  lemma {:induction false} NotInSequence(ts: seq<Token>, i: nat)
    requires WellNested(ts) && 0 < i && (i < |ts| ==> !ts[i - 1].Bounds?)
    ensures i < |ts| ==> !ts[i].SeqClose?
  {
    if i < |ts| {
      assert NestedAt(ts, i);
    }
  }

  function OpenChoice(ts: seq<Token>, i: nat, used: nat): Choice
    requires i < |ts| && ts[i].Open?
  {
    Alt(ts[i].id, i, used, FindClose(ts, i + 1, ts[i].id), FindMark(ts, i + 1, ts[i].id))
  }

  lemma {:induction false} OpenIsChoice(ts: seq<Token>, i: nat, used: nat)
    requires WellNested(ts) && i < |ts| && ts[i].Open? && used <= i
    ensures IsChoice(ts, OpenChoice(ts, i, used))
  {
    CloserExists(ts, i);
    MarkIsFirst(ts, i + 1, ts[i].id, FindClose(ts, i + 1, ts[i].id));
  }

  lemma {:induction false} PushChoice(ts: seq<Token>, i: nat, cs: seq<Choice>, c: Choice)
    requires Choices(ts, cs) && At(ts, i, cs) && IsChoice(ts, c) && c.open == i
    requires forall k :: 0 <= k < |cs| ==> cs[k].used <= c.used
    ensures Choices(ts, cs + [c])
  {
    var cs' := cs + [c];
    forall k | 0 <= k < |cs'|
      ensures Placed(ts, cs', k)
    {
      if k < |cs| {
        assert Placed(ts, cs, k);
        assert cs'[..k] == cs[..k];
      } else {
        assert cs'[..k] == cs;
        assert forall j :: 0 <= j < k ==> Agrees(ts, i, cs[j]);
      }
    }
  }

  /** Opening a brace pushes a choice point whose first alternative is the path taken. */
  lemma {:induction false} StepOpen(ts: seq<Token>, i: nat, cs: seq<Choice>, used: nat)
    requires WellNested(ts) && Choices(ts, cs) && At(ts, i, cs) && i < |ts| && ts[i].Open?
    requires used <= i && forall k :: 0 <= k < |cs| ==> cs[k].used <= used
    ensures var c := OpenChoice(ts, i, used);
      IsChoice(ts, c) && Choices(ts, cs + [c]) && At(ts, i + 1, cs + [c])
  {
    var c := OpenChoice(ts, i, used);
    var cs' := cs + [c];
    OpenIsChoice(ts, i, used);
    PushChoice(ts, i, cs, c);
    AgreesSkip(ts, i, i + 1, cs);
    assert Covered(cs', Enclosing(ts, i + 1)) by {
      CoveredSub(cs, cs', Enclosing(ts, i));
      assert cs'[|cs|] == c;
      assert HasAlt(cs', c.id);
      assert Enclosing(ts, i + 1) == Enclosing(ts, i) + [c.id];
    }
    assert Entered(ts, i + 1, cs') by {
      assert NestedAt(ts, i + 1);
    }
  }

  lemma OpenRuns(ts: seq<Token>, i: nat, used: nat)
    requires i < |ts| && ts[i].Open? && IsChoice(ts, OpenChoice(ts, i, used))
    ensures Run(ts, i) == Run(ts, i + 1) + Untried(ts, OpenChoice(ts, i, used))
  {
  }

  function SeqOpenChoice(ts: seq<Token>, i: nat, used: nat): Choice
    requires i + 2 < |ts| && ts[i].SeqOpen? && ts[i + 1].Bounds?
  {
    Seq(ts[i].id, i, used, i + 2, ts[i + 1].r.begin)
  }

  lemma {:induction false} SeqOpenIsChoice(ts: seq<Token>, i: nat, used: nat)
    requires WellNested(ts) && i < |ts| && ts[i].SeqOpen? && used <= i
    ensures i + 2 < |ts| && ts[i + 1].Bounds? && ts[i + 2] == SeqClose(ts[i].id)
    ensures IsChoice(ts, SeqOpenChoice(ts, i, used))
  {
    assert NestedAt(ts, i) && NestedAt(ts, i + 1);
  }

  /** A sequence brace pushes a choice point that starts at the first value. */
  lemma {:induction false} StepSeqOpen(ts: seq<Token>, i: nat, cs: seq<Choice>, used: nat)
    requires WellNested(ts) && Choices(ts, cs) && At(ts, i, cs) && i < |ts| && ts[i].SeqOpen?
    requires used <= i && forall k :: 0 <= k < |cs| ==> cs[k].used <= used
    ensures i + 2 < |ts| && ts[i + 1].Bounds?
    ensures var c := SeqOpenChoice(ts, i, used);
      IsChoice(ts, c) && Choices(ts, cs + [c]) && At(ts, i + 2, cs + [c])
  {
    SeqOpenIsChoice(ts, i, used);
    var c := SeqOpenChoice(ts, i, used);
    PushChoice(ts, i, cs, c);
    AgreesSkip(ts, i, i + 2, cs);
    SeqAt(ts, cs, c);
  }

  lemma {:induction false} SeqAt(ts: seq<Token>, older: seq<Choice>, c: Choice)
    requires IsChoice(ts, c) && c.Seq?
    requires Covered(older, Enclosing(ts, c.open)) && AllAgree(ts, c.close, older)
    ensures At(ts, c.close, older + [c])
  {
    var cs' := older + [c];
    assert Covered(cs', Enclosing(ts, c.close)) by {
      assert Enclosing(ts, c.open + 1) == Enclosing(ts, c.open) == Enclosing(ts, c.close);
      CoveredSub(older, cs', Enclosing(ts, c.open));
    }
  }

  lemma SeqOpenRuns(ts: seq<Token>, i: nat, used: nat)
    requires i + 2 < |ts| && ts[i].SeqOpen? && ts[i + 1].Bounds?
    requires IsChoice(ts, SeqOpenChoice(ts, i, used))
    ensures var c := SeqOpenChoice(ts, i, used);
      Run(ts, i) == Prepend([Number(c.cur, c.R(ts))], Run(ts, i + 3)) + Untried(ts, c)
  {
  }

  /** At a separator or closer the brace's own choice point is there, and its current alternative ends
      here. */
  lemma {:induction false} MarkChoice(ts: seq<Token>, i: nat, cs: seq<Choice>) returns (k: nat)
    requires WellNested(ts) && Choices(ts, cs) && At(ts, i, cs) && i < |ts| && (ts[i].Sep? || ts[i].Close?)
    ensures k < |cs| && cs[k].Alt? && cs[k].id == ts[i].id && cs[k].mark == i && cs[k].open < i <= cs[k].close < |ts|
  {
    assert NestedAt(ts, i);
    assert HasAlt(cs, ts[i].id);
    k :| 0 <= k < |cs| && cs[k].Alt? && cs[k].id == ts[i].id;
    assert Placed(ts, cs, k) && Agrees(ts, i, cs[k]);
    MarkInside(ts, cs[k].open, i);
  }

  /** Jumping behind the brace agrees with every other choice. */
  lemma {:induction false} StepMark(ts: seq<Token>, i: nat, cs: seq<Choice>, k: nat)
    requires WellNested(ts) && Choices(ts, cs) && At(ts, i, cs) && i < |ts|
    requires k < |cs| && cs[k].Alt? && IsMark(ts[i], cs[k].id) && cs[k].open < i <= cs[k].close < |ts|
    ensures forall j :: 0 <= j < |cs| && j != k && cs[j].close <= cs[k].close ==> cs[j].close < i
    ensures At(ts, cs[k].close + 1, cs)
  {
    assert Placed(ts, cs, k);
    var c := cs[k];
    forall j | 0 <= j < |cs|
      ensures Agrees(ts, c.close + 1, cs[j]) && (j != k && cs[j].close <= c.close ==> cs[j].close < i)
    {
      assert Placed(ts, cs, j) && Agrees(ts, i, cs[j]);
      assert j < k ==> Before(ts, cs[j], cs[k]);
      assert k < j ==> Before(ts, cs[k], cs[j]);
      if j != k && i <= cs[j].close {
        OtherStays(ts, i, c, cs[j]);
      }
    }
    assert Covered(cs, Enclosing(ts, c.close + 1)) by {
      OwnMark(ts, c.open, i);
      CloserExists(ts, c.open);
    }
    assert Entered(ts, c.close + 1, cs) by {
      if c.close + 1 < |ts| {
        assert NestedAt(ts, c.close + 1);
      }
    }
  }

  lemma {:induction false} MarkRuns(ts: seq<Token>, i: nat, c: Choice)
    requires i < |ts| && IsChoice(ts, c) && c.Alt? && IsMark(ts[i], c.id) && c.open < i <= c.close
    ensures Run(ts, i) == Run(ts, c.close + 1)
  {
    forall p | c.open + 1 <= p < i
      ensures ts[p] != Close(c.id)
    {
      if ts[p] == Close(c.id) {
        CloseIsFirst(ts, c.open + 1, c.id, p);
      }
    }
    FindCloseSkips(ts, c.open + 1, i, c.id);
  }

  /** A mark of a brace that has been opened lies inside that brace. */
  lemma {:induction false} MarkInside(ts: seq<Token>, o: nat, i: nat)
    requires WellNested(ts) && o < i < |ts| && ts[o].Open? && IsMark(ts[i], ts[o].id)
    ensures i <= FindClose(ts, o + 1, ts[o].id)
  {
    var c := FindClose(ts, o + 1, ts[o].id);
    CloserExists(ts, o);
    assert NestedAt(ts, o);
    EnclosingIds(ts, o);
    assert NestedAt(ts, i);
    if c < i {
      OpensMonotone(ts, o, c + 1);
      GoneAfter(ts, c + 1, i, ts[o].id);
    }
  }

  /** A closed brace does not come back. */
  lemma {:induction false} GoneAfter(ts: seq<Token>, p: nat, q: nat, b: nat)
    requires WellNested(ts) && p <= q <= |ts| && b < Opens(ts, p) && b !in Enclosing(ts, p)
    ensures b !in Enclosing(ts, q)
    decreases q
  {
    if p == q {
    } else {
      GoneAfter(ts, p, q - 1, b);
      OpensMonotone(ts, p, q - 1);
      assert NestedAt(ts, q - 1);
    }
  }

  /** Another choice whose brace is still open at a mark encloses the marked brace. */
  lemma {:induction false} OtherStays(ts: seq<Token>, i: nat, c: Choice, d: Choice)
    requires WellNested(ts) && i < |ts| && IsChoice(ts, c) && IsChoice(ts, d)
    requires c.Alt? && IsMark(ts[i], c.id) && c.open < i <= c.close
    requires Agrees(ts, i, d) && i <= d.close && d.open != c.open
    ensures d.Alt? && c.close < d.close && d.mark == FindMark(ts, c.close + 1, d.id)
  {
    hide FindClose, FindMark, Enclosing, WellNested;
    assert d.Alt?;
    OpenedOutside(ts, c.open, i, d.open);
    Laminar(ts, d.open, c.open);
    SkipInside(ts, c.open, i, d.id);
  }

  lemma {:induction false} OpenedOutside(ts: seq<Token>, o: nat, i: nat, o': nat)
    requires WellNested(ts) && o < i < |ts| && ts[o].Open? && o' < |ts| && ts[o'].Open?
    requires i <= FindClose(ts, o + 1, ts[o].id) && IsMark(ts[i], ts[o].id)
    requires o' < i <= FindClose(ts, o' + 1, ts[o'].id) && o' != o
    ensures o' < o
  {
    if o < o' {
      Laminar(ts, o, o');
      NoOuterMark(ts, o', i, ts[o].id);
    }
  }

  lemma {:induction false} SkipInside(ts: seq<Token>, o: nat, i: nat, x: nat)
    requires WellNested(ts) && o < |ts| && ts[o].Open? && x in Enclosing(ts, o)
    requires o <= i <= FindClose(ts, o + 1, ts[o].id) < |ts|
    ensures FindMark(ts, i, x) == FindMark(ts, FindClose(ts, o + 1, ts[o].id) + 1, x)
  {
    var cl := FindClose(ts, o + 1, ts[o].id);
    forall p | i <= p < cl + 1
      ensures !IsMark(ts[p], x)
    {
      NoOuterMark(ts, o, p, x);
    }
    FindMarkSkips(ts, i, cl + 1, x);
  }

  // ---------------------------------------------------------------- backtracking

  lemma {:induction false} PopChoice(ts: seq<Token>, cs: seq<Choice>)
    requires Choices(ts, cs) && cs != []
    ensures Choices(ts, cs[..|cs| - 1])
  {
    var cs' := cs[..|cs| - 1];
    forall k | 0 <= k < |cs'|
      ensures Placed(ts, cs', k)
    {
      assert Placed(ts, cs, k);
      assert cs'[..k] == cs[..k];
    }
  }

  /** Replacing what the newest choice still has to offer keeps the choices in order. */
  lemma {:induction false} ReplaceNewest(ts: seq<Token>, cs: seq<Choice>, c: Choice)
    requires Choices(ts, cs) && cs != [] && IsChoice(ts, c)
    requires var d := cs[|cs| - 1]; c.open == d.open && c.used == d.used
    ensures Choices(ts, cs[..|cs| - 1] + [c])
  {
    var n := |cs| - 1;
    var cs' := cs[..n] + [c];
    forall k | 0 <= k < |cs'|
      ensures Placed(ts, cs', k)
    {
      assert Placed(ts, cs, k);
      assert cs'[..k] == cs[..k];
      assert forall j :: 0 <= j < k ==> cs'[j] == cs[j] && Before(ts, cs[j], cs[k]);
    }
  }

  /** Going back into the newest brace agrees with the older choices. */
  lemma {:induction false} OlderAgree(ts: seq<Token>, cs: seq<Choice>, i: nat)
    requires WellNested(ts) && Choices(ts, cs) && cs != []
    requires cs[|cs| - 1].open < i <= cs[|cs| - 1].close <= |ts|
    ensures AllAgree(ts, i, cs[..|cs| - 1])
  {
    var n := |cs| - 1;
    forall j | 0 <= j < n
      ensures Agrees(ts, i, cs[j])
    {
      assert Placed(ts, cs, j) && Placed(ts, cs, n);
      assert Before(ts, cs[j], cs[n]);
      OlderAgrees(ts, cs[j], cs[n], i);
    }
  }

  lemma {:induction false} OlderAgrees(ts: seq<Token>, c: Choice, d: Choice, i: nat)
    requires WellNested(ts) && IsChoice(ts, c) && IsChoice(ts, d) && Before(ts, c, d) && d.open < i <= d.close
    ensures Agrees(ts, i, c)
  {
    if c.Alt? && i <= c.close {
      Laminar(ts, c.open, d.open);
      forall p | d.open <= p < i
        ensures !IsMark(ts[p], c.id)
      {
        if d.Alt? {
          NoOuterMark(ts, d.open, p, c.id);
        }
      }
      FindMarkSkips(ts, d.open, i, c.id);
    }
  }

  function NextAlt(ts: seq<Token>, c: Choice): Choice
    requires IsChoice(ts, c) && c.Alt?
  {
    c.(mark := FindMark(ts, c.mark + 1, c.id))
  }

  lemma {:induction false} NextAltIsChoice(ts: seq<Token>, c: Choice)
    requires IsChoice(ts, c) && c.Alt? && ts[c.mark].Sep?
    ensures IsChoice(ts, NextAlt(ts, c))
  {
    MarkIsFirst(ts, c.mark + 1, c.id, c.close);
  }

  /** Going back to a separator makes the alternative behind it the current one. */
  lemma {:induction false} ResumeAlt(ts: seq<Token>, cs: seq<Choice>)
    requires WellNested(ts) && Choices(ts, cs) && cs != []
    requires var c := cs[|cs| - 1]; IsChoice(ts, c) && c.Alt? && ts[c.mark].Sep?
    ensures var c := cs[|cs| - 1];
      var cs' := cs[..|cs| - 1] + [NextAlt(ts, c)];
      IsChoice(ts, NextAlt(ts, c)) && Choices(ts, cs') && At(ts, c.mark + 1, cs')
  {
    var n := |cs| - 1;
    var c := cs[n];
    assert Placed(ts, cs, n);
    NextAltIsChoice(ts, c);
    ReplaceNewest(ts, cs, NextAlt(ts, c));
    OlderAgree(ts, cs, c.mark + 1);
    ResumedAt(ts, cs[..n], c);
  }

  lemma {:induction false} ResumedAt(ts: seq<Token>, older: seq<Choice>, c: Choice)
    requires WellNested(ts) && IsChoice(ts, c) && c.Alt? && ts[c.mark].Sep?
    requires Covered(older, Enclosing(ts, c.open)) && AllAgree(ts, c.mark + 1, older)
    ensures At(ts, c.mark + 1, older + [NextAlt(ts, c)])
  {
    var i, c' := c.mark + 1, NextAlt(ts, c);
    var cs' := older + [c'];
    assert Entered(ts, i, cs') by { assert NestedAt(ts, i); }
    assert Covered(cs', Enclosing(ts, i)) by {
      OwnMark(ts, c.open, c.mark);
      CoveredSub(older, cs', Enclosing(ts, c.open));
      assert cs'[|older|] == c';
      assert HasAlt(cs', c.id);
    }
  }

  lemma ResumeAltRuns(ts: seq<Token>, c: Choice)
    requires IsChoice(ts, c) && c.Alt? && ts[c.mark].Sep? && IsChoice(ts, NextAlt(ts, c))
    ensures Untried(ts, c) == Run(ts, c.mark + 1) + Untried(ts, NextAlt(ts, c))
  {
  }

  function NextValue(ts: seq<Token>, c: Choice): Choice
    requires IsChoice(ts, c) && c.Seq? && Next(c.cur, c.R(ts)).Some?
  {
    c.(cur := Next(c.cur, c.R(ts)).value)
  }

  lemma ResumeSeqRuns(ts: seq<Token>, c: Choice)
    requires IsChoice(ts, c) && c.Seq? && Next(c.cur, c.R(ts)).Some?
    ensures var c' := NextValue(ts, c);
      && IsChoice(ts, c')
      && Untried(ts, c) == Prepend([Number(c'.cur, c.R(ts))], Run(ts, c.close + 1)) + Untried(ts, c')
  {
  }

  lemma SeqExhausted(ts: seq<Token>, c: Choice)
    requires IsChoice(ts, c) && c.Seq? && Next(c.cur, c.R(ts)).None?
    ensures Untried(ts, c) == []
  {
  }

  /** Advancing the counter makes the next value the current one. */
  lemma {:induction false} ResumeSeq(ts: seq<Token>, cs: seq<Choice>)
    requires WellNested(ts) && Choices(ts, cs) && cs != []
    requires var c := cs[|cs| - 1]; IsChoice(ts, c) && c.Seq? && Next(c.cur, c.R(ts)).Some?
    ensures var c := cs[|cs| - 1];
      var cs' := cs[..|cs| - 1] + [NextValue(ts, c)];
      IsChoice(ts, NextValue(ts, c)) && Choices(ts, cs') && At(ts, c.close, cs')
  {
    var n := |cs| - 1;
    var c := cs[n];
    assert Placed(ts, cs, n);
    ResumeSeqRuns(ts, c);
    ReplaceNewest(ts, cs, NextValue(ts, c));
    OlderAgree(ts, cs, c.close);
    SeqAt(ts, cs[..n], NextValue(ts, c));
  }

  // ---------------------------------------------------------------- the lists still to produce

  predicate UsedUpTo(cs: seq<Choice>, used: nat) {
    forall k :: 0 <= k < |cs| ==> cs[k].used <= used
  }

  /** The lists still to produce: those of the current path, then those of the choices. */
  ghost function Todo(ts: seq<Token>, pending: seq<Fragments>, used: nat, cs: seq<Choice>, vals: seq<Value>): seq<Fragments> {
    Prepend(Take(vals, used), pending) + Backlog(ts, cs, vals)
  }

  lemma {:induction false} BacklogFrame(ts: seq<Token>, cs: seq<Choice>, v1: seq<Value>, v2: seq<Value>, u: nat)
    requires u <= |v1| && u <= |v2| && v1[..u] == v2[..u] && UsedUpTo(cs, u)
    ensures Backlog(ts, cs, v1) == Backlog(ts, cs, v2)
  {
    if cs == [] {
    } else {
      BacklogFrame(ts, cs[..|cs| - 1], v1, v2, u);
      var n := cs[|cs| - 1].used;
      assert Take(v1, n) == v1[..u][..n] == Take(v2, n);
    }
  }

  lemma BacklogPush(ts: seq<Token>, cs: seq<Choice>, c: Choice, vals: seq<Value>)
    ensures Backlog(ts, cs + [c], vals) == Prepend(Take(vals, c.used), Untried(ts, c)) + Backlog(ts, cs, vals)
  {
  }

  lemma PrependSplit(prefix: Fragments, first: seq<Fragments>, rest: seq<Fragments>, tail: seq<Fragments>)
    ensures Prepend(prefix, first) + (Prepend(prefix, rest) + tail) == Prepend(prefix, first + rest) + tail
  {
  }

  /** A choice point splits what its brace produces into the path taken and the rest. */
  lemma {:induction false} TodoPush(ts: seq<Token>, pending: seq<Fragments>, cs: seq<Choice>, c: Choice, vals: seq<Value>)
    ensures Todo(ts, pending, c.used, cs + [c], vals) == Todo(ts, pending + Untried(ts, c), c.used, cs, vals)
  {
    BacklogPush(ts, cs, c, vals);
    PrependSplit(Take(vals, c.used), pending, Untried(ts, c), Backlog(ts, cs, vals));
  }

  lemma {:induction false} TodoEmit(ts: seq<Token>, pending: seq<Fragments>, used: nat, cs: seq<Choice>, vals: seq<Value>, v: Value)
    requires used < |vals| && UsedUpTo(cs, used)
    ensures Todo(ts, pending, used + 1, cs, vals[used := v]) == Todo(ts, Prepend([v], pending), used, cs, vals)
  {
    var vals' := vals[used := v];
    assert vals'[..used + 1] == vals[..used] + [v];
    PrependPrepend(vals[..used], [v], pending);
    assert vals'[..used] == vals[..used];
    BacklogFrame(ts, cs, vals, vals', used);
  }

  /** The next alternative, or the next value, of the newest choice becomes the current path. */
  lemma {:induction false} TodoResume(ts: seq<Token>, pending: seq<Fragments>, cs: seq<Choice>, c: Choice, vals: seq<Value>)
    requires cs != [] && c.used == cs[|cs| - 1].used && Untried(ts, cs[|cs| - 1]) == pending + Untried(ts, c)
    ensures Todo(ts, pending, c.used, cs[..|cs| - 1] + [c], vals) == Backlog(ts, cs, vals)
  {
    TodoPush(ts, pending, cs[..|cs| - 1], c, vals);
  }
}
