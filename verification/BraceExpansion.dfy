/** The backtracking machine of `VM::applyBraceExpansion` (src/expand.cpp): one pass over the tokens,
    an explicit stack of choice points looked up by brace id, a parallel stack of sequence counters and
    one output buffer that is rewound in place. */
module BraceExpansion {
  import opened Wrappers
  import opened BraceRange
  import opened BraceTokens
  import opened BraceSpec
  import opened BraceChoices

  newtype uint8 = x: int | 0 <= x < 256

  datatype ExpandState = ExpandState(index: uint8, usedSize: uint8, closeIndex: uint8, braceId: uint8)

  /** Entry `e` records choice `c`; its index is meaningful once its brace has been left. */
  predicate Records(e: ExpandState, c: Choice, i: nat) {
    && e.usedSize as int == c.used
    && e.closeIndex as int == c.close
    && e.braceId as int == c.id
    && (c.Seq? ==> e.index as int == c.close)
    && (c.Alt? && c.close < i ==> e.index as int == c.mark)
  }

  predicate Linked(stack: seq<ExpandState>, cs: seq<Choice>, i: nat) {
    |stack| == |cs| && forall k :: 0 <= k < |cs| ==> Records(stack[k], cs[k], i)
  }

  predicate SortedById(stack: seq<ExpandState>) {
    forall j, k :: 0 <= j < k < |stack| ==> stack[j].braceId < stack[k].braceId
  }

  /** `std::lower_bound` over the choice stack. */
  method LowerBound(stack: seq<ExpandState>, id: nat) returns (k: nat)
    requires SortedById(stack)
    ensures k <= |stack|
    ensures forall j :: 0 <= j < k ==> stack[j].braceId as int < id
    ensures forall j :: k <= j < |stack| ==> stack[j].braceId as int >= id
  {
    k := 0;
    var len: nat := |stack|;
    while len > 0
      invariant k + len <= |stack|
      invariant forall j :: 0 <= j < k ==> stack[j].braceId as int < id
      invariant forall j :: k + len <= j < |stack| ==> stack[j].braceId as int >= id
    {
      var half := len / 2;
      if stack[k + half].braceId as int < id {
        k, len := k + half + 1, len - half - 1;
      } else {
        len := half;
      }
    }
  }

  /** The level-counting scan finds the closer of the brace opened at `i`. */
  method FindCloseIndex(ts: seq<Token>, i: nat) returns (closeIndex: nat)
    requires WellNested(ts) && i < |ts| && ts[i].Open?
    ensures closeIndex == FindClose(ts, i + 1, ts[i].id) < |ts|
  {
    CloserExists(ts, i);
    ghost var close := FindClose(ts, i + 1, ts[i].id);
    closeIndex := i + 1;
    var level := 1;
    while closeIndex < |ts|
      invariant i < closeIndex <= close
      invariant level == |Enclosing(ts, closeIndex)| - |Enclosing(ts, i)|
    {
      InBrace(ts, i, closeIndex);
      assert NestedAt(ts, closeIndex);
      if ts[closeIndex].Close? {
        level := level - 1;
        if level == 0 {
          assert Enclosing(ts, closeIndex)[..|Enclosing(ts, i)| + 1] == Enclosing(ts, closeIndex);
          CloseIsFirst(ts, i + 1, ts[i].id, closeIndex);
          break;
        }
      } else if ts[closeIndex].Open? {
        level := level + 1;
      }
      closeIndex := closeIndex + 1;
    }
  }

  // ---------------------------------------------------------------- the state between two iterations

  datatype State = State(i: nat, usedSize: nat, stack: seq<ExpandState>, seqStack: seq<int64>)

  /** The state agrees with the choices `cs`. */
  ghost predicate Reachable(ts: seq<Token>, s: State, cs: seq<Choice>) {
    && Choices(ts, cs) && At(ts, s.i, cs)
    && Linked(s.stack, cs, s.i) && s.seqStack == Counters(cs)
    && s.usedSize <= s.i && UsedUpTo(cs, s.usedSize)
  }

  /** What the state has still to produce. */
  ghost function Left(ts: seq<Token>, s: State, cs: seq<Choice>, vals: seq<Value>): seq<Fragments> {
    Todo(ts, Pending(ts, s.i, cs), s.usedSize, cs, vals)
  }

  /** The choice stack is strictly sorted by brace id. */
  lemma {:induction false} StackSorted(ts: seq<Token>, stack: seq<ExpandState>, cs: seq<Choice>, i: nat)
    requires WellNested(ts) && Choices(ts, cs) && Linked(stack, cs, i)
    ensures SortedById(stack)
  {
    forall j, k | 0 <= j < k < |stack|
      ensures stack[j].braceId < stack[k].braceId
    {
      assert Placed(ts, cs, j) && Placed(ts, cs, k) && Before(ts, cs[j], cs[k]);
      assert NestedAt(ts, cs[j].open) && NestedAt(ts, cs[k].open);
      OpensMonotone(ts, cs[j].open, cs[k].open);
      assert Records(stack[j], cs[j], i) && Records(stack[k], cs[k], i);
    }
  }

  /** Every id fits the 8 bits it is stored in. */
  lemma {:induction false} IdFits(ts: seq<Token>, i: nat)
    requires WellNested(ts) && i < |ts| && (ts[i].Open? || ts[i].SeqOpen?)
    ensures ts[i].id <= i
  {
    assert NestedAt(ts, i);
    OpensMonotone(ts, 0, i);
  }

  lemma {:induction false} LinkedOver(ts: seq<Token>, stack: seq<ExpandState>, cs: seq<Choice>, i: nat, j: nat)
    requires i <= j <= |ts| && Linked(stack, cs, i) && Choices(ts, cs)
    requires forall p :: i <= p < j ==> !ts[p].Close?
    ensures Linked(stack, cs, j)
  {
    forall k | 0 <= k < |cs|
      ensures Records(stack[k], cs[k], j)
    {
      assert Records(stack[k], cs[k], i) && Placed(ts, cs, k);
    }
  }

  lemma {:induction false} CountersPush(cs: seq<Choice>, c: Choice)
    ensures Counters(cs + [c]) == Counters(cs) + if c.Seq? then [c.cur] else []
  {
    var cs' := cs + [c];
    assert cs'[..|cs'| - 1] == cs && cs'[|cs'| - 1] == c;
  }

  /** A plain fragment, or the current value of a sequence, is appended to the buffer. */
  lemma {:induction false} AppendStep(ts: seq<Token>, s: State, cs: seq<Choice>, vals: seq<Value>, v: Value)
    requires WellNested(ts) && s.i < |ts| < |vals| && Reachable(ts, s, cs)
    requires ts[s.i].Plain? || ts[s.i].SeqClose?
    requires Pending(ts, s.i, cs) == Prepend([v], Run(ts, s.i + 1))
    ensures var s' := s.(i := s.i + 1, usedSize := s.usedSize + 1);
      Reachable(ts, s', cs) && Left(ts, s', cs, vals[s.usedSize := v]) == Left(ts, s, cs, vals)
  {
    hide Left, Pending, Run, Prepend, Choices, At, Linked, WellNested, Counters;
    AppendLeft(ts, s, cs, vals, v);
    AppendReaches(ts, s, cs);
  }

  lemma {:induction false} AppendReaches(ts: seq<Token>, s: State, cs: seq<Choice>)
    requires WellNested(ts) && s.i < |ts| && Reachable(ts, s, cs)
    requires ts[s.i].Plain? || ts[s.i].SeqClose?
    ensures Reachable(ts, s.(i := s.i + 1, usedSize := s.usedSize + 1), cs)
  {
    hide Choices, At, Counters, Linked, WellNested;
    StepOver(ts, s.i, cs);
    LinkedOver(ts, s.stack, cs, s.i, s.i + 1);
  }

  lemma {:induction false} AppendLeft(ts: seq<Token>, s: State, cs: seq<Choice>, vals: seq<Value>, v: Value)
    requires WellNested(ts) && s.i < |ts| < |vals| && s.usedSize <= s.i && UsedUpTo(cs, s.usedSize)
    requires ts[s.i].Plain? || ts[s.i].SeqClose?
    requires Pending(ts, s.i, cs) == Prepend([v], Run(ts, s.i + 1))
    ensures Left(ts, s.(i := s.i + 1, usedSize := s.usedSize + 1), cs, vals[s.usedSize := v]) == Left(ts, s, cs, vals)
  {
    hide Run, Todo, Pending, Prepend, WellNested;
    NotInSequence(ts, s.i + 1);
    PendingIsRun(ts, s.i + 1, cs);
    TodoEmit(ts, Run(ts, s.i + 1), s.usedSize, cs, vals, v);
  }

  lemma PendingIsRun(ts: seq<Token>, i: nat, cs: seq<Choice>)
    requires i <= |ts| && (i < |ts| ==> !ts[i].SeqClose?)
    ensures Pending(ts, i, cs) == Run(ts, i)
  {
  }

  lemma PlainPending(ts: seq<Token>, i: nat, cs: seq<Choice>)
    requires i < |ts| && ts[i].Plain?
    ensures Pending(ts, i, cs) == Prepend([ts[i].v], Run(ts, i + 1))
  {
  }

  lemma NotBounds(ts: seq<Token>, s: State, cs: seq<Choice>)
    requires s.i < |ts| && Reachable(ts, s, cs)
    ensures !ts[s.i].Bounds?
  {
  }

  /** At the closer of a sequence the newest counter is the one to print. */
  lemma {:induction false} CurrentValue(ts: seq<Token>, s: State, cs: seq<Choice>)
    requires WellNested(ts) && s.i < |ts| && Reachable(ts, s, cs) && ts[s.i].SeqClose?
    ensures s.seqStack != [] && s.i > 1 && ts[s.i - 1].Bounds?
    ensures Pending(ts, s.i, cs) == Prepend([Number(s.seqStack[|s.seqStack| - 1], ts[s.i - 1].r)], Run(ts, s.i + 1))
  {
    hide Run, Enclosing, Covered, FindMark, FindClose, NestedAt, Linked;
    assert Placed(ts, cs, |cs| - 1);
  }

  lemma {:induction false} OpenStep(ts: seq<Token>, s: State, cs: seq<Choice>, vals: seq<Value>, e: ExpandState)
    requires WellNested(ts) && s.i < |ts| && Reachable(ts, s, cs) && ts[s.i].Open?
    requires Records(e, OpenChoice(ts, s.i, s.usedSize), s.i + 1)
    ensures var c := OpenChoice(ts, s.i, s.usedSize);
      var s' := s.(i := s.i + 1, stack := s.stack + [e]);
      s.i + 1 < |ts| && Reachable(ts, s', cs + [c]) && Left(ts, s', cs + [c], vals) == Left(ts, s, cs, vals)
  {
    hide Run, Todo, Choices, At, Counters, Enclosing, Untried;
    var c := OpenChoice(ts, s.i, s.usedSize);
    StepOpen(ts, s.i, cs, s.usedSize);
    OpenRuns(ts, s.i, s.usedSize);
    NotInSequence(ts, s.i + 1);
    TodoPush(ts, Run(ts, s.i + 1), cs, c, vals);
    LinkedOver(ts, s.stack, cs, s.i, s.i + 1);
    CountersPush(cs, c);
  }

  lemma {:induction false} SeqOpenStep(ts: seq<Token>, s: State, cs: seq<Choice>, vals: seq<Value>, e: ExpandState)
    requires WellNested(ts) && s.i + 2 < |ts| && Reachable(ts, s, cs) && ts[s.i].SeqOpen? && ts[s.i + 1].Bounds?
    requires Records(e, SeqOpenChoice(ts, s.i, s.usedSize), s.i + 2)
    ensures var c := SeqOpenChoice(ts, s.i, s.usedSize);
      var s' := s.(i := s.i + 2, stack := s.stack + [e], seqStack := s.seqStack + [c.cur]);
      Reachable(ts, s', cs + [c]) && Left(ts, s', cs + [c], vals) == Left(ts, s, cs, vals)
  {
    hide Run, Todo, Choices, At, Counters, Enclosing, Untried, IsChoice;
    var c := SeqOpenChoice(ts, s.i, s.usedSize);
    StepSeqOpen(ts, s.i, cs, s.usedSize);
    SeqOpenIsChoice(ts, s.i, s.usedSize);
    SeqOpenRuns(ts, s.i, s.usedSize);
    assert (cs + [c])[|cs + [c]| - 1] == c;
    TodoPush(ts, Pending(ts, s.i + 2, cs + [c]), cs, c, vals);
    LinkedOver(ts, s.stack, cs, s.i, s.i + 2);
    CountersPush(cs, c);
  }

  /** At a separator or closer, the entry of its own brace is updated and the brace is left. */
  lemma {:induction false} MarkStep(ts: seq<Token>, s: State, cs: seq<Choice>, vals: seq<Value>, k: nat, e: ExpandState)
    requires WellNested(ts) && s.i < |ts| && Reachable(ts, s, cs) && k < |cs|
    requires cs[k].Alt? && IsMark(ts[s.i], cs[k].id) && cs[k].mark == s.i && cs[k].open < s.i <= cs[k].close < |ts|
    requires Records(e, cs[k], cs[k].close + 1)
    ensures var s' := s.(i := cs[k].close + 1, stack := s.stack[k := e]);
      Reachable(ts, s', cs) && Left(ts, s', cs, vals) == Left(ts, s, cs, vals)
  {
    StepMark(ts, s.i, cs, k);
    assert Placed(ts, cs, k);
    MarkRuns(ts, s.i, cs[k]);
    NotInSequence(ts, cs[k].close + 1);
    var stack' := s.stack[k := e];
    forall j | 0 <= j < |cs|
      ensures Records(stack'[j], cs[j], cs[k].close + 1)
    {
      if j != k {
        assert Records(s.stack[j], cs[j], s.i);
      }
    }
  }

  // ---------------------------------------------------------------- backtracking

  /** The stacks after a finished pass: every brace has been left. */
  ghost predicate Finished(ts: seq<Token>, stack: seq<ExpandState>, seqStack: seq<int64>, cs: seq<Choice>) {
    Choices(ts, cs) && Linked(stack, cs, |ts|) && seqStack == Counters(cs)
  }

  lemma {:induction false} FinishedTop(ts: seq<Token>, stack: seq<ExpandState>, seqStack: seq<int64>, cs: seq<Choice>)
    requires Finished(ts, stack, seqStack, cs) && stack != []
    ensures cs != [] && IsChoice(ts, cs[|cs| - 1]) && Records(stack[|stack| - 1], cs[|cs| - 1], |ts|)
    ensures var c := cs[|cs| - 1];
      && (c.Alt? ==> stack[|stack| - 1].index as int == c.mark)
      && (c.Seq? ==> stack[|stack| - 1].index as int == c.close && seqStack != [] && seqStack[|seqStack| - 1] == c.cur)
  {
    assert Placed(ts, cs, |cs| - 1);
  }

  lemma {:induction false} PopStep(ts: seq<Token>, stack: seq<ExpandState>, seqStack: seq<int64>, cs: seq<Choice>, vals: seq<Value>)
    requires Finished(ts, stack, seqStack, cs) && stack != [] && Untried(ts, cs[|cs| - 1]) == []
    ensures var cs' := cs[..|cs| - 1];
      && Finished(ts, stack[..|stack| - 1], if cs[|cs| - 1].Seq? then seqStack[..|seqStack| - 1] else seqStack, cs')
      && Backlog(ts, cs, vals) == Backlog(ts, cs', vals)
  {
    PopChoice(ts, cs);
    assert Prepend(Take(vals, cs[|cs| - 1].used), []) == [];
  }

  lemma {:induction false} ResumeLinked(ts: seq<Token>, stack: seq<ExpandState>, cs: seq<Choice>, c: Choice, i: nat)
    requires Linked(stack, cs, |ts|) && cs != [] && c.used == cs[|cs| - 1].used && c.close == cs[|cs| - 1].close
    requires c.id == cs[|cs| - 1].id && (c.Seq? <==> cs[|cs| - 1].Seq?) && i <= c.close && i <= |ts|
    ensures Linked(stack, cs[..|cs| - 1] + [c], i)
  {
    var cs' := cs[..|cs| - 1] + [c];
    forall k | 0 <= k < |cs|
      ensures Records(stack[k], cs'[k], i)
    {
      assert Records(stack[k], cs[k], |ts|);
    }
  }

  lemma {:induction false} UsedByOlder(ts: seq<Token>, cs: seq<Choice>, c: Choice)
    requires Choices(ts, cs) && cs != [] && c.used == cs[|cs| - 1].used
    ensures UsedUpTo(cs[..|cs| - 1] + [c], c.used)
  {
    assert Placed(ts, cs, |cs| - 1);
    assert forall j :: 0 <= j < |cs| - 1 ==> Before(ts, cs[j], cs[|cs| - 1]);
  }

  lemma {:induction false} ResumeAltStep(ts: seq<Token>, stack: seq<ExpandState>, seqStack: seq<int64>, cs: seq<Choice>, vals: seq<Value>)
    requires WellNested(ts) && Finished(ts, stack, seqStack, cs) && cs != []
    requires var c := cs[|cs| - 1]; IsChoice(ts, c) && c.Alt? && ts[c.mark].Sep?
    ensures var c := cs[|cs| - 1];
      var cs' := cs[..|cs| - 1] + [NextAlt(ts, c)];
      var s' := State(c.mark + 1, c.used, stack, seqStack);
      Reachable(ts, s', cs') && Left(ts, s', cs', vals) == Backlog(ts, cs, vals)
  {
    var c := cs[|cs| - 1];
    var c' := NextAlt(ts, c);
    ResumeAlt(ts, cs);
    ResumeAltRuns(ts, c);
    NotInSequence(ts, c.mark + 1);
    ResumeLinked(ts, stack, cs, c', c.mark + 1);
    UsedByOlder(ts, cs, c');
    CountersPush(cs[..|cs| - 1], c');
    TodoResume(ts, Run(ts, c.mark + 1), cs, c', vals);
  }

  lemma {:induction false} ResumeSeqStep(ts: seq<Token>, stack: seq<ExpandState>, seqStack: seq<int64>, cs: seq<Choice>, vals: seq<Value>)
    requires WellNested(ts) && Finished(ts, stack, seqStack, cs) && cs != []
    requires var c := cs[|cs| - 1]; IsChoice(ts, c) && c.Seq? && Next(c.cur, c.R(ts)).Some?
    ensures var c := cs[|cs| - 1];
      var cs' := cs[..|cs| - 1] + [NextValue(ts, c)];
      && seqStack != []
      && var s' := State(c.close, c.used, stack, seqStack[..|seqStack| - 1] + [NextValue(ts, c).cur]);
         Reachable(ts, s', cs') && Left(ts, s', cs', vals) == Backlog(ts, cs, vals)
  {
    var c := cs[|cs| - 1];
    var c' := NextValue(ts, c);
    var cs' := cs[..|cs| - 1] + [c'];
    ResumeSeq(ts, cs);
    ResumeSeqRuns(ts, c);
    ResumeLinked(ts, stack, cs, c', c.close);
    UsedByOlder(ts, cs, c');
    CountersPush(cs[..|cs| - 1], c');
    assert cs'[|cs'| - 1] == c';
    TodoResume(ts, Pending(ts, c.close, cs'), cs, c', vals);
  }

  /** Gives up exhausted choice points, newest first, until one has another alternative or value. */
  method Backtrack(ts: seq<Token>, stack0: seq<ExpandState>, seqStack0: seq<int64>, ghost cs0: seq<Choice>, ghost vals: seq<Value>)
    returns (resumed: bool, i: nat, usedSize: nat, stack: seq<ExpandState>, seqStack: seq<int64>, ghost cs: seq<Choice>)
    requires WellNested(ts) && ts != [] && Finished(ts, stack0, seqStack0, cs0)
    ensures resumed ==> usedSize <= i + 1 < |ts| && Reachable(ts, State(i + 1, usedSize, stack, seqStack), cs)
    ensures resumed ==> Left(ts, State(i + 1, usedSize, stack, seqStack), cs, vals) == Backlog(ts, cs0, vals)
    ensures !resumed ==> i == |ts| - 1 && Backlog(ts, cs0, vals) == []
  {
    hide Run, Backlog, Left, Reachable, Choices, Counters, Enclosing, WellNested;
    resumed, i, usedSize := false, |ts| - 1, 0;
    stack, seqStack, cs := stack0, seqStack0, cs0;
    while stack != []
      invariant Finished(ts, stack, seqStack, cs) && Backlog(ts, cs, vals) == Backlog(ts, cs0, vals)
      decreases |stack|
    {
      FinishedTop(ts, stack, seqStack, cs);
      var oldIndex := stack[|stack| - 1].index as int;
      var meta := ts[oldIndex];
      if meta.Close? {
        PopStep(ts, stack, seqStack, cs, vals);
        stack, cs := stack[..|stack| - 1], cs[..|cs| - 1];
      } else if meta.SeqClose? {
        var ok, cur := TryUpdateSeqValue(seqStack[|seqStack| - 1], ts[oldIndex - 1].r);
        if ok {
          ResumeSeqStep(ts, stack, seqStack, cs, vals);
          cs := cs[..|cs| - 1] + [NextValue(ts, cs[|cs| - 1])];
          seqStack := seqStack[..|seqStack| - 1] + [cur];
          return true, oldIndex - 1, stack[|stack| - 1].usedSize as int, stack, seqStack, cs;
        } else {
          SeqExhausted(ts, cs[|cs| - 1]);
          PopStep(ts, stack, seqStack, cs, vals);
          stack, seqStack, cs := stack[..|stack| - 1], seqStack[..|seqStack| - 1], cs[..|cs| - 1];
        }
      } else {
        ResumeAltStep(ts, stack, seqStack, cs, vals);
        cs := cs[..|cs| - 1] + [NextAlt(ts, cs[|cs| - 1])];
        return true, oldIndex, stack[|stack| - 1].usedSize as int, stack, seqStack, cs;
      }
    }
    NothingLeft(ts, seqStack, cs, vals);
  }

  lemma NothingLeft(ts: seq<Token>, seqStack: seq<int64>, cs: seq<Choice>, vals: seq<Value>)
    requires Finished(ts, [], seqStack, cs)
    ensures Backlog(ts, cs, vals) == []
  {
  }

  // ---------------------------------------------------------------- the machine

  /** At a separator or closer the binary search finds exactly the entry of its own brace. */
  method FindOwnEntry(ts: seq<Token>, s: State, ghost cs: seq<Choice>) returns (k: nat)
    requires WellNested(ts) && s.i < |ts| && Reachable(ts, s, cs) && (ts[s.i].Sep? || ts[s.i].Close?)
    ensures k < |cs| == |s.stack| && Records(s.stack[k], cs[k], s.i) && cs[k].Alt? && cs[k].id == ts[s.i].id
    ensures cs[k].mark == s.i && cs[k].open < s.i <= cs[k].close < |ts|
  {
    ghost var own := MarkChoice(ts, s.i, cs);
    StackSorted(ts, s.stack, cs, s.i);
    k := LowerBound(s.stack, ts[s.i].id);
    assert Records(s.stack[own], cs[own], s.i);
  }

  /** One token: where the pass stands afterwards (before its `i++`), and what goes into the buffer. */
  method Process(ts: seq<Token>, s: State, ghost cs: seq<Choice>, ghost vals: seq<Value>)
    returns (i: nat, emitted: Option<Value>, stack: seq<ExpandState>, seqStack: seq<int64>, ghost cs': seq<Choice>)
    requires WellNested(ts) && |ts| <= 255 && s.i < |ts| < |vals| && Reachable(ts, s, cs)
    ensures s.usedSize <= s.i <= i < |ts|
    ensures var s' := State(i + 1, s.usedSize + (if emitted.Some? then 1 else 0), stack, seqStack);
      var vals' := if emitted.Some? then vals[s.usedSize := emitted.value] else vals;
      Reachable(ts, s', cs') && Left(ts, s', cs', vals') == Left(ts, s, cs, vals)
  {
    hide Run, Left, Choices, At, Linked, Counters, WellNested, FindClose, FindMark, IsChoice;
    i, emitted, stack, seqStack, cs' := s.i, None, s.stack, s.seqStack, cs;
    if ts[i].Open? {
      IdFits(ts, i);
      OpenIsChoice(ts, i, s.usedSize);
      var closeIndex := FindCloseIndex(ts, i);
      var e := ExpandState(i as uint8, s.usedSize as uint8, closeIndex as uint8, ts[i].id as uint8);
      OpenStep(ts, s, cs, vals, e);
      stack, cs' := stack + [e], cs + [OpenChoice(ts, i, s.usedSize)];
    } else if ts[i].SeqOpen? {
      IdFits(ts, i);
      SeqOpenIsChoice(ts, i, s.usedSize);
      var e := ExpandState((i + 2) as uint8, s.usedSize as uint8, (i + 2) as uint8, ts[i].id as uint8);
      SeqOpenStep(ts, s, cs, vals, e);
      cs' := cs + [SeqOpenChoice(ts, i, s.usedSize)];
      i := i + 1;
      stack, seqStack := stack + [e], seqStack + [ts[i].r.begin];
    } else if ts[i].SeqClose? {
      CurrentValue(ts, s, cs);
      var v := Number(seqStack[|seqStack| - 1], ts[i - 1].r);
      AppendStep(ts, s, cs, vals, v);
      emitted := Some(v);
    } else if ts[i].Plain? {
      PlainPending(ts, i, cs);
      AppendStep(ts, s, cs, vals, ts[i].v);
      emitted := Some(ts[i].v);
    } else {
      NotBounds(ts, s, cs);
      var k := FindOwnEntry(ts, s, cs);
      var e := stack[k].(index := i as uint8);
      MarkStep(ts, s, cs, vals, k, e);
      stack := stack[k := e];
      i := e.closeIndex as int;
    }
  }

  /** The machine lists exactly what the recursive reading of the tokens lists, in the same order, and
      terminates: every pass that reaches the end uses up one of the finitely many lists. An empty
      token list makes no pass at all. */
  method ApplyBraceExpansion(ts: seq<Token>) returns (argv: seq<Fragments>)
    requires WellNested(ts) && |ts| <= 255
    ensures argv == if ts == [] then [] else Run(ts, 0)
  {
    hide Run, Backlog, Left, Reachable, Finished, WellNested;
    var size := |ts|;
    var values := new Value[size + 1](_ => Text(""));
    var stack: seq<ExpandState>, seqStack: seq<int64> := [], [];
    ghost var cs: seq<Choice> := [];
    var usedSize: nat, i: nat := 0, 0;
    argv := [];
    Start(ts, values[..]);
    while i < size
      invariant usedSize <= i <= size && values.Length == size + 1
      invariant i < size ==> Reachable(ts, State(i, usedSize, stack, seqStack), cs)
      invariant i < size ==> argv + Left(ts, State(i, usedSize, stack, seqStack), cs, values[..]) == Run(ts, 0)
      invariant 0 < i == size ==> argv == Run(ts, 0)
      invariant i == 0 ==> argv == []
      decreases |Run(ts, 0)| - |argv|, size - i
    {
      ghost var vals := values[..];
      var emitted;
      i, emitted, stack, seqStack, cs := Process(ts, State(i, usedSize, stack, seqStack), cs, vals);
      if emitted.Some? {
        values[usedSize] := emitted.value;
        usedSize := usedSize + 1;
      }
      assert values[..] == if emitted.Some? then vals[usedSize - 1 := emitted.value] else vals;
      if i == size - 1 {
        PassEnds(ts, State(size, usedSize, stack, seqStack), cs, values[..]);
        ghost var before := argv;
        argv := argv + [values[..usedSize]];
        var resumed, used;
        resumed, i, used, stack, seqStack, cs := Backtrack(ts, stack, seqStack, cs, values[..]);
        usedSize := if resumed then used else usedSize;
      }
      i := i + 1;
    }
  }

  lemma {:induction false} Start(ts: seq<Token>, vals: seq<Value>)
    requires WellNested(ts)
    ensures ts != [] ==> Reachable(ts, State(0, 0, [], []), []) && Left(ts, State(0, 0, [], []), [], vals) == Run(ts, 0)
  {
    if ts != [] {
      assert NestedAt(ts, 0);
      PrependEmpty(Run(ts, 0));
    }
  }

  /** A pass that reaches the end produces exactly the list in the buffer. */
  lemma {:induction false} PassEnds(ts: seq<Token>, s: State, cs: seq<Choice>, vals: seq<Value>)
    requires Reachable(ts, s, cs) && s.i == |ts| && s.usedSize <= |vals|
    ensures Finished(ts, s.stack, s.seqStack, cs)
    ensures Left(ts, s, cs, vals) == [vals[..s.usedSize]] + Backlog(ts, cs, vals)
  {
    assert Pending(ts, s.i, cs) == [[]];
    assert vals[..s.usedSize] + [] == vals[..s.usedSize];
  }
}
