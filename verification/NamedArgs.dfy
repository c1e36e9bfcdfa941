/** Code for the arguments of a call, positional, omitted and named (src/codegen.cpp). */
module NamedArgs {
  import opened CodeMachine
  import opened Codegen
  import opened CodegenCorrect

  /** The first `start` arguments are positional; the one after it with index `k` names the parameter
      `params[k]`. `noneCount` is what the type checker computed. */
  datatype Args = Args(nodes: seq<Node>, start: nat, params: seq<nat>, noneCount: nat)

  /** What the type checker accepts for a callee with `size` parameters: no parameter is given twice. */
  ghost predicate Checked(args: Args, size: nat) {
    && args.start <= size <= 255 && args.noneCount == size - args.start
    && |args.nodes| == args.start + |args.params|
    && (forall k :: 0 <= k < |args.params| ==> args.start <= args.params[k] < size)
    && (forall k, l :: 0 <= k < l < |args.params| ==> args.params[k] != args.params[l])
    && (forall i :: 0 <= i < |args.nodes| ==> WellFormed(args.nodes[i]))
  }

  // ---------------------------------------------------------------- the meaning of a call's arguments

  datatype ArgsOutcome = Values(vs: seq<Value>, log: seq<nat>) | Failed(log: seq<nat>)

  /** The values of the first `n` arguments, evaluated in source order. */
  function EvalArgs(env: Env, nodes: seq<Node>, n: nat, log: seq<nat>): (r: ArgsOutcome)
    requires n <= |nodes|
    ensures r.Values? ==> |r.vs| == n
  {
    if n == 0 then Values([], log)
    else
      match EvalArgs(env, nodes, n - 1, log)
      case Failed(log1) => Failed(log1)
      case Values(vs, log1) =>
        match Eval(env, nodes[n - 1], log1)
        case Raised(log2) => Failed(log2)
        case Done(v, log2) => Values(vs + [v], log2)
  }

  /** The index in `params` from `k` on at which parameter `i` is named, or its length. */
  function NamedAt(params: seq<nat>, i: nat, k: nat): (r: nat)
    requires k <= |params|
    ensures k <= r <= |params| && (r < |params| ==> params[r] == i)
    decreases |params| - k
  {
    if k == |params| || params[k] == i then k else NamedAt(params, i, k + 1)
  }

  /** What each parameter receives: its positional value, its named value, or the placeholder. */
  function Slot(args: Args, vs: seq<Value>, i: nat): Value
    requires |vs| == args.start + |args.params|
  {
    if i < args.start then vs[i]
    else
      var k := NamedAt(args.params, i, 0);
      if k < |args.params| then vs[args.start + k] else Invalid
  }

  function Slots(args: Args, vs: seq<Value>, size: nat): seq<Value>
    requires |vs| == args.start + |args.params|
  {
    seq(size, i requires 0 <= i < size => Slot(args, vs, i))
  }

  // ---------------------------------------------------------------- the code

  function PositionalCode(nodes: seq<Node>, n: nat, base: nat): seq<Instr>
    requires n <= |nodes|
  {
    if n == 0 then []
    else
      var c := PositionalCode(nodes, n - 1, base);
      c + Gen(nodes[n - 1], base + |c|)
  }

  function NoneCode(n: nat): seq<Instr> {
    seq(n, _ => PUSH_INVALID)
  }

  /** How far below the top of the stack a named parameter lies. */
  function SlotOffset(args: Args, k: nat): int
    requires k < |args.params|
  {
    args.noneCount + args.start - args.params[k] - 1
  }

  function NamedCode(args: Args, size: nat, k: nat, base: nat): seq<Instr>
    requires Checked(args, size) && k <= |args.params|
  {
    if k == 0 then []
    else
      var c := NamedCode(args, size, k - 1, base);
      c + Gen(args.nodes[args.start + k - 1], base + |c|) + [STORE_BY_OFFSET(SlotOffset(args, k - 1))]
  }

  function GenArgs(args: Args, size: nat, base: nat): seq<Instr>
    requires Checked(args, size)
  {
    var p := PositionalCode(args.nodes, args.start, base);
    p + NoneCode(args.noneCount) + NamedCode(args, size, |args.params|, base + |p| + args.noneCount)
  }

  /** Every offset is at most 254, so it fits the one byte it is given, and it stays above the
      positional values. */
  lemma OffsetInRange(args: Args, size: nat, k: nat)
    requires Checked(args, size) && k < |args.params|
    ensures 0 <= SlotOffset(args, k) < args.noneCount <= 255
  {
  }

  method VisitArgs(gen: ByteCodeGenerator, args: Args, ghost size: nat)
    requires Checked(args, size)
    modifies gen
    ensures gen.code == old(gen.code) + GenArgs(args, size, |old(gen.code)|)
  {
    hide Gen, Checked;
    CheckedSizes(args, size);
    ghost var was := gen.code;
    var index := 0;
    while index < args.start
      invariant 0 <= index <= args.start
      invariant gen.code == was + PositionalCode(args.nodes, index, |was|)
    {
      gen.Visit(args.nodes[index]);
      index := index + 1;
    }
    ghost var p := PositionalCode(args.nodes, args.start, |was|);
    var i := 0;
    while i < args.noneCount
      invariant 0 <= i <= args.noneCount
      invariant gen.code == was + p + NoneCode(i)
    {
      gen.Emit(PUSH_INVALID);
      assert NoneCode(i + 1) == NoneCode(i) + [PUSH_INVALID];
      i := i + 1;
    }
    ghost var base := |was| + |p| + args.noneCount;
    ghost var before := gen.code;
    while index < |args.nodes|
      invariant args.start <= index <= |args.nodes|
      invariant gen.code == before + NamedCode(args, size, index - args.start, base)
    {
      gen.Visit(args.nodes[index]);
      OffsetInRange(args, size, index - args.start);
      gen.Emit(STORE_BY_OFFSET(SlotOffset(args, index - args.start)));
      index := index + 1;
    }
  }

  lemma CheckedSizes(args: Args, size: nat)
    requires Checked(args, size)
    ensures |args.nodes| == args.start + |args.params| && args.noneCount == size - args.start
  {
  }

  // ---------------------------------------------------------------- the code does what the call means

  /** The run from `s` leaves `stack` with the values on it, or raises the error. */
  ghost predicate Leaves(env: Env, code: seq<Instr>, s: State, o: ArgsOutcome, pc: nat, stack: seq<Value>) {
    match o
    case Values(_, log) => Same(env, code, s, Running(pc, stack, log))
    case Failed(log) => Same(env, code, s, Thrown(log))
  }

  ghost predicate AllHonest(env: Env, nodes: seq<Node>) {
    forall i :: 0 <= i < |nodes| ==> Honest(env, nodes[i])
  }

  lemma {:induction false} PositionalCorrect(
    env: Env, nodes: seq<Node>, n: nat, code: seq<Instr>, base: nat, stack: seq<Value>, log: seq<nat>)
    requires n <= |nodes| && AllHonest(env, nodes) && (forall i :: 0 <= i < |nodes| ==> WellFormed(nodes[i]))
    requires At(code, base, PositionalCode(nodes, n, base))
    ensures var o := EvalArgs(env, nodes, n, log);
      Leaves(env, code, Running(base, stack, log), o, base + |PositionalCode(nodes, n, base)|,
             if o.Values? then stack + o.vs else [])
  {
    hide Run, At, Gen, Eval, WellFormed, Honest;
    if n == 0 {
      assert stack + [] == stack;
    } else {
      var c := PositionalCode(nodes, n - 1, base);
      AtSplit(code, base, c, Gen(nodes[n - 1], base + |c|));
      PositionalCorrect(env, nodes, n - 1, code, base, stack, log);
      var o := EvalArgs(env, nodes, n - 1, log);
      if o.Values? {
        GenCorrect(env, nodes[n - 1], code, base + |c|, stack + o.vs, o.log);
        var e := Eval(env, nodes[n - 1], o.log);
        assert e.Done? ==> stack + o.vs + [e.v] == stack + (o.vs + [e.v]);
      }
    }
  }

  function Nones(n: nat): seq<Value> {
    seq(n, _ => Invalid)
  }

  lemma {:induction false} NonesCorrect(env: Env, n: nat, code: seq<Instr>, base: nat, stack: seq<Value>, log: seq<nat>)
    requires At(code, base, NoneCode(n))
    ensures Same(env, code, Running(base, stack, log), Running(base + n, stack + Nones(n), log))
  {
    hide Run, At;
    if n == 0 {
      assert stack + Nones(0) == stack;
    } else {
      assert NoneCode(n) == NoneCode(n - 1) + [PUSH_INVALID];
      AtSplit(code, base, NoneCode(n - 1), [PUSH_INVALID]);
      NonesCorrect(env, n - 1, code, base, stack, log);
      Execute(env, code, PUSH_INVALID, base + n - 1, stack + Nones(n - 1), log);
      assert stack + Nones(n - 1) + [Invalid] == stack + Nones(n);
    }
  }

  /** The slots after the first `k` named arguments were stored. */
  function Filled(args: Args, size: nat, vs: seq<Value>, k: nat): (r: seq<Value>)
    requires Checked(args, size) && k <= |args.params| && |vs| >= args.start + k
    ensures |r| == size
  {
    if k == 0 then vs[..args.start] + Nones(args.noneCount)
    else Filled(args, size, vs, k - 1)[args.params[k - 1] := vs[args.start + k - 1]]
  }

  lemma {:induction false} FilledPrefix(args: Args, size: nat, vs: seq<Value>, v: Value, k: nat)
    requires Checked(args, size) && k <= |args.params| && |vs| >= args.start + k
    ensures Filled(args, size, vs + [v], k) == Filled(args, size, vs, k)
  {
    if k == 0 {
      assert (vs + [v])[..args.start] == vs[..args.start];
    } else {
      FilledPrefix(args, size, vs, v, k - 1);
    }
  }

  /** Storing in turn gives each parameter its slot. */
  lemma {:induction false} FilledAt(args: Args, size: nat, vs: seq<Value>, k: nat, i: nat)
    requires Checked(args, size) && k <= |args.params| && |vs| == args.start + |args.params| && i < size
    ensures var n := NamedAt(args.params, i, 0);
      Filled(args, size, vs, k)[i]
      == if i < args.start then vs[i] else if n < k then vs[args.start + n] else Invalid
  {
    if k == 0 {
    } else {
      FilledAt(args, size, vs, k - 1, i);
      if args.params[k - 1] == i {
        NamedIs(args.params, i, 0, k - 1);
      }
    }
  }

  lemma {:induction false} NamedIs(params: seq<nat>, i: nat, from: nat, k: nat)
    requires from <= k < |params| && params[k] == i
    requires forall l :: 0 <= l < k ==> params[l] != i
    ensures NamedAt(params, i, from) == k
    decreases k - from
  {
    if from == k {
    } else {
      NamedIs(params, i, from + 1, k);
    }
  }

  /** Storing a named value: the offset reaches exactly its parameter's slot. */
  lemma {:induction false} StoreCorrect(
    env: Env, args: Args, size: nat, k: nat, code: seq<Instr>, pc: nat, stack: seq<Value>, slots: seq<Value>, v: Value,
    log: seq<nat>)
    requires Checked(args, size) && k < |args.params| && |slots| == size
    requires At(code, pc, [STORE_BY_OFFSET(SlotOffset(args, k))])
    ensures Same(
      env, code, Running(pc, stack + slots + [v], log), Running(pc + 1, stack + slots[args.params[k] := v], log))
  {
    hide Run, At, Pop, Top;
    OffsetInRange(args, size, k);
    var full := stack + slots;
    PopTop(full, v);
    var ins := STORE_BY_OFFSET(SlotOffset(args, k));
    Execute(env, code, ins, pc, full + [v], log);
    assert full[|stack| + args.params[k] := v] == stack + slots[args.params[k] := v];
  }

  lemma {:induction false} NamedCorrect(
    env: Env, args: Args, size: nat, k: nat, code: seq<Instr>, base: nat, stack: seq<Value>, log0: seq<nat>)
    requires Checked(args, size) && AllHonest(env, args.nodes) && k <= |args.params|
    requires At(code, base, NamedCode(args, size, k, base))
    requires EvalArgs(env, args.nodes, args.start, log0).Values?
    ensures var first := EvalArgs(env, args.nodes, args.start, log0);
      var o := EvalArgs(env, args.nodes, args.start + k, log0);
      Leaves(env, code, Running(base, stack + Filled(args, size, first.vs, 0), first.log), o,
             base + |NamedCode(args, size, k, base)|,
             if o.Values? then stack + Filled(args, size, o.vs, k) else [])
  {
    hide Run, At, Gen, Eval, WellFormed, Honest;
    if k == 0 {
    } else {
      var c := NamedCode(args, size, k - 1, base);
      var n := args.start + k - 1;
      var g, p := Gen(args.nodes[n], base + |c|), base + |c|;
      AtSplit(code, base, c + g, [STORE_BY_OFFSET(SlotOffset(args, k - 1))]);
      AtSplit(code, base, c, g);
      NamedCorrect(env, args, size, k - 1, code, base, stack, log0);
      var o := EvalArgs(env, args.nodes, n, log0);
      if o.Values? {
        var slots := Filled(args, size, o.vs, k - 1);
        GenCorrect(env, args.nodes[n], code, p, stack + slots, o.log);
        var e := Eval(env, args.nodes[n], o.log);
        if e.Done? {
          StoreCorrect(env, args, size, k - 1, code, p + |g|, stack, slots, e.v, e.log);
          FilledPrefix(args, size, o.vs, e.v, k - 1);
        }
      }
    }
  }

  /** The code of a call's arguments evaluates them in source order and leaves one slot per parameter:
      its positional value, its named value, or the placeholder. */
  lemma {:induction false} ArgsCorrect(env: Env, args: Args, size: nat, code: seq<Instr>, base: nat, stack: seq<Value>, log: seq<nat>)
    requires Checked(args, size) && AllHonest(env, args.nodes) && At(code, base, GenArgs(args, size, base))
    ensures var o := EvalArgs(env, args.nodes, |args.nodes|, log);
      Leaves(env, code, Running(base, stack, log), o, base + |GenArgs(args, size, base)|,
             if o.Values? then stack + Slots(args, o.vs, size) else [])
  {
    hide Run, At, PositionalCode, NamedCode, EvalArgs, Filled, Slot;
    var p := PositionalCode(args.nodes, args.start, base);
    var q := base + |p| + args.noneCount;
    AtSplit(code, base, p + NoneCode(args.noneCount), NamedCode(args, size, |args.params|, q));
    AtSplit(code, base, p, NoneCode(args.noneCount));
    PositionalCorrect(env, args.nodes, args.start, code, base, stack, log);
    var first := EvalArgs(env, args.nodes, args.start, log);
    if first.Values? {
      NonesCorrect(env, args.noneCount, code, base + |p|, stack + first.vs, first.log);
      FilledStart(args, size, first.vs);
      assert stack + first.vs + Nones(args.noneCount) == stack + (first.vs + Nones(args.noneCount));
      NamedCorrect(env, args, size, |args.params|, code, q, stack, log);
      var o := EvalArgs(env, args.nodes, |args.nodes|, log);
      if o.Values? {
        FilledIsSlots(args, size, o.vs);
      }
    } else {
      FailureStays(env, args.nodes, args.start, |args.nodes|, log);
    }
  }

  lemma FilledStart(args: Args, size: nat, vs: seq<Value>)
    requires Checked(args, size) && |vs| == args.start
    ensures Filled(args, size, vs, 0) == vs + Nones(args.noneCount)
  {
  }

  lemma {:induction false} FilledIsSlots(args: Args, size: nat, vs: seq<Value>)
    requires Checked(args, size) && |vs| == args.start + |args.params|
    ensures Filled(args, size, vs, |args.params|) == Slots(args, vs, size)
  {
    forall i | 0 <= i < size ensures Filled(args, size, vs, |args.params|)[i] == Slots(args, vs, size)[i] {
      FilledAt(args, size, vs, |args.params|, i);
    }
  }

  /** After an error no further argument is evaluated. */
  lemma {:induction false} FailureStays(env: Env, nodes: seq<Node>, m: nat, n: nat, log: seq<nat>)
    requires m <= n <= |nodes| && EvalArgs(env, nodes, m, log).Failed?
    ensures EvalArgs(env, nodes, n, log) == EvalArgs(env, nodes, m, log)
  {
    if m == n {
    } else {
      FailureStays(env, nodes, m, n - 1, log);
    }
  }
}
