/** Generated code computes what the expression means. */
module CodegenCorrect {
  import opened CodeMachine
  import opened Codegen

  /** The code holds `part` from index `base` on. */
  predicate At(code: seq<Instr>, base: nat, part: seq<Instr>) {
    base + |part| <= |code| && code[base..base + |part|] == part
  }

  lemma {:induction false} AtSplit(code: seq<Instr>, base: nat, a: seq<Instr>, b: seq<Instr>)
    requires At(code, base, a + b)
    ensures At(code, base, a) && At(code, base + |a|, b)
  {
    var c := code[base..base + |a + b|];
    assert c[..|a|] == a && c[|a|..] == b;
  }

  /** Starting in `s` and starting in `t` come to the same end. */
  ghost predicate Same(env: Env, code: seq<Instr>, s: State, t: State) {
    Run(env, code, s) == Run(env, code, t)
  }

  lemma {:induction false} Execute(env: Env, code: seq<Instr>, ins: Instr, pc: nat, stack: seq<Value>, log: seq<nat>)
    requires At(code, pc, [ins])
    requires var t := Step(env, ins, pc, stack, log); t.Running? ==> pc < t.pc
    ensures Same(env, code, Running(pc, stack, log), Step(env, ins, pc, stack, log))
  {
    assert code[pc..pc + 1][0] == ins;
  }

  /** The run from `s` gives what the outcome says: the value pushed at `pc`, or the error. */
  ghost predicate Pushes(env: Env, code: seq<Instr>, s: State, o: Outcome, pc: nat, stack: seq<Value>) {
    match o
    case Done(v, log) => Same(env, code, s, Running(pc, stack + [v], log))
    case Raised(log) => Same(env, code, s, Thrown(log))
  }

  /** As `Pushes`, with the text of the value appended to the string on top of the stack. */
  ghost predicate Appends(
    env: Env, code: seq<Instr>, s: State, node: Node, o: Outcome, pc: nat, stack: seq<Value>, acc: string)
  {
    match o
    case Done(v, log) => Same(env, code, s, Running(pc, stack + [Str(acc + Text(env, node, v))], log))
    case Raised(log) => Same(env, code, s, Thrown(log))
  }

  // ---------------------------------------------------------------- types

  /** Evaluation gives a value of the expression's type. */
  lemma {:induction false} EvalTyped(env: Env, node: Node, log: seq<nat>)
    requires WellFormed(node) && Honest(env, node)
    ensures Eval(env, node, log).Done? ==> HasType(Eval(env, node, log).v, TypeOf(node))
  {
    match node
    case StrLit(_) =>
    case StrExpr(ps) => PartsGiveString(env, ps, log);
    case Add(_, _) =>
    case And(l, r) =>
      if Eval(env, l, log).Done? {
        EvalTyped(env, r, Eval(env, l, log).log);
      }
    case Or(l, r) =>
      if Eval(env, l, log).Done? {
        EvalTyped(env, r, Eval(env, l, log).log);
      }
    case Coalesce(l, r) =>
      EvalTyped(env, l, log);
      if Eval(env, l, log).Done? {
        EvalTyped(env, r, Eval(env, l, log).log);
      }
    case Atom(_, _) =>
  }

  lemma PartsGiveString(env: Env, ps: Parts, log: seq<nat>)
    ensures EvalParts(env, ps, log).Done? ==> EvalParts(env, ps, log).v.Str?
  {
  }

  lemma PopTop(stack: seq<Value>, v: Value)
    ensures Pop(stack + [v]) == stack && Top(stack + [v]) == v
  {
  }

  /** A false left side of `&&`, a true one of `||` and a value on the left of `??` decide alone; otherwise the
      right side does, evaluated after the left one. */
  lemma ShortCircuits(env: Env, l: Node, r: Node, log: seq<nat>)
    ensures match Eval(env, l, log)
      case Raised(log1) =>
        && Eval(env, And(l, r), log) == Raised(log1) && Eval(env, Or(l, r), log) == Raised(log1)
        && Eval(env, Coalesce(l, r), log) == Raised(log1) && Eval(env, Add(l, r), log) == Raised(log1)
      case Done(v, log1) =>
        && (v == Bool(false) ==>
              Eval(env, And(l, r), log) == Done(v, log1) && Eval(env, Or(l, r), log) == Eval(env, r, log1))
        && (v == Bool(true) ==>
              Eval(env, Or(l, r), log) == Done(v, log1) && Eval(env, And(l, r), log) == Eval(env, r, log1))
        && Eval(env, Coalesce(l, r), log) == (if v == Invalid then Eval(env, r, log1) else Done(v, log1))
  {
  }

  /** What stands in a string: a text as it is, an embedded value interpolated, another value as its text. */
  lemma {:induction false} PartReads(env: Env, e: Node, v: Value, log: seq<nat>, log1: seq<nat>)
    requires Eval(env, e, log) == Done(v, log1) && !e.Embed?
    ensures Eval(env, StrExpr(Then(Embed(e), End)), log) == Done(Str(if v.Str? then v.s else env.interp(v)), log1)
    ensures Eval(env, StrExpr(Then(e, End)), log) == Done(Str(if v.Str? then v.s else env.str(v)), log1)
    ensures Eval(env, Add(StrLit("x"), e), log) == Done(Str("x" + if v.Str? then v.s else env.str(v)), log1)
  {
    assert EvalParts(env, End, log1) == Done(Str(""), log1);
    assert InterpText(env, v) + "" == InterpText(env, v) && StrText(env, v) + "" == StrText(env, v);
    assert Eval(env, Embed(e), log) == Done(v, log1);
  }

  // ---------------------------------------------------------------- the main theorem

  /** The code of an expression, wherever it stands and whatever is on the stack, pushes exactly the
      expression's value, or raises its error, after evaluating the same atoms in the same order. */
  lemma {:induction false} GenCorrect(
    env: Env, node: Node, code: seq<Instr>, base: nat, stack: seq<Value>, log: seq<nat>)
    requires WellFormed(node) && Honest(env, node) && At(code, base, Gen(node, base))
    ensures Pushes(env, code, Running(base, stack, log), Eval(env, node, log), base + |Gen(node, base)|, stack)
    decreases node, if Joined(node) then 2 else 1
  {
    hide Run, At;
    match node
    case StrLit(s) => Execute(env, code, PUSH_STR(s), base, stack, log);
    case StrExpr(_) => PushCorrect(env, node, code, base, stack, log);
    case Add(_, _) => PushCorrect(env, node, code, base, stack, log);
    case And(l, r) => AndCorrect(env, l, r, code, base, stack, log);
    case Or(l, r) => OrCorrect(env, l, r, code, base, stack, log);
    case Coalesce(l, r) => CoalesceCorrect(env, l, r, code, base, stack, log);
    case Atom(id, _) => Execute(env, code, CALL_ATOM(id), base, stack, log);
  }

  lemma {:induction false} AndCorrect(
    env: Env, l: Node, r: Node, code: seq<Instr>, base: nat, stack: seq<Value>, log: seq<nat>)
    requires WellFormed(And(l, r)) && Honest(env, And(l, r)) && At(code, base, Gen(And(l, r), base))
    ensures Pushes(env, code, Running(base, stack, log), Eval(env, And(l, r), log), base + |Gen(And(l, r), base)|, stack)
    decreases And(l, r), 0
  {
    hide Run, At, Pop, Top, Gen;
    AndCode(l, r, base);
    var a := Gen(l, base);
    var p := base + |a|;
    var b := Gen(r, p + 1);
    var q := p + 1 + |b|;
    assert [GOTO(q + 2)] + [PUSH_FALSE] == [GOTO(q + 2), PUSH_FALSE];
    AtSplit(code, base, a + [BRANCH(|b| + 2)] + b, [GOTO(q + 2), PUSH_FALSE]);
    AtSplit(code, base, a + [BRANCH(|b| + 2)], b);
    AtSplit(code, base, a, [BRANCH(|b| + 2)]);
    AtSplit(code, q, [GOTO(q + 2)], [PUSH_FALSE]);
    GenCorrect(env, l, code, base, stack, log);
    EvalTyped(env, l, log);
    if Eval(env, l, log).Done? {
      var Done(v, log1) := Eval(env, l, log);
      PopTop(stack, v);
      Execute(env, code, BRANCH(|b| + 2), p, stack + [v], log1);
      if v.b {
        GenCorrect(env, r, code, p + 1, stack, log1);
        if Eval(env, r, log1).Done? {
          Execute(env, code, GOTO(q + 2), q, stack + [Eval(env, r, log1).v], Eval(env, r, log1).log);
        }
      } else {
        Execute(env, code, PUSH_FALSE, q + 1, stack, log1);
      }
    }
  }

  lemma {:induction false} OrCorrect(
    env: Env, l: Node, r: Node, code: seq<Instr>, base: nat, stack: seq<Value>, log: seq<nat>)
    requires WellFormed(Or(l, r)) && Honest(env, Or(l, r)) && At(code, base, Gen(Or(l, r), base))
    ensures Pushes(env, code, Running(base, stack, log), Eval(env, Or(l, r), log), base + |Gen(Or(l, r), base)|, stack)
    decreases Or(l, r), 0
  {
    hide Run, At, Pop, Top, Gen;
    OrCode(l, r, base);
    var a := Gen(l, base);
    var p := base + |a|;
    var b := Gen(r, p + 3);
    var end := p + 3 + |b|;
    assert [BRANCH(3)] + [PUSH_TRUE] + [GOTO(end)] == [BRANCH(3), PUSH_TRUE, GOTO(end)];
    AtSplit(code, base, a + [BRANCH(3), PUSH_TRUE, GOTO(end)], b);
    AtSplit(code, base, a, [BRANCH(3), PUSH_TRUE, GOTO(end)]);
    AtSplit(code, p, [BRANCH(3)] + [PUSH_TRUE], [GOTO(end)]);
    AtSplit(code, p, [BRANCH(3)], [PUSH_TRUE]);
    GenCorrect(env, l, code, base, stack, log);
    EvalTyped(env, l, log);
    if Eval(env, l, log).Done? {
      var Done(v, log1) := Eval(env, l, log);
      PopTop(stack, v);
      Execute(env, code, BRANCH(3), p, stack + [v], log1);
      if v.b {
        Execute(env, code, PUSH_TRUE, p + 1, stack, log1);
        Execute(env, code, GOTO(end), p + 2, stack + [Bool(true)], log1);
      } else {
        GenCorrect(env, r, code, p + 3, stack, log1);
      }
    }
  }

  lemma {:induction false} CoalesceCorrect(
    env: Env, l: Node, r: Node, code: seq<Instr>, base: nat, stack: seq<Value>, log: seq<nat>)
    requires WellFormed(Coalesce(l, r)) && Honest(env, Coalesce(l, r)) && At(code, base, Gen(Coalesce(l, r), base))
    ensures Pushes(
      env, code, Running(base, stack, log), Eval(env, Coalesce(l, r), log), base + |Gen(Coalesce(l, r), base)|, stack)
    decreases Coalesce(l, r), 0
  {
    hide Run, At, Pop, Top, Gen;
    CoalesceCode(l, r, base);
    var a := Gen(l, base);
    var p := base + |a|;
    var b := Gen(r, p + 1);
    AtSplit(code, base, a + [IF_NOT_INVALID(|b| + 1)], b);
    AtSplit(code, base, a, [IF_NOT_INVALID(|b| + 1)]);
    GenCorrect(env, l, code, base, stack, log);
    if Eval(env, l, log).Done? {
      var Done(v, log1) := Eval(env, l, log);
      PopTop(stack, v);
      Execute(env, code, IF_NOT_INVALID(|b| + 1), p, stack + [v], log1);
      if v.Invalid? {
        GenCorrect(env, r, code, p + 1, stack, log1);
      }
    }
  }

  // ---------------------------------------------------------------- string concatenation

  /** Without an accumulator, the code pushes the value. */
  lemma {:induction false} PushCorrect(
    env: Env, node: Node, code: seq<Instr>, base: nat, stack: seq<Value>, log: seq<nat>)
    requires WellFormed(node) && Honest(env, node) && TypeOf(node) == TString
    requires At(code, base, GenConcat(node, false, base))
    ensures Pushes(env, code, Running(base, stack, log), Eval(env, node, log), base + |GenConcat(node, false, base)|, stack)
    decreases node, if Joined(node) then 1 else 2
  {
    hide Run, At;
    if node.StrExpr? {
      StrExprCorrect(env, node.parts, code, base, stack, log);
    } else if node.Add? {
      AddCorrect(env, node.left, node.right, code, base, stack, log);
    } else {
      assert GenConcat(node, false, base) == Gen(node, base);
      GenCorrect(env, node, code, base, stack, log);
    }
  }

  lemma {:induction false} AddCorrect(
    env: Env, l: Node, r: Node, code: seq<Instr>, base: nat, stack: seq<Value>, log: seq<nat>)
    requires WellFormed(Add(l, r)) && Honest(env, Add(l, r)) && At(code, base, GenConcat(Add(l, r), false, base))
    ensures Pushes(
      env, code, Running(base, stack, log), Eval(env, Add(l, r), log), base + |GenConcat(Add(l, r), false, base)|, stack)
    decreases Add(l, r), 0
  {
    hide Run, At;
    var a := GenConcat(l, false, base);
    var p := base + |a|;
    AtSplit(code, base, a, GenConcat(r, true, p));
    PushCorrect(env, l, code, base, stack, log);
    EvalTyped(env, l, log);
    if Eval(env, l, log).Done? {
      var Done(v, log1) := Eval(env, l, log);
      AppendCorrect(env, r, code, p, stack, v.s, log1);
    }
  }

  lemma {:induction false} StrExprCorrect(
    env: Env, ps: Parts, code: seq<Instr>, base: nat, stack: seq<Value>, log: seq<nat>)
    requires PartsWellFormed(ps) && PartsHonest(env, ps) && At(code, base, GenConcat(StrExpr(ps), false, base))
    ensures Pushes(
      env, code, Running(base, stack, log), EvalParts(env, ps, log), base + |GenConcat(StrExpr(ps), false, base)|, stack)
    decreases StrExpr(ps), 0
  {
    hide Run, At;
    if ps.Then? && ps.part.StrLit? {
      var s := ps.part.s;
      assert GenConcat(ps.part, false, base) == [PUSH_STR(s)];
      AtSplit(code, base, [PUSH_STR(s)], GenParts(ps.rest, true, base + 1));
      Execute(env, code, PUSH_STR(s), base, stack, log);
      AppendPartsCorrect(env, ps.rest, code, base + 1, stack, s, log);
    } else {
      AtSplit(code, base, [PUSH_STR("")], GenParts(ps, true, base + 1));
      Execute(env, code, PUSH_STR(""), base, stack, log);
      AppendPartsCorrect(env, ps, code, base + 1, stack, "", log);
      PartsGiveString(env, ps, log);
      if EvalParts(env, ps, log).Done? {
        var w := EvalParts(env, ps, log).v;
        assert "" + w.s == w.s;
      }
    }
  }

  /** With an accumulator below, the code appends the text of the node to it. */
  lemma {:induction false} AppendCorrect(
    env: Env, node: Node, code: seq<Instr>, base: nat, stack: seq<Value>, acc: string, log: seq<nat>)
    requires WellFormed(if node.Embed? then node.expr else node) && Honest(env, node)
    requires At(code, base, GenConcat(node, true, base))
    ensures Appends(
      env, code, Running(base, stack + [Str(acc)], log), node, Eval(env, node, log),
      base + |GenConcat(node, true, base)|, stack, acc)
    decreases node, 4
  {
    hide Run, At;
    match node
    case StrExpr(ps) => AppendPartsCorrect(env, ps, code, base, stack, acc, log);
    case Add(l, r) => AppendAddCorrect(env, l, r, code, base, stack, acc, log);
    case Embed(e) => AppendEmbedCorrect(env, e, code, base, stack, acc, log);
    case StrLit(s) =>
      if s != "" {
        assert [PUSH_STR(s)] + [CONCAT] == GenConcat(node, true, base);
        AppendValueCorrect(env, node, CONCAT, code, base, stack, acc, log);
      } else {
        assert acc + s == acc;
      }
    case _ => AppendValueCorrect(env, node, CONCAT, code, base, stack, acc, log);
  }

  lemma {:induction false} AppendAddCorrect(
    env: Env, l: Node, r: Node, code: seq<Instr>, base: nat, stack: seq<Value>, acc: string, log: seq<nat>)
    requires WellFormed(Add(l, r)) && Honest(env, Add(l, r)) && At(code, base, GenConcat(Add(l, r), true, base))
    ensures Appends(
      env, code, Running(base, stack + [Str(acc)], log), Add(l, r), Eval(env, Add(l, r), log),
      base + |GenConcat(Add(l, r), true, base)|, stack, acc)
    decreases Add(l, r), 0
  {
    hide Run, At;
    var a := GenConcat(l, true, base);
    var p := base + |a|;
    AtSplit(code, base, a, GenConcat(r, true, p));
    AppendCorrect(env, l, code, base, stack, acc, log);
    EvalTyped(env, l, log);
    if Eval(env, l, log).Done? {
      var Done(v, log1) := Eval(env, l, log);
      AppendCorrect(env, r, code, p, stack, acc + v.s, log1);
      if Eval(env, r, log1).Done? {
        var w := Eval(env, r, log1).v;
        assert acc + v.s + Text(env, r, w) == acc + (v.s + Text(env, r, w));
      }
    }
  }

  lemma {:induction false} AppendEmbedCorrect(
    env: Env, e: Node, code: seq<Instr>, base: nat, stack: seq<Value>, acc: string, log: seq<nat>)
    requires WellFormed(e) && Honest(env, e) && At(code, base, GenConcat(Embed(e), true, base))
    ensures Appends(
      env, code, Running(base, stack + [Str(acc)], log), Embed(e), Eval(env, e, log),
      base + |GenConcat(Embed(e), true, base)|, stack, acc)
    decreases Embed(e), 3
  {
    hide Run, At;
    if IsStrConcat(e) || e.StrExpr? || e.StrLit? {
      AppendCorrect(env, e, code, base, stack, acc, log);
      EvalTyped(env, e, log);
    } else {
      AppendValueCorrect(env, Embed(e), INTERPOLATE, code, base, stack, acc, log);
    }
  }

  /** The value is computed above the accumulator and then appended to it. */
  lemma {:induction false} AppendValueCorrect(
    env: Env, node: Node, join: Instr, code: seq<Instr>, base: nat, stack: seq<Value>, acc: string, log: seq<nat>)
    requires join == if node.Embed? then INTERPOLATE else CONCAT
    requires WellFormed(if node.Embed? then node.expr else node) && Honest(env, node) && !Joined(node)
    requires At(code, base, Gen(node, base) + [join])
    ensures Appends(
      env, code, Running(base, stack + [Str(acc)], log), node, Eval(env, node, log), base + |Gen(node, base)| + 1, stack, acc)
    decreases node, 2
  {
    hide Run, At, Pop, Top;
    var g := Gen(node, base);
    AtSplit(code, base, g, [join]);
    GenCorrect(env, if node.Embed? then node.expr else node, code, base, stack + [Str(acc)], log);
    if Eval(env, node, log).Done? {
      var Done(v, log1) := Eval(env, node, log);
      PopTop(stack + [Str(acc)], v);
      PopTop(stack, Str(acc));
      Execute(env, code, join, base + |g|, stack + [Str(acc)] + [v], log1);
    }
  }

  lemma {:induction false} AppendPartsCorrect(
    env: Env, ps: Parts, code: seq<Instr>, base: nat, stack: seq<Value>, acc: string, log: seq<nat>)
    requires PartsWellFormed(ps) && PartsHonest(env, ps) && At(code, base, GenParts(ps, true, base))
    ensures Appends(
      env, code, Running(base, stack + [Str(acc)], log), StrExpr(ps), EvalParts(env, ps, log),
      base + |GenParts(ps, true, base)|, stack, acc)
    decreases ps, 0
  {
    hide Run, At;
    match ps
    case End => assert acc + "" == acc;
    case Then(p, rest) =>
      var a := GenConcat(p, true, base);
      AtSplit(code, base, a, GenParts(rest, true, base + |a|));
      AppendCorrect(env, p, code, base, stack, acc, log);
      if Eval(env, p, log).Done? {
        var Done(v, log1) := Eval(env, p, log);
        var t := Text(env, p, v);
        AppendPartsCorrect(env, rest, code, base + |a|, stack, acc + t, log1);
        if EvalParts(env, rest, log1).Done? {
          var w := EvalParts(env, rest, log1).v;
          assert acc + t + StrText(env, w) == acc + (t + StrText(env, w));
        }
      }
  }

  // ---------------------------------------------------------------- a whole program

  /** Run on its own, the generated code ends with exactly one value, or with the error; in particular
      it never gets stuck, so an interpolation always finds a string to append to. */
  lemma {:induction false} ProgramCorrect(env: Env, node: Node)
    requires WellFormed(node) && Honest(env, node)
    ensures Run(env, Gen(node, 0), Running(0, [], []))
         == match Eval(env, node, [])
            case Done(v, log) => Running(|Gen(node, 0)|, [v], log)
            case Raised(log) => Thrown(log)
  {
    hide Gen, Eval;
    var code := Gen(node, 0);
    assert At(code, 0, code);
    GenCorrect(env, node, code, 0, [], []);
    if Eval(env, node, []).Done? {
      assert [] + [Eval(env, node, []).v] == [Eval(env, node, []).v];
    }
  }
}
