/** Code generation for strings, short-circuit operators and arguments (src/codegen.cpp). */
module Codegen {
  import opened CodeMachine

  predicate IsStrConcat(node: Node) {
    node.Add? && TypeOf(node.left) == TString
  }

  /** Nodes for which `visit` itself goes through `generateConcat`. */
  predicate Joined(node: Node) {
    node.StrExpr? || node.Add?
  }

  // ---------------------------------------------------------------- the code as a function

  /** The code of a node that starts at index `base`. */
  function Gen(node: Node, base: nat): seq<Instr>
    decreases node, if Joined(node) then 1 else 0
  {
    match node
    case StrLit(s) => [PUSH_STR(s)]
    case StrExpr(_) => GenConcat(node, false, base)
    case Add(_, _) => GenConcat(node, false, base)
    case Embed(e) => Gen(e, base)
    case And(l, r) =>
      var a := Gen(l, base);
      var b := Gen(r, base + |a| + 1);
      a + [BRANCH(|b| + 2)] + b + [GOTO(base + |a| + |b| + 3), PUSH_FALSE]
    case Or(l, r) =>
      var a := Gen(l, base);
      var b := Gen(r, base + |a| + 3);
      a + [BRANCH(3), PUSH_TRUE, GOTO(base + |a| + 3 + |b|)] + b
    case Coalesce(l, r) =>
      var a := Gen(l, base);
      var b := Gen(r, base + |a| + 1);
      a + [IF_NOT_INVALID(|b| + 1)] + b
    case Atom(id, _) => [CALL_ATOM(id)]
  }

  /** The code that pushes the node's text, or with `fragment` appends it to the text on the stack. */
  function GenConcat(node: Node, fragment: bool, base: nat): seq<Instr>
    decreases node, if Joined(node) then 0 else 1
  {
    match node
    case StrExpr(ps) =>
      if !fragment && !(ps.Then? && ps.part.StrLit?) then [PUSH_STR("")] + GenParts(ps, true, base + 1)
      else GenParts(ps, fragment, base)
    case Add(l, r) =>
      var a := GenConcat(l, fragment, base);
      a + GenConcat(r, true, base + |a|)
    case Embed(e) =>
      if IsStrConcat(e) || e.StrExpr? || e.StrLit? then GenConcat(e, fragment, base)
      else Gen(e, base) + [INTERPOLATE]
    case StrLit(s) =>
      if s == "" && fragment then [] else [PUSH_STR(s)] + if fragment then [CONCAT] else []
    case _ => Gen(node, base) + if fragment then [CONCAT] else []
  }

  function GenParts(ps: Parts, fragment: bool, base: nat): seq<Instr>
    decreases ps, 0
  {
    match ps
    case End => []
    case Then(p, rest) =>
      var a := GenConcat(p, fragment, base);
      a + GenParts(rest, true, base + |a|)
  }

  lemma {:induction false} AndCode(l: Node, r: Node, base: nat)
    ensures var a := Gen(l, base);
      var b := Gen(r, base + |a| + 1);
      Gen(And(l, r), base) == a + [BRANCH(|b| + 2)] + b + [GOTO(base + |a| + |b| + 3), PUSH_FALSE]
  {
    hide GenConcat, GenParts;
  }

  lemma {:induction false} OrCode(l: Node, r: Node, base: nat)
    ensures var a := Gen(l, base);
      var b := Gen(r, base + |a| + 3);
      Gen(Or(l, r), base) == a + [BRANCH(3), PUSH_TRUE, GOTO(base + |a| + 3 + |b|)] + b
  {
    hide GenConcat, GenParts;
  }

  lemma {:induction false} CoalesceCode(l: Node, r: Node, base: nat)
    ensures var a := Gen(l, base);
      var b := Gen(r, base + |a| + 1);
      Gen(Coalesce(l, r), base) == a + [IF_NOT_INVALID(|b| + 1)] + b
  {
    hide GenConcat, GenParts;
  }

  // ---------------------------------------------------------------- the generator

  /** The generator appends to the code; a label is patched into the instructions that name it when its
      place is marked. */
  class ByteCodeGenerator {
    var code: seq<Instr>

    constructor ()
      ensures code == []
    {
      code := [];
    }

    method Emit(ins: Instr)
      modifies this
      ensures code == old(code) + [ins]
    {
      code := code + [ins];
    }

    method Visit(node: Node)
      modifies this
      ensures code == old(code) + Gen(node, |old(code)|)
      decreases node, if Joined(node) then 2 else 1
    {
      match node
      case StrLit(s) => Emit(PUSH_STR(s));
      case StrExpr(_) => GenerateConcat(node, false);
      case Add(_, _) => GenerateConcat(node, false);
      case Embed(e) => Visit(e);
      case And(l, r) => VisitAnd(l, r);
      case Or(l, r) => VisitOr(l, r);
      case Coalesce(l, r) => VisitCoalesce(l, r);
      case Atom(id, _) => Emit(CALL_ATOM(id));
    }

    /** Writes a label's place into the instruction that refers to it. */
    method Patch(before: seq<Instr>, ins: Instr, after: seq<Instr>)
      requires |before| < |code| && code == before + [code[|before|]] + after
      modifies this
      ensures code == before + [ins] + after
    {
      code := code[|before| := ins];
    }

    method VisitAnd(l: Node, r: Node)
      modifies this
      ensures code == old(code) + Gen(And(l, r), |old(code)|)
      decreases And(l, r), 0
    {
      hide Gen;
      ghost var was := code;
      AndCode(l, r, |was|);
      Visit(l);
      var start := code;
      Emit(BRANCH(0));
      Visit(r);
      ghost var b := Gen(r, |start| + 1);
      var middle := code;
      Emit(GOTO(0));
      var jumped := code[|start| + 1..];
      assert jumped == b + [GOTO(0)];
      Patch(start, BRANCH(|code| - |start|), jumped);
      Emit(PUSH_FALSE);
      var front := code[..|middle|];
      assert front == start + [BRANCH(|b| + 2)] + b;
      Patch(front, GOTO(|code|), [PUSH_FALSE]);
      assert [GOTO(|code|)] + [PUSH_FALSE] == [GOTO(|code|), PUSH_FALSE];
    }

    method VisitOr(l: Node, r: Node)
      modifies this
      ensures code == old(code) + Gen(Or(l, r), |old(code)|)
      decreases Or(l, r), 0
    {
      hide Gen;
      ghost var was := code;
      OrCode(l, r, |was|);
      Visit(l);
      var start := code;
      Emit(BRANCH(0));
      Emit(PUSH_TRUE);
      Emit(GOTO(0));
      Patch(start, BRANCH(|code| - |start|), [PUSH_TRUE, GOTO(0)]);
      var front := code[..|start| + 2];
      assert front == start + [BRANCH(3), PUSH_TRUE];
      Visit(r);
      var right := code[|start| + 3..];
      assert right == Gen(r, |start| + 3);
      Patch(front, GOTO(|code|), right);
    }

    method VisitCoalesce(l: Node, r: Node)
      modifies this
      ensures code == old(code) + Gen(Coalesce(l, r), |old(code)|)
      decreases Coalesce(l, r), 0
    {
      hide Gen;
      ghost var was := code;
      CoalesceCode(l, r, |was|);
      Visit(l);
      var start := code;
      Emit(IF_NOT_INVALID(0));
      Visit(r);
      var right := code[|start| + 1..];
      assert right == Gen(r, |start| + 1);
      Patch(start, IF_NOT_INVALID(|code| - |start|), right);
    }

    method GenerateConcat(node: Node, fragment: bool)
      modifies this
      ensures code == old(code) + GenConcat(node, fragment, |old(code)|)
      decreases node, if Joined(node) then 1 else 2
    {
      if node.StrExpr? {
        var joining := fragment;
        if !fragment && !(node.parts.Then? && node.parts.part.StrLit?) {
          Emit(PUSH_STR(""));
          joining := true;
        }
        GenerateParts(node.parts, joining);
      } else if node.Add? {
        GenerateConcat(node.left, fragment);
        GenerateConcat(node.right, true);
      } else if node.Embed? {
        var e := node.expr;
        if IsStrConcat(e) || e.StrExpr? || e.StrLit? {
          GenerateConcat(e, fragment);
        } else {
          Visit(e);
          Emit(INTERPOLATE);
        }
      } else if !(node.StrLit? && node.s == "" && fragment) {
        Visit(node);
        if fragment {
          Emit(CONCAT);
        }
      }
    }

    method GenerateParts(ps: Parts, fragment: bool)
      modifies this
      ensures code == old(code) + GenParts(ps, fragment, |old(code)|)
      decreases ps, 0
    {
      if ps.Then? {
        GenerateConcat(ps.part, fragment);
        GenerateParts(ps.rest, true);
      }
    }
  }
}
