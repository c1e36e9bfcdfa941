/** The expressions that are compiled, their meaning, and the stack machine that runs the code
    (src/codegen.cpp, src/vm.cpp). */
module CodeMachine {
  import opened Wrappers

  datatype Value = Str(s: string) | Bool(b: bool) | Invalid | Other(n: int)

  datatype Type = TString | TBool | TOption(element: Type) | TAny

  /** A node of the syntax tree. `Atom` is any other expression of a known type. */
  datatype Node =
    | StrLit(s: string)
    | StrExpr(parts: Parts)
    | Embed(expr: Node)
    | Add(left: Node, right: Node)
    | And(left: Node, right: Node)
    | Or(left: Node, right: Node)
    | Coalesce(left: Node, right: Node)
    | Atom(id: nat, ty: Type)

  datatype Parts = End | Then(part: Node, rest: Parts)

  /** The outside world: what evaluating an atom gives after a history of evaluations (nothing when it
      raises), and how a value reads as text, appended or interpolated. */
  datatype Env = Env(
    call: (nat, seq<nat>) -> Option<Value>,
    str: Value -> string,
    interp: Value -> string)

  // ---------------------------------------------------------------- types

  predicate HasType(v: Value, ty: Type) {
    match ty
    case TString => v.Str?
    case TBool => v.Bool?
    case TOption(t) => v.Invalid? || HasType(v, t)
    case TAny => true
  }

  predicate Subtype(a: Type, b: Type) { a == b || b == TAny }

  function TypeOf(node: Node): Type {
    match node
    case StrLit(_) => TString
    case StrExpr(_) => TString
    case Add(_, _) => TString
    case Embed(e) => TypeOf(e)
    case And(_, _) => TBool
    case Or(_, _) => TBool
    case Coalesce(l, _) => (match TypeOf(l) case TOption(t) => t case _ => TAny)
    case Atom(_, ty) => ty
  }

  /** What the parser and the type checker guarantee: an embed occurs only as a part of a string
      expression, `+` has a string on its left, `&&` and `||` have booleans, `??` an option. */
  predicate WellFormed(node: Node) {
    match node
    case StrLit(_) => true
    case StrExpr(ps) => PartsWellFormed(ps)
    case Embed(_) => false
    case Add(l, r) => WellFormed(l) && WellFormed(r) && TypeOf(l) == TString
    case And(l, r) => WellFormed(l) && WellFormed(r) && TypeOf(l) == TBool && TypeOf(r) == TBool
    case Or(l, r) => WellFormed(l) && WellFormed(r) && TypeOf(l) == TBool && TypeOf(r) == TBool
    case Coalesce(l, r) =>
      WellFormed(l) && WellFormed(r) && TypeOf(l).TOption? && Subtype(TypeOf(r), TypeOf(l).element)
    case Atom(_, _) => true
  }

  predicate PartsWellFormed(ps: Parts) {
    match ps
    case End => true
    case Then(p, rest) => WellFormed(if p.Embed? then p.expr else p) && PartsWellFormed(rest)
  }

  /** Atoms give values of their type. */
  ghost predicate Honest(env: Env, node: Node) {
    match node
    case StrLit(_) => true
    case StrExpr(ps) => PartsHonest(env, ps)
    case Embed(e) => Honest(env, e)
    case Add(l, r) => Honest(env, l) && Honest(env, r)
    case And(l, r) => Honest(env, l) && Honest(env, r)
    case Or(l, r) => Honest(env, l) && Honest(env, r)
    case Coalesce(l, r) => Honest(env, l) && Honest(env, r)
    case Atom(id, ty) => forall log :: env.call(id, log).Some? ==> HasType(env.call(id, log).value, ty)
  }

  ghost predicate PartsHonest(env: Env, ps: Parts) {
    match ps
    case End => true
    case Then(p, rest) => Honest(env, p) && PartsHonest(env, rest)
  }

  // ---------------------------------------------------------------- the meaning of an expression

  /** The value and the history of evaluated atoms; a raised error keeps the history up to it. */
  datatype Outcome = Done(v: Value, log: seq<nat>) | Raised(log: seq<nat>)

  function StrText(env: Env, v: Value): string { if v.Str? then v.s else env.str(v) }

  function InterpText(env: Env, v: Value): string { if v.Str? then v.s else env.interp(v) }

  /** How a node's value reads inside a string. */
  function Text(env: Env, node: Node, v: Value): string {
    if node.Embed? then InterpText(env, v) else StrText(env, v)
  }

  function Eval(env: Env, node: Node, log: seq<nat>): Outcome {
    match node
    case StrLit(s) => Done(Str(s), log)
    case StrExpr(ps) => EvalParts(env, ps, log)
    case Embed(e) => Eval(env, e, log)
    case Add(l, r) =>
      (match Eval(env, l, log)
       case Raised(log1) => Raised(log1)
       case Done(v, log1) =>
         match Eval(env, r, log1)
         case Raised(log2) => Raised(log2)
         case Done(w, log2) => Done(Str(StrText(env, v) + Text(env, r, w)), log2))
    case And(l, r) =>
      (match Eval(env, l, log)
       case Raised(log1) => Raised(log1)
       case Done(v, log1) => if v == Bool(true) then Eval(env, r, log1) else Done(Bool(false), log1))
    case Or(l, r) =>
      (match Eval(env, l, log)
       case Raised(log1) => Raised(log1)
       case Done(v, log1) => if v == Bool(true) then Done(Bool(true), log1) else Eval(env, r, log1))
    case Coalesce(l, r) =>
      (match Eval(env, l, log)
       case Raised(log1) => Raised(log1)
       case Done(v, log1) => if v.Invalid? then Eval(env, r, log1) else Done(v, log1))
    case Atom(id, _) =>
      match env.call(id, log)
      case Some(v) => Done(v, log + [id])
      case None => Raised(log + [id])
  }

  /** The texts of the parts, one after the other. */
  function EvalParts(env: Env, ps: Parts, log: seq<nat>): Outcome {
    match ps
    case End => Done(Str(""), log)
    case Then(p, rest) =>
      match Eval(env, p, log)
      case Raised(log1) => Raised(log1)
      case Done(v, log1) =>
        match EvalParts(env, rest, log1)
        case Raised(log2) => Raised(log2)
        case Done(w, log2) => Done(Str(Text(env, p, v) + StrText(env, w)), log2)
  }

  // ---------------------------------------------------------------- the machine

  datatype Instr =
    | PUSH_STR(s: string)
    | PUSH_TRUE
    | PUSH_FALSE
    | PUSH_INVALID
    | CONCAT
    | INTERPOLATE
    | BRANCH(offset: nat)
    | IF_NOT_INVALID(offset: nat)
    | GOTO(target: nat)
    | CALL_ATOM(id: nat)
    | STORE_BY_OFFSET(slot: nat)

  datatype State = Running(pc: nat, stack: seq<Value>, log: seq<nat>) | Thrown(log: seq<nat>) | Stuck

  function Pop(stack: seq<Value>): seq<Value>
    requires stack != []
  {
    stack[..|stack| - 1]
  }

  function Top(stack: seq<Value>): Value
    requires stack != []
  {
    stack[|stack| - 1]
  }

  /** Appends a text to the value on top; there has to be one, and it has to be a string. */
  function Append(pc: nat, stack: seq<Value>, text: string, log: seq<nat>): State {
    if stack == [] || !Top(stack).Str? then Stuck
    else Running(pc + 1, Pop(stack) + [Str(Top(stack).s + text)], log)
  }

  function Step(env: Env, ins: Instr, pc: nat, stack: seq<Value>, log: seq<nat>): State {
    match ins
    case PUSH_STR(s) => Running(pc + 1, stack + [Str(s)], log)
    case PUSH_TRUE => Running(pc + 1, stack + [Bool(true)], log)
    case PUSH_FALSE => Running(pc + 1, stack + [Bool(false)], log)
    case PUSH_INVALID => Running(pc + 1, stack + [Invalid], log)
    case CONCAT =>
      if stack == [] then Stuck else Append(pc, Pop(stack), StrText(env, Top(stack)), log)
    case INTERPOLATE =>
      if stack == [] then Stuck else Append(pc, Pop(stack), InterpText(env, Top(stack)), log)
    case BRANCH(offset) =>
      if stack == [] || !Top(stack).Bool? then Stuck
      else Running(if Top(stack).b then pc + 1 else pc + offset, Pop(stack), log)
    case IF_NOT_INVALID(offset) =>
      if stack == [] then Stuck
      else if Top(stack).Invalid? then Running(pc + 1, Pop(stack), log)
      else Running(pc + offset, stack, log)
    case GOTO(target) => Running(target, stack, log)
    case CALL_ATOM(id) =>
      (match env.call(id, log)
       case Some(v) => Running(pc + 1, stack + [v], log + [id])
       case None => Thrown(log + [id]))
    case STORE_BY_OFFSET(slot) =>
      if |stack| < 2 || slot > |stack| - 2 then Stuck
      else Running(pc + 1, Pop(stack)[|stack| - 2 - slot := Top(stack)], log)
  }

  /** Runs to the end of the code. A jump that does not go forward counts as stuck. */
  function Run(env: Env, code: seq<Instr>, s: State): State
    decreases if s.Running? then |code| - s.pc else 0
  {
    if !s.Running? || s.pc >= |code| then s
    else
      var next := Step(env, code[s.pc], s.pc, s.stack, s.log);
      if next.Running? && next.pc <= s.pc then Stuck
      else if !next.Running? then next
      else Run(env, code, next)
  }
}
