/** The directory stack (src/cmd_dirs.cpp). */
module DirStack {
  import opened Wrappers
  import opened Decimal

  const LIMIT := 255

  function Reverse(s: seq<string>): seq<string> {
    if s == [] then [] else [s[|s| - 1]] + Reverse(s[..|s| - 1])
  }

  /** What `dirs` shows: the current directory, then the stack from its top. */
  function Shown(cwd: string, stack: seq<string>): seq<string> {
    [cwd] + Reverse(stack)
  }

  /** The list turned so that entry `n` comes first. */
  function Rotated(s: seq<string>, n: nat): seq<string>
    requires n <= |s|
  {
    s[n..] + s[..n]
  }

  function RemovedAt(s: seq<string>, n: nat): seq<string>
    requires n < |s|
  {
    s[..n] + s[n + 1..]
  }

  lemma {:induction false} ReverseConcat(a: seq<string>, b: seq<string>)
    ensures Reverse(a + b) == Reverse(b) + Reverse(a)
  {
    if b == [] {
      assert a + b == a;
    } else {
      assert (a + b)[..|a + b| - 1] == a + b[..|b| - 1];
      ReverseConcat(a, b[..|b| - 1]);
    }
  }

  lemma {:induction false} ReverseElements(s: seq<string>)
    ensures |Reverse(s)| == |s| && multiset(Reverse(s)) == multiset(s)
  {
    if s == [] {
    } else {
      ReverseElements(s[..|s| - 1]);
      assert s == s[..|s| - 1] + [s[|s| - 1]];
    }
  }

  lemma ReverseOne(x: string)
    ensures Reverse([x]) == [x]
  {
  }

  // ---------------------------------------------------------------- the operand

  /** An operand of `pushd` and `popd`; `index` counts in the stack from its bottom, and its size stands
      for the current directory. */
  datatype Operand = Index(index: nat) | Other | BadNumber | OutOfRange

  function Resolve(dest: string, size: nat): Operand {
    if dest != "" && (dest[0] == '+' || dest[0] == '-') then
      match ParseU64(dest[1..])
      case None => BadNumber
      case Some(n) =>
        if n > size then OutOfRange else if dest[0] == '-' then Index(n) else Index(size - n)
    else Other
  }

  /** The entry of the shown list that an index selects. */
  function ShownIndex(size: nat, index: nat): nat
    requires index <= size
  {
    size - index
  }

  /** `+N` is entry N of the shown list, `-N` entry N counted from its end. */
  lemma OperandSelects(dest: string, size: nat)
    requires Resolve(dest, size).Index?
    ensures dest != "" && (dest[0] == '+' || dest[0] == '-') && ParseU64(dest[1..]).Some?
    ensures Resolve(dest, size).index <= size
    ensures var n := ParseU64(dest[1..]).value;
      ShownIndex(size, Resolve(dest, size).index) == if dest[0] == '+' then n else size - n
  {
  }

  lemma {:induction false} ShownAt(cwd: string, stack: seq<string>, i: nat)
    requires i < |stack|
    ensures Shown(cwd, stack) == [cwd] + Reverse(stack[i + 1..]) + [stack[i]] + Reverse(stack[..i])
    ensures |Reverse(stack[i + 1..])| == |stack| - i - 1 && |Shown(cwd, stack)| == |stack| + 1
  {
    hide Reverse;
    assert stack == stack[..i] + ([stack[i]] + stack[i + 1..]);
    ReverseConcat(stack[..i], [stack[i]] + stack[i + 1..]);
    ReverseConcat([stack[i]], stack[i + 1..]);
    ReverseOne(stack[i]);
    ReverseElements(stack[i + 1..]);
    ReverseElements(stack);
  }

  // ---------------------------------------------------------------- the commands

  /** The outcome of changing the directory: where the shell is then, or nothing. */
  type ChangeDir = string -> Option<string>

  datatype Status = OK | INVALID_NUMBER | INDEX_OUT_OF_RANGE | LIMIT_REACHED | NO_OTHER | EMPTY | CANNOT_CHANGE

  /** A stack over the limit loses its top entries before anything else happens. */
  function Truncated(s: seq<string>): seq<string> {
    if |s| > LIMIT then s[..LIMIT] else s
  }

  /** What is cut off is the top; a stack within the limit stays whole. */
  lemma TruncatedIs(s: seq<string>)
    ensures |Truncated(s)| <= 255 && Truncated(s) == s[..|Truncated(s)|]
    ensures |s| <= 255 ==> Truncated(s) == s
    ensures |s| > 255 ==> |Truncated(s)| == 255
  {
  }

  /** The stack after the rotation that takes entry `i` out to become the current directory. */
  function Turned(cwd: string, stack: seq<string>, i: nat): seq<string>
    requires i < |stack|
  {
    stack[i + 1..] + [cwd] + stack[..i]
  }

  /** Turning the stack is turning the shown list, so no directory is lost or added. */
  lemma {:induction false} TurnedIsRotation(cwd: string, stack: seq<string>, i: nat)
    requires i < |stack|
    ensures |Shown(cwd, stack)| == |stack| + 1
    ensures Shown(stack[i], Turned(cwd, stack, i)) == Rotated(Shown(cwd, stack), ShownIndex(|stack|, i))
    ensures Shown(cwd, stack)[ShownIndex(|stack|, i)] == stack[i]
    ensures multiset(Shown(stack[i], Turned(cwd, stack, i))) == multiset(Shown(cwd, stack))
  {
    hide Reverse;
    ShownAt(cwd, stack, i);
    var above, below := Reverse(stack[i + 1..]), Reverse(stack[..i]);
    ReverseConcat(stack[i + 1..] + [cwd], stack[..i]);
    ReverseConcat(stack[i + 1..], [cwd]);
    ReverseOne(cwd);
    var front := [cwd] + above;
    assert Shown(cwd, stack) == front + ([stack[i]] + below);
    assert Shown(stack[i], Turned(cwd, stack, i)) == ([stack[i]] + below) + front;
    assert |front| == ShownIndex(|stack|, i);
  }

  /** Turning by nothing is no change. */
  lemma RotatedNone(s: seq<string>)
    ensures Rotated(s, 0) == s
  {
  }

  class Dirs {
    var cwd: string
    var stack: seq<string>

    constructor (cwd: string, stack: seq<string>)
      ensures this.cwd == cwd && this.stack == stack
    {
      this.cwd, this.stack := cwd, stack;
    }

    /** Changes the directory, unless that fails. */
    method Change(dest: string, cd: ChangeDir) returns (ok: bool)
      modifies this`cwd
      ensures ok == cd(dest).Some?
      ensures cwd == match cd(dest) case Some(d) => d case None => old(cwd)
    {
      ok := cd(dest).Some?;
      if ok {
        cwd := cd(dest).value;
      }
    }

    /** Turns the stack in place, one entry at a time. */
    method Turn(from: string, index: nat)
      requires index < |stack|
      modifies this`stack
      ensures stack == Turned(from, old(stack), index)
    {
      ghost var was := stack;
      var limit := |stack|;
      stack := [from] + stack;
      var count := index + 1;
      ghost var moved := 0;
      while count < limit
        invariant index + 1 <= count <= limit && moved == count - (index + 1)
        invariant stack == was[limit - moved..] + [from] + was[..limit - moved]
      {
        var top := stack[|stack| - 1];
        stack := [top] + stack[..|stack| - 1];
        moved := moved + 1;
        count := count + 1;
        assert was[limit - moved..] == [was[limit - moved]] + was[limit - moved + 1..];
        assert was[..limit - moved + 1] == was[..limit - moved] + [was[limit - moved]];
      }
      assert was[..index + 1] == was[..index] + [was[index]];
      stack := stack[..|stack| - 1];
    }

    /** `pushd`: with an index it turns the shown list, with a directory it goes there and keeps the old
        one, without operand it swaps the first two entries shown. */
    method Pushd(operand: Option<string>, cd: ChangeDir) returns (status: Status)
      modifies this
      ensures status == PushdStatus(operand, Truncated(old(stack)), cd)
      ensures status != OK ==> cwd == old(cwd) && stack == Truncated(old(stack))
      ensures
        var s := Truncated(old(stack));
        var sel := Selected(operand, |s|);
        status == OK && sel.Index? && (sel.index < |s| ==> cd(s[sel.index]) == Some(s[sel.index])) ==>
          && sel.index <= |s| && |Shown(old(cwd), s)| == |s| + 1
          && Shown(cwd, stack) == Rotated(Shown(old(cwd), s), ShownIndex(|s|, sel.index))
      ensures status == OK ==> Pushed(operand, old(cwd), Truncated(old(stack)), cd, cwd, stack)
    {
      hide Resolve, Shown, Rotated, Turned;
      if |stack| > LIMIT {
        stack := stack[..LIMIT];
      }
      var sel := Selected(operand, |stack|);
      IndexInRange(operand, |stack|);
      var from := cwd;
      if sel.BadNumber? {
        return INVALID_NUMBER;
      }
      if sel.OutOfRange? {
        return INDEX_OUT_OF_RANGE;
      }
      if sel.Index? {
        var i := sel.index;
        ShownTurns(from, stack, i);
        if i < |stack| {
          var ok := Change(stack[i], cd);
          if !ok {
            return CANNOT_CHANGE;
          }
          Turn(from, i);
        }
      } else {
        if operand.Some? {
          if |stack| + 1 > LIMIT {
            return LIMIT_REACHED;
          }
          var ok := Change(operand.value, cd);
          if !ok {
            return CANNOT_CHANGE;
          }
        } else {
          if |stack| == 0 {
            return NO_OTHER;
          }
          var ok := Change(stack[|stack| - 1], cd);
          if !ok {
            return CANNOT_CHANGE;
          }
          stack := stack[..|stack| - 1];
        }
        stack := stack + [from];
      }
      return OK;
    }

    /** `popd`: takes the selected entry out of the shown list; where that is the current directory, the
        next one becomes current. */
    method Popd(operand: Option<string>, cd: ChangeDir) returns (status: Status)
      modifies this
      ensures status == PopdStatus(operand, Truncated(old(stack)), cd)
      ensures status != OK ==> cwd == old(cwd) && stack == Truncated(old(stack))
      ensures status == OK ==> Popped(operand, old(cwd), Truncated(old(stack)), cd, cwd, stack)
    {
      hide Resolve;
      if |stack| > LIMIT {
        stack := stack[..LIMIT];
      }
      var sel := Selected(operand, |stack|);
      if sel.BadNumber? {
        return INVALID_NUMBER;
      }
      if sel.OutOfRange? {
        return INDEX_OUT_OF_RANGE;
      }
      if |stack| == 0 {
        return EMPTY;
      }
      if sel.Index? && sel.index < |stack| {
        stack := stack[..sel.index] + stack[sel.index + 1..];
      } else {
        var ok := Change(stack[|stack| - 1], cd);
        if !ok {
          return CANNOT_CHANGE;
        }
        stack := stack[..|stack| - 1];
      }
      return OK;
    }
  }

  /** The directory and the stack after a `pushd` that succeeded. */
  ghost predicate Pushed(
    operand: Option<string>, was: string, s: seq<string>, cd: ChangeDir, cwd: string, stack: seq<string>)
  {
    var sel := Selected(operand, |s|);
    if sel.Index? then
      if sel.index < |s| then Some(cwd) == cd(s[sel.index]) && stack == Turned(was, s, sel.index)
      else cwd == was && stack == s
    else if operand.Some? then Some(cwd) == cd(operand.value) && stack == s + [was] && |stack| <= LIMIT
    else s != [] && Some(cwd) == cd(s[|s| - 1]) && stack == s[..|s| - 1] + [was]
  }

  /** The directory and the stack after a `popd` that succeeded. */
  ghost predicate Popped(
    operand: Option<string>, was: string, s: seq<string>, cd: ChangeDir, cwd: string, stack: seq<string>)
  {
    var sel := Selected(operand, |s|);
    && s != []
    && if sel.Index? && sel.index < |s| then cwd == was && stack == s[..sel.index] + s[sel.index + 1..]
      else Some(cwd) == cd(s[|s| - 1]) && stack == s[..|s| - 1]
  }

  function Selected(operand: Option<string>, size: nat): Operand {
    match operand
    case Some(dest) => Resolve(dest, size)
    case None => Other
  }

  lemma IndexInRange(operand: Option<string>, size: nat)
    ensures Selected(operand, size).Index? ==> Selected(operand, size).index <= size
  {
  }

  lemma {:induction false} ShownTurns(cwd: string, stack: seq<string>, i: nat)
    requires i <= |stack|
    ensures |Shown(cwd, stack)| == |stack| + 1
    ensures i < |stack| ==>
      Shown(stack[i], Turned(cwd, stack, i)) == Rotated(Shown(cwd, stack), ShownIndex(|stack|, i))
    ensures i == |stack| ==> Shown(cwd, stack) == Rotated(Shown(cwd, stack), ShownIndex(|stack|, i))
  {
    ReverseElements(stack);
    RotatedNone(Shown(cwd, stack));
    if i < |stack| {
      TurnedIsRotation(cwd, stack, i);
    }
  }

  /** When `pushd` refuses, and why. */
  function PushdStatus(operand: Option<string>, s: seq<string>, cd: ChangeDir): Status {
    match Selected(operand, |s|)
    case BadNumber => INVALID_NUMBER
    case OutOfRange => INDEX_OUT_OF_RANGE
    case Index(i) => if i < |s| && cd(s[i]).None? then CANNOT_CHANGE else OK
    case Other =>
      match operand
      case Some(dest) =>
        if |s| + 1 > LIMIT then LIMIT_REACHED else if cd(dest).None? then CANNOT_CHANGE else OK
      case None =>
        if s == [] then NO_OTHER else if cd(s[|s| - 1]).None? then CANNOT_CHANGE else OK
  }

  /** When `popd` refuses, and why. */
  function PopdStatus(operand: Option<string>, s: seq<string>, cd: ChangeDir): Status {
    var sel := Selected(operand, |s|);
    if sel.BadNumber? then INVALID_NUMBER
    else if sel.OutOfRange? then INDEX_OUT_OF_RANGE
    else if s == [] then EMPTY
    else if !(sel.Index? && sel.index < |s|) && cd(s[|s| - 1]).None? then CANNOT_CHANGE
    else OK
  }

  /** An operand that starts with a sign counts: `+N` from the front of the shown list, `-N` from its end. */
  predicate Counts(operand: Option<string>) {
    operand.Some? && operand.value != "" && (operand.value[0] == '+' || operand.value[0] == '-')
  }

  function Counted(operand: Option<string>): Option<nat>
    requires Counts(operand)
  {
    ParseU64(operand.value[1..])
  }

  /** The place in the shown list that is counted off. */
  function Place(operand: Option<string>, size: nat): int
    requires Counts(operand) && Counted(operand).Some?
  {
    if operand.value[0] == '+' then Counted(operand).value else size - Counted(operand).value
  }

  function Going(dest: string, cd: ChangeDir): Status {
    if cd(dest).Some? then OK else CANNOT_CHANGE
  }

  /** `pushd` refuses a bad number, a place outside of the list, a directory too many, the missing second
      entry, and a directory that cannot be entered; and nothing else. */
  lemma {:induction false} PushdAnswers(operand: Option<string>, s: seq<string>, cd: ChangeDir)
    ensures var status := PushdStatus(operand, s, cd);
      if Counts(operand) then
        if Counted(operand).None? then status == INVALID_NUMBER
        else if Counted(operand).value > |s| then status == INDEX_OUT_OF_RANGE
        else if Place(operand, |s|) == 0 then status == OK
        else status == Going(s[|s| - Place(operand, |s|)], cd)
      else if operand.Some? then
        if |s| < 255 then status == Going(operand.value, cd) else status == LIMIT_REACHED
      else if s != [] then status == Going(s[|s| - 1], cd)
      else status == NO_OTHER
  {
    hide ParseU64;
  }

  /** `popd` refuses a bad number, a place outside of the list, an empty stack, and a directory below the
      current one that cannot be entered; and nothing else. */
  lemma {:induction false} PopdAnswers(operand: Option<string>, s: seq<string>, cd: ChangeDir)
    ensures var status := PopdStatus(operand, s, cd);
      if Counts(operand) && Counted(operand).None? then status == INVALID_NUMBER
      else if Counts(operand) && Counted(operand).value > |s| then status == INDEX_OUT_OF_RANGE
      else if s == [] then status == EMPTY
      else if Counts(operand) && Place(operand, |s|) > 0 then status == OK
      else status == Going(s[|s| - 1], cd)
  {
    hide ParseU64;
  }

  /** `popd` takes exactly the selected entry out of the shown list. */
  lemma {:induction false} PopRemoves(cwd: string, stack: seq<string>, i: nat)
    requires i < |stack|
    ensures |Shown(cwd, stack)| == |stack| + 1
    ensures Shown(cwd, stack[..i] + stack[i + 1..]) == RemovedAt(Shown(cwd, stack), ShownIndex(|stack|, i))
    ensures var n := |stack| - 1; Shown(stack[n], stack[..n]) == RemovedAt(Shown(cwd, stack), 0)
  {
    ShownAt(cwd, stack, i);
    ReverseConcat(stack[..i], stack[i + 1..]);
    var above, below := Reverse(stack[i + 1..]), Reverse(stack[..i]);
    var front := [cwd] + above;
    assert Shown(cwd, stack) == front + [stack[i]] + below;
    assert |front| == ShownIndex(|stack|, i);
    assert Shown(cwd, stack)[|front| + 1..] == below;
    assert Shown(cwd, stack)[1..] == Reverse(stack);
  }
}
