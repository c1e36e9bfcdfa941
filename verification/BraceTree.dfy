/** Brace words as trees. The well-nested token lists are exactly the flattened trees, and what the
    machine lists for one is the left-to-right product of its alternatives. */
module BraceTree {
  import opened BraceRange
  import opened BraceTokens
  import opened BraceSpec
  import BraceExpansion

  datatype Word = End | Then(head: Node, tail: Word)
  datatype Node = Piece(v: Value) | Sequence(r: Range) | Braces(first: Word, others: Others)
  datatype Others = NoMore | Or(body: Word, rest: Others)

  // ---------------------------------------------------------------- flattening

  function Size(w: Word): nat {
    match w
    case End => 0
    case Then(Piece(_), t) => Size(t)
    case Then(Sequence(_), t) => 1 + Size(t)
    case Then(Braces(f, os), t) => 1 + Size(f) + OthersSize(os) + Size(t)
  }

  function OthersSize(os: Others): nat {
    match os
    case NoMore => 0
    case Or(w, rest) => Size(w) + OthersSize(rest)
  }

  /** The tokens of a word whose first brace gets number `id`. */
  function Tokens(w: Word, id: nat): seq<Token> {
    match w
    case End => []
    case Then(Piece(v), t) => [Plain(v)] + Tokens(t, id)
    case Then(Sequence(r), t) => [SeqOpen(id), Bounds(r), SeqClose(id)] + Tokens(t, id + 1)
    case Then(Braces(f, os), t) =>
      ([Open(id)] + Tokens(f, id + 1)) + (OtherTokens(os, id, id + 1 + Size(f)) + ([Close(id)]
      + Tokens(t, id + 1 + Size(f) + OthersSize(os))))
  }

  function OtherTokens(os: Others, b: nat, next: nat): seq<Token> {
    match os
    case NoMore => []
    case Or(w, rest) => ([Sep(b)] + Tokens(w, next)) + OtherTokens(rest, b, next + Size(w))
  }

  ghost predicate RangesOk(w: Word) {
    match w
    case End => true
    case Then(Piece(_), t) => RangesOk(t)
    case Then(Sequence(r), t) => RangeOk(r) && RangesOk(t)
    case Then(Braces(f, os), t) => RangesOk(f) && OtherRangesOk(os) && RangesOk(t)
  }

  ghost predicate OtherRangesOk(os: Others) {
    match os
    case NoMore => true
    case Or(w, rest) => RangesOk(w) && OtherRangesOk(rest)
  }

  // ---------------------------------------------------------------- expansion

  /** Every list of `xs`, in order, followed by every list of `ys`. */
  function Product(xs: seq<Fragments>, ys: seq<Fragments>): seq<Fragments> {
    if xs == [] then [] else Prepend(xs[0], ys) + Product(xs[1..], ys)
  }

  function Singles(vs: seq<int64>, r: Range): seq<Fragments> {
    if vs == [] then [] else [[Number(vs[0], r)]] + Singles(vs[1..], r)
  }

  /** The left-to-right product of the alternatives. */
  ghost function Expand(w: Word): seq<Fragments>
    requires RangesOk(w)
  {
    match w
    case End => [[]]
    case Then(Piece(v), t) => Product([[v]], Expand(t))
    case Then(Sequence(r), t) => Product(Singles(Values(r), r), Expand(t))
    case Then(Braces(f, os), t) => Product(Expand(f) + ExpandOthers(os), Expand(t))
  }

  ghost function ExpandOthers(os: Others): seq<Fragments>
    requires OtherRangesOk(os)
  {
    match os
    case NoMore => []
    case Or(w, rest) => Expand(w) + ExpandOthers(rest)
  }

  lemma {:induction false} ProductCons(x: Fragments, xs: seq<Fragments>, zs: seq<Fragments>)
    ensures Product([x] + xs, zs) == Prepend(x, zs) + Product(xs, zs)
  {
    assert ([x] + xs)[1..] == xs;
  }

  lemma {:induction false} ProductAppend(xs: seq<Fragments>, ys: seq<Fragments>, zs: seq<Fragments>)
    ensures Product(xs + ys, zs) == Product(xs, zs) + Product(ys, zs)
  {
    hide Prepend, Product;
    if xs == [] {
      ProductNone(zs);
      assert xs + ys == ys;
    } else {
      var x, rest := xs[0], xs[1..];
      ProductAppend(rest, ys, zs);
      ProductCons(x, rest, zs);
      ProductCons(x, rest + ys, zs);
      assert xs == [x] + rest && xs + ys == [x] + (rest + ys);
    }
  }

  lemma ProductNone(zs: seq<Fragments>)
    ensures Product([], zs) == []
  {
  }

  lemma {:induction false} PrependProduct(p: Fragments, ys: seq<Fragments>, zs: seq<Fragments>)
    ensures Prepend(p, Product(ys, zs)) == Product(Prepend(p, ys), zs)
  {
    if ys == [] {
    } else {
      PrependProduct(p, ys[1..], zs);
      PrependAppend(p, Prepend(ys[0], zs), Product(ys[1..], zs));
      PrependPrepend(p, ys[0], zs);
      assert Prepend(p, ys)[1..] == Prepend(p, ys[1..]);
    }
  }

  lemma {:induction false} ProductAssociative(xs: seq<Fragments>, ys: seq<Fragments>, zs: seq<Fragments>)
    ensures Product(xs, Product(ys, zs)) == Product(Product(xs, ys), zs)
  {
    if xs == [] {
    } else {
      ProductAssociative(xs[1..], ys, zs);
      PrependProduct(xs[0], ys, zs);
      ProductAppend(Prepend(xs[0], ys), Product(xs[1..], ys), zs);
    }
  }

  lemma {:induction false} ProductUnit(ys: seq<Fragments>)
    ensures Product([[]], ys) == ys
  {
    PrependEmpty(ys);
    var one: seq<Fragments> := [[]];
    assert Product(one[1..], ys) == [];
  }

  lemma {:induction false} SeqRunIsProduct(vs: seq<int64>, r: Range, ys: seq<Fragments>)
    ensures SeqRun(vs, r, ys) == Product(Singles(vs, r), ys)
  {
    if vs == [] {
    } else {
      SeqRunIsProduct(vs[1..], r, ys);
      assert Singles(vs, r)[1..] == Singles(vs[1..], r);
    }
  }

  // ---------------------------------------------------------------- a word inside a token list

  predicate Holds(ts: seq<Token>, i: nat, part: seq<Token>) {
    i + |part| <= |ts| && ts[i..i + |part|] == part
  }

  lemma {:induction false} HoldsSplit(ts: seq<Token>, i: nat, a: seq<Token>, b: seq<Token>)
    requires Holds(ts, i, a + b)
    ensures Holds(ts, i, a) && Holds(ts, i + |a|, b)
  {
    var ab := ts[i..i + |a + b|];
    assert ab[..|a|] == a && ab[|a|..] == b;
    assert ts[i..i + |a|] == ab[..|a|];
    assert ts[i + |a|..i + |a| + |b|] == ab[|a|..];
  }

  lemma HoldsJoin(ts: seq<Token>, i: nat, a: seq<Token>, b: seq<Token>)
    requires Holds(ts, i, a) && Holds(ts, i + |a|, b)
    ensures Holds(ts, i, a + b)
  {
  }

  lemma {:induction false} HoldsHead(ts: seq<Token>, i: nat, t: Token, rest: seq<Token>)
    requires Holds(ts, i, [t] + rest)
    ensures i < |ts| && ts[i] == t && Holds(ts, i + 1, rest)
  {
    HoldsSplit(ts, i, [t], rest);
    assert ts[i..i + 1][0] == ts[i];
  }

  /** The braces of a word have numbers of their own. */
  lemma {:induction false} NoForeignMark(w: Word, id: nat, b: nat)
    requires b < id
    ensures forall k :: 0 <= k < |Tokens(w, id)| ==> !IsMark(Tokens(w, id)[k], b)
    decreases w
  {
    match w
    case End =>
    case Then(Piece(v), t) =>
      NoForeignMark(t, id, b);
    case Then(Sequence(r), t) =>
      NoForeignMark(t, id + 1, b);
    case Then(Braces(f, os), t) =>
      NoForeignMark(f, id + 1, b);
      NoForeignMarks(os, id, id + 1 + Size(f), b);
      NoForeignMark(t, id + 1 + Size(f) + OthersSize(os), b);
  }

  lemma {:induction false} NoForeignMarks(os: Others, own: nat, next: nat, b: nat)
    requires b < own < next
    ensures forall k :: 0 <= k < |OtherTokens(os, own, next)| ==> !IsMark(OtherTokens(os, own, next)[k], b)
    decreases os
  {
    match os
    case NoMore =>
    case Or(w, rest) =>
      NoForeignMark(w, next, b);
      NoForeignMarks(rest, own, next + Size(w), b);
  }

  lemma {:induction false} NoEarlyClose(os: Others, b: nat, next: nat)
    requires b < next
    ensures forall k :: 0 <= k < |OtherTokens(os, b, next)| ==> OtherTokens(os, b, next)[k] != Close(b)
    decreases os
  {
    match os
    case NoMore =>
    case Or(w, rest) =>
      NoForeignMark(w, next, b);
      NoEarlyClose(rest, b, next + Size(w));
  }

  /** The first mark behind a word is the token that follows it. */
  lemma {:induction false} MarkBehind(ts: seq<Token>, i: nat, w: Word, id: nat, b: nat)
    requires b < id && Holds(ts, i, Tokens(w, id))
    requires var p := i + |Tokens(w, id)|; p < |ts| && IsMark(ts[p], b)
    ensures FindMark(ts, i, b) == i + |Tokens(w, id)|
  {
    hide Tokens;
    var part := Tokens(w, id);
    NoForeignMark(w, id, b);
    forall p | i <= p < i + |part|
      ensures !IsMark(ts[p], b)
    {
      assert ts[p] == ts[i..i + |part|][p - i];
    }
    FindMarkSkips(ts, i, i + |part|, b);
  }

  lemma {:induction false} CloseBehind(ts: seq<Token>, p: nat, os: Others, b: nat, next: nat)
    requires b < next && Holds(ts, p, OtherTokens(os, b, next))
    requires var q := p + |OtherTokens(os, b, next)|; q < |ts| && ts[q] == Close(b)
    ensures FindClose(ts, p, b) == p + |OtherTokens(os, b, next)|
  {
    hide OtherTokens;
    var part := OtherTokens(os, b, next);
    NoEarlyClose(os, b, next);
    forall k | p <= k < p + |part|
      ensures ts[k] != Close(b)
    {
      assert ts[k] == ts[p..p + |part|][k - p];
    }
    FindCloseSkips(ts, p, p + |part|, b);
  }

  /** The end of an alternative continues behind the brace. */
  lemma {:induction false} LeavesBrace(ts: seq<Token>, p: nat, os: Others, b: nat, next: nat)
    requires b < next && Holds(ts, p, OtherTokens(os, b, next))
    requires var q := p + |OtherTokens(os, b, next)|; q < |ts| && ts[q] == Close(b)
    ensures p < |ts| && IsMark(ts[p], b)
    ensures Run(ts, p) == Run(ts, p + |OtherTokens(os, b, next)| + 1)
  {
    CloseBehind(ts, p, os, b, next);
    if os.Or? {
      assert OtherTokens(os, b, next)[0] == Sep(b);
      assert ts[p] == ts[p..p + |OtherTokens(os, b, next)|][0];
    }
  }

  // ---------------------------------------------------------------- the recursive reading is the product

  /** From the start of a word, the recursive reading lists the word's product in front of what follows. */
  lemma {:induction false} RunWord(ts: seq<Token>, i: nat, w: Word, id: nat)
    requires RangesOk(w) && Holds(ts, i, Tokens(w, id))
    ensures Run(ts, i) == Product(Expand(w), Run(ts, i + |Tokens(w, id)|))
    decreases w, 1
  {
    hide Run, Product;
    match w
    case End =>
      ProductUnit(Run(ts, i));
    case Then(Piece(v), t) =>
      RunPiece(ts, i, v, t, id);
    case Then(Sequence(r), t) =>
      RunSequence(ts, i, r, t, id);
    case Then(Braces(f, os), t) =>
      RunBraces(ts, i, f, os, t, id);
  }

  lemma {:induction false} RunPiece(ts: seq<Token>, i: nat, v: Value, t: Word, id: nat)
    requires RangesOk(t) && Holds(ts, i, Tokens(Then(Piece(v), t), id))
    ensures var w := Then(Piece(v), t); Run(ts, i) == Product(Expand(w), Run(ts, i + |Tokens(w, id)|))
    decreases Then(Piece(v), t), 0
  {
    hide Run, After, Holds, Product;
    HoldsHead(ts, i, Plain(v), Tokens(t, id));
    RunWord(ts, i + 1, t, id);
    ProductAssociative([[v]], Expand(t), Run(ts, i + 1 + |Tokens(t, id)|));
    PieceProduct(v, Run(ts, i + 1));
    RunPlain(ts, i);
  }

  lemma {:induction false} RunSequence(ts: seq<Token>, i: nat, r: Range, t: Word, id: nat)
    requires RangeOk(r) && RangesOk(t) && Holds(ts, i, Tokens(Then(Sequence(r), t), id))
    ensures var w := Then(Sequence(r), t); Run(ts, i) == Product(Expand(w), Run(ts, i + |Tokens(w, id)|))
    decreases Then(Sequence(r), t), 0
  {
    hide Run, After, Holds, Product, Values, Singles, SeqRun;
    HoldsSplit(ts, i, [SeqOpen(id), Bounds(r), SeqClose(id)], Tokens(t, id + 1));
    SeqTokens(ts, i, id, r);
    RunWord(ts, i + 3, t, id + 1);
    RunSeq(ts, i);
    SeqRunIsProduct(Values(r), r, Run(ts, i + 3));
    ProductAssociative(Singles(Values(r), r), Expand(t), Run(ts, i + 3 + |Tokens(t, id + 1)|));
  }

  lemma RunPlain(ts: seq<Token>, i: nat)
    requires i < |ts| && ts[i].Plain?
    ensures Run(ts, i) == Prepend([ts[i].v], Run(ts, i + 1))
  {
  }

  lemma RunSeq(ts: seq<Token>, i: nat)
    requires i + 3 <= |ts| && ts[i].SeqOpen? && ts[i + 1].Bounds? && ts[i + 1].r.Valid()
    ensures Run(ts, i) == SeqRun(Values(ts[i + 1].r), ts[i + 1].r, Run(ts, i + 3))
  {
  }

  lemma {:induction false} RunBraces(ts: seq<Token>, i: nat, f: Word, os: Others, t: Word, id: nat)
    requires var w := Then(Braces(f, os), t); RangesOk(w) && Holds(ts, i, Tokens(w, id))
    ensures var w := Then(Braces(f, os), t); Run(ts, i) == Product(Expand(w), Run(ts, i + |Tokens(w, id)|))
    decreases Then(Braces(f, os), t), 0
  {
    hide Run, After, Tokens, OtherTokens, Product, FindMark, FindClose, Size, OthersSize, RangesOk, OtherRangesOk,
      Expand, ExpandOthers;
    BracesUnfold(f, os, t);
    var end, next := i + |Tokens(Then(Braces(f, os), t), id)|, id + 1 + Size(f);
    var p, q := BraceParts(ts, i, f, os, t, id);
    RunWord(ts, i + 1, f, id + 1);
    LeavesBrace(ts, p, os, id, next);
    MarkBehind(ts, i + 1, f, id + 1, id);
    RunOthers(ts, p, os, id, next, q);
    RunWord(ts, q + 1, t, next + OthersSize(os));
    RunOpen(ts, i, id);
    ProductAppend(Expand(f), ExpandOthers(os), Run(ts, q + 1));
    ProductAssociative(Expand(f) + ExpandOthers(os), Expand(t), Run(ts, end));
  }

  lemma BracesUnfold(f: Word, os: Others, t: Word)
    ensures var w := Then(Braces(f, os), t);
      && Size(w) == 1 + Size(f) + OthersSize(os) + Size(t)
      && (RangesOk(w) ==> RangesOk(f) && OtherRangesOk(os) && RangesOk(t)
                          && Expand(w) == Product(Expand(f) + ExpandOthers(os), Expand(t)))
  {
  }

  lemma RunOpen(ts: seq<Token>, i: nat, b: nat)
    requires i < |ts| && ts[i] == Open(b)
    ensures Run(ts, i) == Run(ts, i + 1) + After(ts, FindMark(ts, i + 1, b))
  {
  }

  lemma RunSep(ts: seq<Token>, p: nat, b: nat)
    requires p < |ts| && ts[p] == Sep(b)
    ensures After(ts, p) == Run(ts, p + 1) + After(ts, FindMark(ts, p + 1, b))
  {
  }

  lemma PieceProduct(v: Value, ys: seq<Fragments>)
    ensures Product([[v]], ys) == Prepend([v], ys)
  {
  }

  lemma SeqTokens(ts: seq<Token>, i: nat, id: nat, r: Range)
    requires Holds(ts, i, [SeqOpen(id), Bounds(r), SeqClose(id)])
    ensures i + 3 <= |ts| && ts[i] == SeqOpen(id) && ts[i + 1] == Bounds(r) && ts[i + 2] == SeqClose(id)
  {
  }

  /** Where the parts of a brace lie: `p` behind its first alternative, `q` at its closer. */
  lemma {:induction false} BraceParts(ts: seq<Token>, i: nat, f: Word, os: Others, t: Word, id: nat) returns (p: nat, q: nat)
    requires Holds(ts, i, Tokens(Then(Braces(f, os), t), id))
    ensures p == i + 1 + |Tokens(f, id + 1)| && q == p + |OtherTokens(os, id, id + 1 + Size(f))|
    ensures q < |ts| && ts[i] == Open(id) && ts[q] == Close(id)
    ensures Holds(ts, i + 1, Tokens(f, id + 1)) && Holds(ts, p, OtherTokens(os, id, id + 1 + Size(f)))
    ensures Holds(ts, q + 1, Tokens(t, id + 1 + Size(f) + OthersSize(os)))
    ensures i + |Tokens(Then(Braces(f, os), t), id)| == q + 1 + |Tokens(t, id + 1 + Size(f) + OthersSize(os))|
  {
    hide Tokens, OtherTokens, Size, OthersSize, Holds;
    var tf, to, tt := Tokens(f, id + 1), OtherTokens(os, id, id + 1 + Size(f)), Tokens(t, id + 1 + Size(f) + OthersSize(os));
    BracesTokens(f, os, t, id);
    p := i + 1 + |tf|;
    q := p + |to|;
    HoldsSplit(ts, i, [Open(id)] + tf, to + ([Close(id)] + tt));
    HoldsHead(ts, i, Open(id), tf);
    HoldsSplit(ts, p, to, [Close(id)] + tt);
    HoldsHead(ts, q, Close(id), tt);
  }

  lemma {:induction false} RunOthers(ts: seq<Token>, p: nat, os: Others, b: nat, next: nat, q: nat)
    requires OtherRangesOk(os) && b < next && Holds(ts, p, OtherTokens(os, b, next))
    requires q == p + |OtherTokens(os, b, next)| && q < |ts| && ts[q] == Close(b)
    ensures After(ts, p) == Product(ExpandOthers(os), Run(ts, q + 1))
    decreases os, 1
  {
    if os.Or? {
      RunOther(ts, p, os, b, next, q);
    }
  }

  lemma {:induction false} RunOther(ts: seq<Token>, p: nat, os: Others, b: nat, next: nat, q: nat)
    requires os.Or? && OtherRangesOk(os) && b < next && Holds(ts, p, OtherTokens(os, b, next))
    requires q == p + |OtherTokens(os, b, next)| && q < |ts| && ts[q] == Close(b)
    ensures After(ts, p) == Product(ExpandOthers(os), Run(ts, q + 1))
    decreases os, 0
  {
    hide Run, After, Holds, Tokens, OtherTokens, Product, FindMark, FindClose;
    var w, rest := os.body, os.rest;
    var p' := OrParts(ts, p, w, rest, b, next);
    RunWord(ts, p + 1, w, next);
    LeavesBrace(ts, p', rest, b, next + Size(w));
    MarkBehind(ts, p + 1, w, next, b);
    RunOthers(ts, p', rest, b, next + Size(w), q);
    RunSep(ts, p, b);
    ProductAppend(Expand(w), ExpandOthers(rest), Run(ts, q + 1));
  }

  lemma {:induction false} OrParts(ts: seq<Token>, p: nat, w: Word, rest: Others, b: nat, next: nat) returns (p': nat)
    requires Holds(ts, p, OtherTokens(Or(w, rest), b, next))
    ensures p' == p + 1 + |Tokens(w, next)| && p < |ts| && ts[p] == Sep(b)
    ensures Holds(ts, p + 1, Tokens(w, next)) && Holds(ts, p', OtherTokens(rest, b, next + Size(w)))
    ensures p + |OtherTokens(Or(w, rest), b, next)| == p' + |OtherTokens(rest, b, next + Size(w))|
  {
    hide Tokens, Holds;
    var tw, tr := Tokens(w, next), OtherTokens(rest, b, next + Size(w));
    HoldsSplit(ts, p, [Sep(b)] + tw, tr);
    HoldsHead(ts, p, Sep(b), tw);
    p' := p + 1 + |tw|;
  }

  // ---------------------------------------------------------------- well-nested lists are the flattened words

  ghost predicate NestedFrom(ts: seq<Token>, i: nat, j: nat)
    requires j <= |ts|
  {
    forall k :: i <= k < j ==> NestedAt(ts, k)
  }

  lemma {:induction false} WordNested(ts: seq<Token>, i: nat, w: Word, id: nat)
    requires RangesOk(w) && Holds(ts, i, Tokens(w, id)) && Opens(ts, i) == id
    ensures var j := i + |Tokens(w, id)|;
      NestedFrom(ts, i, j) && Opens(ts, j) == id + Size(w) && Enclosing(ts, j) == Enclosing(ts, i)
    decreases w, 1
  {
    match w
    case End =>
    case Then(Piece(v), t) =>
      HoldsHead(ts, i, Plain(v), Tokens(t, id));
      WordNested(ts, i + 1, t, id);
    case Then(Sequence(r), t) =>
      SequencesNested(ts, i, r, t, id);
    case Then(Braces(f, os), t) =>
      BracesNested(ts, i, f, os, t, id);
  }

  lemma {:induction false} SequenceNested(ts: seq<Token>, i: nat, id: nat, r: Range)
    requires i + 3 <= |ts| && ts[i] == SeqOpen(id) && ts[i + 1] == Bounds(r) && ts[i + 2] == SeqClose(id)
    requires Opens(ts, i) == id && RangeOk(r)
    ensures NestedFrom(ts, i, i + 3) && Opens(ts, i + 3) == id + 1 && Enclosing(ts, i + 3) == Enclosing(ts, i)
  {
    assert Opens(ts, i + 1) == Opens(ts, i + 2) == Opens(ts, i + 3) == id + 1;
    assert Enclosing(ts, i + 1) == Enclosing(ts, i + 2) == Enclosing(ts, i + 3);
  }

  lemma {:induction false} SequencesNested(ts: seq<Token>, i: nat, r: Range, t: Word, id: nat)
    requires RangeOk(r) && RangesOk(t) && Holds(ts, i, Tokens(Then(Sequence(r), t), id)) && Opens(ts, i) == id
    ensures var w := Then(Sequence(r), t);
      var j := i + |Tokens(w, id)|;
      NestedFrom(ts, i, j) && Opens(ts, j) == id + Size(w) && Enclosing(ts, j) == Enclosing(ts, i)
    decreases Then(Sequence(r), t), 0
  {
    hide Opens, Enclosing, NestedAt, Holds;
    HoldsSplit(ts, i, [SeqOpen(id), Bounds(r), SeqClose(id)], Tokens(t, id + 1));
    SeqTokens(ts, i, id, r);
    SequenceNested(ts, i, id, r);
    WordNested(ts, i + 3, t, id + 1);
  }

  lemma OpenNested(ts: seq<Token>, i: nat, id: nat)
    requires i < |ts| && ts[i] == Open(id) && Opens(ts, i) == id
    ensures NestedAt(ts, i) && Opens(ts, i + 1) == id + 1 && Enclosing(ts, i + 1) == Enclosing(ts, i) + [id]
  {
  }

  lemma CloseNested(ts: seq<Token>, q: nat, e: seq<nat>, id: nat)
    requires q < |ts| && ts[q] == Close(id) && Enclosing(ts, q) == e + [id]
    ensures NestedAt(ts, q) && Opens(ts, q + 1) == Opens(ts, q) && Enclosing(ts, q + 1) == e
  {
  }

  lemma SepNested(ts: seq<Token>, p: nat, id: nat)
    requires p < |ts| && ts[p] == Sep(id)
    requires Enclosing(ts, p) != [] && Enclosing(ts, p)[|Enclosing(ts, p)| - 1] == id
    ensures NestedAt(ts, p) && Opens(ts, p + 1) == Opens(ts, p) && Enclosing(ts, p + 1) == Enclosing(ts, p)
  {
  }

  lemma {:induction false} BracesNested(ts: seq<Token>, i: nat, f: Word, os: Others, t: Word, id: nat)
    requires var w := Then(Braces(f, os), t); RangesOk(w) && Holds(ts, i, Tokens(w, id)) && Opens(ts, i) == id
    ensures var w := Then(Braces(f, os), t);
      var j := i + |Tokens(w, id)|;
      NestedFrom(ts, i, j) && Opens(ts, j) == id + Size(w) && Enclosing(ts, j) == Enclosing(ts, i)
    decreases Then(Braces(f, os), t), 0
  {
    hide Opens, Enclosing, NestedAt, Holds, Tokens, OtherTokens, Size, OthersSize, RangesOk, OtherRangesOk;
    BracesUnfold(f, os, t);
    var next := id + 1 + Size(f);
    var p, q := BraceParts(ts, i, f, os, t, id);
    OpenNested(ts, i, id);
    WordNested(ts, i + 1, f, id + 1);
    OthersNested(ts, p, os, id, next);
    CloseNested(ts, q, Enclosing(ts, i), id);
    WordNested(ts, q + 1, t, next + OthersSize(os));
  }

  lemma {:induction false} OthersNested(ts: seq<Token>, p: nat, os: Others, b: nat, next: nat)
    requires OtherRangesOk(os) && Holds(ts, p, OtherTokens(os, b, next)) && Opens(ts, p) == next
    requires Enclosing(ts, p) != [] && Enclosing(ts, p)[|Enclosing(ts, p)| - 1] == b
    ensures var q := p + |OtherTokens(os, b, next)|;
      NestedFrom(ts, p, q) && Opens(ts, q) == next + OthersSize(os) && Enclosing(ts, q) == Enclosing(ts, p)
    decreases os, 1
  {
    if os.Or? {
      OtherNested(ts, p, os, b, next);
    }
  }

  lemma {:induction false} OtherNested(ts: seq<Token>, p: nat, os: Others, b: nat, next: nat)
    requires os.Or? && OtherRangesOk(os) && Holds(ts, p, OtherTokens(os, b, next)) && Opens(ts, p) == next
    requires Enclosing(ts, p) != [] && Enclosing(ts, p)[|Enclosing(ts, p)| - 1] == b
    ensures var q := p + |OtherTokens(os, b, next)|;
      NestedFrom(ts, p, q) && Opens(ts, q) == next + OthersSize(os) && Enclosing(ts, q) == Enclosing(ts, p)
    decreases os, 0
  {
    hide Opens, Enclosing, NestedAt, Holds, Tokens, OtherTokens;
    var w, rest := os.body, os.rest;
    var p' := OrParts(ts, p, w, rest, b, next);
    SepNested(ts, p, b);
    WordNested(ts, p + 1, w, next);
    OthersNested(ts, p', rest, b, next + Size(w));
  }

  /** Flattening a word gives a well-nested list, and reading it lists the word's product. */
  lemma {:induction false} FlattenedWord(w: Word)
    requires RangesOk(w)
    ensures WellNested(Tokens(w, 0))
    ensures Run(Tokens(w, 0), 0) == Expand(w)
  {
    hide Tokens, Product, Run, NestedAt;
    var ts := Tokens(w, 0);
    assert ts[0..0 + |ts|] == ts;
    WordNested(ts, 0, w, 0);
    RunWord(ts, 0, w, 0);
    RunAtEnd(ts);
    ProductLastUnit(Expand(w));
  }

  lemma RunAtEnd(ts: seq<Token>)
    ensures Run(ts, |ts|) == [[]]
  {
  }

  lemma {:induction false} ProductLastUnit(xs: seq<Fragments>)
    ensures Product(xs, [[]]) == xs
  {
    if xs == [] {
    } else {
      ProductLastUnit(xs[1..]);
      assert xs[0] + [] == xs[0];
      assert Prepend(xs[0], [[]]) == [xs[0]];
    }
  }

  /** Reads a word from position `i` up to the end or to a mark of the brace around it. */
  lemma {:induction false} ParseWord(ts: seq<Token>, i: nat) returns (w: Word)
    requires WellNested(ts) && i <= |ts| && (i < |ts| ==> !ts[i].Bounds? && !ts[i].SeqClose?)
    ensures RangesOk(w) && Holds(ts, i, Tokens(w, Opens(ts, i)))
    ensures var j := i + |Tokens(w, Opens(ts, i))|; j == |ts| || ts[j].Sep? || ts[j].Close?
    decreases |ts| - i, 1
  {
    hide Holds, WellNested, NestedAt, RangeOk;
    if i == |ts| || ts[i].Sep? || ts[i].Close? {
      w := End;
      HoldsNothing(ts, i);
    } else if ts[i].Plain? {
      NextStart(ts, i);
      var t := ParseWord(ts, i + 1);
      w := Then(Piece(ts[i].v), t);
      HoldsCons(ts, i, Tokens(t, Opens(ts, i)));
    } else if ts[i].SeqOpen? {
      var r := SeqParts(ts, i);
      var t := ParseWord(ts, i + 3);
      w := Then(Sequence(r), t);
      HoldsJoin(ts, i, [SeqOpen(Opens(ts, i)), Bounds(r), SeqClose(Opens(ts, i))], Tokens(t, Opens(ts, i) + 1));
    } else {
      w := ParseBraces(ts, i);
    }
  }

  lemma HoldsNothing(ts: seq<Token>, i: nat)
    requires i <= |ts|
    ensures Holds(ts, i, [])
  {
  }

  lemma HoldsCons(ts: seq<Token>, i: nat, rest: seq<Token>)
    requires i < |ts| && Holds(ts, i + 1, rest)
    ensures Holds(ts, i, [ts[i]] + rest)
  {
  }

  lemma {:induction false} NextStart(ts: seq<Token>, i: nat)
    requires WellNested(ts) && i < |ts| && !ts[i].SeqOpen? && !ts[i].Bounds?
    ensures i + 1 < |ts| ==> !ts[i + 1].Bounds? && !ts[i + 1].SeqClose?
  {
    if i + 1 < |ts| {
      assert NestedAt(ts, i + 1);
    }
  }

  lemma {:induction false} SeqParts(ts: seq<Token>, i: nat) returns (r: Range)
    requires WellNested(ts) && i < |ts| && ts[i].SeqOpen?
    ensures RangeOk(r) && Holds(ts, i, [SeqOpen(Opens(ts, i)), Bounds(r), SeqClose(Opens(ts, i))])
    ensures i + 3 <= |ts| && Opens(ts, i + 3) == Opens(ts, i) + 1
    ensures i + 3 < |ts| ==> !ts[i + 3].Bounds? && !ts[i + 3].SeqClose?
  {
    assert NestedAt(ts, i) && NestedAt(ts, i + 1);
    r := ts[i + 1].r;
    SequenceNested(ts, i, ts[i].id, r);
    NextStart(ts, i + 2);
  }

  /** A word stops inside its brace, at one of the brace's own marks. */
  lemma {:induction false} StopsAtMark(ts: seq<Token>, i: nat, w: Word, b: nat)
    requires WellNested(ts) && i <= |ts| && RangesOk(w) && Holds(ts, i, Tokens(w, Opens(ts, i)))
    requires Enclosing(ts, i) != [] && Enclosing(ts, i)[|Enclosing(ts, i)| - 1] == b
    requires var j := i + |Tokens(w, Opens(ts, i))|; j == |ts| || ts[j].Sep? || ts[j].Close?
    ensures var j := i + |Tokens(w, Opens(ts, i))|;
      j < |ts| && IsMark(ts[j], b) && Enclosing(ts, j) == Enclosing(ts, i) && Opens(ts, j) == Opens(ts, i) + Size(w)
  {
    hide Tokens;
    WordNested(ts, i, w, Opens(ts, i));
    var j := i + |Tokens(w, Opens(ts, i))|;
    assert j < |ts| ==> NestedAt(ts, j);
  }

  lemma {:induction false} ParseBraces(ts: seq<Token>, i: nat) returns (w: Word)
    requires WellNested(ts) && i < |ts| && ts[i].Open?
    ensures RangesOk(w) && Holds(ts, i, Tokens(w, Opens(ts, i)))
    ensures var j := i + |Tokens(w, Opens(ts, i))|; j == |ts| || ts[j].Sep? || ts[j].Close?
    decreases |ts| - i, 0
  {
    hide Holds, WellNested, NestedAt, Enclosing, Opens, Tokens, OtherTokens, RangesOk, OtherRangesOk, Size;
    var b := ts[i].id;
    OpenIsNext(ts, i);
    NextStart(ts, i);
    var f := ParseWord(ts, i + 1);
    StopsAtMark(ts, i + 1, f, b);
    var p := i + 1 + |Tokens(f, b + 1)|;
    var os, q := ParseOthers(ts, p, b);
    CloseNested(ts, q, Enclosing(ts, i), b);
    NextStart(ts, q);
    var t := ParseWord(ts, q + 1);
    w := Then(Braces(f, os), t);
    BracesJoin(ts, i, f, os, t, b, p, q);
  }

  lemma {:induction false} OpenIsNext(ts: seq<Token>, i: nat)
    requires WellNested(ts) && i < |ts| && ts[i].Open?
    ensures ts[i].id == Opens(ts, i) && Opens(ts, i + 1) == Opens(ts, i) + 1
    ensures Enclosing(ts, i + 1) == Enclosing(ts, i) + [ts[i].id]
  {
    assert NestedAt(ts, i);
  }

  lemma {:induction false} BracesJoin(ts: seq<Token>, i: nat, f: Word, os: Others, t: Word, b: nat, p: nat, q: nat)
    requires RangesOk(f) && OtherRangesOk(os) && RangesOk(t)
    requires p == i + 1 + |Tokens(f, b + 1)| && q == p + |OtherTokens(os, b, b + 1 + Size(f))| && q < |ts|
    requires ts[i] == Open(b) && ts[q] == Close(b)
    requires Holds(ts, i + 1, Tokens(f, b + 1)) && Holds(ts, p, OtherTokens(os, b, b + 1 + Size(f)))
    requires Holds(ts, q + 1, Tokens(t, b + 1 + Size(f) + OthersSize(os)))
    ensures var w := Then(Braces(f, os), t);
      && RangesOk(w) && Holds(ts, i, Tokens(w, b))
      && i + |Tokens(w, b)| == q + 1 + |Tokens(t, b + 1 + Size(f) + OthersSize(os))|
  {
    hide Holds, Tokens, OtherTokens, Size, OthersSize;
    var tf, to, tt := Tokens(f, b + 1), OtherTokens(os, b, b + 1 + Size(f)), Tokens(t, b + 1 + Size(f) + OthersSize(os));
    BracesTokens(f, os, t, b);
    HoldsCons(ts, q, tt);
    HoldsJoin(ts, p, to, [Close(b)] + tt);
    HoldsCons(ts, i, tf);
    HoldsJoin(ts, i, [Open(b)] + tf, to + ([Close(b)] + tt));
  }

  lemma {:induction false} BracesTokens(f: Word, os: Others, t: Word, b: nat)
    ensures Tokens(Then(Braces(f, os), t), b) ==
      ([Open(b)] + Tokens(f, b + 1)) + (OtherTokens(os, b, b + 1 + Size(f)) + ([Close(b)]
      + Tokens(t, b + 1 + Size(f) + OthersSize(os))))
  {
    hide OtherTokens;
  }

  lemma {:induction false} ParseOthers(ts: seq<Token>, p: nat, b: nat) returns (os: Others, q: nat)
    requires WellNested(ts) && p < |ts| && IsMark(ts[p], b)
    requires Enclosing(ts, p) != [] && Enclosing(ts, p)[|Enclosing(ts, p)| - 1] == b
    ensures OtherRangesOk(os) && Holds(ts, p, OtherTokens(os, b, Opens(ts, p))) && q == p + |OtherTokens(os, b, Opens(ts, p))|
    ensures q < |ts| && ts[q] == Close(b)
    ensures Enclosing(ts, q) == Enclosing(ts, p) && Opens(ts, q) == Opens(ts, p) + OthersSize(os)
    decreases |ts| - p, 1
  {
    hide Holds, WellNested, NestedAt, Enclosing, Opens, Tokens;
    if ts[p] == Close(b) {
      os, q := NoMore, p;
      HoldsNothing(ts, p);
    } else {
      SepNested(ts, p, b);
      NextStart(ts, p);
      var w := ParseWord(ts, p + 1);
      StopsAtMark(ts, p + 1, w, b);
      var p' := p + 1 + |Tokens(w, Opens(ts, p))|;
      var rest;
      rest, q := ParseOthers(ts, p', b);
      os := Or(w, rest);
      HoldsCons(ts, p, Tokens(w, Opens(ts, p)));
      HoldsJoin(ts, p, [Sep(b)] + Tokens(w, Opens(ts, p)), OtherTokens(rest, b, Opens(ts, p) + Size(w)));
    }
  }

  /** Every well-nested token list is a flattened word, so what the machine lists for it is a product. */
  lemma {:induction false} WellNestedIsWord(ts: seq<Token>) returns (w: Word)
    requires WellNested(ts)
    ensures RangesOk(w) && Tokens(w, 0) == ts && Run(ts, 0) == Expand(w)
  {
    hide Tokens, Run, Expand, RangesOk, WellNested, NestedAt;
    FirstToken(ts);
    w := ParseWord(ts, 0);
    WordNested(ts, 0, w, 0);
    NoMarkOutside(ts, |Tokens(w, 0)|);
    assert ts[0..0 + |ts|] == ts;
    FlattenedWord(w);
  }

  lemma {:induction false} FirstToken(ts: seq<Token>)
    requires WellNested(ts)
    ensures ts != [] ==> !ts[0].Bounds? && !ts[0].SeqClose?
  {
    assert ts != [] ==> NestedAt(ts, 0);
  }

  lemma {:induction false} NoMarkOutside(ts: seq<Token>, n: nat)
    requires WellNested(ts) && n <= |ts| && Enclosing(ts, n) == []
    ensures n < |ts| ==> !ts[n].Sep? && !ts[n].Close?
  {
    assert n < |ts| ==> NestedAt(ts, n);
  }

  // ---------------------------------------------------------------- the machine

  /** The machine lists the product of the word's alternatives, left to right. */
  method ExpandWord(w: Word) returns (argv: seq<Fragments>)
    requires RangesOk(w) && |Tokens(w, 0)| <= 255
    ensures argv == if w == End then [] else Expand(w)
  {
    FlattenedWord(w);
    argv := BraceExpansion.ApplyBraceExpansion(Tokens(w, 0));
  }
}
