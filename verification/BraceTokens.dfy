/** The argument fragments that brace expansion runs over, and what it means for their brace tokens
    to be well nested. Brace ids are numbered in the order of the opening tokens, as the type checker
    numbers them (src/type_checker_cmd.cpp). */
module BraceTokens {
  import opened BraceRange
  import opened Decimal

  datatype Meta = Any | ZeroOrMore | BracketOpen | BracketClose | Tilde | Assign | Colon

  /** A fragment of an argument. The text of a sequence value is its number in the format of its range;
      `Show` prints it. */
  datatype Value = Text(s: string) | Wild(meta: Meta) | Number(v: int64, r: Range)

  datatype Token =
    | Plain(v: Value)
    | Open(id: nat)
    | Sep(id: nat)
    | Close(id: nat)
    | SeqOpen(id: nat)
    | Bounds(r: Range)
    | SeqClose(id: nat)

  /** The formatter's own assertions, for one value of a range. */
  predicate Printable(v: int64, r: Range) {
    if r.kind == Char then 0 <= v < 256 else r.digits > 0 ==> |ToString(v)| <= r.digits
  }

  predicate Within(v: int64, r: Range) { r.begin <= v <= r.end || r.end <= v <= r.begin }

  /** The range has no error and everything it can list can be printed. */
  ghost predicate RangeOk(r: Range) {
    r.Valid() && forall v: int64 :: Within(v, r) ==> Printable(v, r)
  }

  /** Every range the parser accepts is one. */
  lemma {:induction false} AcceptedRangeOk(ref: string, isChar: bool)
    ensures Accepted(ref, isChar) ==> RangeOk(ToBraceRange(ref, isChar))
  {
    hide BraceIntOf, AddStep, IsIntLiteral, Width, Printable;
    if Accepted(ref, isChar) {
      var r := ToBraceRange(ref, isChar);
      var (begin, end, step) := Split(ref);
      if isChar {
        StepBounds(begin[0] as int, end[0] as int, 0, Char, step);
        forall v: int64 | Within(v, r) ensures Printable(v, r) { CharPrintable(v, r); }
      } else {
        var b1, b2 := BraceIntOf(begin), BraceIntOf(end);
        StepBounds(b1.value, b2.value, Width(b1, b2), Int, step);
        forall v: int64 | Within(v, r) ensures Printable(v, r) {
          WidthCovers(begin, end, v);
          IntPrintable(v, r);
        }
      }
    }
  }

  lemma CharPrintable(v: int64, r: Range)
    requires r.kind == Char && 0 <= v < 256
    ensures Printable(v, r)
  {
  }

  lemma IntPrintable(v: int64, r: Range)
    requires r.kind == Int && (r.digits > 0 ==> |ToString(v)| <= r.digits)
    ensures Printable(v, r)
  {
  }

  predicate Showable(v: Value) { v.Number? ==> Printable(v.v, v.r) }

  function Show(v: Value): string
    requires Showable(v)
  {
    match v
    case Text(s) => s
    case Number(n, r) => FormatSeqValue(n, r.digits, r.kind == Char)
    case Wild(meta) =>
      match meta
      case Any => "?"
      case ZeroOrMore => "*"
      case BracketOpen => "["
      case BracketClose => "]"
      case Tilde => "~"
      case Assign => "="
      case Colon => ":"
  }

  /** How many braces are opened before position `i`. */
  function Opens(ts: seq<Token>, i: nat): nat
    requires i <= |ts|
  {
    if i == 0 then 0
    else Opens(ts, i - 1) + if ts[i - 1].Open? || ts[i - 1].SeqOpen? then 1 else 0
  }

  /** The ids of the alternative braces that are open at position `i`, outermost first. */
  function Enclosing(ts: seq<Token>, i: nat): seq<nat>
    requires i <= |ts|
  {
    if i == 0 then []
    else
      var before := Enclosing(ts, i - 1);
      match ts[i - 1]
      case Open(b) => before + [b]
      case Close(_) => if before == [] then [] else before[..|before| - 1]
      case _ => before
  }

  ghost predicate NestedAt(ts: seq<Token>, i: nat)
    requires i < |ts|
  {
    match ts[i]
    case Plain(_) => true
    case Open(b) => b == Opens(ts, i)
    case Sep(b) => var e := Enclosing(ts, i); e != [] && e[|e| - 1] == b
    case Close(b) => var e := Enclosing(ts, i); e != [] && e[|e| - 1] == b
    case SeqOpen(b) => b == Opens(ts, i) && i + 2 < |ts| && ts[i + 1].Bounds? && ts[i + 2] == SeqClose(b)
    case Bounds(r) => i > 0 && ts[i - 1].SeqOpen? && RangeOk(r)
    case SeqClose(b) => i > 1 && ts[i - 1].Bounds? && ts[i - 2] == SeqOpen(b)
  }

  ghost predicate WellNested(ts: seq<Token>) {
    (forall i :: 0 <= i < |ts| ==> NestedAt(ts, i)) && Enclosing(ts, |ts|) == []
  }

  predicate IsMark(t: Token, b: nat) { t == Sep(b) || t == Close(b) }

  /** The first separator or closer of brace `b` at or after `i` (the length when there is none). */
  function FindMark(ts: seq<Token>, i: nat, b: nat): (q: nat)
    requires i <= |ts|
    ensures i <= q <= |ts| && (q < |ts| ==> IsMark(ts[q], b))
    decreases |ts| - i
  {
    if i == |ts| || IsMark(ts[i], b) then i else FindMark(ts, i + 1, b)
  }

  function FindClose(ts: seq<Token>, i: nat, b: nat): (q: nat)
    requires i <= |ts|
    ensures i <= q <= |ts| && (q < |ts| ==> ts[q] == Close(b))
    decreases |ts| - i
  {
    if i == |ts| || ts[i] == Close(b) then i else FindClose(ts, i + 1, b)
  }

  lemma {:induction false} MarkIsFirst(ts: seq<Token>, i: nat, b: nat, p: nat)
    requires i <= p < |ts| && IsMark(ts[p], b)
    ensures FindMark(ts, i, b) <= p
    decreases p - i
  {
    if !IsMark(ts[i], b) {
      MarkIsFirst(ts, i + 1, b, p);
    }
  }

  lemma {:induction false} CloseIsFirst(ts: seq<Token>, i: nat, b: nat, p: nat)
    requires i <= p < |ts| && ts[p] == Close(b)
    ensures FindClose(ts, i, b) <= p
    decreases p - i
  {
    if ts[i] != Close(b) {
      CloseIsFirst(ts, i + 1, b, p);
    }
  }

  lemma {:induction false} OpensMonotone(ts: seq<Token>, i: nat, j: nat)
    requires i <= j <= |ts|
    ensures Opens(ts, i) <= Opens(ts, j) <= Opens(ts, i) + (j - i)
    ensures i < j && (ts[i].Open? || ts[i].SeqOpen?) ==> Opens(ts, i) < Opens(ts, j)
    decreases j
  {
    if i == j {
    } else {
      OpensMonotone(ts, i, j - 1);
    }
  }

  lemma {:induction false} EnclosingIds(ts: seq<Token>, i: nat)
    requires WellNested(ts) && i <= |ts|
    ensures forall k :: 0 <= k < |Enclosing(ts, i)| ==> Enclosing(ts, i)[k] < Opens(ts, i)
    ensures forall j, k :: 0 <= j < k < |Enclosing(ts, i)| ==> Enclosing(ts, i)[j] < Enclosing(ts, i)[k]
  {
    if i == 0 {
    } else {
      EnclosingIds(ts, i - 1);
      assert NestedAt(ts, i - 1);
    }
  }

  lemma EnclosingStep(ts: seq<Token>, i: nat)
    requires i < |ts|
    ensures var e := Enclosing(ts, i);
      Enclosing(ts, i + 1)
      == match ts[i]
         case Open(b) => e + [b]
         case Close(_) => if e == [] then [] else e[..|e| - 1]
         case _ => e
  {
  }

  /** From an opening brace to its closer, the enclosing list keeps the brace. */
  lemma {:induction false} InBrace(ts: seq<Token>, o: nat, q: nat)
    requires WellNested(ts) && o < |ts| && ts[o].Open?
    requires o < q <= FindClose(ts, o + 1, ts[o].id)
    ensures |Enclosing(ts, o)| < |Enclosing(ts, q)|
    ensures Enclosing(ts, q)[..|Enclosing(ts, o)| + 1] == Enclosing(ts, o) + [ts[o].id]
    decreases q
  {
    hide Enclosing, FindClose, Opens;
    EnclosingStep(ts, q - 1);
    if q > o + 1 {
      InBrace(ts, o, q - 1);
      assert NestedAt(ts, q - 1);
      if ts[q - 1] == Close(ts[o].id) {
        CloseIsFirst(ts, o + 1, ts[o].id, q - 1);
      }
      var e := Enclosing(ts, q - 1);
      assert e[|Enclosing(ts, o)|] == ts[o].id by {
        assert e[..|Enclosing(ts, o)| + 1][|Enclosing(ts, o)|] == ts[o].id;
      }
    }
  }

  /** Every opening brace has its closer, and leaving it restores what enclosed it. */
  lemma {:induction false} CloserExists(ts: seq<Token>, o: nat)
    requires WellNested(ts) && o < |ts| && ts[o].Open?
    ensures var c := FindClose(ts, o + 1, ts[o].id);
      o < c < |ts| && Enclosing(ts, c) == Enclosing(ts, o) + [ts[o].id] && Enclosing(ts, c + 1) == Enclosing(ts, o)
  {
    var c := FindClose(ts, o + 1, ts[o].id);
    InBrace(ts, o, c);
    assert c < |ts|;
    OwnMark(ts, o, c);
  }

  /** At one of its own marks a brace is the innermost one. */
  lemma {:induction false} OwnMark(ts: seq<Token>, o: nat, q: nat)
    requires WellNested(ts) && o < |ts| && ts[o].Open?
    requires o < q <= FindClose(ts, o + 1, ts[o].id) && q < |ts| && IsMark(ts[q], ts[o].id)
    ensures Enclosing(ts, q) == Enclosing(ts, o) + [ts[o].id]
  {
    var e, n := Enclosing(ts, q), |Enclosing(ts, o)|;
    InBrace(ts, o, q);
    assert NestedAt(ts, q);
    EnclosingIds(ts, q);
    assert e[n] == ts[o].id by { assert e[..n + 1][n] == ts[o].id; }
    assert |e| == n + 1;
    assert e == e[..n + 1];
  }

  /** Inside a brace there is no mark of any brace that encloses it. */
  lemma {:induction false} NoOuterMark(ts: seq<Token>, o: nat, q: nat, x: nat)
    requires WellNested(ts) && o < |ts| && ts[o].Open? && x in Enclosing(ts, o)
    requires o <= q <= FindClose(ts, o + 1, ts[o].id) && q < |ts|
    ensures !IsMark(ts[q], x)
  {
    if q > o {
      InnermostIsNewer(ts, o, q, x);
      assert NestedAt(ts, q);
    }
  }

  lemma {:induction false} InnermostIsNewer(ts: seq<Token>, o: nat, q: nat, x: nat)
    requires WellNested(ts) && o < |ts| && ts[o].Open? && x in Enclosing(ts, o)
    requires o < q <= FindClose(ts, o + 1, ts[o].id)
    ensures Enclosing(ts, q) != [] && x < Enclosing(ts, q)[|Enclosing(ts, q)| - 1]
  {
    var e, n := Enclosing(ts, q), |Enclosing(ts, o)|;
    InBrace(ts, o, q);
    EnclosingIds(ts, q);
    var k :| 0 <= k < n && Enclosing(ts, o)[k] == x;
    assert e[k] == e[..n + 1][k] == x;
  }

  /** A brace opened inside another one also closes inside it, and is enclosed by it. */
  lemma {:induction false} Laminar(ts: seq<Token>, o: nat, o': nat)
    requires WellNested(ts) && o < o' < |ts| && ts[o].Open?
    requires o' <= FindClose(ts, o + 1, ts[o].id)
    ensures ts[o].id in Enclosing(ts, o')
    ensures ts[o'].Open? ==> FindClose(ts, o' + 1, ts[o'].id) < FindClose(ts, o + 1, ts[o].id)
  {
    var n := |Enclosing(ts, o)|;
    InBrace(ts, o, o');
    assert Enclosing(ts, o')[n] == Enclosing(ts, o')[..n + 1][n] == ts[o].id;
    if ts[o'].Open? {
      var c, c' := FindClose(ts, o + 1, ts[o].id), FindClose(ts, o' + 1, ts[o'].id);
      CloserExists(ts, o);
      CloserExists(ts, o');
      if c <= c' {
        NoOuterMark(ts, o', c, ts[o].id);
      }
    }
  }

  lemma {:induction false} FindMarkSkips(ts: seq<Token>, i: nat, j: nat, b: nat)
    requires i <= j <= |ts|
    requires forall p :: i <= p < j ==> !IsMark(ts[p], b)
    ensures FindMark(ts, i, b) == FindMark(ts, j, b)
    decreases j - i
  {
    if i == j {
    } else {
      FindMarkSkips(ts, i + 1, j, b);
    }
  }

  lemma {:induction false} FindCloseSkips(ts: seq<Token>, i: nat, j: nat, b: nat)
    requires i <= j <= |ts|
    requires forall p :: i <= p < j ==> ts[p] != Close(b)
    ensures FindClose(ts, i, b) == FindClose(ts, j, b)
    decreases j - i
  {
    if i == j {
    } else {
      FindCloseSkips(ts, i + 1, j, b);
    }
  }
}
