/** Bracket expressions of glob patterns, `[^a-z[:digit:]]` (src/glob.cpp). */
module GlobBracket {
  import opened Wrappers
  import opened Utf8

  /** The end of a pattern component. */
  predicate AtEnd(pat: string, p: nat) { p >= |pat| || pat[p] == '/' }

  predicate Expect(pat: string, p: nat, c: char) { p < |pat| && pat[p] == c }

  // ---------------------------------------------------------------- what an expression means

  datatype CharClass =
    Alnum | Alpha | Ascii | Blank | Cntrl | Digit | Graph | Lower | Print | Punct | Space | Upper | Word | Xdigit

  function Lookup(name: string): Option<CharClass> {
    if name == "alnum" then Some(Alnum)
    else if name == "alpha" then Some(Alpha)
    else if name == "ascii" then Some(Ascii)
    else if name == "blank" then Some(Blank)
    else if name == "cntrl" then Some(Cntrl)
    else if name == "digit" then Some(Digit)
    else if name == "graph" then Some(Graph)
    else if name == "lower" then Some(Lower)
    else if name == "print" then Some(Print)
    else if name == "punct" then Some(Punct)
    else if name == "space" then Some(Space)
    else if name == "upper" then Some(Upper)
    else if name == "word" then Some(Word)
    else if name == "xdigit" then Some(Xdigit)
    else None
  }

  predicate IsUpper(cp: int) { 65 <= cp <= 90 }
  predicate IsLower(cp: int) { 97 <= cp <= 122 }
  predicate IsDigit(cp: int) { 48 <= cp <= 57 }
  predicate IsAlnum(cp: int) { IsUpper(cp) || IsLower(cp) || IsDigit(cp) }

  /** Membership in the C locale; only ASCII code points belong to a class. */
  predicate ClassHas(c: CharClass, cp: int) {
    match c
    case Alnum => IsAlnum(cp)
    case Alpha => IsUpper(cp) || IsLower(cp)
    case Ascii => 0 <= cp < 128
    case Blank => cp == 9 || cp == 32
    case Cntrl => 0 <= cp < 32 || cp == 127
    case Digit => IsDigit(cp)
    case Graph => 33 <= cp <= 126
    case Lower => IsLower(cp)
    case Print => 32 <= cp <= 126
    case Punct => 33 <= cp <= 126 && !IsAlnum(cp)
    case Space => 9 <= cp <= 13 || cp == 32
    case Upper => IsUpper(cp)
    case Word => IsAlnum(cp) || cp == 95
    case Xdigit => IsDigit(cp) || 65 <= cp <= 70 || 97 <= cp <= 102
  }

  datatype Item = Between(lo: int, hi: int) | Class(c: CharClass)

  predicate ItemHas(item: Item, cp: int) {
    match item
    case Between(lo, hi) => lo <= cp <= hi
    case Class(c) => ClassHas(c, cp)
  }

  predicate AnyHas(items: seq<Item>, cp: int) {
    exists i :: 0 <= i < |items| && ItemHas(items[i], cp)
  }

  /** A well-formed expression: the union of its items, possibly complemented, ending before `end`. */
  datatype Bracket = Bracket(negate: bool, items: seq<Item>, end: nat) {
    predicate Has(cp: int) { AnyHas(items, cp) != negate }
  }

  // ---------------------------------------------------------------- its syntax, without any code point

  datatype Part = NoPart | Part(cp: int, next: nat)

  function Decode(pat: string, p: nat): (r: Part)
    requires p <= |pat|
    ensures r.Part? ==> p < r.next <= |pat| && r.cp >= 0
  {
    if CharSize(pat, p) == 0 then NoPart else Part(CodePoint(pat, p), p + CharSize(pat, p))
  }

  /** One end of a range. */
  function ParsePart(pat: string, p: nat, first: bool): (r: Part)
    requires !AtEnd(pat, p)
    ensures r.Part? ==> p < r.next <= |pat| && r.cp >= 0
  {
    if pat[p] == '-' then
      if first || Expect(pat, p + 1, ']') then Part('-' as int, p + 1) else NoPart
    else if pat[p] == ']' && first then Part(']' as int, p + 1)
    else if pat[p] == '[' && Expect(pat, p + 1, ':') then NoPart
    else if pat[p] == '\\' then
      if AtEnd(pat, p + 1) then NoPart else Decode(pat, p + 1)
    else Decode(pat, p)
  }

  function SkipLower(pat: string, p: nat): (q: nat)
    requires p <= |pat|
    ensures p <= q <= |pat|
    decreases |pat| - p
  {
    if p < |pat| && 'a' <= pat[p] <= 'z' then SkipLower(pat, p + 1) else p
  }

  datatype ClassPart = NoClass | BadClass | ClassPart(c: CharClass, next: nat)

  /** `[:name:]` at `p`; anything else that starts with `[:` is an error. */
  function ParseClass(pat: string, p: nat): (r: ClassPart)
    requires Expect(pat, p, '[')
    ensures r.ClassPart? ==> p < r.next <= |pat|
  {
    if !Expect(pat, p + 1, ':') then NoClass
    else
      var q := SkipLower(pat, p + 2);
      if !(Expect(pat, q, ':') && Expect(pat, q + 1, ']')) then BadClass
      else
        match Lookup(pat[p + 2..q])
        case None => BadClass
        case Some(c) => ClassPart(c, q + 2)
  }

  /** One character, range or class. */
  function ParseItem(pat: string, p: nat, first: bool): (r: Option<(Item, nat)>)
    requires !AtEnd(pat, p)
    ensures r.Some? ==> p < r.value.1 <= |pat|
  {
    if pat[p] == '[' && ParseClass(pat, p).BadClass? then None
    else if pat[p] == '[' && ParseClass(pat, p).ClassPart? then
      var ClassPart(c, q) := ParseClass(pat, p);
      if Expect(pat, q, '-') && !Expect(pat, q + 1, ']') then None else Some((Class(c), q))
    else ParseRange(pat, p, first)
  }

  function ParseRange(pat: string, p: nat, first: bool): (r: Option<(Item, nat)>)
    requires !AtEnd(pat, p)
    ensures r.Some? ==> p < r.value.1 <= |pat|
  {
    match ParsePart(pat, p, first)
    case NoPart => None
    case Part(lo, q) =>
      if AtEnd(pat, q) then None
      else if pat[q] != '-' || AtEnd(pat, q + 1) || pat[q + 1] == ']' then Some((Between(lo, lo), q))
      else
        match ParsePart(pat, q + 1, false)
        case NoPart => None
        case Part(hi, q') => if lo > hi then None else Some((Between(lo, hi), q'))
  }

  /** The items up to and behind the closing bracket. */
  function ParseItems(pat: string, p: nat): (r: Option<(seq<Item>, nat)>)
    requires p <= |pat|
    ensures r.Some? ==> p < r.value.1 <= |pat|
    decreases |pat| - p
  {
    if AtEnd(pat, p) then None
    else if pat[p] == ']' then Some(([], p + 1))
    else AfterItem(pat, ParseItem(pat, p, false), p)
  }

  function AfterItem(pat: string, item: Option<(Item, nat)>, p: nat): (r: Option<(seq<Item>, nat)>)
    requires p < |pat| && (item.Some? ==> p < item.value.1 <= |pat|)
    ensures r.Some? ==> p < r.value.1 <= |pat|
    decreases |pat| - p, 0
  {
    match item
    case None => None
    case Some((it, q)) =>
      match ParseItems(pat, q)
      case None => None
      case Some((its, e)) => Some(([it] + its, e))
  }

  /** A whole expression; `[]` is the empty set, while the first `]` after `!` or `^` is a member. */
  function ParseBracket(pat: string, p: nat): (r: Option<Bracket>)
    requires Expect(pat, p, '[')
    ensures r.Some? ==> p < r.value.end <= |pat|
  {
    if AtEnd(pat, p + 1) then None
    else if pat[p + 1] == ']' then Some(Bracket(false, [], p + 2))
    else
      var negate := pat[p + 1] == '!' || pat[p + 1] == '^';
      var q := if negate then p + 2 else p + 1;
      if AtEnd(pat, q) then None
      else
        match AfterItem(pat, ParseItem(pat, q, true), q)
        case None => None
        case Some((items, e)) => Some(Bracket(negate, items, e))
  }

  // ---------------------------------------------------------------- reading it item by item

  function Join(negate: bool, items: seq<Item>, rest: Option<(seq<Item>, nat)>): Option<Bracket> {
    match rest
    case None => None
    case Some((more, e)) => Some(Bracket(negate, items + more, e))
  }

  lemma {:induction false} FirstItem(pat: string, p: nat, q: nat)
    requires Expect(pat, p, '[') && !AtEnd(pat, p + 1) && pat[p + 1] != ']' && !AtEnd(pat, q)
    requires q == if pat[p + 1] == '!' || pat[p + 1] == '^' then p + 2 else p + 1
    requires ParseItem(pat, q, true).Some?
    ensures var (item, next) := ParseItem(pat, q, true).value;
      ParseBracket(pat, p) == Join(q == p + 2, [] + [item], ParseItems(pat, next))
  {
    var item := ParseItem(pat, q, true).value.0;
    assert [] + [item] == [item];
  }

  lemma {:induction false} NextItem(pat: string, q: nat, negate: bool, items: seq<Item>)
    requires !AtEnd(pat, q) && pat[q] != ']' && ParseItem(pat, q, false).Some?
    ensures var (item, next) := ParseItem(pat, q, false).value;
      Join(negate, items, ParseItems(pat, q)) == Join(negate, items + [item], ParseItems(pat, next))
  {
    var (item, next) := ParseItem(pat, q, false).value;
    var rest := ParseItems(pat, next);
    if rest.Some? {
      assert items + ([item] + rest.value.0) == (items + [item]) + rest.value.0;
    }
  }

  lemma NoneHas(cp: int)
    ensures !AnyHas([], cp)
  {
  }

  lemma {:induction false} AnyHasMore(items: seq<Item>, item: Item, cp: int)
    ensures AnyHas(items + [item], cp) <==> AnyHas(items, cp) || ItemHas(item, cp)
  {
    var more := items + [item];
    assert more[|items|] == item;
    if AnyHas(items, cp) {
      var i :| 0 <= i < |items| && ItemHas(items[i], cp);
      assert more[i] == items[i];
    }
  }
}
