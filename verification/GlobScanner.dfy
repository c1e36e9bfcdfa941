/** `GlobPatternScanner` (src/glob.h, src/glob.cpp): the scanner that walks through a pattern in place. */
module GlobScanner {
  import opened Wrappers
  import opened Utf8
  import opened GlobBracket
  import opened GlobMatch

  predicate ComponentIs(pat: string, p: nat, name: string) {
    p + |name| <= |pat| && pat[p..p + |name|] == name && AtEnd(pat, p + |name|)
  }

  function OfOutcome(o: Outcome): Status {
    match o
    case Matched(_) => MATCHED
    case Unmatched => UNMATCHED
    case BadPattern => BAD_PATTERN
  }

  predicate Special(name: string) { name == "." || name == ".." }

  predicate Hidden(name: string) { name != "" && name[0] == '.' }

  /** The status for a name, as a function of the pattern alone. */
  function Expected(pat: string, p: nat, name: string, dotglob: bool, allowEmpty: bool): Status
    requires p <= |pat|
  {
    if Special(name) then
      if ComponentIs(pat, p, name) then (if name == "." then DOT else DOTDOT) else UNMATCHED_DOT
    else if Hidden(name) && !Expect(pat, p, '.') && !dotglob then UNMATCHED_DOT_PREFIX
    else if allowEmpty && AtEnd(pat, p) then MATCHED
    else OfOutcome(Verdict(pat, p, name))
  }

  datatype CharSetStatus = InSet | NotInSet | SyntaxError | NoCharClass | BadCharClass

  datatype Status = DOT | DOTDOT | MATCHED | UNMATCHED | UNMATCHED_DOT | UNMATCHED_DOT_PREFIX | BAD_PATTERN

  /** The name that starts behind `[:` at `p` is closed by `:]`. */
  predicate ClassCloses(pat: string, p: nat)
    requires p + 2 <= |pat|
  {
    var q := SkipLower(pat, p + 2);
    Expect(pat, q, ':') && Expect(pat, q + 1, ']')
  }

  /** Stands at `iter` in the pattern; `end` is the end of the string. */
  class GlobPatternScanner {
    const pat: string
    var iter: nat

    constructor (pat: string, iter: nat)
      ensures this.pat == pat && this.iter == iter
    {
      this.pat, this.iter := pat, iter;
    }

    method TryMatchCharClass(codePoint: int) returns (r: CharSetStatus)
      requires Expect(pat, iter, '[')
      modifies this
      ensures var c := ParseClass(pat, old(iter));
        && (c.NoClass? ==> r == NoCharClass && iter == old(iter))
        && (c.BadClass? ==>
              if ClassCloses(pat, old(iter)) then r == BadCharClass && iter == old(iter) else r == SyntaxError)
        && (c.ClassPart? ==> r == (if ClassHas(c.c, codePoint) then InSet else NotInSet) && iter == c.next)
    {
      hide Lookup, ClassHas;
      var oldIter := iter;
      iter := iter + 1;
      if Expect(pat, iter, ':') {
        iter := iter + 1;
        var className := "";
        while !AtEnd(pat, iter) && pat[iter] != ':'
          invariant oldIter + 2 <= iter <= |pat| && className == pat[oldIter + 2..iter]
          invariant SkipLower(pat, iter) == SkipLower(pat, oldIter + 2)
          decreases |pat| - iter
        {
          var ch := pat[iter];
          if 'a' <= ch <= 'z' {
            className := className + [ch];
            iter := iter + 1;
          } else {
            break;
          }
        }
        assert iter == SkipLower(pat, oldIter + 2);
        var close := false;
        if Expect(pat, iter, ':') {
          iter := iter + 1;
          if Expect(pat, iter, ']') {
            iter := iter + 1;
            close := true;
          }
        }
        if !close {
          return SyntaxError;
        }
        var op := Lookup(className);
        if op.Some? {
          return if ClassHas(op.value, codePoint) then InSet else NotInSet;
        }
        iter := oldIter;
        return BadCharClass;
      }
      iter := oldIter;
      return NoCharClass;
    }

    /** -1 for an error. */
    method ConsumeCharSetPart(first: bool) returns (cp: int)
      requires !AtEnd(pat, iter)
      modifies this
      ensures match ParsePart(pat, old(iter), first)
        case NoPart => cp == -1
        case Part(c, next) => cp == c && iter == next
    {
      if pat[iter] == '-' {
        iter := iter + 1;
        if first || Expect(pat, iter, ']') {
          return '-' as int;
        }
        iter := iter - 1;
        return -1;
      } else if pat[iter] == ']' {
        if first {
          iter := iter + 1;
          return ']' as int;
        }
      } else if pat[iter] == '[' {
        var old' := iter;
        iter := iter + 1;
        if Expect(pat, iter, ':') {
          return -1;
        }
        iter := old';
      } else if pat[iter] == '\\' {
        iter := iter + 1;
        if AtEnd(pat, iter) {
          iter := iter - 1;
          return -1;
        }
      }
      var byteSize := CharSize(pat, iter);
      if byteSize > 0 {
        cp := CodePoint(pat, iter);
        iter := iter + byteSize;
        return;
      }
      return -1;
    }

    /** One pass of the loop: an item is read and compared. */
    method MatchItem(codePoint: int, first: bool) returns (r: CharSetStatus)
      requires !AtEnd(pat, iter)
      modifies this
      ensures match ParseItem(pat, old(iter), first)
        case None => r == SyntaxError
        case Some((item, next)) => iter == next && r == if ItemHas(item, codePoint) then InSet else NotInSet
    {
      hide ParseClass, ParsePart, ClassHas;
      if pat[iter] == '[' {
        r := TryMatchCharClass(codePoint);
        if r == SyntaxError || r == BadCharClass {
          return SyntaxError;
        }
        if r == InSet || r == NotInSet {
          var old' := iter;
          if Expect(pat, iter, '-') {
            iter := iter + 1;
            if !Expect(pat, iter, ']') {
              return SyntaxError;
            }
          }
          iter := old';
          return;
        }
      }
      var lower := ConsumeCharSetPart(first);
      if lower < 0 {
        return SyntaxError;
      }
      var upper := lower;
      if AtEnd(pat, iter) {
        return SyntaxError;
      }
      if pat[iter] == '-' {
        iter := iter + 1;
        if AtEnd(pat, iter) || pat[iter] == ']' {
          iter := iter - 1;
        } else {
          upper := ConsumeCharSetPart(false);
          if upper < 0 {
            return SyntaxError;
          }
        }
      }
      if lower > upper {
        return SyntaxError;
      }
      r := if lower <= codePoint <= upper then InSet else NotInSet;
    }

    /** Whether the expression is malformed and where it ends does not depend on the code point; when it
        is well formed the verdict is membership. */
    method MatchCharSet(codePoint: int) returns (r: CharSetStatus)
      requires Expect(pat, iter, '[')
      modifies this
      ensures match ParseBracket(pat, old(iter))
        case None => r == SyntaxError
        case Some(b) => iter == b.end && r == if b.Has(codePoint) then InSet else NotInSet
    {
      hide ParseItem, AnyHas, ItemHas;
      ghost var p := iter;
      ghost var items: seq<Item> := [];
      NoneHas(codePoint);
      iter := iter + 1;
      var negate, matchCount, first := false, 0, true;
      while !AtEnd(pat, iter) && pat[iter] != ']'
        invariant p < iter <= |pat|
        invariant first ==> iter == p + 1 && items == [] && !negate
        invariant !first ==> ParseBracket(pat, p) == Join(negate, items, ParseItems(pat, iter))
        invariant matchCount > 0 <==> AnyHas(items, codePoint)
        invariant matchCount >= 0
        decreases |pat| - iter
      {
        if first && (pat[iter] == '!' || pat[iter] == '^') {
          negate := true;
          iter := iter + 1;
          if AtEnd(pat, iter) {
            break;
          }
        }
        ghost var q := iter;
        var s := MatchItem(codePoint, first);
        if s == SyntaxError {
          return SyntaxError;
        }
        if s == InSet {
          matchCount := matchCount + 1;
        }
        ghost var item := ParseItem(pat, q, first).value.0;
        if first {
          FirstItem(pat, p, q);
        } else {
          NextItem(pat, q, negate, items);
        }
        AnyHasMore(items, item, codePoint);
        items := items + [item];
        first := false;
      }
      if Expect(pat, iter, ']') {
        iter := iter + 1;
        var found := matchCount > 0;
        assert items + [] == items;
        return if found != negate then InSet else NotInSet;
      }
      return SyntaxError;
    }

    /** The number of dots when the component is exactly the name `.` or `..`, 0 otherwise. */
    method MatchDots(name: string) returns (c: nat)
      requires name == "." || name == ".."
      modifies this
      ensures c == if ComponentIs(pat, old(iter), name) then |name| else 0
      ensures iter == old(iter) + c
    {
      var old' := iter;
      var n := 0;
      if Expect(pat, iter, '.') {
        n := n + 1;
        iter := iter + 1;
        if n == |name| && AtEnd(pat, iter) {
          return 1;
        }
        if n < |name| && name[n] == '.' && Expect(pat, iter, '.') {
          n := n + 1;
          iter := iter + 1;
          if n == |name| && AtEnd(pat, iter) {
            return 2;
          }
        }
      }
      iter := old';
      return 0;
    }

    /** The special names are compared literally, hidden names need a literal dot or DOTGLOB, and
        everything else is the verdict of the last-star matcher; on a match the scanner stands at the end
        of the component. */
    method Match(name: string, dotglob: bool, allowEmptyPattern: bool) returns (r: Status)
      requires iter <= |pat|
      modifies this
      ensures r == Expected(pat, old(iter), name, dotglob, allowEmptyPattern)
      ensures name == "." || name == ".." ==>
        r == if !ComponentIs(pat, old(iter), name) then UNMATCHED_DOT else if |name| == 1 then DOT else DOTDOT
      ensures name != "." && name != ".." && name != "" && name[0] == '.' && !dotglob && !Expect(pat, old(iter), '.') ==>
        r == UNMATCHED_DOT_PREFIX
      ensures name != "." && name != ".." && (name == "" || name[0] != '.' || dotglob || Expect(pat, old(iter), '.')) ==>
        var empty := allowEmptyPattern && AtEnd(pat, old(iter));
        && (r == MATCHED <==> empty || Verdict(pat, old(iter), name).Matched?)
        && (r == BAD_PATTERN <==> !empty && Verdict(pat, old(iter), name).BadPattern?)
        && r in {MATCHED, UNMATCHED, BAD_PATTERN}
      ensures r == DOT || r == DOTDOT ==> iter == old(iter) + |name| && AtEnd(pat, iter)
      ensures r == MATCHED ==> AtEnd(pat, iter)
      ensures r == MATCHED && !(allowEmptyPattern && AtEnd(pat, old(iter))) ==> Verdict(pat, old(iter), name) == Matched(iter)
    {
      if name != "" && name[0] == '.' {
        if |name| == 1 || (name[1] == '.' && |name| == 2) {
          assert name == "." || name == "..";
          var c := MatchDots(name);
          return if c == 1 then DOT else if c == 2 then DOTDOT else UNMATCHED_DOT;
        }
        if AtEnd(pat, iter) || pat[iter] != '.' {
          if !dotglob {
            return UNMATCHED_DOT_PREFIX;
          }
        }
      }
      if allowEmptyPattern && AtEnd(pat, iter) {
        return MATCHED;
      }
      r := MatchFrom(name);
    }

    /** Compares one byte with the literal at the scanner's place, and moves behind it if they agree. */
    method MatchLiteral(c: char) returns (same: bool)
      requires iter < |pat|
      modifies this
      ensures same <==> c == Literal(pat, old(iter)).0
      ensures same ==> iter == Literal(pat, old(iter)).1
      ensures iter <= |pat|
    {
      var ch := pat[iter];
      if ch == '\\' && iter + 1 != |pat| {
        iter := iter + 1;
        ch := pat[iter];
      }
      same := c == ch;
      if same {
        iter := iter + 1;
      }
    }

    method MatchFrom(name: string) returns (r: Status)
      requires iter <= |pat|
      modifies this
      ensures r == OfOutcome(Verdict(pat, old(iter), name))
      ensures r == MATCHED ==> Verdict(pat, old(iter), name) == Matched(iter) && AtEnd(pat, iter)
    {
      hide Scan, ParseBracket, CharSize, CodePoint, Literal, AnyHas;
      ghost var p := iter;
      var n: nat, oldName: nat, oldIter: nat := 0, 0, |pat|; // oldName 0: no star yet
      ghost var star := NoStar;
      while n < |name|
        invariant iter <= |pat| && 0 <= n <= |name| && StarOk(pat, iter, name, n, star)
        invariant oldName > 0 <==> star.Star?
        invariant star.Star? ==> star == Star(oldIter, oldName)
        invariant Scan(pat, iter, name, n, star) == Verdict(pat, p, name)
        decreases if star.NoStar? then |pat| + 1 else |pat| - star.p,
                  if star.NoStar? then 0 else |name| + 1 - star.n,
                  |pat| - iter
      {
        ScanMoves(pat, iter, name, n, star);
        if !AtEnd(pat, iter) {
          var ch := pat[iter];
          if ch == '?' || ch == '[' {
            var codePoint := CodePoint(name, n);
            var next := n + Step(name, n);
            if ch == '?' {
              n := next;
              iter := iter + 1;
              continue;
            }
            var s := MatchCharSet(codePoint);
            if s == InSet {
              n := next;
              continue;
            }
            if s != NotInSet {
              return BAD_PATTERN;
            }
          } else if ch == '*' {
            iter := iter + 1;
            if AtEnd(pat, iter) {
              return MATCHED;
            }
            oldIter := iter;
            oldName := n + 1;
            star := Star(oldIter, oldName);
            continue;
          } else {
            var same := MatchLiteral(name[n]);
            if same {
              n := n + 1;
              continue;
            }
          }
        }
        if oldName > 0 {
          iter := oldIter;
          n := oldName;
          oldName := oldName + 1;
          star := Star(oldIter, oldName);
          continue;
        }
        return UNMATCHED;
      }
      ScanEnds(pat, iter, name, star);
      ghost var q := SkipStars(pat, iter);
      while Expect(pat, iter, '*')
        invariant iter <= |pat| && SkipStars(pat, iter) == q
        decreases |pat| - iter
      {
        iter := iter + 1;
      }
      return if AtEnd(pat, iter) then MATCHED else UNMATCHED;
    }
  }
}
