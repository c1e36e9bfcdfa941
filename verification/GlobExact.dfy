/** Where the last-star matcher (src/glob.cpp) agrees with the byte-wise meaning of a pattern, and where
    with its meaning by whole characters. */
module GlobExact {
  import opened Wrappers
  import opened Utf8
  import opened GlobBracket
  import opened GlobMatch

  // ---------------------------------------------------------------- patterns that never split a character

  /** Every `?` and every bracket from `p` on follows a literal character, another `?` or bracket, or a
      place that is `known` to be a character boundary: none stands directly behind a star, or behind a
      byte that is no character. */
  predicate Aligned(pat: string, p: nat, known: bool)
    requires p <= |pat|
    decreases |pat| - p
  {
    if AtEnd(pat, p) then true
    else if pat[p] == '*' then Aligned(pat, p + 1, false)
    else if pat[p] == '?' then known && Aligned(pat, p + 1, true)
    else if pat[p] == '[' then
      ParseBracket(pat, p).None? || (known && Aligned(pat, ParseBracket(pat, p).value.end, true))
    else if CharSize(pat, p) >= 2 then Aligned(pat, p + CharSize(pat, p), true)
    else Aligned(pat, Literal(pat, p).1, Literal(pat, p).0 as int < 0x80)
  }

  /** A literal character of several bytes matches exactly itself. */
  lemma {:induction false} LiteralChar(pat: string, p: nat, name: string, n: nat, whole: bool, s: nat)
    requires p <= |pat| && n <= |name| && p + s <= |pat|
    requires forall i :: p <= i < p + s ==> pat[i] as int >= 0x80
    ensures Matches(pat, p, name, n, whole)
       <==> n + s <= |name| && name[n..n + s] == pat[p..p + s] && Matches(pat, p + s, name, n + s, whole)
    decreases s
  {
    if s == 0 {
      assert name[n..n] == pat[p..p];
    } else if n < |name| {
      LiteralChar(pat, p + 1, name, n + 1, whole, s - 1);
      assert Literal(pat, p) == (pat[p], p + 1);
      assert pat[p..p + s] == [pat[p]] + pat[p + 1..p + s];
      if n + s <= |name| {
        assert name[n..n + s] == [name[n]] + name[n + 1..n + s];
      }
    }
  }

  lemma LongCharBytes(s: string, i: nat)
    requires i <= |s| && CharSize(s, i) >= 2
    ensures forall k :: i <= k < i + CharSize(s, i) ==> s[k] as int >= 0x80
  {
  }

  /** An aligned pattern means the same by bytes and by whole characters. */
  lemma {:induction false} SameReading(pat: string, p: nat, name: string, n: nat, known: bool)
    requires p <= |pat| && n <= |name| && Aligned(pat, p, known) && (known ==> Boundary(name, n))
    ensures Matches(pat, p, name, n, true) <==> Matches(pat, p, name, n, false)
    decreases |pat| - p
  {
    hide Boundary, CharSize;
    if AtEnd(pat, p) {
    } else if pat[p] == '*' {
      var rest := p + 1;
      forall k | n <= k <= |name|
        ensures Matches(pat, rest, name, k, true) <==> Matches(pat, rest, name, k, false)
      {
        SameReading(pat, rest, name, k, false);
      }
    } else if n < |name| {
      if pat[p] == '?' || pat[p] == '[' {
        if known {
          SameBehindMark(pat, p, name, n);
        }
      } else if CharSize(pat, p) >= 2 {
        SameBehindChar(pat, p, name, n);
      } else {
        SameBehindByte(pat, p, name, n);
      }
    }
  }

  lemma {:induction false} SameBehindMark(pat: string, p: nat, name: string, n: nat)
    requires !AtEnd(pat, p) && n < |name| && (pat[p] == '?' || pat[p] == '[')
    requires Aligned(pat, p, true) && Boundary(name, n)
    ensures Matches(pat, p, name, n, true) <==> Matches(pat, p, name, n, false)
    decreases |pat| - p, 0
  {
    hide CharSize, Boundary;
    StepKeepsBoundary(name, n);
    if pat[p] == '?' {
      SameReading(pat, p + 1, name, n + Step(name, n), true);
    } else if ParseBracket(pat, p).Some? {
      SameReading(pat, ParseBracket(pat, p).value.end, name, n + Step(name, n), true);
    }
  }

  lemma {:induction false} StepKeepsBoundary(name: string, n: nat)
    requires n < |name| && Boundary(name, n)
    ensures Boundary(name, n + Step(name, n))
  {
    if CharSize(name, n) > 0 {
      BoundaryBehind(name, n);
    }
  }

  lemma {:induction false} SameBehindChar(pat: string, p: nat, name: string, n: nat)
    requires !AtEnd(pat, p) && n < |name| && CharSize(pat, p) >= 2 && Aligned(pat, p + CharSize(pat, p), true)
    ensures Matches(pat, p, name, n, true) <==> Matches(pat, p, name, n, false)
    decreases |pat| - p, 0
  {
    hide CharSize, Boundary, Matches;
    var s := CharSize(pat, p);
    LongCharBytes(pat, p);
    LiteralChar(pat, p, name, n, true, s);
    LiteralChar(pat, p, name, n, false, s);
    if n + s <= |name| && name[n..n + s] == pat[p..p + s] {
      SameChar(pat, p, name, n);
      BoundaryBehind(name, n);
      SameReading(pat, p + s, name, n + s, true);
    }
  }

  lemma {:induction false} SameBehindByte(pat: string, p: nat, name: string, n: nat)
    requires !AtEnd(pat, p) && n < |name| && pat[p] != '*' && pat[p] != '?' && pat[p] != '['
    requires Aligned(pat, Literal(pat, p).1, Literal(pat, p).0 as int < 0x80)
    ensures Matches(pat, p, name, n, true) <==> Matches(pat, p, name, n, false)
    decreases |pat| - p, 0
  {
    hide Boundary, CharSize;
    var (c, next) := Literal(pat, p);
    if name[n] == c {
      if c as int < 0x80 {
        AsciiSize(name, n);
        BoundaryBehind(name, n);
      }
      SameReading(pat, next, name, n + 1, c as int < 0x80);
    }
  }

  lemma AsciiSize(s: string, i: nat)
    requires i < |s| && s[i] as int < 0x80
    ensures CharSize(s, i) == 1
  {
  }

  // ---------------------------------------------------------------- patterns that are exact on every name

  /** Behind the first star the pattern is aligned; before it the matcher has no choice anyway. */
  predicate AlignedBehindStar(pat: string, p: nat)
    requires p <= |pat|
    decreases |pat| - p
  {
    if AtEnd(pat, p) then true
    else if pat[p] == '*' then Aligned(pat, p, false)
    else if pat[p] == '?' then AlignedBehindStar(pat, p + 1)
    else if pat[p] == '[' then ParseBracket(pat, p).None? || AlignedBehindStar(pat, ParseBracket(pat, p).value.end)
    else AlignedBehindStar(pat, Literal(pat, p).1)
  }

  lemma {:induction false} AlignedFound(pat: string, p: nat, name: string, n: nat)
    requires p <= |pat| && n <= |name| && AlignedBehindStar(pat, p) && Matches(pat, p, name, n, false)
    ensures Scan(pat, p, name, n, NoStar).Matched?
    decreases |pat| - p
  {
    hide Scan, Matches, Aligned;
    if Expect(pat, p, '*') {
      SameReading(pat, p, name, n, false);
      if !Scan(pat, p, name, n, NoStar).Matched? {
        ScanComplete(pat, p, name, n, NoStar, true);
      }
    } else if n == |name| {
      StarsMatchNothing(pat, p, name, false);
      ScanEnds(pat, p, name, NoStar);
    } else {
      MoveOfMatch(pat, p, name, n);
      ScanMoves(pat, p, name, n, NoStar);
      GoMatches(pat, p, name, n, false);
      var m := MoveAt(pat, p, name, n);
      AlignedFound(pat, m.p, name, m.n);
    }
  }

  lemma MoveOfMatch(pat: string, p: nat, name: string, n: nat)
    requires p <= |pat| && n < |name| && !Expect(pat, p, '*') && Matches(pat, p, name, n, false)
    ensures MoveAt(pat, p, name, n).Go?
    ensures AlignedBehindStar(pat, p) ==> AlignedBehindStar(pat, MoveAt(pat, p, name, n).p)
  {
  }

  /** The verdict is exact byte by byte for every pattern on a name without sequences of three bytes or
      more, and on EVERY name for a pattern that is aligned behind its first star. */
  lemma {:induction false} PairExact(pat: string, p: nat, name: string)
    requires p <= |pat| && (AllShort(name) || AlignedBehindStar(pat, p))
    ensures Verdict(pat, p, name).Matched? <==> Matches(pat, p, name, 0, false)
  {
    hide Scan, Matches;
    VerdictBetween(pat, p, name);
    if AllShort(name) {
      VerdictExact(pat, p, name);
    } else if Matches(pat, p, name, 0, false) {
      AlignedFound(pat, p, name, 0);
    }
  }

  /** For a pattern that is aligned from its start, the verdict is exact on every name, by bytes and by
      whole characters alike. */
  lemma {:induction false} AlignedExact(pat: string, p: nat, name: string)
    requires p <= |pat| && Aligned(pat, p, true)
    ensures Verdict(pat, p, name).Matched? <==> Matches(pat, p, name, 0, true)
    ensures Verdict(pat, p, name).Matched? <==> Matches(pat, p, name, 0, false)
  {
    hide Scan, Matches, Aligned;
    VerdictBetween(pat, p, name);
    SameReading(pat, p, name, 0, true);
  }

  /** The condition on the pattern is not necessary: `*?` is exact on every name. */
  lemma {:induction false} OneMarkExact(name: string)
    ensures Verdict("*?", 0, name).Matched? <==> name != ""
    ensures Matches("*?", 0, name, 0, false) <==> name != ""
    ensures !AlignedBehindStar("*?", 0)
  {
    var pat := "*?";
    assert Aligned(pat, 2, true) && !Aligned(pat, 1, false);
    if name != "" {
      OneMarkFound(name, 0);
      var k := |name| - 1;
      assert Matches(pat, 2, name, k + Step(name, k), false);
      assert Matches(pat, 1, name, k, false);
    } else {
      assert !Matches(pat, 1, name, 0, false);
    }
  }

  lemma {:induction false} OneMarkFound(name: string, n: nat)
    requires n < |name|
    ensures Scan("*?", 1, name, n, Star(1, n + 1)).Matched?
    decreases |name| - n
  {
    if n + Step(name, n) < |name| {
      OneMarkFound(name, n + 1);
    }
  }

  // ---------------------------------------------------------------- names on which no pattern splits a character

  predicate AllSingle(name: string) {
    forall i :: 0 <= i < |name| ==> CharSize(name, i) <= 1
  }

  /** Without characters of several bytes every place is a boundary. */
  lemma {:induction false} SingleReading(pat: string, p: nat, name: string, n: nat)
    requires p <= |pat| && n <= |name| && AllSingle(name)
    ensures Matches(pat, p, name, n, true) <==> Matches(pat, p, name, n, false)
    decreases |pat| - p
  {
    if AtEnd(pat, p) {
    } else if pat[p] == '*' {
      var rest := p + 1;
      forall k | n <= k <= |name|
        ensures Matches(pat, rest, name, k, true) <==> Matches(pat, rest, name, k, false)
      {
        SingleReading(pat, rest, name, k);
      }
    } else if n < |name| {
      SingleStep(name, n);
      if pat[p] == '?' {
        SingleReading(pat, p + 1, name, n + 1);
      } else if pat[p] != '[' {
        SingleReading(pat, Literal(pat, p).1, name, n + 1);
      } else if ParseBracket(pat, p).Some? {
        SingleReading(pat, ParseBracket(pat, p).value.end, name, n + 1);
      }
    }
  }

  lemma SingleStep(name: string, n: nat)
    requires n < |name| && AllSingle(name)
    ensures Boundary(name, n) && Step(name, n) == 1
  {
  }

  /** A pattern that a character of several bytes at `b` satisfies only when the star splits it: the bytes
      before it, a star, anything but that character, and the bytes behind it. */
  function ExcludingPattern(name: string, b: nat): string
    requires b <= |name|
  {
    var e := b + CharSize(name, b);
    Quoted(name[..b]) + "*" + ("[!" + name[b..e] + "]") + Quoted(name[e..])
  }

  /** The parts of that pattern, by index: `m` behind the star, `q` behind the bracket. */
  ghost predicate Laid(pat: string, name: string, b: nat, e: nat, m: nat, q: nat) {
    && b < e <= |name| && m == 2 * b + 1 && q == m + (e - b) + 3 && |pat| == q + 2 * (|name| - e)
    && pat[2 * b] == '*' && pat[m] == '[' && pat[m + 1] == '!' && pat[q - 1] == ']'
    && pat[m + 2..q - 1] == name[b..e]
    && (forall i :: 0 <= i < b ==> pat[2 * i] == '\\' && pat[2 * i + 1] == name[i])
    && (forall i :: e <= i < |name| ==> QuotedAt(pat, q, e, name, i))
  }

  predicate QuotedAt(pat: string, q: nat, e: nat, name: string, i: nat)
    requires e <= i < |name|
  {
    var p := q + 2 * (i - e);
    p + 1 < |pat| && pat[p] == '\\' && pat[p + 1] == name[i]
  }

  lemma {:induction false} PatternLaid(name: string, b: nat)
    requires b < |name| && CharSize(name, b) >= 1
    ensures var e := b + CharSize(name, b);
      Laid(ExcludingPattern(name, b), name, b, e, 2 * b + 1, 2 * b + 4 + (e - b))
  {
    hide CharSize, Quoted;
    var e := b + CharSize(name, b);
    var front, middle := Quoted(name[..b]), "[!" + name[b..e] + "]";
    assert front + "*" + middle == front + ("*" + middle);
    QuotedFront(name, b, "*" + middle + Quoted(name[e..]));
    QuotedTail(name, e, front + "*" + middle);
    var pat, m := ExcludingPattern(name, b), 2 * b + 1;
    var q := m + (e - b) + 3;
    assert pat == front + ("*" + middle + Quoted(name[e..]));
    assert pat[m..q] == middle && middle[2..2 + (e - b)] == name[b..e];
    assert pat[m + 2..q - 1] == pat[m..q][2..2 + (e - b)];
    assert pat[m] == pat[m..q][0] && pat[m + 1] == pat[m..q][1] && pat[q - 1] == pat[m..q][q - 1 - m];
  }

  lemma {:induction false} QuotedFront(name: string, b: nat, rest: string)
    requires b <= |name|
    ensures var pat := Quoted(name[..b]) + rest;
      forall i :: 0 <= i < b ==> pat[2 * i] == '\\' && pat[2 * i + 1] == name[i]
  {
    hide Quoted;
    var front, pre := Quoted(name[..b]), name[..b];
    forall i | 0 <= i < b ensures (front + rest)[2 * i] == '\\' && (front + rest)[2 * i + 1] == name[i] {
      assert front[2 * i] == '\\' && front[2 * i + 1] == pre[i];
    }
  }

  lemma {:induction false} QuotedTail(name: string, e: nat, front: string)
    requires e <= |name|
    ensures forall i :: e <= i < |name| ==> QuotedAt(front + Quoted(name[e..]), |front|, e, name, i)
  {
    hide Quoted;
    var tail, post := Quoted(name[e..]), name[e..];
    forall i | e <= i < |name| ensures QuotedAt(front + tail, |front|, e, name, i) {
      var j := i - e;
      assert tail[2 * j] == '\\' && tail[2 * j + 1] == post[j];
    }
  }

  /** The bracket holds everything but the character at `b`. */
  lemma {:induction false} BracketExcludes(pat: string, name: string, b: nat, e: nat, m: nat, q: nat)
    requires Laid(pat, name, b, e, m, q) && e == b + CharSize(name, b) && CharSize(name, b) >= 2
    ensures ParseBracket(pat, m) == Some(Bracket(true, [Between(CodePoint(name, b), CodePoint(name, b))], q))
  {
    hide CharSize, CodePoint;
    var cp, i := CodePoint(name, b), m + 2;
    SameChar(name, b, pat, i);
    LongCharBytes(pat, i);
    assert ParsePart(pat, i, true) == Part(cp, q - 1);
    assert ParseItem(pat, i, true) == Some((Between(cp, cp), q - 1));
    assert ParseItems(pat, q - 1) == Some(([], q));
    assert [Between(cp, cp)] + [] == [Between(cp, cp)];
  }

  lemma {:induction false} OnlyThat(cp: int, x: int, q: nat)
    ensures Bracket(true, [Between(cp, cp)], q).Has(x) <==> x != cp
  {
    assert [Between(cp, cp)][0] == Between(cp, cp);
  }

  /** The literal prefix leads to the star. */
  lemma {:induction false} PrefixLeads(pat: string, name: string, b: nat, e: nat, m: nat, q: nat, i: nat)
    requires Laid(pat, name, b, e, m, q) && i <= b
    ensures Scan(pat, 2 * i, name, i, NoStar) == Scan(pat, 2 * b, name, b, NoStar)
    ensures Matches(pat, 2 * i, name, i, true) ==> Matches(pat, 2 * b, name, b, true)
    decreases b - i
  {
    if i == b {
    } else {
      assert Literal(pat, 2 * i) == (name[i], 2 * (i + 1));
      PrefixLeads(pat, name, b, e, m, q, i + 1);
    }
  }

  lemma TailLiteral(pat: string, name: string, b: nat, e: nat, m: nat, q: nat, i: nat)
    requires Laid(pat, name, b, e, m, q) && e <= i < |name|
    ensures var p := q + 2 * (i - e);
      !AtEnd(pat, p) && pat[p] == '\\' && Literal(pat, p) == (name[i], p + 2)
  {
    assert QuotedAt(pat, q, e, name, i);
  }

  /** From its own place on, the literal tail matches to the end. */
  lemma {:induction false} TailFound(pat: string, name: string, b: nat, e: nat, m: nat, q: nat, i: nat, star: Star)
    requires Laid(pat, name, b, e, m, q) && e <= i <= |name| && StarOk(pat, q, name, i, star)
    ensures Scan(pat, q + 2 * (i - e), name, i, star).Matched?
    decreases |name| - i
  {
    hide Laid;
    LaidLength(pat, name, b, e, m, q);
    if i == |name| {
    } else {
      TailLiteral(pat, name, b, e, m, q, i);
      TailFound(pat, name, b, e, m, q, i + 1, star);
    }
  }

  lemma LaidLength(pat: string, name: string, b: nat, e: nat, m: nat, q: nat)
    requires Laid(pat, name, b, e, m, q)
    ensures b < e <= |name| && m == 2 * b + 1 && q == m + (e - b) + 3 && |pat| == q + 2 * (|name| - e)
  {
  }

  /** Started too early by `d`, the tail ends before the name does: the matcher goes back to its star. */
  lemma {:induction false} TailGivesUp(
    pat: string, name: string, b: nat, e: nat, m: nat, q: nat, i: nat, d: nat, k: nat)
    requires Laid(pat, name, b, e, m, q) && e <= i <= |name| && 0 < d <= i && k < i - d
    ensures k + 1 <= |name| && m <= |pat|
    ensures Scan(pat, q + 2 * (i - e), name, i - d, Star(m, k + 1)) == Scan(pat, m, name, k + 1, Star(m, k + 2))
    decreases |name| - i
  {
    hide Laid;
    LaidLength(pat, name, b, e, m, q);
    if i == |name| {
    } else {
      TailLiteral(pat, name, b, e, m, q, i);
      TailGivesUp(pat, name, b, e, m, q, i + 1, d, k);
    }
  }

  /** The star finds the last byte of the character. */
  lemma {:induction false} SplitFound(pat: string, name: string, b: nat, e: nat, m: nat, q: nat, k: nat)
    requires Laid(pat, name, b, e, m, q) && e == b + CharSize(name, b) && CharSize(name, b) >= 2 && b <= k < e
    ensures m <= |pat| && Scan(pat, m, name, k, Star(m, k + 1)).Matched?
    decreases e - k
  {
    hide Laid, Scan, CharSize, CodePoint, ParseBracket;
    LaidLength(pat, name, b, e, m, q);
    BracketExcludes(pat, name, b, e, m, q);
    OnlyThat(CodePoint(name, b), CodePoint(name, k), q);
    BracketAt(pat, name, b, e, m, q);
    ScanMoves(pat, m, name, k, Star(m, k + 1));
    if k == b {
      SplitFound(pat, name, b, e, m, q, k + 1);
    } else {
      InsideIsInvalid(name, b, k);
      if k == e - 1 {
        TailFound(pat, name, b, e, m, q, e, Star(m, k + 1));
      } else {
        TailGivesUp(pat, name, b, e, m, q, e, e - (k + 1), k);
        SplitFound(pat, name, b, e, m, q, k + 1);
      }
    }
  }

  lemma BracketAt(pat: string, name: string, b: nat, e: nat, m: nat, q: nat)
    requires Laid(pat, name, b, e, m, q)
    ensures !AtEnd(pat, m) && pat[m] == '[' && 2 * b < |pat| && pat[2 * b] == '*'
  {
  }

  /** The tail matches only at its own place. */
  lemma {:induction false} TailPlace(pat: string, name: string, b: nat, e: nat, m: nat, q: nat, i: nat, n: nat)
    requires Laid(pat, name, b, e, m, q) && e <= i <= |name| && n <= |name|
    requires Matches(pat, q + 2 * (i - e), name, n, true)
    ensures n == i
    decreases |name| - i
  {
    hide Laid;
    LaidLength(pat, name, b, e, m, q);
    if i == |name| {
    } else {
      TailLiteral(pat, name, b, e, m, q, i);
      TailPlace(pat, name, b, e, m, q, i + 1, n + 1);
    }
  }

  /** A whole character in front of the tail could only be the excluded one. */
  lemma {:induction false} NoWholeMatch(pat: string, name: string, b: nat, e: nat, m: nat, q: nat, k: nat)
    requires Laid(pat, name, b, e, m, q) && e == b + CharSize(name, b) && CharSize(name, b) >= 2 && b <= k <= |name|
    ensures m <= |pat| && !Matches(pat, m, name, k, true)
  {
    hide Laid, CharSize, CodePoint, ParseBracket;
    LaidLength(pat, name, b, e, m, q);
    BracketExcludes(pat, name, b, e, m, q);
    BracketAt(pat, name, b, e, m, q);
    if k < |name| {
      OnlyThat(CodePoint(name, b), CodePoint(name, k), q);
      if Matches(pat, q, name, k + Step(name, k), true) {
        TailPlace(pat, name, b, e, m, q, e, k + Step(name, k));
      }
    }
  }

  /** A character of several bytes makes the matcher report a match that splits it. */
  lemma {:induction false} CharacterSplit(name: string, b: nat)
    requires b < |name| && CharSize(name, b) >= 2
    ensures var pat := ExcludingPattern(name, b);
      Verdict(pat, 0, name).Matched? && !Matches(pat, 0, name, 0, true)
  {
    hide Laid, Scan, CharSize, ExcludingPattern, Matches;
    var e, pat := b + CharSize(name, b), ExcludingPattern(name, b);
    var m := 2 * b + 1;
    var q := m + (e - b) + 3;
    PatternLaid(name, b);
    LaidLength(pat, name, b, e, m, q);
    BracketAt(pat, name, b, e, m, q);
    PrefixLeads(pat, name, b, e, m, q, 0);
    ScanMoves(pat, 2 * b, name, b, NoStar);
    SplitFound(pat, name, b, e, m, q, b);
    forall k | b <= k <= |name| ensures !Matches(pat, m, name, k, true) {
      NoWholeMatch(pat, name, b, e, m, q, k);
    }
    NoStarMatch(pat, 2 * b, name, b, m);
  }

  lemma NoStarMatch(pat: string, p: nat, name: string, n: nat, rest: nat)
    requires p < |pat| && pat[p] == '*' && n <= |name| && rest == p + 1
    requires forall k :: n <= k <= |name| ==> !Matches(pat, rest, name, k, true)
    ensures !Matches(pat, p, name, n, true)
  {
  }

  /** The matcher agrees with the meaning by whole characters on all patterns exactly for the names in
      which no character has several bytes. */
  lemma {:induction false} WholeNames(name: string)
    ensures AllSingle(name) <==> forall pat :: Verdict(pat, 0, name).Matched? <==> Matches(pat, 0, name, 0, true)
  {
    hide Scan, Matches;
    if AllSingle(name) {
      forall pat ensures Verdict(pat, 0, name).Matched? <==> Matches(pat, 0, name, 0, true) {
        VerdictBetween(pat, 0, name);
        SingleReading(pat, 0, name, 0);
      }
    } else {
      var b :| 0 <= b < |name| && CharSize(name, b) > 1;
      CharacterSplit(name, b);
      var pat := ExcludingPattern(name, b);
      assert !(Verdict(pat, 0, name).Matched? <==> Matches(pat, 0, name, 0, true));
    }
  }

  /** The smallest such case: `*[!é]` is reported to match the name `é`. */
  lemma {:induction false} AccentExample()
    ensures var name := ['\U{C3}', '\U{A9}'];
      && ExcludingPattern(name, 0) == "*[!" + name + "]"
      && Verdict("*[!" + name + "]", 0, name).Matched? && !Matches("*[!" + name + "]", 0, name, 0, true)
  {
    hide Scan, Matches;
    var name := ['\U{C3}', '\U{A9}'];
    assert CharSize(name, 0) == 2;
    CharacterSplit(name, 0);
    assert name[0..2] == name && name[..0] == "" && name[2..] == "";
    assert "*" + ("[!" + name + "]") == "*[!" + name + "]";
  }
}
