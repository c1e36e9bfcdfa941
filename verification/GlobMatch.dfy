/** Matching a file name against one component of a glob pattern (src/glob.cpp): a wildcard matcher that
    remembers only the last `*`. */
module GlobMatch {
  import opened Wrappers
  import opened Utf8
  import opened GlobBracket

  // ---------------------------------------------------------------- what a match is

  /** The byte a backslash or an ordinary byte stands for, and where the pattern goes on. A backslash at
      the very end stands for itself. */
  function Literal(pat: string, p: nat): (r: (char, nat))
    requires p < |pat|
    ensures p < r.1 <= |pat|
  {
    if pat[p] == '\\' && p + 1 < |pat| then (pat[p + 1], p + 2) else (pat[p], p + 1)
  }

  /** Whether `?` or a bracket may start at `n`: a match by whole characters never splits one. */
  predicate MayStart(name: string, n: nat, whole: bool)
    requires n <= |name|
  {
    whole ==> Boundary(name, n)
  }

  /** The component at `p` matches the name from `n` on: `*` is any byte string, `?` and brackets are one
      code point or one invalid byte. */
  ghost predicate Matches(pat: string, p: nat, name: string, n: nat, whole: bool)
    requires p <= |pat| && n <= |name|
    decreases |pat| - p
  {
    if AtEnd(pat, p) then n == |name|
    else if pat[p] == '*' then
      var rest := p + 1;
      exists k :: n <= k <= |name| && Matches(pat, rest, name, k, whole)
    else if n == |name| then false
    else if pat[p] == '?' then
      MayStart(name, n, whole) && Matches(pat, p + 1, name, n + Step(name, n), whole)
    else if pat[p] == '[' then
      && MayStart(name, n, whole)
      && ParseBracket(pat, p).Some?
      && ParseBracket(pat, p).value.Has(CodePoint(name, n))
      && Matches(pat, ParseBracket(pat, p).value.end, name, n + Step(name, n), whole)
    else
      name[n] == Literal(pat, p).0 && Matches(pat, Literal(pat, p).1, name, n + 1, whole)
  }

  // ---------------------------------------------------------------- the matcher, as a function

  datatype Outcome = Matched(at: nat) | Unmatched | BadPattern

  /** The remembered `*`: the pattern behind it and the next name position to try. */
  datatype Star = NoStar | Star(p: nat, n: nat)

  function SkipStars(pat: string, p: nat): (q: nat)
    requires p <= |pat|
    ensures p <= q <= |pat|
    decreases |pat| - p
  {
    if Expect(pat, p, '*') then SkipStars(pat, p + 1) else p
  }

  /** One step at a position inside both strings: go on at (p, n), go on behind a new star, give up this
      attempt, or stop. */
  datatype Move = Go(p: nat, n: nat) | GoStar(p: nat) | Mismatch | Stop(o: Outcome)

  function MoveAt(pat: string, p: nat, name: string, n: nat): (m: Move)
    requires p <= |pat| && n < |name|
    ensures m.Go? ==> p < m.p <= |pat| && n < m.n <= |name|
    ensures m.GoStar? ==> p < m.p <= |pat|
  {
    if AtEnd(pat, p) then Mismatch
    else if pat[p] == '*' then
      if AtEnd(pat, p + 1) then Stop(Matched(p + 1)) else GoStar(p + 1)
    else if pat[p] == '?' then Go(p + 1, n + Step(name, n))
    else if pat[p] == '[' then
      match ParseBracket(pat, p)
      case None => Stop(BadPattern)
      case Some(b) => if b.Has(CodePoint(name, n)) then Go(b.end, n + Step(name, n)) else Mismatch
    else if name[n] == Literal(pat, p).0 then Go(Literal(pat, p).1, n + 1)
    else Mismatch
  }

  predicate StarOk(pat: string, p: nat, name: string, n: nat, star: Star) {
    star.Star? ==> 0 < star.p <= p <= |pat| && star.n <= n + 1
  }

  function Scan(pat: string, p: nat, name: string, n: nat, star: Star): Outcome
    requires p <= |pat| && n <= |name| && StarOk(pat, p, name, n, star)
    decreases if star.NoStar? then |pat| + 1 else |pat| - star.p,
              if star.NoStar? then 0 else |name| + 1 - star.n,
              |pat| - p
  {
    if n == |name| then
      if AtEnd(pat, SkipStars(pat, p)) then Matched(SkipStars(pat, p)) else Unmatched
    else
      match MoveAt(pat, p, name, n)
      case Go(p', n') => Scan(pat, p', name, n', star)
      case GoStar(p') => Scan(pat, p', name, n, Star(p', n + 1))
      case Stop(o) => o
      case Mismatch =>
        if star.NoStar? then Unmatched else Scan(pat, star.p, name, star.n, Star(star.p, star.n + 1))
  }

  lemma ScanMoves(pat: string, p: nat, name: string, n: nat, star: Star)
    requires p <= |pat| && n < |name| && StarOk(pat, p, name, n, star)
    ensures match MoveAt(pat, p, name, n)
      case Go(p', n') => Scan(pat, p, name, n, star) == Scan(pat, p', name, n', star)
      case GoStar(p') => Scan(pat, p, name, n, star) == Scan(pat, p', name, n, Star(p', n + 1))
      case Stop(o) => Scan(pat, p, name, n, star) == o
      case Mismatch =>
        if star.NoStar? then Scan(pat, p, name, n, star) == Unmatched
        else Scan(pat, p, name, n, star) == Scan(pat, star.p, name, star.n, Star(star.p, star.n + 1))
  {
  }

  lemma ScanEnds(pat: string, p: nat, name: string, star: Star)
    requires p <= |pat| && StarOk(pat, p, name, |name|, star)
    ensures var q := SkipStars(pat, p);
      Scan(pat, p, name, |name|, star) == if AtEnd(pat, q) then Matched(q) else Unmatched
  {
  }

  // ---------------------------------------------------------------- soundness

  lemma {:induction false} StarsMatchNothing(pat: string, p: nat, name: string, whole: bool)
    requires p <= |pat|
    ensures Matches(pat, p, name, |name|, whole) <==> AtEnd(pat, SkipStars(pat, p))
    decreases |pat| - p
  {
    if Expect(pat, p, '*') {
      StarsMatchNothing(pat, p + 1, name, whole);
    }
  }

  /** The remembered star still has a match to offer. */
  ghost predicate StarMatches(pat: string, name: string, star: Star, whole: bool) {
    star.Star? && star.p <= |pat| && exists k :: star.n <= k <= |name| && Matches(pat, star.p, name, k, whole)
  }

  /** Every verdict "matched" is a match, and the scanner stands at the end of the component. */
  lemma {:induction false} ScanSound(pat: string, p: nat, name: string, n: nat, star: Star)
    requires p <= |pat| && n <= |name| && StarOk(pat, p, name, n, star)
    requires Scan(pat, p, name, n, star).Matched?
    ensures Matches(pat, p, name, n, false) || StarMatches(pat, name, star, false)
    ensures AtEnd(pat, Scan(pat, p, name, n, star).at)
    decreases if star.NoStar? then |pat| + 1 else |pat| - star.p,
              if star.NoStar? then 0 else |name| + 1 - star.n,
              |pat| - p
  {
    if n == |name| {
      StarsMatchNothing(pat, p, name, false);
    } else {
      match MoveAt(pat, p, name, n)
      case Go(p', n') =>
        ScanSound(pat, p', name, n', star);
      case GoStar(p') =>
        ScanSound(pat, p', name, n, Star(p', n + 1));
      case Stop(o) =>
        assert Matches(pat, p + 1, name, |name|, false);
      case Mismatch =>
        ScanSound(pat, star.p, name, star.n, Star(star.p, star.n + 1));
    }
  }

  // ---------------------------------------------------------------- completeness

  /** Stepping never overtakes a later start: always so for matches by whole characters, and for all
      matches when the name has no sequence of three bytes or more. */
  predicate Steady(name: string, whole: bool) { whole || AllShort(name) }

  /** Whatever the remembered star could still match runs through the current pattern position, at or
      behind the current name position. */
  ghost predicate RunsThrough(pat: string, p: nat, name: string, n: nat, star: Star, whole: bool)
    requires p <= |pat|
  {
    StarMatches(pat, name, star, whole) ==> exists k :: n <= k <= |name| && Matches(pat, p, name, k, whole)
  }

  lemma {:induction false} MatchesFrom(pat: string, p: nat, name: string, n: nat, whole: bool, k: nat)
    requires p <= |pat| && n <= k <= |name| && n < |name| && Steady(name, whole) && Matches(pat, p, name, k, whole)
    requires MoveAt(pat, p, name, n).Go?
    ensures var m := MoveAt(pat, p, name, n); exists k' :: m.n <= k' <= |name| && Matches(pat, m.p, name, k', whole)
  {
    var m := MoveAt(pat, p, name, n);
    if pat[p] == '?' || pat[p] == '[' {
      StepMonotone(name, n, k);
      assert Matches(pat, m.p, name, k + Step(name, k), whole);
    } else {
      assert Matches(pat, m.p, name, k + 1, whole);
    }
  }

  lemma MismatchIsNone(pat: string, p: nat, name: string, n: nat, whole: bool)
    requires p <= |pat| && n < |name| && MoveAt(pat, p, name, n).Mismatch?
    ensures !Matches(pat, p, name, n, whole)
  {
  }

  lemma GoMatches(pat: string, p: nat, name: string, n: nat, whole: bool)
    requires p <= |pat| && n < |name| && MoveAt(pat, p, name, n).Go? && Matches(pat, p, name, n, whole)
    ensures Matches(pat, MoveAt(pat, p, name, n).p, name, MoveAt(pat, p, name, n).n, whole)
  {
  }

  /** Without a verdict "matched" there is no match: neither here nor where the remembered star could
      still go. Forgetting the earlier stars loses nothing. */
  lemma {:induction false} ScanComplete(pat: string, p: nat, name: string, n: nat, star: Star, whole: bool)
    requires p <= |pat| && n <= |name| && StarOk(pat, p, name, n, star)
    requires Steady(name, whole) && RunsThrough(pat, p, name, n, star, whole)
    requires !Scan(pat, p, name, n, star).Matched?
    ensures !Matches(pat, p, name, n, whole) && !StarMatches(pat, name, star, whole)
    decreases if star.NoStar? then |pat| + 1 else |pat| - star.p,
              if star.NoStar? then 0 else |name| + 1 - star.n,
              |pat| - p
  {
    hide Matches, Steady;
    if n == |name| {
      StarsMatchNothing(pat, p, name, whole);
    } else {
      match MoveAt(pat, p, name, n)
      case Go(p', n') =>
        GoRunsThrough(pat, p, name, n, star, whole);
        ScanComplete(pat, p', name, n', star, whole);
        if Matches(pat, p, name, n, whole) {
          GoMatches(pat, p, name, n, whole);
        }
      case GoStar(p') =>
        ScanComplete(pat, p', name, n, Star(p', n + 1), whole);
        StarStep(pat, p, name, n, star, whole);
      case Stop(o) =>
        NoMatchAtBadBracket(pat, p, name, whole);
      case Mismatch =>
        MismatchIsNone(pat, p, name, n, whole);
        if star.Star? {
          RetryStep(pat, name, star, whole);
        }
    }
  }

  lemma {:induction false} GoRunsThrough(pat: string, p: nat, name: string, n: nat, star: Star, whole: bool)
    requires p <= |pat| && n < |name| && Steady(name, whole) && RunsThrough(pat, p, name, n, star, whole)
    requires MoveAt(pat, p, name, n).Go?
    ensures RunsThrough(pat, MoveAt(pat, p, name, n).p, name, MoveAt(pat, p, name, n).n, star, whole)
  {
    if StarMatches(pat, name, star, whole) {
      var k :| n <= k <= |name| && Matches(pat, p, name, k, whole);
      MatchesFrom(pat, p, name, n, whole, k);
    }
  }

  lemma StarStep(pat: string, p: nat, name: string, n: nat, star: Star, whole: bool)
    requires p < |pat| && Expect(pat, p, '*') && n < |name| && RunsThrough(pat, p, name, n, star, whole)
    requires !Matches(pat, p + 1, name, n, whole) && !StarMatches(pat, name, Star(p + 1, n + 1), whole)
    ensures !Matches(pat, p, name, n, whole) && !StarMatches(pat, name, star, whole)
  {
  }

  lemma {:induction false} RetryStep(pat: string, name: string, star: Star, whole: bool)
    requires star.Star? && 0 < star.p <= |pat| && star.n <= |name| && Steady(name, whole)
    requires !Scan(pat, star.p, name, star.n, Star(star.p, star.n + 1)).Matched?
    ensures !StarMatches(pat, name, star, whole)
    decreases |pat| - star.p, |name| - star.n, |pat| + 1
  {
    var next := Star(star.p, star.n + 1);
    if StarMatches(pat, name, next, whole) {
      var k :| next.n <= k <= |name| && Matches(pat, next.p, name, k, whole);
      assert star.n <= k;
    }
    ScanComplete(pat, star.p, name, star.n, next, whole);
    if StarMatches(pat, name, star, whole) {
      StarSplits(pat, name, star, whole);
    }
  }

  lemma StarSplits(pat: string, name: string, star: Star, whole: bool)
    requires star.Star? && 0 < star.p <= |pat| && StarMatches(pat, name, star, whole)
    ensures Matches(pat, star.p, name, star.n, whole) || StarMatches(pat, name, Star(star.p, star.n + 1), whole)
  {
  }

  lemma NoMatchAtBadBracket(pat: string, p: nat, name: string, whole: bool)
    requires Expect(pat, p, '[') && ParseBracket(pat, p).None?
    ensures forall k :: 0 <= k <= |name| ==> !Matches(pat, p, name, k, whole)
  {
  }

  // ---------------------------------------------------------------- exactly when the matcher is complete

  /** The matcher's verdict for a whole component. */
  function Verdict(pat: string, p: nat, name: string): Outcome
    requires p <= |pat|
  {
    Scan(pat, p, name, 0, NoStar)
  }

  /** For every pattern and name: what matches by whole characters is found, and what is found matches
      byte by byte. */
  lemma {:induction false} VerdictBetween(pat: string, p: nat, name: string)
    requires p <= |pat|
    ensures Matches(pat, p, name, 0, true) ==> Verdict(pat, p, name).Matched?
    ensures Verdict(pat, p, name).Matched? ==> Matches(pat, p, name, 0, false) && AtEnd(pat, Verdict(pat, p, name).at)
  {
    if Verdict(pat, p, name).Matched? {
      ScanSound(pat, p, name, 0, NoStar);
    } else {
      ScanComplete(pat, p, name, 0, NoStar, true);
    }
  }

  /** Without sequences of three bytes or more the verdict is exact. */
  lemma {:induction false} VerdictExact(pat: string, p: nat, name: string)
    requires p <= |pat| && AllShort(name)
    ensures Verdict(pat, p, name).Matched? <==> Matches(pat, p, name, 0, false)
  {
    VerdictBetween(pat, p, name);
    if !Verdict(pat, p, name).Matched? {
      ScanComplete(pat, p, name, 0, NoStar, false);
    }
  }

  function Repeat(c: char, k: nat): (s: string)
    ensures |s| == k && forall i :: 0 <= i < k ==> s[i] == c
  {
    if k == 0 then "" else [c] + Repeat(c, k - 1)
  }

  /** Every byte with a backslash in front. */
  function Quoted(s: string): (r: string)
    ensures |r| == 2 * |s|
    ensures forall i :: 0 <= i < |s| ==> r[2 * i] == '\\' && r[2 * i + 1] == s[i]
  {
    if s == "" then "" else Quoted(s[..|s| - 1]) + ['\\', s[|s| - 1]]
  }

  /** How many code points or invalid bytes follow from `n` on. */
  function StepsFrom(name: string, n: nat): (c: nat)
    requires n <= |name|
    decreases |name| - n
  {
    if n == |name| then 0 else 1 + StepsFrom(name, n + Step(name, n))
  }

  /** A pattern that needs a star to end inside the long sequence at `b`: the bytes before it literally, a
      star, and one `?` more than there are characters from `b` on. */
  function SplittingPattern(name: string, b: nat): string
    requires b <= |name|
  {
    Quoted(name[..b]) + "*" + Repeat('?', StepsFrom(name, b) + 1)
  }

  lemma {:induction false} SplittingAt(name: string, b: nat, p: nat)
    requires b <= |name| && p < |SplittingPattern(name, b)|
    ensures var pat := SplittingPattern(name, b);
      && (p < 2 * b ==> pat[p] == if p % 2 == 0 then '\\' else name[p / 2])
      && (p == 2 * b ==> pat[p] == '*')
      && (p > 2 * b ==> pat[p] == '?')
  {
    if p < 2 * b {
      assert p == 2 * (p / 2) || p == 2 * (p / 2) + 1;
      assert name[..b][p / 2] == name[p / 2];
    }
  }

  /** The literal prefix leads both strings to the long sequence. */
  lemma {:induction false} PrefixRuns(name: string, b: nat, i: nat)
    requires i <= b <= |name|
    ensures var pat := SplittingPattern(name, b);
      && Scan(pat, 2 * i, name, i, NoStar) == Scan(pat, 2 * b, name, b, NoStar)
      && (Matches(pat, 2 * b, name, b, false) ==> Matches(pat, 2 * i, name, i, false))
    decreases b - i
  {
    hide Quoted, Repeat, StepsFrom, SplittingPattern;
    if i == b {
    } else {
      var pat := SplittingPattern(name, b);
      PatternLength(name, b);
      SplittingAt(name, b, 2 * i);
      SplittingAt(name, b, 2 * i + 1);
      assert (2 * i) % 2 == 0 && (2 * i + 1) / 2 == i;
      assert Literal(pat, 2 * i) == (name[i], 2 * (i + 1));
      PrefixRuns(name, b, i + 1);
    }
  }

  lemma PatternLength(name: string, b: nat)
    requires b <= |name|
    ensures |SplittingPattern(name, b)| == 2 * b + 2 + StepsFrom(name, b)
  {
  }

  /** `m` question marks against fewer characters run out of name. */
  lemma {:induction false} TooManyMarks(pat: string, p: nat, name: string, n: nat, star: Star)
    requires p <= |pat| && n <= |name| && StarOk(pat, p, name, n, star)
    requires |pat| - p > StepsFrom(name, n)
    requires forall i :: p <= i < |pat| ==> pat[i] == '?'
    ensures Scan(pat, p, name, n, star) == Unmatched
    decreases |name| - n
  {
    if n == |name| {
    } else {
      TooManyMarks(pat, p + 1, name, n + Step(name, n), star);
    }
  }

  lemma {:induction false} EnoughMarks(pat: string, p: nat, name: string, n: nat)
    requires p <= |pat| && n <= |name| && |pat| - p == StepsFrom(name, n)
    requires forall i :: p <= i < |pat| ==> pat[i] == '?'
    ensures Matches(pat, p, name, n, false)
    decreases |name| - n
  {
    if n == |name| {
    } else {
      EnoughMarks(pat, p + 1, name, n + Step(name, n));
    }
  }

  /** A long sequence makes the matcher miss a match: with the star ending two bytes before its end the
      question marks are just enough, but the matcher gives up at its first byte. */
  lemma {:induction false} LongSequenceMissed(name: string, b: nat)
    requires b < |name| && CharSize(name, b) >= 3
    ensures var pat := SplittingPattern(name, b);
      Matches(pat, 0, name, 0, false) && Verdict(pat, 0, name) == Unmatched
  {
    hide Quoted, Repeat, SplittingPattern, Matches, Scan, StepsFrom;
    var pat := SplittingPattern(name, b);
    PatternLength(name, b);
    forall i | 2 * b < i < |pat|
      ensures pat[i] == '?'
    {
      SplittingAt(name, b, i);
    }
    SplittingAt(name, b, 2 * b);
    PrefixRuns(name, b, 0);
    CountInside(name, b);
    TooManyMarks(pat, 2 * b + 1, name, b, Star(2 * b + 1, b + 1));
    StarStarts(pat, 2 * b, name, b);
    var k := b + CharSize(name, b) - 2;
    EnoughMarks(pat, 2 * b + 1, name, k);
    StarMatchesAt(pat, 2 * b, name, b, k);
  }

  lemma {:induction false} CountInside(name: string, b: nat)
    requires b < |name| && CharSize(name, b) >= 3
    ensures StepsFrom(name, b + CharSize(name, b) - 2) == StepsFrom(name, b) + 1
  {
    var e := b + CharSize(name, b);
    InsideIsInvalid(name, b, e - 2);
    InsideIsInvalid(name, b, e - 1);
    assert StepsFrom(name, e - 2) == 1 + StepsFrom(name, e - 1) == 2 + StepsFrom(name, e);
  }

  lemma StarStarts(pat: string, p: nat, name: string, n: nat)
    requires p + 1 < |pat| && pat[p] == '*' && pat[p + 1] == '?' && n < |name|
    ensures Scan(pat, p, name, n, NoStar) == Scan(pat, p + 1, name, n, Star(p + 1, n + 1))
  {
  }

  lemma StarMatchesAt(pat: string, p: nat, name: string, n: nat, k: nat)
    requires p < |pat| && pat[p] == '*' && n <= k <= |name| && Matches(pat, p + 1, name, k, false)
    ensures Matches(pat, p, name, n, false)
  {
  }

  /** The last-star matcher agrees with the byte-wise meaning of patterns on all patterns exactly for the
      names without a valid sequence of three or four bytes. */
  lemma {:induction false} ExactNames(name: string)
    ensures AllShort(name) <==> forall pat :: Verdict(pat, 0, name).Matched? <==> Matches(pat, 0, name, 0, false)
  {
    hide Scan, Matches;
    if AllShort(name) {
      forall pat
        ensures Verdict(pat, 0, name).Matched? <==> Matches(pat, 0, name, 0, false)
      {
        VerdictExact(pat, 0, name);
      }
    } else {
      var b :| 0 <= b < |name| && CharSize(name, b) > 2;
      LongSequenceMissed(name, b);
      var pat := SplittingPattern(name, b);
      assert !(Verdict(pat, 0, name).Matched? <==> Matches(pat, 0, name, 0, false));
    }
  }

  /** The smallest such case: `*??` against one three-byte character. */
  lemma {:induction false} ThreeByteExample()
    ensures var name := ['\U{E3}', '\U{81}', '\U{82}'];
      Matches("*??", 0, name, 0, false) && Verdict("*??", 0, name) == Unmatched
  {
    var name := ['\U{E3}', '\U{81}', '\U{82}'];
    var pat := "*??";
    assert CharSize(name, 0) == 3 && CharSize(name, 1) == 0 && CharSize(name, 2) == 0;
    assert StepsFrom(name, 3) == 0 && StepsFrom(name, 2) == 1 && StepsFrom(name, 1) == 2;
    assert StepsFrom(name, 0) == 1 + StepsFrom(name, 3);
    TooManyMarks(pat, 1, name, 0, Star(1, 1));
    StarStarts(pat, 0, name, 0);
    EnoughMarks(pat, 1, name, 1);
    StarMatchesAt(pat, 0, name, 0, 1);
  }
}
