/** Anchors for the meaning of glob patterns (src/glob.cpp): the single wildcards, the character classes by
    their names, and when a pattern is reported as bad. */
module GlobLaws {
  import opened Wrappers
  import opened Utf8
  import opened GlobBracket
  import opened GlobMatch
  import opened GlobPrint

  // ---------------------------------------------------------------- single wildcards

  /** `*` matches every name, the empty one included. */
  lemma {:induction false} LoneStar(name: string)
    ensures Verdict("*", 0, name).Matched? && Matches("*", 0, name, 0, false) && Matches("*", 0, name, 0, true)
  {
    assert Matches("*", 1, name, |name|, false) && Matches("*", 1, name, |name|, true);
    assert SkipStars("*", 1) == 1;
  }

  /** `?` matches exactly the names of one character, or of one invalid byte. */
  lemma {:induction false} LoneMark(name: string)
    ensures Verdict("?", 0, name).Matched? <==> name != "" && Step(name, 0) == |name|
    ensures Matches("?", 0, name, 0, false) <==> name != "" && Step(name, 0) == |name|
  {
    assert SkipStars("?", 0) == 0;
    if name != "" {
      var n := Step(name, 0);
      assert Scan("?", 1, name, n, NoStar).Matched? <==> n == |name|;
      assert Matches("?", 1, name, n, false) <==> n == |name|;
    }
  }

  /** A slash ends the component: what follows it plays no part. */
  lemma SlashEnds(name: string, rest: string)
    ensures Verdict("*/" + rest, 0, name) == Matched(1)
  {
    var pat := "*/" + rest;
    assert pat[0] == '*' && pat[1] == '/';
    assert SkipStars(pat, 1) == 1;
  }

  /** A backslash at the very end stands for itself; before anything else it makes that a literal. */
  lemma {:induction false} Backslashes(c: char, name: string)
    ensures Matches("\\", 0, name, 0, false) <==> name == "\\"
    ensures Matches(['\\', c], 0, name, 0, false) <==> name == [c]
  {
    assert Literal("\\", 0) == ('\\', 1) && Literal(['\\', c], 0) == (c, 2);
    if name != "" {
      assert name == [name[0]] + name[1..];
      assert Matches("\\", 1, name, 1, false) <==> |name| == 1;
      assert Matches(['\\', c], 2, name, 1, false) <==> |name| == 1;
    }
  }

  // ---------------------------------------------------------------- unescaped brackets

  /** Two characters with a dash between them are a range, refused when they are in the wrong order. */
  lemma {:induction false} PlainRange(lo: char, hi: char)
    requires 'A' <= lo <= 'z' && 'A' <= hi <= 'z' && lo !in "[]^\\" && hi !in "[]^\\"
    ensures var pat := ['[', lo, '-', hi, ']'];
      ParseBracket(pat, 0)
      == if lo <= hi then Some(Bracket(false, [Between(lo as int, hi as int)], 5)) else None
  {
    var pat := ['[', lo, '-', hi, ']'];
    assert ParsePart(pat, 1, true) == Part(lo as int, 2) && ParsePart(pat, 3, false) == Part(hi as int, 4);
    assert ParseItems(pat, 4) == Some(([], 5));
    if lo <= hi {
      assert ParseItem(pat, 1, true) == Some((Between(lo as int, hi as int), 4));
      assert [Between(lo as int, hi as int)] + [] == [Between(lo as int, hi as int)];
    } else {
      assert ParseItem(pat, 1, true) == None;
    }
  }

  /** `[]` is empty, a `]` directly behind `!` is a member, a dash at either end is a member, and an
      expression without its closing bracket, or with a `/` in it, is malformed. */
  lemma {:induction false} EdgeForms()
    ensures ParseBracket("[]", 0) == Some(Bracket(false, [], 2))
    ensures ParseBracket("[!]]", 0) == Some(Bracket(true, [Between(93, 93)], 4))
    ensures ParseBracket("[^]]", 0) == Some(Bracket(true, [Between(93, 93)], 4))
    ensures ParseBracket("[-a]", 0) == Some(Bracket(false, [Between(45, 45), Between(97, 97)], 4))
    ensures ParseBracket("[a-]", 0) == Some(Bracket(false, [Between(97, 97), Between(45, 45)], 4))
    ensures ParseBracket("[a", 0) == None && ParseBracket("[a/]", 0) == None && ParseBracket("[", 0) == None
  {
    EdgeClosers("[!]]");
    EdgeClosers("[^]]");
    EdgeDashes();
  }

  /** An unknown or unclosed class, a class as the end of a range, and a dash in the middle are malformed. */
  lemma {:induction false} BadForms()
    ensures ParseBracket("[[:foo:]]", 0) == None && ParseBracket("[[:digit]", 0) == None
    ensures ParseBracket("[[:digit:]-x]", 0) == None && ParseBracket("[a-[:digit:]]", 0) == None
    ensures ParseBracket("[ab-c-d]", 0) == None
  {
    hide Lookup, ClassHas;
    UnknownClass();
    UnclosedClass();
    ClassAtDash();
    DashAtClass();
    DashInside();
  }

  lemma {:induction false} UnknownClass()
    ensures ParseBracket("[[:foo:]]", 0) == None
  {
    var pat := "[[:foo:]]";
    assert pat[3..6] == "foo" && Lookup("foo") == None;
    assert SkipLower(pat, 6) == 6 && SkipLower(pat, 5) == 6 && SkipLower(pat, 4) == 6 && SkipLower(pat, 3) == 6;
    assert ParseClass(pat, 1) == BadClass;
    assert ParseItem(pat, 1, true) == None;
  }

  lemma {:induction false} UnclosedClass()
    ensures ParseBracket("[[:digit]", 0) == None
  {
    hide Lookup;
    var pat := "[[:digit]";
    assert SkipLower(pat, 8) == 8 && SkipLower(pat, 7) == 8 && SkipLower(pat, 6) == 8;
    assert SkipLower(pat, 5) == 8 && SkipLower(pat, 4) == 8 && SkipLower(pat, 3) == 8;
    assert ParseClass(pat, 1) == BadClass;
    assert ParseItem(pat, 1, true) == None;
  }

  lemma {:induction false} ClassAtDash()
    ensures ParseBracket("[[:digit:]-x]", 0) == None
  {
    hide Lookup;
    var pat := "[[:digit:]-x]";
    ClassNames();
    assert pat[3..8] == "digit";
    assert SkipLower(pat, 8) == 8 && SkipLower(pat, 7) == 8 && SkipLower(pat, 6) == 8;
    assert SkipLower(pat, 5) == 8 && SkipLower(pat, 4) == 8 && SkipLower(pat, 3) == 8;
    assert ParseClass(pat, 1) == ClassPart(Digit, 10);
    assert ParseItem(pat, 1, true) == None;
  }

  lemma {:induction false} DashAtClass()
    ensures ParseBracket("[a-[:digit:]]", 0) == None
  {
    hide Lookup, SkipLower;
    var pat := "[a-[:digit:]]";
    assert ParsePart(pat, 1, true) == Part(97, 2) && ParsePart(pat, 3, false) == NoPart;
    assert ParseItem(pat, 1, true) == None;
  }

  lemma {:induction false} DashInside()
    ensures ParseBracket("[ab-c-d]", 0) == None
  {
    hide Lookup, SkipLower;
    var pat := "[ab-c-d]";
    assert ParseItem(pat, 1, true) == Some((Between(97, 97), 2));
    assert ParseItem(pat, 2, false) == Some((Between(98, 99), 5));
    assert ParseItem(pat, 5, false) == None;
    assert ParseItems(pat, 5) == None && ParseItems(pat, 2) == None;
  }

  lemma {:induction false} EdgeClosers(pat: string)
    requires |pat| == 4 && pat[0] == '[' && (pat[1] == '!' || pat[1] == '^') && pat[2] == ']' && pat[3] == ']'
    ensures ParseBracket(pat, 0) == Some(Bracket(true, [Between(93, 93)], 4))
  {
    assert ParseItem(pat, 2, true) == Some((Between(93, 93), 3));
    assert ParseItems(pat, 3) == Some(([], 4));
    assert [Between(93, 93)] + [] == [Between(93, 93)];
  }

  lemma {:induction false} EdgeDashes()
    ensures ParseBracket("[-a]", 0) == Some(Bracket(false, [Between(45, 45), Between(97, 97)], 4))
    ensures ParseBracket("[a-]", 0) == Some(Bracket(false, [Between(97, 97), Between(45, 45)], 4))
  {
    var dash, a := Between(45, 45), Between(97, 97);
    assert [a] + [] == [a] && [dash] + [] == [dash];
    assert ParseItem("[-a]", 1, true) == Some((dash, 2)) && ParseItem("[-a]", 2, false) == Some((a, 3));
    assert ParseItems("[-a]", 3) == Some(([], 4)) && ParseItems("[-a]", 2) == Some(([a], 4));
    assert ParseItem("[a-]", 1, true) == Some((a, 2)) && ParseItem("[a-]", 2, false) == Some((dash, 3));
    assert ParseItems("[a-]", 3) == Some(([], 4)) && ParseItems("[a-]", 2) == Some(([dash], 4));
    assert [dash] + [a] == [dash, a] && [a] + [dash] == [a, dash];
  }

  // ---------------------------------------------------------------- classes by name

  predicate In(c: Option<CharClass>, ch: char) {
    c.Some? && ClassHas(c.value, ch as int)
  }

  lemma ClassNames()
    ensures Lookup("upper") == Some(Upper) && Lookup("lower") == Some(Lower) && Lookup("digit") == Some(Digit)
    ensures Lookup("xdigit") == Some(Xdigit) && Lookup("blank") == Some(Blank) && Lookup("space") == Some(Space)
    ensures Lookup("graph") == Some(Graph) && Lookup("ascii") == Some(Ascii) && Lookup("alpha") == Some(Alpha)
    ensures Lookup("alnum") == Some(Alnum) && Lookup("word") == Some(Word) && Lookup("punct") == Some(Punct)
    ensures Lookup("print") == Some(Print) && Lookup("cntrl") == Some(Cntrl)
  {
    hide Lookup;
    forall c ensures Lookup(ClassName(c)) == Some(c) { NameKnown(c); }
    assert ClassName(Upper) == "upper" && ClassName(Lower) == "lower" && ClassName(Digit) == "digit";
    assert ClassName(Xdigit) == "xdigit" && ClassName(Blank) == "blank" && ClassName(Space) == "space";
    assert ClassName(Graph) == "graph" && ClassName(Ascii) == "ascii" && ClassName(Alpha) == "alpha";
    assert ClassName(Alnum) == "alnum" && ClassName(Word) == "word" && ClassName(Punct) == "punct";
    assert ClassName(Print) == "print" && ClassName(Cntrl) == "cntrl";
  }

  /** What each class name stands for, on ASCII characters. */
  lemma ClassTable(ch: char)
    requires ch as int < 128
    ensures In(Lookup("upper"), ch) <==> 'A' <= ch <= 'Z'
    ensures In(Lookup("lower"), ch) <==> 'a' <= ch <= 'z'
    ensures In(Lookup("digit"), ch) <==> '0' <= ch <= '9'
    ensures In(Lookup("xdigit"), ch) <==> '0' <= ch <= '9' || 'a' <= ch <= 'f' || 'A' <= ch <= 'F'
    ensures In(Lookup("blank"), ch) <==> ch == ' ' || ch == '\t'
    ensures In(Lookup("space"), ch) <==> ch == ' ' || '\t' <= ch <= '\r'
    ensures In(Lookup("graph"), ch) <==> '!' <= ch <= '~'
    ensures In(Lookup("ascii"), ch)
  {
    hide Lookup;
    ClassNames();
  }

  /** How the classes relate: the letters are the upper and the lower ones, and so on. */
  lemma ClassLaws(ch: char)
    requires ch as int < 128
    ensures In(Lookup("alpha"), ch) <==> In(Lookup("upper"), ch) || In(Lookup("lower"), ch)
    ensures In(Lookup("alnum"), ch) <==> In(Lookup("alpha"), ch) || In(Lookup("digit"), ch)
    ensures In(Lookup("word"), ch) <==> In(Lookup("alnum"), ch) || ch == '_'
    ensures In(Lookup("punct"), ch) <==> In(Lookup("graph"), ch) && !In(Lookup("alnum"), ch)
    ensures In(Lookup("print"), ch) <==> In(Lookup("graph"), ch) || ch == ' '
    ensures In(Lookup("cntrl"), ch) <==> !In(Lookup("print"), ch)
  {
    hide Lookup;
    ClassNames();
  }

  /** No other code point is in any class. */
  lemma NoOtherMembers(c: CharClass, cp: int)
    requires cp < 0 || cp >= 128
    ensures !ClassHas(c, cp)
  {
  }

  // ---------------------------------------------------------------- bad patterns

  /** Every bracket of the component is well formed. */
  predicate BracketsOk(pat: string, p: nat)
    requires p <= |pat|
    decreases |pat| - p
  {
    if AtEnd(pat, p) then true
    else if pat[p] == '*' || pat[p] == '?' then BracketsOk(pat, p + 1)
    else if pat[p] == '[' then ParseBracket(pat, p).Some? && BracketsOk(pat, ParseBracket(pat, p).value.end)
    else BracketsOk(pat, Literal(pat, p).1)
  }

  lemma {:induction false} NeverBad(pat: string, p: nat, name: string, n: nat, star: Star)
    requires p <= |pat| && n <= |name| && StarOk(pat, p, name, n, star) && BracketsOk(pat, p)
    requires star.Star? ==> BracketsOk(pat, star.p)
    ensures !Scan(pat, p, name, n, star).BadPattern?
    decreases if star.NoStar? then |pat| + 1 else |pat| - star.p,
              if star.NoStar? then 0 else |name| + 1 - star.n,
              |pat| - p
  {
    hide Scan;
    if n == |name| {
      ScanEnds(pat, p, name, star);
    } else {
      ScanMoves(pat, p, name, n, star);
      match MoveAt(pat, p, name, n)
      case Go(p', n') => NeverBad(pat, p', name, n', star);
      case GoStar(p') => NeverBad(pat, p', name, n, Star(p', n + 1));
      case Stop(_) =>
      case Mismatch =>
        if star.Star? {
          NeverBad(pat, star.p, name, star.n, Star(star.p, star.n + 1));
        }
    }
  }

  /** A pattern whose brackets are well formed is never reported as bad. */
  lemma {:induction false} GoodPattern(pat: string, p: nat, name: string)
    requires p <= |pat| && BracketsOk(pat, p)
    ensures !Verdict(pat, p, name).BadPattern?
  {
    NeverBad(pat, p, name, 0, NoStar);
  }

  /** A malformed bracket is reported as soon as the matcher reaches it inside the name. */
  lemma BadBracketReported(pat: string, p: nat, name: string, n: nat, star: Star)
    requires Expect(pat, p, '[') && ParseBracket(pat, p).None? && n < |name| && StarOk(pat, p, name, n, star)
    ensures Scan(pat, p, name, n, star) == BadPattern
  {
  }
}
