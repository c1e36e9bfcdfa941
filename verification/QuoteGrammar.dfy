/** Quoted text in the shell's own grammar (src/nextToken.re2c.cpp): how a command argument and a command
    name are read, and what the quoter (src/format_util.cpp) makes of that. */
module QuoteGrammar {
  import opened Wrappers
  import opened Utf8
  import opened Quoting
  import GlobEscape

  // ---------------------------------------------------------------- reading an argument

  /** A character that, when nothing escapes it, ends an argument, quotes, or starts an expansion. */
  predicate EndsArgument(c: char) {
    c in " \t\n;'\"`|&<>()$?*[]{}~" || c as int == 0
  }

  predicate IsHexDigit(c: char) { '0' <= c <= '9' || 'a' <= c <= 'f' }

  function HexDigitValue(c: char): nat
    requires IsHexDigit(c)
  {
    if c <= '9' then c as int - '0' as int else c as int - 'a' as int + 10
  }

  /** The text starts with one byte in hexadecimal notation. */
  predicate StartsInHex(t: string) {
    && |t| >= 7 && t[0] == '$' && t[1] == '\'' && t[2] == '\\' && t[3] == 'x'
    && IsHexDigit(t[4]) && IsHexDigit(t[5]) && t[6] == '\''
  }

  function HexByte(t: string): char
    requires StartsInHex(t)
  {
    (16 * HexDigitValue(t[4]) + HexDigitValue(t[5])) as char
  }

  function Cons(c: char, rest: Option<string>): Option<string> {
    match rest
    case None => None
    case Some(s) => Some([c] + s)
  }

  /** The value of a text that is one argument; nothing when it ends early or has a meaning of its own. */
  function ReadArgument(t: string, start: bool): Option<string>
    decreases |t|
  {
    if t == "" then Some("")
    else if StartsInHex(t) then Cons(HexByte(t), ReadArgument(t[7..], false))
    else if t[0] == '\\' then
      if |t| == 1 || t[1] as int == 0 then None
      else if t[1] == '\n' then (if start then None else ReadArgument(t[2..], false))
      else Cons(t[1], ReadArgument(t[2..], false))
    else if EndsArgument(t[0]) || (start && t[0] == '#') then None
    else Cons(t[0], ReadArgument(t[1..], false))
  }

  lemma ReadHex(c: char, t: string, start: bool)
    requires c as int < 256
    ensures ReadArgument(Hex(c) + t, start) == Cons(c, ReadArgument(t, false))
  {
    var u := Hex(c) + t;
    assert StartsInHex(u) && HexByte(u) == c;
    assert u[7..] == t;
  }

  lemma ReadEscaped(c: char, t: string, start: bool)
    requires c != '\n' && c as int != 0
    ensures ReadArgument(['\\', c] + t, start) == Cons(c, ReadArgument(t, false))
  {
    assert (['\\', c] + t)[2..] == t;
  }

  lemma ReadBare(c: char, t: string, start: bool)
    requires !EndsArgument(c) && c != '\\' && !(start && c == '#')
    ensures ReadArgument([c] + t, start) == Cons(c, ReadArgument(t, false))
  {
    assert ([c] + t)[1..] == t;
  }

  /** The bytes of a longer character stand for themselves. */
  lemma {:induction false} ReadHighBytes(p: string, t: string, start: bool)
    requires p != "" && forall i :: 0 <= i < |p| ==> p[i] as int >= 0x80
    ensures ReadArgument(p + t, start) == Prefixed(p, ReadArgument(t, false))
  {
    hide ReadArgument;
    ReadBare(p[0], p[1..] + t, start);
    assert p + t == [p[0]] + (p[1..] + t);
    assert p == [p[0]] + p[1..];
    if |p| == 1 {
      assert p[1..] + t == t && p == [p[0]];
    } else {
      ReadHighBytes(p[1..], t, false);
      ConsPrefixed(p[0], p[1..], ReadArgument(t, false));
    }
  }

  lemma ConsPrefixed(c: char, p: string, rest: Option<string>)
    ensures Cons(c, Prefixed(p, rest)) == Prefixed([c] + p, rest)
  {
    if rest.Some? {
      assert [c] + (p + rest.value) == [c] + p + rest.value;
    }
  }

  function Prefixed(p: string, rest: Option<string>): Option<string> {
    match rest
    case None => None
    case Some(s) => Some(p + s)
  }

  // ---------------------------------------------------------------- what quoting gives

  ghost predicate Bytes(s: string) {
    forall i :: 0 <= i < |s| ==> s[i] as int < 256
  }

  /** What the quoter does not escape, the grammar reads as itself. */
  lemma NotSpecialIsBare(c: char)
    requires !Special(c) && !Control(c) && c as int < 0x80
    ensures !EndsArgument(c) && c != '\\' && c != '#'
  {
  }

  lemma SpecialIsPlain(c: char)
    requires Special(c)
    ensures c != '\n' && c as int != 0 && c as int < 0x80
  {
  }

  lemma {:induction false} ReadPiece(s: string, i: nat, t: string, start: bool)
    requires i < |s| && Bytes(s)
    ensures ReadArgument(Piece(s, i) + t, start) == Prefixed(s[i..i + Step(s, i)], ReadArgument(t, false))
  {
    hide ReadArgument, Piece, Hex, Special, CharSize;
    PieceAt(s, i);
    PieceCases(s, i);
    var n := i + Step(s, i);
    if NeedsHex(s, i) {
      ReadHex(s[i], t, start);
      assert s[i..n] == [s[i]];
    } else if Special(s[i]) {
      SpecialIsPlain(s[i]);
      ReadEscaped(s[i], t, start);
      assert s[i..n] == [s[i]];
    } else if s[i] as int < 0x80 {
      NotSpecialIsBare(s[i]);
      ReadBare(s[i], t, start);
      assert s[i..n] == [s[i]];
    } else {
      var p := s[i..n];
      assert forall k :: 0 <= k < |p| ==> p[k] == s[i + k];
      ReadHighBytes(p, t, start);
    }
  }

  lemma PieceCases(s: string, i: nat)
    requires i < |s|
    ensures NeedsHex(s, i) || s[i] as int < 0x80 ==> Step(s, i) == 1
    ensures !NeedsHex(s, i) && s[i] as int < 0x80 ==> !Control(s[i])
    ensures !NeedsHex(s, i) && s[i] as int >= 0x80 ==>
      forall k :: i <= k < i + Step(s, i) ==> s[k] as int >= 0x80
  {
  }

  /** Quoted text, read as an argument, is the text it was made from, hexadecimal notation included. */
  lemma {:induction false} ReadQuoteFrom(s: string, i: nat, start: bool)
    requires i <= |s| && Bytes(s)
    ensures ReadArgument(QuoteFrom(s, i), start) == Some(s[i..])
    decreases |s| - i
  {
    hide ReadArgument, Piece, CharSize;
    if i == |s| {
      ReadNothing(start);
    } else {
      var n := i + Step(s, i);
      ReadQuoteFrom(s, n, false);
      ReadPiece(s, i, QuoteFrom(s, n), start);
      assert s[i..] == s[i..n] + s[n..];
    }
  }

  lemma ReadNothing(start: bool)
    ensures ReadArgument("", start) == Some("")
  {
  }

  lemma LeadingIsPlain(c: char)
    requires Leading(c)
    ensures c != '\n' && c as int != 0
  {
  }

  /** For EVERY byte string: what the quoter gives is one argument of the shell, and its value is that
      string. No character is left bare that would end the argument or mean something else. */
  lemma {:induction false} QuotedReads(s: string, asCmd: bool)
    requires Bytes(s)
    ensures ReadArgument(Quote(s, asCmd, false), true) == Some(s)
  {
    hide ReadArgument, Leading;
    assert s[0..] == s;
    if asCmd && s != "" && Leading(s[0]) {
      var t := QuoteFrom(s, 1);
      LeadingIsPlain(s[0]);
      ReadQuoteFrom(s, 1, false);
      ReadEscaped(s[0], t, true);
      assert Quote(s, asCmd, false) == ['\\', s[0]] + t;
      assert s == [s[0]] + s[1..];
    } else if s == "" {
      ReadNothing(true);
    } else {
      ReadQuoteFrom(s, 0, true);
    }
  }

  /** Behind a backslash that was carried over the same holds exactly if there is something to escape and
      it needs no hexadecimal notation. */
  lemma {:induction false} CarriedReads(s: string)
    requires Bytes(s)
    ensures ReadArgument("\\" + Quote(s, false, true), true) == Some(s) <==> s != "" && !NeedsHex(s, 0)
  {
    hide ReadArgument, Quote, NeedsHex;
    if s == "" {
      LoneBackslash();
      NothingQuoted();
      assert "\\" + Quote(s, false, true) == "\\";
    } else if NeedsHex(s, 0) {
      CarriedHex(s);
    } else {
      CarriedPlain(s);
    }
  }

  lemma NothingQuoted()
    ensures Quote("", false, true) == ""
  {
  }

  lemma {:induction false} CarriedForm(s: string)
    requires s != ""
    ensures Quote(s, false, true) == (if NeedsHex(s, 0) then Hex(s[0]) else s[..Step(s, 0)]) + QuoteFrom(s, Step(s, 0))
  {
    hide Special, Piece, CharSize, Hex, QuoteFrom;
    PieceAt(s, 0);
    PieceCases(s, 0);
    QuoteFromUnfolds(s);
  }

  /** The backslash takes the dollar sign, and the quote that follows is bare. */
  lemma {:induction false} CarriedHex(s: string)
    requires s != "" && NeedsHex(s, 0)
    ensures ReadArgument("\\" + Quote(s, false, true), true) == None
  {
    hide ReadArgument, Hex, QuoteFrom, Quote, CharSize;
    CarriedForm(s);
    HexStarts(s[0]);
    var h, rest := Hex(s[0]), QuoteFrom(s, Step(s, 0));
    var tail := h[2..] + rest;
    assert h == ['$', '\''] + h[2..];
    assert "\\" + (h + rest) == ['\\', '$'] + (['\''] + tail);
    ReadEscaped('$', ['\''] + tail, true);
    ReadQuote(tail);
  }

  lemma {:induction false} CarriedPlain(s: string)
    requires Bytes(s) && s != "" && !NeedsHex(s, 0)
    ensures ReadArgument("\\" + Quote(s, false, true), true) == Some(s)
  {
    hide ReadArgument, QuoteFrom, Quote, CharSize, Control;
    CarriedForm(s);
    PieceCases(s, 0);
    var n := Step(s, 0);
    var c, p, rest := s[0], s[1..n], QuoteFrom(s, n);
    assert "\\" + (s[..n] + rest) == ['\\', c] + (p + rest);
    NotNewline(c);
    ReadEscaped(c, p + rest, true);
    ReadQuoteFrom(s, n, false);
    if n == 1 {
      assert p + rest == rest;
    } else {
      assert forall k :: 0 <= k < |p| ==> p[k] == s[1 + k];
      ReadHighBytes(p, rest, false);
    }
    assert s == [c] + (p + s[n..]);
  }

  lemma QuoteFromUnfolds(s: string)
    requires s != ""
    ensures QuoteFrom(s, 0) == Piece(s, 0) + QuoteFrom(s, Step(s, 0))
    ensures s[0..Step(s, 0)] == s[..Step(s, 0)]
  {
  }

  lemma HexStarts(c: char)
    ensures Hex(c)[0] == '$' && Hex(c)[1] == '\''
  {
  }

  lemma NotNewline(c: char)
    requires !Control(c)
    ensures c != '\n' && c as int != 0
  {
  }

  lemma LoneBackslash()
    ensures ReadArgument("\\", true) == None
  {
  }

  lemma ReadQuote(t: string)
    ensures ReadArgument(['\''] + t, false) == None
  {
  }

  // ---------------------------------------------------------------- what is left alone

  predicate HarmlessAscii(c: char) {
    'a' <= c <= 'z' || 'A' <= c <= 'Z' || '0' <= c <= '9' || c in "%+,-./:=@^_"
  }

  /** Letters, digits and a few marks need no escape; neither do longer characters. */
  predicate Harmless(s: string, i: nat)
    requires i < |s|
  {
    if s[i] as int < 0x80 then HarmlessAscii(s[i]) else CharSize(s, i) > 0
  }

  /** Every character from `i` on is harmless. */
  predicate AllHarmless(s: string, i: nat)
    requires i <= |s|
    decreases |s| - i
  {
    i == |s| || (Harmless(s, i) && AllHarmless(s, i + Step(s, i)))
  }

  lemma AsciiCases(c: char)
    requires c as int < 0x80
    ensures HarmlessAscii(c) <==> !Special(c) && !Control(c)
  {
  }

  lemma {:induction false} HarmlessPiece(s: string, i: nat)
    requires i < |s|
    ensures Harmless(s, i) <==> Piece(s, i) == s[i..i + Step(s, i)]
    ensures |Piece(s, i)| >= Step(s, i)
    ensures !Harmless(s, i) ==> |Piece(s, i)| > Step(s, i)
  {
    hide Piece, Hex, Special, Control, HarmlessAscii, CharSize;
    PieceAt(s, i);
    PieceCases(s, i);
    if s[i] as int < 0x80 {
      AsciiCases(s[i]);
    } else {
      HighNotControl(s[i]);
    }
  }

  lemma HighNotControl(c: char)
    requires c as int >= 0x80
    ensures !Control(c) && !Special(c)
  {
  }

  /** Exactly the harmless texts stay as they are. */
  lemma {:induction false} UnchangedFrom(s: string, i: nat)
    requires i <= |s|
    ensures |QuoteFrom(s, i)| >= |s| - i
    ensures AllHarmless(s, i) <==> QuoteFrom(s, i) == s[i..]
    ensures !AllHarmless(s, i) ==> |QuoteFrom(s, i)| > |s| - i
    decreases |s| - i
  {
    hide Piece, Harmless, Step;
    if i == |s| {
    } else {
      var n := i + Step(s, i);
      HarmlessPiece(s, i);
      UnchangedFrom(s, n);
      assert s[i..] == s[i..n] + s[n..];
    }
  }

  lemma {:induction false} Unchanged(s: string)
    ensures Quote(s, false, false) == s <==> AllHarmless(s, 0)
  {
    UnchangedFrom(s, 0);
    assert s[0..] == s;
  }

  // ---------------------------------------------------------------- command names

  predicate EndsCommand(c: char) {
    c in " \t\n;='\"`|&<>(){}$" || c as int == 0
  }

  /** All of the text continues a command name. */
  predicate CommandTail(t: string)
    decreases |t|
  {
    if t == "" then true
    else if t[0] == '\\' then |t| > 1 && t[1] as int != 0 && CommandTail(t[2..])
    else !EndsCommand(t[0]) && CommandTail(t[1..])
  }

  /** The text is one command name: it must not start like a comment, a bracket, a sign or a number. */
  predicate IsCommand(t: string) {
    && t != ""
    && if t[0] == '\\' then |t| > 1 && t[1] != '\n' && t[1] as int != 0 && CommandTail(t[2..])
       else !EndsCommand(t[0]) && t[0] !in "#[]!+-0123456789" && CommandTail(t[1..])
  }

  lemma {:induction false} TailOverPlain(p: string, t: string)
    requires '\\' !in p
    ensures CommandTail(p + t) <==> (forall i :: 0 <= i < |p| ==> !EndsCommand(p[i])) && CommandTail(t)
  {
    if p == "" {
      assert p + t == t;
    } else {
      assert p[0] in p;
      assert (p + t)[1..] == p[1..] + t;
      TailOverPlain(p[1..], t);
      assert forall i :: 0 < i < |p| ==> p[i] == p[1..][i - 1];
    }
  }

  lemma TailOverEscape(c: char, t: string)
    requires c as int != 0
    ensures CommandTail(['\\', c] + t) <==> CommandTail(t)
  {
    assert (['\\', c] + t)[2..] == t;
  }

  lemma TailOverHex(c: char, t: string)
    ensures !CommandTail(Hex(c) + t)
  {
    assert (Hex(c) + t)[0] == '$';
  }

  lemma NotSpecialInCommand(c: char)
    requires !Special(c) && !Control(c) && c as int < 0x80
    ensures EndsCommand(c) <==> c == '='
    ensures c !in "#[]!"
  {
  }

  lemma {:induction false} TailOverPiece(s: string, i: nat, t: string)
    requires i < |s|
    ensures CommandTail(Piece(s, i) + t) <==> !NeedsHex(s, i) && s[i] != '=' && CommandTail(t)
  {
    hide CommandTail, Piece, Hex, Special, CharSize, EndsCommand;
    PieceAt(s, i);
    PieceCases(s, i);
    if NeedsHex(s, i) {
      TailOverHex(s[i], t);
    } else if Special(s[i]) {
      SpecialIsPlain(s[i]);
      NotEquals(s[i]);
      TailOverEscape(s[i], t);
    } else {
      var p := s[i..i + Step(s, i)];
      assert forall k :: 0 <= k < |p| ==> p[k] == s[i + k];
      if s[i] as int < 0x80 {
        NotSpecialInCommand(s[i]);
        NotSpecialIsBare(s[i]);
      } else {
        forall k | 0 <= k < |p| ensures !EndsCommand(p[k]) && p[k] != '\\' { HighInCommand(p[k]); }
      }
      TailOverPlain(p, t);
    }
  }

  lemma NotEquals(c: char)
    requires Special(c)
    ensures c != '='
  {
  }

  lemma HighInCommand(c: char)
    requires c as int >= 0x80
    ensures !EndsCommand(c) && c != '\\' && c !in "#[]!+-0123456789"
  {
  }

  /** No character from `i` on is an equals sign. */
  predicate NoEquals(s: string, i: nat)
    requires i <= |s|
    decreases |s| - i
  {
    i == |s| || (s[i] != '=' && NoEquals(s, i + Step(s, i)))
  }

  lemma {:induction false} TailOverQuote(s: string, i: nat)
    requires i <= |s|
    ensures CommandTail(QuoteFrom(s, i)) <==> HexCount(s, i) == 0 && NoEquals(s, i)
    decreases |s| - i
  {
    hide CommandTail, Piece, Step, NeedsHex;
    if i == |s| {
      EmptyTail();
    } else {
      TailOverQuote(s, i + Step(s, i));
      TailOverPiece(s, i, QuoteFrom(s, i + Step(s, i)));
    }
  }

  lemma EmptyTail()
    ensures CommandTail("")
  {
  }

  /** Quoted as a command, a text is one command name exactly if it is not empty, needs no hexadecimal
      notation and has no equals sign: `=` is the one mark of a command that the quoter leaves bare. */
  lemma {:induction false} QuotedCommand(s: string)
    ensures IsCommand(Quote(s, true, false)) <==> s != "" && HexCount(s, 0) == 0 && NoEquals(s, 0)
  {
    hide CommandTail, QuoteFrom, HexCount, NoEquals, Special, Leading, NeedsHex, Piece, CharSize, EndsCommand, Hex;
    if s != "" {
      var q := Quote(s, true, false);
      StartCases(s);
      if Leading(s[0]) {
        TailOverQuote(s, 1);
        LeadingIsPlain(s[0]);
        assert q == ['\\', s[0]] + QuoteFrom(s, 1);
        assert q[2..] == QuoteFrom(s, 1);
      } else {
        TailOverQuote(s, 0);
        TailOverQuote(s, Step(s, 0));
        StartOverPiece(s);
      }
    }
  }

  lemma StartCases(s: string)
    requires s != ""
    ensures Leading(s[0]) ==> (HexCount(s, 0) == 0 <==> HexCount(s, 1) == 0) && (NoEquals(s, 0) <==> NoEquals(s, 1))
  {
  }

  /** The start of a command is stricter than its tail only where the quoter escapes anyway. */
  lemma {:induction false} StartOverPiece(s: string)
    requires s != "" && !Leading(s[0])
    ensures IsCommand(QuoteFrom(s, 0)) <==> CommandTail(QuoteFrom(s, 0))
  {
    hide CommandTail, Piece, Hex, Special, CharSize, EndsCommand, QuoteFrom;
    var q := QuoteFrom(s, 0);
    PieceAt(s, 0);
    PieceCases(s, 0);
    QuoteFromUnfolds(s);
    TailUnfolds(q);
    if NeedsHex(s, 0) {
      HexStarts(s[0]);
      DollarEnds();
    } else if Special(s[0]) {
      SpecialIsPlain(s[0]);
      assert q[0] == '\\' && q[1] == s[0];
    } else if s[0] as int < 0x80 {
      assert q[0] == s[0];
      NotSpecialInCommand(s[0]);
      NotSpecialIsBare(s[0]);
    } else {
      assert q[0] == s[0];
      HighInCommand(s[0]);
    }
  }

  lemma TailUnfolds(t: string)
    requires t != ""
    ensures t[0] == '\\' ==> (CommandTail(t) <==> |t| > 1 && t[1] as int != 0 && CommandTail(t[2..]))
    ensures t[0] != '\\' ==> (CommandTail(t) <==> !EndsCommand(t[0]) && CommandTail(t[1..]))
  {
  }

  lemma DollarEnds()
    ensures EndsCommand('$')
  {
  }

  /** For instance `a=b`, which the shell reads as an assignment. */
  lemma {:induction false} EqualsStaysBare()
    ensures Quote("a=b", true, false) == "a=b" && !IsCommand("a=b")
  {
    hide QuoteFrom, CommandTail;
    var s := "a=b";
    assert Harmless(s, 0) && Harmless(s, 1) && Harmless(s, 2);
    assert AllHarmless(s, 3) && AllHarmless(s, 2) && AllHarmless(s, 1);
    UnchangedFrom(s, 0);
    assert s[0..] == s && s[1..] == "=b";
    TailUnfolds("=b");
  }

  // ---------------------------------------------------------------- unquoting for glob brackets

  /** Without unescaping, the escapes stay for a later reader, and only for that: taking them away then
      gives what full unquoting gives at once. */
  lemma {:induction false} UnquoteKeepsEscapes(s: string)
    ensures GlobEscape.Unescape(Unquote(s, false)) == Unquote(s, true)
    ensures |Unquote(s, false)| >= |Unquote(s, true)|
  {
    if s == "" {
    } else if s[0] != '\\' {
      UnquoteKeepsEscapes(s[1..]);
      assert ([s[0]] + Unquote(s[1..], false))[1..] == Unquote(s[1..], false);
    } else if |s| > 1 {
      UnquoteKeepsEscapes(s[2..]);
      if s[1] != '\n' {
        assert (['\\', s[1]] + Unquote(s[2..], false))[2..] == Unquote(s[2..], false);
      }
    }
  }

  /** A line continuation counts for nothing, wherever it stands. */
  lemma {:induction false} ContinuationDropped(a: string, b: string)
    requires !Dangling(a)
    ensures Unquote(a + "\\\n" + b, true) == Unquote(a + b, true)
  {
    UnquoteConcat(a, "\\\n" + b);
    UnquoteConcat(a, b);
    UnquotePair('\n', b);
    assert a + "\\\n" + b == a + ("\\\n" + b);
  }
}
