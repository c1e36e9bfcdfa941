/** Exactly when unquoting undoes quoting. */
module QuoteRoundTrip {
  import opened Utf8
  import opened Quoting

  /** What a quoted item unquotes to. */
  lemma {:induction false} UnquotePiece(s: string, i: nat)
    requires i < |s|
    ensures !Dangling(Piece(s, i))
    ensures NeedsHex(s, i) ==> |Unquote(Piece(s, i), true)| == 6 && Step(s, i) == 1
    ensures !NeedsHex(s, i) ==> Unquote(Piece(s, i), true) == s[i..i + Step(s, i)]
  {
    hide Piece, Hex;
    PieceAt(s, i);
    if NeedsHex(s, i) {
      UnquoteHex(s[i]);
    } else if Special(s[i]) {
      UnquoteEscaped(s[i]);
    } else {
      MultiBytePlain(s, i);
      UnquotePlain(s[i..i + Step(s, i)]);
    }
  }

  lemma {:induction false} UnquoteHex(c: char)
    ensures |Unquote(Hex(c), true)| == 6 && !Dangling(Hex(c))
  {
    var h := Hex(c);
    var tail := [h[4], h[5], '\''];
    assert '\\' !in tail;
    UnquotePlain(tail);
    assert h == ['$', '\''] + (['\\', 'x'] + tail);
    UnquotePlain(['$', '\'']);
    UnquoteConcat(['$', '\''], ['\\', 'x'] + tail);
    UnquoteEscaped('x');
    UnquoteConcat(['\\', 'x'], tail);
  }

  lemma UnquoteEscaped(c: char)
    requires c != '\n'
    ensures Unquote(['\\', c], true) == [c] && !Dangling(['\\', c])
  {
  }

  /** The bytes of a longer character are never backslashes. */
  lemma MultiBytePlain(s: string, i: nat)
    requires i < |s| && CharSize(s, i) > 0 && s[i] != '\\'
    ensures '\\' !in s[i..i + Step(s, i)]
  {
  }

  /** Quoted text is complete; without hexadecimal notation it unquotes to the original, and each
      hexadecimal notation makes it five bytes longer. */
  lemma {:induction false} UnquoteQuoteFrom(s: string, i: nat)
    requires i <= |s|
    ensures !Dangling(QuoteFrom(s, i))
    ensures |Unquote(QuoteFrom(s, i), true)| == |s| - i + 5 * HexCount(s, i)
    ensures HexCount(s, i) == 0 ==> Unquote(QuoteFrom(s, i), true) == s[i..]
    decreases |s| - i
  {
    hide Piece, NeedsHex, CharSize;
    if i == |s| {
    } else {
      var n := i + Step(s, i);
      UnquoteQuoteFrom(s, n);
      UnquotePiece(s, i);
      UnquoteConcat(Piece(s, i), QuoteFrom(s, n));
      assert s[i..] == s[i..n] + s[n..];
    }
  }

  /** After leading backslashes comes a character that quoting escapes. */
  predicate Clashes(s: string, i: nat)
    requires i <= |s|
    decreases |s| - i
  {
    i < |s| && if s[i] == '\\' then Clashes(s, i + 1) else Special(s[i])
  }

  /** Quoted text appended to a dangling backslash: the backslash is absorbed unless it clashes. */
  lemma {:induction false} UnquoteAfterBackslash(s: string, i: nat)
    requires i <= |s|
    ensures |Unquote("\\" + QuoteFrom(s, i), true)| == |s| - i + 5 * HexCount(s, i) + (if Clashes(s, i) then 1 else 0)
    ensures HexCount(s, i) == 0 && !Clashes(s, i) ==> Unquote("\\" + QuoteFrom(s, i), true) == s[i..]
    decreases |s| - i
  {
    hide Piece, NeedsHex, CharSize, Unquote, Dangling, QuoteFrom, HexCount, Step;
    if i == |s| {
      QuoteFromEnd(s);
      assert "\\" + QuoteFrom(s, i) == "\\";
      UnquoteNone();
    } else {
      var n := i + Step(s, i);
      var piece, rest := Piece(s, i), QuoteFrom(s, n);
      QuoteFromStep(s, i);
      if s[i] == '\\' {
        PieceAt(s, i);
        SpecialStep(s, i);
        assert "\\" + (piece + rest) == "\\\\" + ("\\" + rest);
        UnquoteEscaped('\\');
        UnquoteConcat("\\\\", "\\" + rest);
        UnquoteAfterBackslash(s, n);
      } else {
        assert "\\" + (piece + rest) == ("\\" + piece) + rest;
        BackslashPiece(s, i);
        UnquoteConcat("\\" + piece, rest);
        UnquoteQuoteFrom(s, n);
      }
    }
  }

  lemma QuoteFromStep(s: string, i: nat)
    requires i < |s|
    ensures var n := i + Step(s, i);
      && QuoteFrom(s, i) == Piece(s, i) + QuoteFrom(s, n) && s[i..] == s[i..n] + s[n..]
      && HexCount(s, i) == (if NeedsHex(s, i) then 1 else 0) + HexCount(s, n)
  {
  }

  lemma QuoteFromEnd(s: string)
    ensures QuoteFrom(s, |s|) == "" && HexCount(s, |s|) == 0
  {
  }

  lemma {:induction false} BackslashPiece(s: string, i: nat)
    requires i < |s| && s[i] != '\\'
    ensures !Dangling("\\" + Piece(s, i))
    ensures |Unquote("\\" + Piece(s, i), true)|
         == (if NeedsHex(s, i) then 6 else Step(s, i)) + (if Special(s[i]) then 1 else 0)
    ensures !NeedsHex(s, i) && !Special(s[i]) ==> Unquote("\\" + Piece(s, i), true) == s[i..i + Step(s, i)]
    ensures NeedsHex(s, i) ==> Step(s, i) == 1 && !Special(s[i])
  {
    hide Piece, Hex;
    PieceAt(s, i);
    var p := Piece(s, i);
    if !NeedsHex(s, i) && Special(s[i]) {
      UnquoteEscaped('\\');
      UnquotePlain([s[i]]);
      UnquoteConcat("\\\\", [s[i]]);
      assert "\\" + p == "\\\\" + [s[i]];
    } else {
      var tail := p[1..];
      assert "\\" + p == ['\\', p[0]] + tail;
      if NeedsHex(s, i) {
        HexParts(s[i]);
      } else {
        MultiBytePlain(s, i);
      }
      UnquoteEscaped(p[0]);
      UnquoteConcat(['\\', p[0]], tail);
      UnquotePiece(s, i);
      assert p == [p[0]] + tail;
      UnquotePlain([p[0]]);
      UnquoteConcat([p[0]], tail);
    }
  }

  lemma HexParts(c: char)
    ensures Hex(c)[0] == '$'
  {
  }

  /** The same for the text that `Quote` gives when the backslash was carried over. */
  lemma {:induction false} UnquoteCarried(s: string)
    ensures |Unquote("\\" + Quote(s, false, true), true)| == |s| + 5 * HexCount(s, 0)
    ensures HexCount(s, 0) == 0 ==> Unquote("\\" + Quote(s, false, true), true) == s
  {
    hide Piece, CharSize;
    if s != "" && Special(s[0]) {
      PieceAt(s, 0);
      UnquoteEscaped(s[0]);
      assert "\\" + Quote(s, false, true) == ['\\', s[0]] + QuoteFrom(s, 1);
      UnquoteConcat(['\\', s[0]], QuoteFrom(s, 1));
      UnquoteQuoteFrom(s, 1);
      assert s == [s[0]] + s[1..];
    } else {
      UnquoteAfterBackslash(s, 0);
      assert s[0..] == s;
    }
  }

  lemma {:induction false} UnquoteQuoted(s: string, asCmd: bool)
    ensures |Unquote(Quote(s, asCmd, false), true)| == |s| + 5 * HexCount(s, 0)
    ensures HexCount(s, 0) == 0 ==> Unquote(Quote(s, asCmd, false), true) == s
  {
    hide Piece;
    UnquoteQuoteFrom(s, 0);
    assert s[0..] == s;
    if asCmd && s != "" && Leading(s[0]) {
      UnquoteQuoteFrom(s, 1);
      UnquoteEscaped(s[0]);
      assert Quote(s, asCmd, false) == ['\\', s[0]] + QuoteFrom(s, 1);
      UnquoteConcat(['\\', s[0]], QuoteFrom(s, 1));
      assert s == [s[0]] + s[1..];
    }
  }

  /** Quoting changes a text only by making it longer. */
  lemma {:induction false} QuoteFromGrows(s: string, i: nat)
    requires i <= |s|
    ensures |QuoteFrom(s, i)| >= |s| - i
    ensures |QuoteFrom(s, i)| == |s| - i ==> QuoteFrom(s, i) == s[i..]
    decreases |s| - i
  {
    hide QuoteFrom, Piece, Step;
    if i == |s| {
      QuoteFromEnd(s);
    } else {
      QuoteFromStep(s, i);
      PieceGrows(s, i);
      QuoteFromGrows(s, i + Step(s, i));
    }
  }

  lemma {:induction false} PieceGrows(s: string, i: nat)
    requires i < |s|
    ensures |Piece(s, i)| >= Step(s, i)
    ensures |Piece(s, i)| == Step(s, i) ==> Piece(s, i) == s[i..i + Step(s, i)]
  {
    hide Special, CharSize;
    SpecialStep(s, i);
  }

  lemma SpecialStep(s: string, i: nat)
    requires i < |s|
    ensures Special(s[i]) || NeedsHex(s, i) ==> Step(s, i) == 1
  {
  }

  lemma {:induction false} QuoteGrows(s: string, asCmd: bool, carry: bool)
    ensures |Quote(s, asCmd, carry)| >= |s|
    ensures |Quote(s, asCmd, carry)| == |s| ==> Quote(s, asCmd, carry) == s
  {
    hide Special, QuoteFrom, Leading;
    QuoteFromGrows(s, 0);
    assert s[0..] == s;
    if s != "" {
      QuoteFromGrows(s, 1);
      assert s == [s[0]] + s[1..];
    }
  }
}
