/** Quoting of completion words and its inverse (src/format_util.cpp). */
module Quoting {
  import opened Utf8

  // ---------------------------------------------------------------- unquoting

  function Unquote(s: string, unescape: bool): string {
    if s == "" then ""
    else if s[0] != '\\' then [s[0]] + Unquote(s[1..], unescape)
    else if |s| == 1 then ""
    else if s[1] == '\n' then Unquote(s[2..], unescape)
    else (if unescape then [s[1]] else ['\\', s[1]]) + Unquote(s[2..], unescape)
  }

  method UnquoteCmdArgLiteral(ref: string, unescape: bool) returns (str: string)
    ensures str == Unquote(ref, unescape)
  {
    hide Unquote;
    str := "";
    var i := 0;
    assert ref[0..] == ref;
    UnquoteEnd(ref, unescape);
    while i < |ref|
      invariant 0 <= i <= |ref|
      invariant str + Unquote(ref[i..], unescape) == Unquote(ref, unescape)
    {
      UnquoteAt(ref, i, unescape);
      var ch := ref[i];
      i := i + 1;
      if ch == '\\' {
        if i == |ref| {
          continue;
        }
        ch := ref[i];
        i := i + 1;
        if ch == '\n' {
          continue;
        }
        if !unescape {
          str := str + "\\";
        }
      }
      str := str + [ch];
    }
  }

  lemma UnquoteEnd(s: string, unescape: bool)
    ensures Unquote(s[|s|..], unescape) == ""
  {
  }

  lemma UnquoteAt(s: string, i: nat, unescape: bool)
    requires i < |s|
    ensures s[i] != '\\' ==> Unquote(s[i..], unescape) == [s[i]] + Unquote(s[i + 1..], unescape)
    ensures s[i] == '\\' && i + 1 == |s| ==> Unquote(s[i..], unescape) == "" && Unquote(s[i + 1..], unescape) == ""
    ensures s[i] == '\\' && i + 1 < |s| && s[i + 1] == '\n' ==> Unquote(s[i..], unescape) == Unquote(s[i + 2..], unescape)
    ensures s[i] == '\\' && i + 1 < |s| && s[i + 1] != '\n' ==>
      Unquote(s[i..], unescape) == (if unescape then [s[i + 1]] else ['\\', s[i + 1]]) + Unquote(s[i + 2..], unescape)
  {
  }

  /** The text ends in a backslash that escapes nothing. */
  predicate Dangling(s: string) {
    if s == "" then false
    else if s[0] != '\\' then Dangling(s[1..])
    else |s| == 1 || Dangling(s[2..])
  }

  predicate EndsInBackslash(s: string) {
    s != "" && s[|s| - 1] == '\\'
  }

  lemma UnquoteCons(c: char, s: string)
    requires c != '\\'
    ensures Unquote([c] + s, true) == [c] + Unquote(s, true) && Dangling([c] + s) == Dangling(s)
  {
  }

  lemma UnquotePair(c: char, s: string)
    ensures Unquote(['\\', c] + s, true) == (if c == '\n' then "" else [c]) + Unquote(s, true)
    ensures Dangling(['\\', c] + s) == Dangling(s)
  {
  }

  lemma UnquoteNone()
    ensures Unquote("", true) == "" && !Dangling("") && Unquote("\\", true) == "" && Dangling("\\")
  {
  }

  /** After a complete text, unquoting starts afresh. */
  lemma {:induction false} UnquoteConcat(a: string, b: string)
    requires !Dangling(a)
    ensures Unquote(a + b, true) == Unquote(a, true) + Unquote(b, true)
    ensures Dangling(a + b) == Dangling(b)
  {
    hide Unquote, Dangling;
    UnquoteNone();
    if a == "" {
      assert a + b == b;
    } else if a[0] != '\\' {
      var t := a[1..];
      assert a == [a[0]] + t;
      assert a + b == [a[0]] + (t + b);
      UnquoteCons(a[0], t);
      UnquoteCons(a[0], t + b);
      UnquoteConcat(t, b);
    } else {
      assert |a| == 1 ==> a == "\\";
      var t := a[2..];
      assert a == ['\\', a[1]] + t;
      assert a + b == ['\\', a[1]] + (t + b);
      UnquotePair(a[1], t);
      UnquotePair(a[1], t + b);
      UnquoteConcat(t, b);
    }
  }

  /** A dangling backslash is dropped by unquoting, and escapes what is appended to it. */
  lemma {:induction false} DanglingSplits(a: string)
    requires Dangling(a)
    ensures a != "" && a[|a| - 1] == '\\' && !Dangling(a[..|a| - 1])
    ensures Unquote(a, true) == Unquote(a[..|a| - 1], true)
  {
    var n := |a| - 1;
    if a[0] != '\\' {
      DanglingSplits(a[1..]);
      assert a[..n][1..] == a[1..][..n - 1];
    } else if |a| > 1 {
      DanglingSplits(a[2..]);
      assert a[..n][2..] == a[2..][..n - 2];
    }
  }

  /** A final backslash that is not dangling is itself escaped. */
  lemma {:induction false} FinalBackslash(a: string)
    requires EndsInBackslash(a) && !Dangling(a)
    ensures EndsInBackslash(Unquote(a, true))
  {
    if a[0] != '\\' {
      FinalBackslash(a[1..]);
    } else if |a| > 2 {
      FinalBackslash(a[2..]);
    }
  }

  lemma {:induction false} UnquotePlain(s: string)
    requires '\\' !in s
    ensures Unquote(s, true) == s && !Dangling(s)
  {
    if s == "" {
    } else {
      assert s[0] in s;
      UnquotePlain(s[1..]);
    }
  }

  /** Unquoting drops every backslash that acts as one. */
  lemma {:induction false} UnquoteShortens(s: string)
    ensures |Unquote(s, true)| <= |s|
    ensures |Unquote(s, true)| == |s| <==> '\\' !in s
  {
    if s == "" {
    } else {
      if s[0] != '\\' {
        UnquoteShortens(s[1..]);
        assert s == [s[0]] + s[1..];
      } else if |s| > 1 {
        UnquoteShortens(s[2..]);
      }
    }
  }

  // ---------------------------------------------------------------- quoting

  predicate Special(c: char) {
    c in " ;'\"`\\|&<>()$#~{}[]*?!"
  }

  predicate Control(c: char) {
    c as int < 32 || c as int == 127
  }

  function HexDigit(d: nat): char
    requires d < 16
  {
    if d < 10 then '0' + d as char else 'a' + (d - 10) as char
  }

  /** A byte in hexadecimal notation. */
  function Hex(c: char): (r: string)
    ensures |r| == 7
  {
    var b := c as int % 256;
    ['$', '\'', '\\', 'x', HexDigit(b / 16), HexDigit(b % 16), '\'']
  }

  predicate NeedsHex(s: string, i: nat)
    requires i < |s|
  {
    CharSize(s, i) == 0 || Control(s[i])
  }

  /** The quoted form of one character, or of one invalid byte. */
  function Piece(s: string, i: nat): (r: string)
    requires i < |s|
    ensures r != ""
  {
    if NeedsHex(s, i) then Hex(s[i])
    else if Special(s[i]) then ['\\', s[i]]
    else s[i..i + Step(s, i)]
  }

  function QuoteFrom(s: string, i: nat): string
    requires i <= |s|
    decreases |s| - i
  {
    if i == |s| then "" else Piece(s, i) + QuoteFrom(s, i + Step(s, i))
  }

  function HexCount(s: string, i: nat): nat
    requires i <= |s|
    decreases |s| - i
  {
    if i == |s| then 0 else (if NeedsHex(s, i) then 1 else 0) + HexCount(s, i + Step(s, i))
  }

  /** A command name must not look like a number or an option. */
  predicate Leading(c: char) {
    '0' <= c <= '9' || c == '+' || c == '-'
  }

  /** The text that quoting appends. With `carry` the text before it ends in a backslash already. */
  function Quote(s: string, asCmd: bool, carry: bool): string {
    if s == "" then ""
    else if asCmd && Leading(s[0]) then (if carry then "" else "\\") + [s[0]] + QuoteFrom(s, 1)
    else if carry && Special(s[0]) then [s[0]] + QuoteFrom(s, 1)
    else QuoteFrom(s, 0)
  }

  /** The code points that are quoted are those of single bytes. */
  lemma CodePointCases(s: string, i: nat)
    requires i < |s|
    ensures CodePoint(s, i) < 0x80 ==> CodePoint(s, i) < 0 || (CharSize(s, i) == 1 && CodePoint(s, i) == s[i] as int)
    ensures CodePoint(s, i) >= 0x80 ==> s[i] as int >= 0x80
  {
  }

  /** As `Piece`; `bare` leaves out the backslash that is already there. */
  function BarePiece(s: string, i: nat, bare: bool): (r: string)
    requires i < |s|
    ensures r != ""
  {
    if bare && Special(s[i]) then [s[i]] else Piece(s, i)
  }

  /** What is still to be appended at index `i`. */
  function Rest(s: string, i: nat, bare: bool): string
    requires i <= |s|
  {
    if i == |s| then "" else BarePiece(s, i, bare) + QuoteFrom(s, i + Step(s, i))
  }

  method QuoteAsCmdOrShellArg(ref: string, before: string, asCmd: bool, carry: bool) returns (out: string, ok: bool)
    ensures out == before + Quote(ref, asCmd, carry)
    ensures ok <==> HexCount(ref, 0) == 0
  {
    hide BarePiece, Special, Leading, Quote, Rest, CharSize;
    out := before;
    var hexCount, i := 0, 0;
    QuoteStarts(ref, asCmd, carry);
    if asCmd && ref != "" && Leading(ref[0]) {
      if !carry || |out| != |before| {
        out := out + "\\";
      }
      out := out + [ref[0]];
      i := 1;
    }
    while i < |ref|
      invariant 0 <= i <= |ref|
      invariant i > 0 <==> |out| != |before|
      invariant |out| >= |before|
      invariant out + Rest(ref, i, carry && i == 0) == before + Quote(ref, asCmd, carry)
      invariant hexCount + HexCount(ref, i) == HexCount(ref, 0)
    {
      RestStep(ref, i, carry && i == 0);
      var hex, size;
      out, hex, size := AppendPiece(ref, i, out, carry && |out| == |before|);
      if hex {
        hexCount := hexCount + 1;
      }
      i := i + size;
    }
    ok := hexCount == 0;
    RestEnds(ref, carry && i == 0);
  }

  /** One step of the quoting loop. */
  method AppendPiece(ref: string, i: nat, before: string, bare: bool) returns (out: string, hex: bool, size: nat)
    requires i < |ref|
    ensures out == before + BarePiece(ref, i, bare)
    ensures hex == NeedsHex(ref, i) && size == Step(ref, i)
  {
    hide Piece, Hex;
    CodePointCases(ref, i);
    PieceAt(ref, i);
    var codePoint, byteSize := CodePoint(ref, i), CharSize(ref, i);
    if byteSize == 0 {
      return before + Hex(ref[i]), true, 1;
    }
    if codePoint < 0x80 && Special(codePoint as char) {
      assert byteSize == 1;
      return before + (if bare then "" else "\\") + ref[i..i + byteSize], false, byteSize;
    }
    if codePoint < 32 || codePoint == 127 {
      return before + Hex(codePoint as char), true, byteSize;
    }
    return before + ref[i..i + byteSize], false, byteSize;
  }

  lemma {:induction false} QuoteStarts(s: string, asCmd: bool, carry: bool)
    ensures asCmd && s != "" && Leading(s[0]) ==>
      Quote(s, asCmd, carry) == (if carry then "" else "\\") + [s[0]] + Rest(s, 1, false) && HexCount(s, 1) == HexCount(s, 0)
    ensures !(asCmd && s != "" && Leading(s[0])) ==> Quote(s, asCmd, carry) == Rest(s, 0, carry)
  {
    hide Special, Piece, CharSize;
    if s != "" {
      PieceAt(s, 0);
      if Leading(s[0]) {
        LeadingPlain(s);
      }
      RestIsQuote(s, 0);
      RestIsQuote(s, 1);
    }
  }

  lemma RestIsQuote(s: string, i: nat)
    requires i <= |s|
    ensures Rest(s, i, false) == QuoteFrom(s, i)
  {
  }

  lemma LeadingPlain(s: string)
    requires s != "" && Leading(s[0])
    ensures !NeedsHex(s, 0) && CharSize(s, 0) == 1
  {
  }

  lemma RestStep(s: string, i: nat, bare: bool)
    requires i < |s|
    ensures Rest(s, i, bare) == BarePiece(s, i, bare) + Rest(s, i + Step(s, i), false)
    ensures HexCount(s, i) == (if NeedsHex(s, i) then 1 else 0) + HexCount(s, i + Step(s, i))
  {
  }

  lemma RestEnds(s: string, bare: bool)
    ensures Rest(s, |s|, bare) == ""
  {
  }

  lemma PieceAt(s: string, i: nat)
    requires i < |s|
    ensures NeedsHex(s, i) ==> Piece(s, i) == Hex(s[i])
    ensures !NeedsHex(s, i) && Special(s[i]) ==> Piece(s, i) == ['\\', s[i]]
    ensures !NeedsHex(s, i) && !Special(s[i]) ==> Piece(s, i) == s[i..i + Step(s, i)]
    ensures s[i] as int < 0x80 ==> CharSize(s, i) == 1
    ensures Special(s[i]) ==> !NeedsHex(s, i) && s[i] as int < 0x80
  {
  }
}
