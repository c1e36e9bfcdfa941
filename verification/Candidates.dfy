/** Quoting of completion candidates (src/candidates.cpp, src/comp_context.h). */
module Candidates {
  import opened Wrappers
  import opened Utf8
  import opened Quoting
  import opened QuoteRoundTrip

  // ---------------------------------------------------------------- keeping token and word in step

  /** The quoted token without what stands for the first `n` characters of its word. */
  function Trim(token: string, n: nat): string {
    if n == 0 || token == "" then token
    else if token[0] == '\\' && |token| > 1 then
      Trim(token[2..], if token[1] == '\n' then n else n - 1)
    else Trim(token[1..], n - 1)
  }

  /** Trimming the token and trimming the word agree, and a dangling backslash stays. */
  lemma {:induction false} TrimInStep(token: string, n: nat)
    requires n <= |Unquote(token, true)|
    ensures Unquote(Trim(token, n), true) == Unquote(token, true)[n..]
    ensures Dangling(Trim(token, n)) == Dangling(token)
  {
    hide Unquote, Dangling;
    UnquoteNone();
    if n > 0 && token != "" {
      if token[0] == '\\' && |token| > 1 {
        var t := token[2..];
        assert token == ['\\', token[1]] + t;
        UnquotePair(token[1], t);
        TrimInStep(t, if token[1] == '\n' then n else n - 1);
      } else {
        assert token[0] == '\\' ==> token == "\\";
        var t := token[1..];
        assert token == [token[0]] + t;
        UnquoteCons(token[0], t);
        TrimInStep(t, n - 1);
      }
    }
  }

  datatype CompPrefix = CompPrefix(token: string, word: string) {

    /** The text before the candidate's remainder ends in a backslash that escapes nothing. */
    predicate CarryBackslash() {
      EndsInBackslash(token) && !EndsInBackslash(word)
    }
  }

  method RemovePrefix(p: CompPrefix, prefixSize: nat) returns (r: CompPrefix)
    requires prefixSize <= |p.word|
    ensures r.word == p.word[prefixSize..]
    ensures r.token == Trim(p.token, prefixSize)
  {
    var index, count := 0, 0;
    while count < prefixSize && index < |p.token|
      invariant 0 <= index <= |p.token| && count <= prefixSize
      invariant Trim(p.token[index..], prefixSize - count) == Trim(p.token, prefixSize)
      decreases |p.token| - index
    {
      TrimAt(p.token, index, prefixSize - count);
      var ch := p.token[index];
      if ch == '\\' && index + 1 < |p.token| {
        index := index + 1;
        if p.token[index] == '\n' {
          index := index + 1;
          continue;
        }
      }
      index := index + 1;
      count := count + 1;
    }
    r := CompPrefix(p.token[index..], p.word[prefixSize..]);
  }

  lemma TrimAt(token: string, i: nat, n: nat)
    requires i < |token| && n > 0
    ensures token[i] == '\\' && i + 1 < |token| ==>
      Trim(token[i..], n) == Trim(token[i + 2..], if token[i + 1] == '\n' then n else n - 1)
    ensures !(token[i] == '\\' && i + 1 < |token|) ==> Trim(token[i..], n) == Trim(token[i + 1..], n - 1)
  {
  }

  // ---------------------------------------------------------------- the common prefix

  predicate AgreeAt(cans: seq<string>, k: nat) {
    cans != [] && k < |cans[0]| && forall i :: 0 <= i < |cans| ==> k < |cans[i]| && cans[i][k] == cans[0][k]
  }

  /** The number of bytes all candidates share, from `k` on. */
  function CommonSize(cans: seq<string>, k: nat): (n: nat)
    requires |cans| > 0 && k <= |cans[0]|
    ensures k <= n <= |cans[0]|
    decreases |cans[0]| - k
  {
    if k < |cans[0]| && AgreeAt(cans, k) then CommonSize(cans, k + 1) else k
  }

  /** How far the text is valid UTF-8, from `i` on. */
  function ValidSize(s: string, i: nat): (n: nat)
    requires i <= |s|
    ensures i <= n <= |s|
    decreases |s| - i
  {
    if i < |s| && CharSize(s, i) > 0 then ValidSize(s, i + CharSize(s, i)) else i
  }

  function CommonPrefix(cans: seq<string>): string {
    if cans == [] then ""
    else if |cans| == 1 then cans[0]
    else
      var shared := cans[0][..CommonSize(cans, 0)];
      shared[..ValidSize(shared, 0)]
  }

  predicate StartsWith(s: string, p: string) {
    |p| <= |s| && s[..|p|] == p
  }

  lemma {:induction false} CommonSizeShared(cans: seq<string>, k: nat, i: nat)
    requires |cans| > 0 && k <= |cans[0]| && i < |cans|
    requires StartsWith(cans[i], cans[0][..k])
    ensures StartsWith(cans[i], cans[0][..CommonSize(cans, k)])
    decreases |cans[0]| - k
  {
    if k < |cans[0]| && AgreeAt(cans, k) {
      assert cans[i][..k + 1] == cans[0][..k + 1];
      CommonSizeShared(cans, k + 1, i);
    }
  }

  /** The common prefix is a prefix of every candidate. */
  lemma {:induction false} CommonPrefixShared(cans: seq<string>, i: nat)
    requires i < |cans|
    ensures StartsWith(cans[i], CommonPrefix(cans))
  {
    if |cans| > 1 {
      CommonSizeShared(cans, 0, i);
      var shared := cans[0][..CommonSize(cans, 0)];
      var p := CommonPrefix(cans);
      assert cans[i][..|p|] == cans[i][..|shared|][..|p|];
    }
  }

  /** No longer byte prefix is shared by all candidates. */
  lemma {:induction false} CommonSizeMaximal(cans: seq<string>, k: nat, n: nat)
    requires |cans| > 0 && k <= |cans[0]| && CommonSize(cans, k) < n <= |cans[0]|
    ensures exists i :: 0 <= i < |cans| && !StartsWith(cans[i], cans[0][..n])
    decreases |cans[0]| - k
  {
    if AgreeAt(cans, k) {
      CommonSizeMaximal(cans, k + 1, n);
    } else {
      var i :| 0 <= i < |cans| && !(k < |cans[i]| && cans[i][k] == cans[0][k]);
      NotStart(cans[i], cans[0][..n], k);
    }
  }

  /** The text is a sequence of valid characters. */
  predicate IsUtf8(s: string) {
    s == "" || (CharSize(s, 0) > 0 && IsUtf8(s[CharSize(s, 0)..]))
  }

  lemma {:induction false} SliceChar(s: string, i: nat, m: nat)
    requires i < m <= |s|
    ensures CharSize(s[i..m], 0) > 0 ==> CharSize(s, i) == CharSize(s[i..m], 0)
    ensures 0 < CharSize(s, i) <= m - i ==> CharSize(s[i..m], 0) == CharSize(s, i)
  {
    hide CharSize;
    var t := s[i..m];
    if CharSize(t, 0) > 0 {
      var n := CharSize(t, 0);
      assert s[i..i + n] == t[0..0 + n];
      SameChar(t, 0, s, i);
    }
    if 0 < CharSize(s, i) <= m - i {
      var n := CharSize(s, i);
      assert t[0..0 + n] == s[i..i + n];
      SameChar(s, i, t, 0);
    }
  }

  /** What is kept is valid, and no longer part is. */
  lemma {:induction false} ValidLongest(s: string, i: nat, m: nat)
    requires i <= m <= |s|
    ensures IsUtf8(s[i..ValidSize(s, i)])
    ensures IsUtf8(s[i..m]) ==> m <= ValidSize(s, i)
    decreases |s| - i
  {
    hide CharSize;
    var v := ValidSize(s, i);
    if i == |s| {
      assert s[i..v] == "";
    } else {
      var n := CharSize(s, i);
      if n > 0 {
        ValidLongest(s, i + n, if i + n <= m then m else i + n);
        SliceChar(s, i, v);
        assert s[i..v][n..] == s[i + n..v];
      }
      if i < m {
        SliceChar(s, i, m);
        if 0 < n <= m - i {
          assert s[i..m][n..] == s[i + n..m];
        }
      }
    }
  }

  /** Of several candidates the common prefix is the longest valid UTF-8 text with which all of them start;
      of a single one it is all of it. */
  lemma {:induction false} CommonPrefixLongest(cans: seq<string>, m: nat)
    requires cans != [] && m <= |cans[0]|
    ensures |cans| == 1 ==> CommonPrefix(cans) == cans[0]
    ensures |cans| > 1 ==> IsUtf8(CommonPrefix(cans))
    ensures |cans| > 1 && IsUtf8(cans[0][..m]) && (forall i :: 0 <= i < |cans| ==> StartsWith(cans[i], cans[0][..m]))
      ==> m <= |CommonPrefix(cans)|
  {
    hide IsUtf8, ValidSize, CommonSize;
    if |cans| > 1 {
      var n := CommonSize(cans, 0);
      var shared := cans[0][..n];
      var v := ValidSize(shared, 0);
      ValidLongest(shared, 0, if m <= n then m else n);
      assert shared[0..v] == shared[..v];
      if m > n {
        CommonSizeMaximal(cans, 0, m);
      } else {
        assert shared[0..m] == cans[0][..m];
      }
    }
  }

  lemma NotStart(s: string, p: string, k: nat)
    requires k < |p| && !(k < |s| && s[k] == p[k])
    ensures !StartsWith(s, p)
  {
  }

  // ---------------------------------------------------------------- the overlap

  /** The least offset from `off` on at which the rest of the word starts the candidates. */
  function Overlap(word: string, prefix: string, off: nat): (r: nat)
    requires off <= |word|
    ensures off <= r <= |word| && StartsWith(prefix, word[r..])
    decreases |word| - off
  {
    if StartsWith(prefix, word[off..]) then off else Overlap(word, prefix, off + 1)
  }

  lemma {:induction false} OverlapLeast(word: string, prefix: string, off: nat, k: nat)
    requires off <= |word| && off <= k < Overlap(word, prefix, off)
    ensures !StartsWith(prefix, word[k..])
    decreases k - off
  {
    if off == k {
    } else {
      OverlapLeast(word, prefix, off + 1, k);
    }
  }

  lemma {:induction false} OverlapIs(word: string, prefix: string, off: nat, r: nat)
    requires off <= r <= |word| && StartsWith(prefix, word[r..])
    requires forall k :: off <= k < r ==> !StartsWith(prefix, word[k..])
    ensures Overlap(word, prefix, off) == r
    decreases r - off
  {
    if off == r {
    } else {
      OverlapIs(word, prefix, off + 1, r);
    }
  }

  /** The part of the quoted word that the candidates repeat, quoted and unquoted. */
  function QuotedPrefix(quotedWord: string, prefix: string): CompPrefix {
    var word := Unquote(quotedWord, true);
    var off := Overlap(word, prefix, 0);
    CompPrefix(Trim(quotedWord, off), word[off..])
  }

  method ResolveQuotedCandidatePrefix(quotedWord: string, prefix: string) returns (r: CompPrefix)
    ensures r == QuotedPrefix(quotedWord, prefix)
  {
    var word := UnquoteCmdArgLiteral(quotedWord, true);
    var off := |word| - if |word| < |prefix| then |word| else |prefix|;
    while off < |word|
      invariant |word| - |prefix| <= off <= |word|
      invariant forall k :: 0 <= k < off ==> !StartsWith(prefix, word[k..])
    {
      if StartsWith(prefix, word[off..]) {
        break;
      }
      off := off + 1;
    }
    assert word[|word|..] == "";
    OverlapIs(word, prefix, 0, off);
    r := RemovePrefix(CompPrefix(quotedWord, word), off);
  }

  method ResolveCommonPrefixStr(cans: seq<string>) returns (r: string)
    ensures r == CommonPrefix(cans)
  {
    if |cans| == 0 {
      return "";
    }
    if |cans| == 1 {
      return cans[0];
    }
    var first, n := cans[0], 0;
    while n < |first|
      invariant 0 <= n <= |first|
      invariant CommonSize(cans, 0) == CommonSize(cans, n)
    {
      var ch, index := first[n], 1;
      while index < |cans| && n < |cans[index]| && ch == cans[index][n]
        invariant 1 <= index <= |cans|
        invariant forall i :: 0 <= i < index ==> n < |cans[i]| && cans[i][n] == ch
      {
        index := index + 1;
      }
      if index < |cans| {
        assert !AgreeAt(cans, n);
        break;
      }
      assert AgreeAt(cans, n);
      n := n + 1;
    }
    var shared := first[..n];
    var i := 0;
    while i < |shared| && CharSize(shared, i) != 0
      invariant 0 <= i <= |shared|
      invariant ValidSize(shared, 0) == ValidSize(shared, i)
    {
      i := i + CharSize(shared, i);
    }
    return shared[..i];
  }

  // ---------------------------------------------------------------- rewriting the candidates

  datatype Kind = NONE | KEYWORD | CMD_MOD | CMD_UDC | CMD_BUILTIN | CMD_DYNA | CMD_EXTERNAL | TYPE_SIGNATURE

  /** A candidate with its own description, or with that of its kind. */
  datatype Entry = Entry(text: string, description: Option<string>, kind: Kind)

  function Description(kind: Kind): string {
    match kind
    case NONE => ""
    case KEYWORD => "keyword"
    case CMD_MOD => "module"
    case CMD_UDC => "user-defined"
    case CMD_BUILTIN => "builtin"
    case CMD_DYNA => "dynamic"
    case CMD_EXTERNAL => "command"
    case TYPE_SIGNATURE => ""
  }

  function DescriptionSize(e: Entry): nat {
    match e.description
    case Some(d) => |d|
    case None => |Description(e.kind)|
  }

  /** An own description counts, otherwise that of the kind. */
  lemma DescriptionSizes(text: string, d: string)
    ensures forall k :: DescriptionSize(Entry(text, Some(d), k)) == |d|
    ensures DescriptionSize(Entry(text, None, NONE)) == 0 == DescriptionSize(Entry(text, None, TYPE_SIGNATURE))
    ensures DescriptionSize(Entry(text, None, KEYWORD)) == |"keyword"|
    ensures DescriptionSize(Entry(text, None, CMD_MOD)) == |"module"|
    ensures DescriptionSize(Entry(text, None, CMD_UDC)) == |"user-defined"|
    ensures DescriptionSize(Entry(text, None, CMD_BUILTIN)) == |"builtin"|
    ensures DescriptionSize(Entry(text, None, CMD_DYNA)) == |"dynamic"|
    ensures DescriptionSize(Entry(text, None, CMD_EXTERNAL)) == |"command"|
  {
  }

  const MAX_SIZE := 0x7fff_ffff

  predicate CheckAllocSize(canSize: nat, descSize: nat) {
    canSize < MAX_SIZE && descSize < MAX_SIZE && canSize + 1 <= MAX_SIZE - descSize
  }

  function Texts(es: seq<Entry>): (r: seq<string>)
    ensures |r| == |es|
    ensures forall i :: 0 <= i < |es| ==> r[i] == es[i].text
  {
    seq(|es|, i requires 0 <= i < |es| => es[i].text)
  }

  /** What a candidate is rewritten to. */
  function Replaced(p: CompPrefix, can: string, asCmd: bool): string
    requires |p.word| <= |can|
  {
    p.token + Quote(can[|p.word|..], asCmd, p.CarryBackslash())
  }

  /** Whether a rewritten candidate is stored: it shares 2^31-1 bytes with its description and a mark
      between them. */
  predicate FitsAllocation(size: nat, e: Entry) {
    size + 1 + DescriptionSize(e) <= 0x7fff_ffff
  }

  /** The candidate `e` became `r`: its text is the token followed by the quoted remainder when that fits
      and the same as before when not; then it unquotes to the candidate exactly if no hexadecimal notation
      is needed and the carry does not miss, and it is the candidate or longer. The rest of the entry stays. */
  ghost predicate QuotedFrom(e: Entry, r: Entry, p: CompPrefix, quotedWord: string, asCmd: bool)
    requires |p.word| <= |e.text|
  {
    var rest := e.text[|p.word|..];
    var whole := p.token + Quote(rest, asCmd && quotedWord == "", p.CarryBackslash());
    && r.description == e.description && r.kind == e.kind
    && (!FitsAllocation(|whole|, e) ==> r.text == e.text)
    && (FitsAllocation(|whole|, e) ==>
          && r.text == whole
          && (Unquote(r.text, true) == e.text <==> HexCount(rest, 0) == 0 && !Misses(quotedWord, p, rest))
          && (r.text == e.text || |r.text| > |e.text|)
          && StartsWith(r.text, p.token))
  }

  /** The part of the quoted word that the candidates repeat. */
  function PrefixOf(cans: seq<string>, quotedWord: string): CompPrefix {
    QuotedPrefix(quotedWord, CommonPrefix(cans))
  }

  /** Every candidate starts with the unquoted overlap, so the rewriting is always possible. */
  lemma {:induction false} OverlapInCandidate(cans: seq<string>, quotedWord: string, i: nat)
    requires i < |cans|
    ensures StartsWith(cans[i], PrefixOf(cans, quotedWord).word)
  {
    var p := PrefixOf(cans, quotedWord);
    CommonPrefixShared(cans, i);
    var c := CommonPrefix(cans);
    assert cans[i][..|p.word|] == cans[i][..|c|][..|p.word|];
  }

  class CandidatesObject {
    var entries: seq<Entry>

    constructor ()
      ensures entries == []
    {
      entries := [];
    }

    method Add(e: Entry) returns (ok: bool)
      modifies this
      ensures ok <==> |old(entries)| != 0x7fff_ffff
      ensures entries == if ok then old(entries) + [e] else old(entries)
    {
      if |entries| == MAX_SIZE {
        return false;
      }
      entries := entries + [e];
      return true;
    }

    /** Rewrites every candidate so that it continues the quoted word. */
    method QuoteAll(quotedWord: string, asCmd: bool)
      modifies this
      ensures |entries| == |old(entries)|
      ensures var p := PrefixOf(Texts(old(entries)), quotedWord);
        forall i :: 0 <= i < |entries| ==>
          |p.word| <= |old(entries)[i].text| && QuotedFrom(old(entries)[i], entries[i], p, quotedWord, asCmd)
    {
      hide Quote, CommonPrefix, Unquote, Overlap, Trim, QuotedFrom, DescriptionSize, HexCount, Misses, PrefixOf;
      ghost var was := entries;
      var cmd := if quotedWord != "" then false else asCmd;
      var common := ResolveCommonPrefixStr(Texts(entries));
      var p := ResolveQuotedCandidatePrefix(quotedWord, common);
      PrefixIs(Texts(was), quotedWord);
      var i := 0;
      while i < |entries|
        invariant 0 <= i <= |entries| == |was|
        invariant entries[i..] == was[i..]
        invariant forall k :: 0 <= k < i ==>
          |p.word| <= |was[k].text| && QuotedFrom(was[k], entries[k], p, quotedWord, asCmd)
      {
        assert entries[i] == entries[i..][0] == was[i];
        OverlapInCandidate(Texts(was), quotedWord, i);
        var can := entries[i].text;
        assert |p.word| <= |can|;
        var replaced, _ := QuoteAsCmdOrShellArg(can[|p.word|..], p.token, cmd, p.CarryBackslash());
        if can != replaced && CheckAllocSize(|replaced|, DescriptionSize(entries[i])) {
          entries := entries[i := entries[i].(text := replaced)];
        }
        RewriteRoundTrip(Texts(was), quotedWord, asCmd, i);
        RewriteGrows(Texts(was), quotedWord, asCmd, i);
        EntryQuoted(was[i], entries[i], p, quotedWord, asCmd);
        i := i + 1;
      }
    }
  }

  lemma PrefixIs(cans: seq<string>, quotedWord: string)
    ensures PrefixOf(cans, quotedWord) == QuotedPrefix(quotedWord, CommonPrefix(cans))
  {
  }

  lemma EntryQuoted(e: Entry, r: Entry, p: CompPrefix, quotedWord: string, asCmd: bool)
    requires |p.word| <= |e.text|
    requires var whole := Replaced(p, e.text, asCmd && quotedWord == "");
      && r == e.(text := if CheckAllocSize(|whole|, DescriptionSize(e)) then whole else e.text)
      && (Unquote(whole, true) == e.text
          <==> HexCount(e.text[|p.word|..], 0) == 0 && !Misses(quotedWord, p, e.text[|p.word|..]))
      && (whole != e.text ==> |whole| > |e.text|)
    ensures QuotedFrom(e, r, p, quotedWord, asCmd)
  {
    hide Unquote, Quote, HexCount, Misses, DescriptionSize;
  }

  // ---------------------------------------------------------------- what rewriting means

  /** The quoted word ends in a backslash that escapes nothing, the overlap ends in a backslash, and the
      remainder goes on with a character that has to be escaped: the one case the carry misses. */
  ghost predicate Misses(quotedWord: string, p: CompPrefix, rest: string) {
    Dangling(quotedWord) && EndsInBackslash(p.word) && Clashes(rest, 0)
  }

  lemma {:induction false} PrefixInStep(cans: seq<string>, quotedWord: string)
    ensures var p := PrefixOf(cans, quotedWord);
      Unquote(p.token, true) == p.word && Dangling(p.token) == Dangling(quotedWord)
  {
    var word := Unquote(quotedWord, true);
    TrimInStep(quotedWord, Overlap(word, CommonPrefix(cans), 0));
  }

  lemma {:induction false} CarryMeansDangling(p: CompPrefix)
    requires Unquote(p.token, true) == p.word
    ensures p.CarryBackslash() <==> Dangling(p.token) && !EndsInBackslash(p.word)
  {
    if Dangling(p.token) {
      DanglingSplits(p.token);
    } else if EndsInBackslash(p.token) {
      FinalBackslash(p.token);
    }
  }

  /** Unquoting a rewritten candidate gives the candidate back exactly when its remainder needs no
      hexadecimal notation and the one missed case does not arise. */
  lemma {:induction false} RewriteRoundTrip(cans: seq<string>, quotedWord: string, asCmd: bool, i: nat)
    requires i < |cans|
    ensures var p := PrefixOf(cans, quotedWord);
      && |p.word| <= |cans[i]|
      && var rest := cans[i][|p.word|..];
        (Unquote(Replaced(p, cans[i], asCmd && quotedWord == ""), true) == cans[i]
        <==> HexCount(rest, 0) == 0 && !Misses(quotedWord, p, rest))
  {
    hide Quote, CommonPrefix, Overlap, PrefixOf, Unquote, Dangling, Clashes, HexCount;
    var p := PrefixOf(cans, quotedWord);
    OverlapInCandidate(cans, quotedWord, i);
    PrefixInStep(cans, quotedWord);
    CarryMeansDangling(p);
    var can := cans[i];
    var rest := can[|p.word|..];
    assert can == p.word + rest;
    if Dangling(p.token) {
      EmptyComplete();
      DanglingRoundTrip(p, rest);
    } else {
      UnquoteConcat(p.token, Quote(rest, asCmd && quotedWord == "", false));
      UnquoteQuoted(rest, asCmd && quotedWord == "");
    }
  }

  lemma EmptyComplete()
    ensures !Dangling("")
  {
  }

  lemma {:induction false} DanglingRoundTrip(p: CompPrefix, rest: string)
    requires Unquote(p.token, true) == p.word && Dangling(p.token)
    requires p.CarryBackslash() <==> !EndsInBackslash(p.word)
    ensures Unquote(p.token + Quote(rest, false, p.CarryBackslash()), true) == p.word + rest
       <==> HexCount(rest, 0) == 0 && !(EndsInBackslash(p.word) && Clashes(rest, 0))
  {
    hide Unquote, Clashes, HexCount, Dangling, QuoteFrom;
    DanglingSplits(p.token);
    var front := p.token[..|p.token| - 1];
    var q := Quote(rest, false, p.CarryBackslash());
    assert p.token + q == front + ("\\" + q);
    UnquoteConcat(front, "\\" + q);
    if p.CarryBackslash() {
      UnquoteCarried(rest);
    } else {
      QuoteFromEnd(rest);
      assert q == QuoteFrom(rest, 0);
      UnquoteAfterBackslash(rest, 0);
      assert rest[0..] == rest;
    }
  }

  /** A rewritten candidate that differs is strictly longer, for every quoted word and every candidate. */
  lemma {:induction false} RewriteGrows(cans: seq<string>, quotedWord: string, asCmd: bool, i: nat)
    requires i < |cans|
    ensures var p := PrefixOf(cans, quotedWord);
      && |p.word| <= |cans[i]|
      && var r := Replaced(p, cans[i], asCmd && quotedWord == "");
        r != cans[i] ==> |r| > |cans[i]|
  {
    hide Quote, CommonPrefix, Overlap, PrefixOf, Unquote, Dangling;
    var p := PrefixOf(cans, quotedWord);
    OverlapInCandidate(cans, quotedWord, i);
    PrefixInStep(cans, quotedWord);
    var can := cans[i];
    var rest := can[|p.word|..];
    assert can == p.word + rest;
    UnquoteShortens(p.token);
    if '\\' !in p.token {
      UnquotePlain(p.token);
    }
    QuoteGrows(rest, asCmd && quotedWord == "", p.CarryBackslash());
  }

  /** The missed case arises: three backslashes before a candidate with a backslash and a space. */
  lemma {:induction false} MissedCase()
    ensures var p := PrefixOf(["\\ x"], "\\\\\\");
      && |p.word| <= 3 && Misses("\\\\\\", p, "\\ x"[|p.word|..])
      && Unquote(Replaced(p, "\\ x", false), true) != "\\ x"
  {
    var w := "\\\\\\";
    var cans := ["\\ x"];
    UnquoteThree();
    OverlapIs("\\", "\\ x", 0, 0);
    var p := PrefixOf(cans, w);
    assert p == CompPrefix(w, "\\");
    assert "\\ x"[1..] == " x";
    RewriteRoundTrip(cans, w, false, 0);
  }

  lemma UnquoteThree()
    ensures Unquote("\\\\\\", true) == "\\" && Dangling("\\\\\\")
  {
  }
}
