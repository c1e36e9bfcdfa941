/** Escaping text for use in a glob pattern, and back (src/glob.cpp, src/format_util.h). */
module GlobEscape {
  import opened Wrappers
  import opened Utf8
  import opened GlobBracket
  import opened GlobMatch
  import opened GlobScanner

  predicate IsMeta(c: char) {
    c == '?' || c == '*' || c == '[' || c == ']' || c == '^' || c == '!' || c == '-' || c == '\\'
  }

  function EscapeChar(c: char): string { if IsMeta(c) then ['\\', c] else [c] }

  function Escape(s: string): string {
    if s == "" then "" else EscapeChar(s[0]) + Escape(s[1..])
  }

  function Unescape(s: string): string {
    if s == "" then ""
    else if s[0] == '\\' && |s| > 1 then [s[1]] + Unescape(s[2..])
    else [s[0]] + Unescape(s[1..])
  }

  lemma {:induction false} EscapeConcat(s: string, t: string)
    ensures Escape(s + t) == Escape(s) + Escape(t)
  {
    hide EscapeChar;
    if s == "" {
      assert s + t == t;
    } else {
      EscapeConcat(s[1..], t);
      assert (s + t)[1..] == s[1..] + t;
      assert EscapeChar(s[0]) + (Escape(s[1..]) + Escape(t)) == (EscapeChar(s[0]) + Escape(s[1..])) + Escape(t);
    }
  }

  lemma EscapeOne(c: char)
    ensures Escape([c]) == EscapeChar(c)
  {
  }

  lemma {:induction false} EscapeLonger(s: string)
    ensures |Escape(s)| >= |s|
  {
    if s == "" {
    } else {
      EscapeLonger(s[1..]);
    }
  }

  /** Appends the escaped text; succeeds exactly when the result fits. */
  method AppendAndEscapeGlobMeta(ref: string, maxSize: nat, out0: string) returns (ok: bool, out: string)
    ensures ok <==> |out0| + |Escape(ref)| <= maxSize
    ensures ok ==> out == out0 + Escape(ref)
  {
    hide Escape;
    out := out0;
    EscapeNothing(ref);
    EscapeLonger(ref);
    if !(|out| <= maxSize && |ref| <= maxSize - |out|) {
      return false, out;
    }
    var start, iter := 0, 0;
    while iter < |ref|
      invariant 0 <= start <= iter <= |ref| && |out| <= maxSize
      invariant out + ref[start..iter] == out0 + Escape(ref[..iter])
    {
      EscapeSplit(ref, iter);
      if IsMeta(ref[iter]) {
        var sub := ref[start..iter];
        if |sub| > maxSize - |out| {
          return false, out;
        }
        out := out + sub;
        start := iter;
        if |out| >= maxSize {
          return false, out;
        }
        out := out + ['\\'];
        assert ref[iter..iter + 1] == [ref[iter]];
        assert out + [ref[iter]] == out0 + (Escape(ref[..iter]) + ['\\', ref[iter]]);
      } else {
        assert ref[start..iter + 1] == ref[start..iter] + [ref[iter]];
        assert out + ref[start..iter + 1] == (out + ref[start..iter]) + [ref[iter]];
        assert out + ref[start..iter + 1] == out0 + (Escape(ref[..iter]) + [ref[iter]]);
      }
      iter := iter + 1;
    }
    assert ref[..iter] == ref;
    var sub := ref[start..];
    if |sub| > maxSize - |out| {
      return false, out;
    }
    return true, out + sub;
  }

  lemma EscapeNothing(s: string)
    ensures Escape(s[..0]) == ""
  {
  }

  lemma {:induction false} EscapeSplit(s: string, i: nat)
    requires i < |s|
    ensures Escape(s[..i + 1]) == Escape(s[..i]) + EscapeChar(s[i])
    ensures |Escape(s)| >= |Escape(s[..i + 1])|
  {
    hide Escape, EscapeChar;
    assert s[..i + 1] == s[..i] + [s[i]];
    EscapeConcat(s[..i], [s[i]]);
    EscapeOne(s[i]);
    assert s == s[..i + 1] + s[i + 1..];
    EscapeConcat(s[..i + 1], s[i + 1..]);
  }

  /** Appends the unescaped text; succeeds exactly when the result fits, or when the size was over the
      limit to begin with (the limit is only compared for equality). */
  method AppendAsUnescaped(value: string, maxSize: nat, out0: string) returns (ok: bool, out: string)
    ensures ok <==> |out0| > maxSize || |out0| + |Unescape(value)| <= maxSize
    ensures ok ==> out == out0 + Unescape(value)
  {
    out := out0;
    var i := 0;
    while i < |value|
      invariant 0 <= i <= |value|
      invariant out + Unescape(value[i..]) == out0 + Unescape(value)
      invariant |out0| <= maxSize <==> |out| <= maxSize
    {
      var ch := value[i];
      ghost var rest := value[i..];
      if ch == '\\' && i + 1 < |value| {
        assert rest[2..] == value[i + 2..];
        i := i + 1;
        ch := value[i];
      } else {
        assert rest[1..] == value[i + 1..];
      }
      if |out| == maxSize {
        return false, out;
      }
      out := out + [ch];
      i := i + 1;
    }
    return true, out;
  }

  /** Unescaping undoes escaping, for every text. */
  lemma {:induction false} UnescapeEscape(s: string)
    ensures Unescape(Escape(s)) == s
  {
    if s == "" {
    } else {
      UnescapeEscape(s[1..]);
      var e := Escape(s);
      if IsMeta(s[0]) {
        assert e[2..] == Escape(s[1..]);
      } else {
        assert e[1..] == Escape(s[1..]);
      }
    }
  }

  /** What the escaped pattern shows behind its first `k` characters. */
  lemma {:induction false} EscapedAt(s: string, k: nat)
    requires k <= |s| && '/' !in s
    ensures var pat, p := Escape(s), |Escape(s[..k])|;
      && p <= |pat| && (k == |s| ==> p == |pat|)
      && (k < |s| ==> !AtEnd(pat, p) && pat[p] != '*' && pat[p] != '?' && pat[p] != '['
                      && Literal(pat, p) == (s[k], |Escape(s[..k + 1])|))
  {
    hide Escape;
    if k == |s| {
      assert s[..k] == s;
    } else {
      var front, rest := Escape(s[..k]), Escape(s[k + 1..]);
      assert s == s[..k + 1] + s[k + 1..] && s[..k + 1] == s[..k] + [s[k]];
      EscapeConcat(s[..k + 1], s[k + 1..]);
      EscapeConcat(s[..k], [s[k]]);
      EscapeOne(s[k]);
      LiteralInside(front, s[k], rest);
      assert Escape(s) == front + EscapeChar(s[k]) + rest;
      assert s[k] in s;
    }
  }

  lemma LiteralInside(front: string, c: char, rest: string)
    ensures var pat, p := front + EscapeChar(c) + rest, |front|;
      && (c != '/' ==> !AtEnd(pat, p)) && p < |pat| && pat[p] != '*' && pat[p] != '?' && pat[p] != '['
      && Literal(pat, p) == (c, p + |EscapeChar(c)|)
  {
  }

  lemma {:induction false} EscapedScan(s: string, k: nat, name: string)
    requires k <= |s| && k <= |name| && '/' !in s
    ensures |Escape(s[..k])| <= |Escape(s)|
    ensures Scan(Escape(s), |Escape(s[..k])|, name, k, NoStar).Matched? <==> s[k..] == name[k..]
    decreases |s| - k
  {
    hide Escape, Literal;
    var pat, p := Escape(s), |Escape(s[..k])|;
    EscapedAt(s, k);
    if k < |s| && k < |name| {
      EscapedScan(s, k + 1, name);
      assert s[k..] == [s[k]] + s[k + 1..] && name[k..] == [name[k]] + name[k + 1..];
    }
  }

  /** An escaped text, used as a pattern component, matches exactly the name that equals it; this holds
      for hidden names and for `.` and `..` too. */
  lemma {:induction false} EscapedMatchesItself(s: string, name: string, dotglob: bool)
    requires '/' !in s
    ensures Expected(Escape(s), 0, name, dotglob, false) in {MATCHED, DOT, DOTDOT} <==> name == s
  {
    hide Escape, Scan;
    EscapedScan(s, 0, name);
    EscapedStart(s);
    assert s[0..] == s && name[0..] == name;
    if Special(name) {
      SpecialComponent(s, name);
    }
  }

  lemma EscapedStart(s: string)
    ensures |Escape(s[..0])| == 0
    ensures Expect(Escape(s), 0, '.') <==> s != "" && s[0] == '.'
  {
  }

  lemma {:induction false} SpecialComponent(s: string, name: string)
    requires Special(name) && '/' !in s
    ensures ComponentIs(Escape(s), 0, name) <==> s == name
  {
    if s == name {
      DotsEscape(s);
    } else {
      NoSlash(s);
      UnescapeEscape(s);
      DotsEscape(name);
      UnescapeEscape(name);
    }
  }

  lemma {:induction false} NoSlash(s: string)
    requires '/' !in s
    ensures forall i :: 0 <= i < |Escape(s)| ==> Escape(s)[i] != '/'
  {
    if s == "" {
    } else {
      assert s[0] in s;
      NoSlash(s[1..]);
    }
  }

  lemma DotsEscape(s: string)
    requires Special(s)
    ensures Escape(s) == s
  {
  }

  /** A backslash escapes what follows it; one at the very end stays. */
  lemma UnescapeCases(c: char, s: string)
    ensures Unescape(['\\', c] + s) == [c] + Unescape(s)
    ensures c != '\\' ==> Unescape([c] + s) == [c] + Unescape(s)
    ensures Unescape("\\") == "\\"
  {
    assert (['\\', c] + s)[2..] == s && ([c] + s)[1..] == s;
    assert "\\"[1..] == "";
  }

  // ---------------------------------------------------------------- which characters are escaped

  /** Exactly the marks of patterns and of bracket expressions get a backslash. */
  lemma {:induction false} EscapeUnchanged(s: string)
    ensures Escape(s) == s <==> forall i :: 0 <= i < |s| ==> s[i] !in "?*[]^!-\\"
  {
    if s == "" {
    } else {
      EscapeUnchanged(s[1..]);
      EscapeLonger(s[1..]);
      assert s == [s[0]] + s[1..];
      assert forall i :: 0 < i < |s| ==> s[i] == s[1..][i - 1];
      if IsMeta(s[0]) {
        assert |Escape(s)| > |s|;
      } else {
        assert Escape(s)[1..] == Escape(s[1..]);
      }
    }
  }

  /** Inside brackets, too, an escaped character stands for itself and nothing else. */
  lemma {:induction false} EscapedInBracket(c: char, cp: int)
    requires c as int < 0x80 && c != '/'
    ensures var pat := "[" + Escape([c]) + "]";
      && ParseBracket(pat, 0).Some? && ParseBracket(pat, 0).value.end == |pat|
      && (ParseBracket(pat, 0).value.Has(cp) <==> cp == c as int)
  {
    EscapeOne(c);
    var pat := "[" + Escape([c]) + "]";
    var e := |pat| - 1;
    var item := Between(c as int, c as int);
    assert pat[e] == ']';
    assert pat[e - 1] == c && CharSize(pat, e - 1) == 1 && CodePoint(pat, e - 1) == c as int;
    assert ParseItem(pat, 1, true) == Some((item, e));
    assert ParseItems(pat, e) == Some(([], e + 1));
    assert [item] + [] == [item];
    assert [item][0] == item;
  }
}
