/** UTF-8 decoding over byte strings (src/misc/unicode.hpp, section 4 of RFC 3629). Each `char` stands
    for one byte; a value above 0xFF is never part of a valid sequence. */
module Utf8 {

  predicate Continuation(c: char) { 0x80 <= c as int < 0xC0 }

  /** The number of bytes of the valid sequence at `i`, 0 when there is none. */
  function CharSize(s: string, i: nat): (n: nat)
    requires i <= |s|
    ensures n <= 4 && i + n <= |s|
  {
    if i == |s| then 0
    else
      var b := s[i] as int;
      if b < 0x80 then 1
      else if 0xC0 <= b < 0xE0 then
        if i + 1 < |s| && Continuation(s[i + 1]) && b >= 0xC2 then 2 else 0
      else if 0xE0 <= b < 0xF0 then
        if i + 2 < |s| && Continuation(s[i + 1]) && Continuation(s[i + 2])
          && !(b == 0xE0 && s[i + 1] as int < 0xA0) && !(b == 0xED && s[i + 1] as int >= 0xA0)
        then 3 else 0
      else if 0xF0 <= b < 0xF8 then
        if i + 3 < |s| && Continuation(s[i + 1]) && Continuation(s[i + 2]) && Continuation(s[i + 3])
          && !(b == 0xF0 && s[i + 1] as int < 0x90) && !(b == 0xF4 && s[i + 1] as int > 0x8F) && b <= 0xF4
        then 4 else 0
      else 0
  }

  /** The code point at `i`, -1 for an invalid byte. */
  function CodePoint(s: string, i: nat): (cp: int)
    requires i <= |s|
    ensures cp >= 0 <==> CharSize(s, i) > 0
    ensures cp >= -1
  {
    match CharSize(s, i)
    case 1 => s[i] as int
    case 2 => (s[i] as int - 0xC0) * 0x40 + (s[i + 1] as int - 0x80)
    case 3 => ((s[i] as int - 0xE0) * 0x40 + (s[i + 1] as int - 0x80)) * 0x40 + (s[i + 2] as int - 0x80)
    case 4 => (((s[i] as int - 0xF0) * 0x40 + (s[i + 1] as int - 0x80)) * 0x40 + (s[i + 2] as int - 0x80)) * 0x40
              + (s[i + 3] as int - 0x80)
    case _ => -1
  }

  /** How far one code point, or one invalid byte, reaches. */
  function Step(s: string, i: nat): (n: nat)
    requires i < |s|
    ensures 1 <= n <= 4 && i + n <= |s|
  {
    if CharSize(s, i) == 0 then 1 else CharSize(s, i)
  }

  /** Inside a valid sequence no other one starts. */
  lemma InsideIsInvalid(s: string, i: nat, k: nat)
    requires i <= |s| && i < k < i + CharSize(s, i)
    ensures CharSize(s, k) == 0 && Step(s, k) == 1
  {
  }

  /** Position `k` does not split a valid sequence. */
  predicate Boundary(s: string, k: nat)
    requires k <= |s|
  {
    forall i :: 0 <= i < k ==> i + CharSize(s, i) <= k
  }

  /** A valid sequence is recognised by its own bytes, whatever follows. */
  lemma SameChar(s: string, i: nat, t: string, j: nat)
    requires i <= |s| && CharSize(s, i) > 0
    requires j + CharSize(s, i) <= |t| && t[j..j + CharSize(s, i)] == s[i..i + CharSize(s, i)]
    ensures CharSize(t, j) == CharSize(s, i) && CodePoint(t, j) == CodePoint(s, i)
  {
    var n := CharSize(s, i);
    var a, b := s[i..i + n], t[j..j + n];
    assert forall k :: 0 <= k < n ==> a[k] == s[i + k];
    assert forall k :: 0 <= k < n ==> b[k] == t[j + k];
  }

  /** Behind a valid sequence, and behind a single ASCII byte, is a boundary. */
  lemma {:induction false} BoundaryBehind(s: string, i: nat)
    requires i <= |s| && CharSize(s, i) > 0
    ensures Boundary(s, i + CharSize(s, i))
  {
    var e := i + CharSize(s, i);
    forall k | 0 <= k < e ensures k + CharSize(s, k) <= e {
      if k < i {
        NotInside(s, k, i);
      } else if i < k {
        InsideIsInvalid(s, i, k);
      }
    }
  }

  lemma {:induction false} NotInside(s: string, k: nat, i: nat)
    requires k < i <= |s| && CharSize(s, i) > 0
    ensures k + CharSize(s, k) <= i
  {
    if i < k + CharSize(s, k) {
      InsideIsInvalid(s, k, i);
    }
  }

  /** No valid sequence has three bytes or more. */
  predicate AllShort(s: string) {
    forall i :: 0 <= i < |s| ==> CharSize(s, i) <= 2
  }

  /** Stepping is monotone towards a boundary, and everywhere when all sequences are short. */
  lemma StepMonotone(s: string, i: nat, j: nat)
    requires i <= j < |s| && (Boundary(s, j) || AllShort(s))
    ensures i + Step(s, i) <= j + Step(s, j)
  {
  }

  /** With a long sequence it is not. */
  lemma {:induction false} StepNotMonotone(s: string, i: nat)
    requires i < |s| && CharSize(s, i) >= 3
    ensures i + 1 + Step(s, i + 1) < i + Step(s, i)
  {
    InsideIsInvalid(s, i, i + 1);
  }
}
