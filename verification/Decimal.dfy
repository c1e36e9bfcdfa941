/** Decimal numerals, as `std::to_string`, `countDigits` and `convertToNum10<uint64_t>` read and
    write them (src/misc/format.hpp, src/misc/num_util.hpp). */
module Decimal {
  import opened Wrappers

  const UINT64_LIMIT: int := 0x1_0000_0000_0000_0000

  predicate IsDigit(c: char) { '0' <= c <= '9' }

  predicate AllDigits(s: string) { forall i :: 0 <= i < |s| ==> IsDigit(s[i]) }

  function DigitValue(c: char): nat
    requires IsDigit(c)
  {
    c as int - '0' as int
  }

  function DigitChar(d: nat): char
    requires d < 10
  {
    ('0' as int + d) as char
  }

  /** The number a digit string denotes. */
  function DecValue(s: string): nat
    requires AllDigits(s)
  {
    if s == [] then 0 else 10 * DecValue(s[..|s| - 1]) + DigitValue(s[|s| - 1])
  }

  /** The canonical numeral of `n`: what `std::to_string` prints. */
  function Digits(n: nat): string {
    if n < 10 then [DigitChar(n)] else Digits(n / 10) + [DigitChar(n % 10)]
  }

  function ToString(v: int): string {
    if v < 0 then "-" + Digits(-v) else Digits(v)
  }

  predicate Canonical(s: string) {
    s != [] && AllDigits(s) && (|s| > 1 ==> s[0] != '0')
  }

  lemma {:induction false} DigitsRoundTrip(n: nat)
    ensures Canonical(Digits(n)) && DecValue(Digits(n)) == n
    ensures n > 0 ==> Digits(n)[0] != '0'
  {
    if n >= 10 {
      DigitsRoundTrip(n / 10);
      var s := Digits(n);
      assert s[..|s| - 1] == Digits(n / 10);
    } else {
      assert Digits(n)[..0] == [];
    }
  }

  lemma {:induction false} CanonicalDigits(s: string)
    requires Canonical(s)
    ensures Digits(DecValue(s)) == s
    ensures s[0] != '0' ==> DecValue(s) > 0
  {
    var t := s[..|s| - 1];
    if t == [] {
      assert s == [s[0]];
    } else {
      CanonicalDigits(t);
      assert s == t + [s[|s| - 1]];
    }
  }

  lemma {:induction false} DigitsMonotone(m: nat, n: nat)
    requires m <= n
    ensures |Digits(m)| <= |Digits(n)|
  {
    if m >= 10 {
      DigitsMonotone(m / 10, n / 10);
    }
  }

  lemma {:induction false} DecValueLeadingZero(s: string)
    requires AllDigits(s)
    ensures AllDigits("0" + s) && DecValue("0" + s) == DecValue(s)
  {
    var t := "0" + s;
    if s == [] {
      assert t[..0] == [];
    } else {
      DecValueLeadingZero(s[..|s| - 1]);
      assert t[..|t| - 1] == "0" + s[..|s| - 1];
    }
  }

  lemma {:induction false} DecValuePrefix(s: string, k: nat)
    requires AllDigits(s) && k <= |s|
    ensures DecValue(s[..k]) <= DecValue(s)
    decreases |s|
  {
    if k < |s| {
      DecValuePrefix(s[..|s| - 1], k);
      assert s[..|s| - 1][..k] == s[..k];
    } else {
      assert s[..k] == s;
    }
  }

  /** `convertToNum10<uint64_t>` accepts one leading '+', then digits only, below 2^64. */
  function ParseU64(s: string): Option<nat> {
    var t := if s != [] && s[0] == '+' then s[1..] else s;
    if t != [] && AllDigits(t) && DecValue(t) < UINT64_LIMIT then Some(DecValue(t)) else None
  }

  method ConvertToNum10(s: string) returns (r: Option<nat>)
    ensures r == ParseU64(s)
  {
    var t := if s != [] && s[0] == '+' then s[1..] else s;
    if t == [] {
      return None;
    }
    var value, i := 0, 0;
    while i < |t|
      invariant 0 <= i <= |t| && AllDigits(t[..i]) && value == DecValue(t[..i]) < UINT64_LIMIT
    {
      if !IsDigit(t[i]) {
        return None;
      }
      assert t[..i + 1][..i] == t[..i];
      if value * 10 >= UINT64_LIMIT || value * 10 + DigitValue(t[i]) >= UINT64_LIMIT {
        if AllDigits(t) {
          DecValuePrefix(t, i + 1);
        }
        return None;
      }
      value := value * 10 + DigitValue(t[i]);
      i := i + 1;
    }
    assert t[..i] == t;
    return Some(value);
  }

  method CountDigits(n: nat) returns (c: nat)
    ensures c == |Digits(n)|
  {
    if n == 0 {
      return 1;
    }
    var m := n;
    c := 0;
    while m > 0
      invariant c + (if m == 0 then 0 else |Digits(m)|) == |Digits(n)|
    {
      m := m / 10;
      c := c + 1;
    }
  }

  /** Every number below 2^64 is read from its numeral, with a plus sign or without; a larger one is not. */
  lemma {:induction false} NumeralsRead(n: nat)
    ensures ParseU64(Digits(n)) == (if n < UINT64_LIMIT then Some(n) else None)
    ensures ParseU64("+" + Digits(n)) == (if n < UINT64_LIMIT then Some(n) else None)
  {
    hide DecValue, Digits;
    DigitsRoundTrip(n);
    assert IsDigit(Digits(n)[0]);
    assert ("+" + Digits(n))[1..] == Digits(n);
  }

  /** Nothing else is read: no empty text, no minus sign, no second plus sign and no other character. */
  lemma NothingElseRead(s: string, i: nat)
    requires i < |s| && !IsDigit(s[i]) && !(i == 0 && s[0] == '+')
    ensures ParseU64(s) == None && ParseU64("") == None && ParseU64("+") == None
  {
    if s[0] == '+' {
      assert s[1..][i - 1] == s[i];
    }
  }
}
