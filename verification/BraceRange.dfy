/** Sequence braces `{begin..end..step}`: parsing, enumeration and printing (src/brace.cpp). */
module BraceRange {
  import opened Wrappers
  import opened Decimal

  const INT64_MIN: int := -0x8000_0000_0000_0000
  const INT64_MAX: int := 0x7fff_ffff_ffff_ffff

  type int64 = x: int | -0x8000_0000_0000_0000 <= x <= 0x7fff_ffff_ffff_ffff

  datatype Kind = Char | Int | OutOfRange | OutOfRangeStep

  datatype Range = Range(begin: int64, end: int64, step: int64, digits: nat, kind: Kind) {
    predicate HasError() { kind == OutOfRange || kind == OutOfRangeStep }

    predicate Valid() { step > 0 && !HasError() }

    predicate Increasing() { begin <= end }
  }

  function Abs(x: int): nat { if x < 0 then -x else x }

  // ---------------------------------------------------------------- enumeration

  /** One update of the counter: `None` when the step overflows 64 bits or leaves the range. */
  function Next(cur: int64, r: Range): Option<int64>
    requires r.Valid()
  {
    if r.Increasing() then
      if cur + r.step > INT64_MAX || cur + r.step > r.end then None
      else var next: int64 := cur + r.step; Some(next)
    else
      if cur - r.step < INT64_MIN || cur - r.step < r.end then None
      else var next: int64 := cur - r.step; Some(next)
  }

  method TryUpdateSeqValue(cur: int64, r: Range) returns (ok: bool, cur': int64)
    requires r.Valid()
    ensures ok == Next(cur, r).Some?
    ensures cur' == if ok then Next(cur, r).value else cur
  {
    ok, cur' := false, cur;
    if r.begin <= r.end {
      var ret: int := cur + r.step;
      if ret > INT64_MAX || ret < INT64_MIN {
        return;
      }
      if ret > r.end {
        return;
      }
      ok, cur' := true, ret;
    } else {
      var ret: int := cur - r.step;
      if ret > INT64_MAX || ret < INT64_MIN {
        return;
      }
      if ret < r.end {
        return;
      }
      ok, cur' := true, ret;
    }
  }

  /** The values the update visits from `cur` on. */
  function Enumerate(cur: int64, r: Range): seq<int64>
    requires r.Valid()
    decreases if r.Increasing() then r.end - cur else cur - r.end
  {
    match Next(cur, r)
    case None => [cur]
    case Some(next) => [cur] + Enumerate(next, r)
  }

  function Values(r: Range): seq<int64>
    requires r.Valid()
  {
    Enumerate(r.begin, r)
  }

  /** The j-th value counted from `base` in the range's direction. */
  function Term(base: int, r: Range, j: int): int {
    if r.Increasing() then base + j * r.step else base - j * r.step
  }

  lemma MulAtLeast(a: int, d: int)
    requires a >= 1 && d > 0
    ensures a * d >= d
  {
  }

  lemma {:induction false} DivUnique(x: int, d: int, q: int, r: int)
    requires d > 0 && x == q * d + r && 0 <= r < d
    ensures x / d == q
  {
    var p, m := x / d, x % d;
    assert x == p * d + m;
    assert (q - p) * d == q * d - p * d == m - r;
    assert (p - q) * d == -((q - p) * d);
    if q > p {
      MulAtLeast(q - p, d);
    } else if q < p {
      MulAtLeast(p - q, d);
    }
  }

  /** What division by a positive step means, one step at a time. */
  lemma {:induction false} DivStep(x: int, d: int)
    requires d > 0 && x >= 0
    ensures x / d >= 0
    ensures x >= d ==> x / d == (x - d) / d + 1
    ensures x < d ==> x / d == 0
    ensures (x / d) * d <= x < (x / d) * d + d
  {
    var q, r := x / d, x % d;
    assert x == q * d + r;
    if x < d {
      DivUnique(x, d, 0, x);
    } else {
      assert x - d == (q - 1) * d + r by { assert (q - 1) * d == q * d - d; }
      DivUnique(x - d, d, q - 1, r);
    }
  }

  lemma {:induction false} EnumerateFrom(cur: int64, r: Range)
    requires r.Valid()
    requires if r.Increasing() then cur <= r.end else cur >= r.end
    ensures |Enumerate(cur, r)| == Abs(r.end - cur) / r.step + 1
    ensures forall j :: 0 <= j < |Enumerate(cur, r)| ==> Enumerate(cur, r)[j] == Term(cur, r, j)
    decreases Abs(r.end - cur)
  {
    DivStep(Abs(r.end - cur), r.step);
    match Next(cur, r)
    case None =>
    case Some(next) =>
      EnumerateFrom(next, r);
      var all, rest := Enumerate(cur, r), Enumerate(next, r);
      forall j | 0 <= j < |all|
        ensures all[j] == Term(cur, r, j)
      {
        if j > 0 {
          assert all[j] == rest[j - 1] == Term(next, r, j - 1);
          assert (j - 1) * r.step == j * r.step - r.step;
        }
      }
  }

  /** The number of whole steps between the bounds. */
  function Steps(r: Range): nat
    requires r.step > 0
  {
    DivStep(Abs(r.end - r.begin), r.step);
    Abs(r.end - r.begin) / r.step
  }

  /** The update visits exactly begin, begin ± step, ... and stops only when one more step would leave
      the inclusive end. */
  lemma {:induction false} ValuesExact(r: Range)
    requires r.Valid()
    ensures |Values(r)| == Steps(r) + 1
    ensures forall j :: 0 <= j < |Values(r)| ==> Values(r)[j] == Term(r.begin, r, j)
    ensures Steps(r) * r.step <= Abs(r.end - r.begin) < Steps(r) * r.step + r.step
  {
    EnumerateFrom(r.begin, r);
    DivStep(Abs(r.end - r.begin), r.step);
  }

  lemma TermBounded(r: Range, j: nat)
    requires r.Valid() && j <= Steps(r)
    ensures r.begin <= Term(r.begin, r, j) <= r.end || r.end <= Term(r.begin, r, j) <= r.begin
  {
  }

  /** No value leaves the bounds, so none leaves 64 bits. */
  lemma {:induction false} ValuesBounded(r: Range)
    requires r.Valid()
    ensures forall v :: v in Values(r) ==> r.begin <= v <= r.end || r.end <= v <= r.begin
  {
    ValuesExact(r);
    forall v | v in Values(r)
      ensures r.begin <= v <= r.end || r.end <= v <= r.begin
    {
      var j :| 0 <= j < |Values(r)| && Values(r)[j] == v;
      TermBounded(r, j);
    }
  }

  // ---------------------------------------------------------------- negative steps

  /** C++ integer division, which truncates toward zero. */
  function TruncDiv(a: int, b: int): int
    requires b > 0
  {
    if a >= 0 then a / b else -((-a) / b)
  }

  /** The last value of the range, computed in 128 bits; the proof obligation that it is an `int64`
      is the assertion of the source. */
  function ToReversedBegin(begin: int64, end: int64, step: int64): int64
    requires step > 0
  {
    DivStep(Abs(end - begin), step);
    begin + TruncDiv(end - begin, step) * step
  }

  /** How a parsed step is folded into the range: 0 counts as 1, a negative one reverses. */
  function WithStep(begin: int64, end: int64, digits: nat, kind: Kind, v: int64): Range
    requires v != INT64_MIN
  {
    if v == 0 then Range(begin, end, 1, digits, kind)
    else if v < 0 then Range(ToReversedBegin(begin, end, -v), begin, -v, digits, kind)
    else Range(begin, end, v, digits, kind)
  }

  function Reverse<T>(s: seq<T>): seq<T> {
    seq(|s|, i requires 0 <= i < |s| => s[|s| - 1 - i])
  }

  /** A negative step lists exactly the reverse of what its absolute value lists. */
  lemma {:induction false} NegativeStepReverses(begin: int64, end: int64, digits: nat, kind: Kind, step: int64)
    requires step > 0 && (kind == Char || kind == Int)
    ensures Values(WithStep(begin, end, digits, kind, -step))
         == Reverse(Values(WithStep(begin, end, digits, kind, step)))
  {
    var fwd, bwd := WithStep(begin, end, digits, kind, step), WithStep(begin, end, digits, kind, -step);
    var n := Steps(fwd);
    ReversedRange(begin, end, digits, kind, step);
    ValuesExact(fwd);
    ValuesExact(bwd);
    var fs, bs := Values(fwd), Values(bwd);
    forall j | 0 <= j < |bs|
      ensures bs[j] == Reverse(fs)[j]
    {
      ReversedAt(fwd, bwd, j);
    }
    assert |bs| == |Reverse(fs)|;
  }

  lemma ReversedAt(fwd: Range, bwd: Range, j: nat)
    requires fwd.step == bwd.step > 0 && j <= Steps(fwd)
    requires bwd.begin == Term(fwd.begin, fwd, Steps(fwd))
    requires Steps(fwd) > 0 ==> bwd.Increasing() != fwd.Increasing()
    ensures Term(bwd.begin, bwd, j) == Term(fwd.begin, fwd, Steps(fwd) - j)
  {
  }

  lemma {:induction false} ReversedRange(begin: int64, end: int64, digits: nat, kind: Kind, step: int64)
    requires step > 0
    ensures var fwd, bwd := WithStep(begin, end, digits, kind, step), WithStep(begin, end, digits, kind, -step);
      && bwd.begin == Term(begin, fwd, Steps(fwd))
      && Steps(bwd) == Steps(fwd)
      && (Steps(fwd) > 0 ==> bwd.Increasing() != fwd.Increasing())
  {
    var n := Steps(WithStep(begin, end, digits, kind, step));
    DivStep(Abs(end - begin), step);
    assert (-n) * step == -(n * step);
    DivUnique(n * step, step, n, 0);
    if n > 0 {
      MulAtLeast(n, step);
    }
  }

  // ---------------------------------------------------------------- parsing

  datatype BraceInt = BraceInt(value: int64, digits: nat, ok: bool)

  predicate Negative(ref: string) { ref != [] && ref[0] == '-' }

  function Body(ref: string): string {
    if ref != [] && (ref[0] == '+' || ref[0] == '-') then ref[1..] else ref
  }

  /** How many leading zeros are stripped; the last character always stays. */
  function Zeros(s: string): (n: nat)
    ensures n <= |s|
  {
    if |s| > 1 && s[0] == '0' then 1 + Zeros(s[1..]) else 0
  }

  /** The signed value and its padding width, from the stripped zeros and the parsed magnitude. */
  function Resolve(negate: bool, zeros: nat, parsed: Option<nat>): BraceInt {
    match parsed
    case None => BraceInt(0, zeros, false)
    case Some(m) =>
      if negate && m <= INT64_MAX + 1 then
        var value: int64 := -(m as int);
        BraceInt(value, if zeros > 0 then zeros + |Digits(if m == INT64_MAX + 1 then INT64_MAX else m)| + 1 else 0, true)
      else if !negate && m <= INT64_MAX then
        BraceInt(m, if zeros > 0 then zeros + |Digits(m)| else 0, true)
      else
        BraceInt(0, zeros, false)
  }

  function BraceIntOf(ref: string): BraceInt
    requires ref != []
  {
    var zeros := Zeros(Body(ref));
    Resolve(Negative(ref), zeros, ParseU64(Body(ref)[zeros..]))
  }

  method ToBraceInt(ref0: string) returns (r: BraceInt)
    requires ref0 != []
    ensures r == BraceIntOf(ref0)
  {
    var ref, negate := ref0, false;
    if ref[0] == '+' {
      ref := ref[1..];
    } else if ref[0] == '-' {
      ref := ref[1..];
      negate := true;
    }
    var digits := 0;
    while |ref| > 1 && ref[0] == '0'
      invariant digits + Zeros(ref) == Zeros(Body(ref0)) && Body(ref0)[digits..] == ref
    {
      digits := digits + 1;
      ref := ref[1..];
    }
    assert digits == Zeros(Body(ref0)) && ref == Body(ref0)[digits..];
    var ret := ConvertToNum10(ref);
    r := ResolveValue(negate, digits, ret);
  }

  method ResolveValue(negate: bool, zeros: nat, ret: Option<nat>) returns (r: BraceInt)
    ensures r == Resolve(negate, zeros, ret)
  {
    var LIMIT := INT64_MAX + 1;
    var ok, value: int64, digits := false, 0, zeros;
    if ret.Some? {
      if negate {
        if ret.value < LIMIT {
          ok, value := true, -(ret.value as int);
        } else if ret.value == LIMIT {
          ok, value := true, INT64_MIN;
        }
      } else if ret.value < LIMIT {
        ok, value := true, ret.value;
      }
    }
    if ok && digits > 0 {
      var c := CountDigits(if value == INT64_MIN then INT64_MAX else Abs(value));
      digits := digits + c + (if negate then 1 else 0);
    }
    return BraceInt(value, digits, ok);
  }

  /** What the lexer lets through for an integer bound or step: `[+-]?[0-9]+`. */
  predicate IsIntLiteral(ref: string) { Body(ref) != [] && AllDigits(Body(ref)) }

  function IntValue(ref: string): int
    requires IsIntLiteral(ref)
  {
    if Negative(ref) then -(DecValue(Body(ref)) as int) else DecValue(Body(ref))
  }

  function LiteralPadding(ref: string): nat {
    if |Body(ref)| > 1 && Body(ref)[0] == '0' then |Body(ref)| + (if Negative(ref) then 1 else 0) else 0
  }

  lemma {:induction false} ZerosStripped(s: string)
    requires s != [] && AllDigits(s)
    ensures Canonical(s[Zeros(s)..]) && DecValue(s[Zeros(s)..]) == DecValue(s)
    ensures Zeros(s) > 0 <==> |s| > 1 && s[0] == '0'
  {
    if |s| > 1 && s[0] == '0' {
      ZerosStripped(s[1..]);
      assert s == "0" + s[1..];
      DecValueLeadingZero(s[1..]);
      assert s[1..][Zeros(s[1..])..] == s[Zeros(s)..];
    } else {
      assert s[0..] == s;
    }
  }

  /** An integer literal is accepted exactly when its value fits 64 bits; the value is then exact and
      the padding width is the literal's own length (without '+') when it has a leading zero. */
  lemma {:induction false} BraceIntLiteral(ref: string)
    requires IsIntLiteral(ref)
    ensures BraceIntOf(ref).ok <==> INT64_MIN <= IntValue(ref) <= INT64_MAX
    ensures BraceIntOf(ref).ok ==> BraceIntOf(ref).value == IntValue(ref)
    ensures BraceIntOf(ref).ok ==> BraceIntOf(ref).digits == LiteralPadding(ref)
  {
    var body := Body(ref);
    ZerosStripped(body);
    var t := body[Zeros(body)..];
    CanonicalDigits(t);
    ParsePlain(t);
    ResolveExact(Negative(ref), Zeros(body), t);
  }

  lemma ParsePlain(t: string)
    requires Canonical(t)
    ensures ParseU64(t) == if DecValue(t) < UINT64_LIMIT then Some(DecValue(t)) else None
  {
  }

  lemma {:induction false} ResolveExact(negate: bool, zeros: nat, t: string)
    requires Canonical(t) && Digits(DecValue(t)) == t
    ensures var m := DecValue(t);
      var v := if negate then -(m as int) else m as int;
      var b := Resolve(negate, zeros, if m < UINT64_LIMIT then Some(m) else None);
      && (b.ok <==> INT64_MIN <= v <= INT64_MAX)
      && (b.ok ==> b.value == v && b.digits == if zeros > 0 then zeros + |t| + (if negate then 1 else 0) else 0)
  {
    TopDigits();
  }

  lemma TopDigits()
    ensures |Digits(INT64_MAX)| == |Digits(INT64_MAX + 1)|
  {
  }

  /** The first position of `..` at or after `from`. */
  function FindDots(s: string, from: nat): (r: Option<nat>)
    ensures r.Some? ==> from <= r.value && r.value + 2 <= |s| && s[r.value..r.value + 2] == ".."
    decreases |s| - from
  {
    if from + 2 > |s| then None
    else if s[from] == '.' && s[from + 1] == '.' then Some(from)
    else FindDots(s, from + 1)
  }

  /** The three texts of `begin..end..step`; the step is empty when absent. */
  function Split(ref: string): (string, string, string)
    requires FindDots(ref, 0).Some?
  {
    var p := FindDots(ref, 0).value;
    var rest := ref[p + 2..];
    match FindDots(rest, 0)
    case None => (ref[..p], rest, "")
    case Some(q) => (ref[..p], rest[..q], rest[q + 2..])
  }

  function Max(x: nat, y: nat): nat { if x > y then x else y }

  function Width(b1: BraceInt, b2: BraceInt): nat {
    if b1.digits > 0 && b2.digits == 0 then Max(b1.digits, |ToString(b2.value)|)
    else if b1.digits == 0 && b2.digits > 0 then Max(|ToString(b1.value)|, b2.digits)
    else Max(b1.digits, b2.digits)
  }

  function AddStep(begin: int64, end: int64, digits: nat, kind: Kind, step: string): Range {
    if step == "" then Range(begin, end, 1, digits, kind)
    else
      var b := BraceIntOf(step);
      if !b.ok || b.value == INT64_MIN then Range(begin, end, 1, digits, OutOfRangeStep)
      else WithStep(begin, end, digits, kind, b.value)
  }

  predicate RangeSyntax(ref: string, isChar: bool) {
    && FindDots(ref, 0).Some?
    && var (begin, end, step) := Split(ref);
       if isChar then |begin| == 1 && |end| == 1 && begin[0] as int < 256 && end[0] as int < 256
       else begin != "" && end != ""
  }

  function ToBraceRange(ref: string, isChar: bool): Range
    requires RangeSyntax(ref, isChar)
  {
    var (begin, end, step) := Split(ref);
    if isChar then
      AddStep(begin[0] as int, end[0] as int, 0, Char, step)
    else
      var b1, b2 := BraceIntOf(begin), BraceIntOf(end);
      if !b1.ok || !b2.ok then Range(0, 0, 1, 0, OutOfRange)
      else AddStep(b1.value, b2.value, Width(b1, b2), Int, step)
  }

  // ---------------------------------------------------------------- printing

  function ZeroPad(k: nat): (s: string)
    ensures |s| == k && (k > 0 ==> s[0] == '0')
  {
    if k == 0 then "" else "0" + ZeroPad(k - 1)
  }

  /** `digits` characters: zeros inserted at `at`. */
  function Pad(value: string, at: nat, digits: nat): string
    requires at <= |value| <= digits
  {
    value[..at] + ZeroPad(digits - |value|) + value[at..]
  }

  /** The source asserts the precondition; `EveryValuePads` shows it never fails. */
  function FormatSeqValue(v: int64, digits: nat, isChar: bool): string
    requires isChar ==> 0 <= v < 256
    requires !isChar && digits > 0 ==> |ToString(v)| <= digits
  {
    if isChar then [v as char]
    else if digits == 0 then ToString(v)
    else Pad(ToString(v), if v < 0 then 1 else 0, digits)
  }

  lemma {:induction false} PadValue(s: string, k: nat)
    requires AllDigits(s)
    ensures AllDigits(ZeroPad(k) + s) && DecValue(ZeroPad(k) + s) == DecValue(s)
  {
    if k == 0 {
      assert ZeroPad(k) + s == s;
    } else {
      PadValue(s, k - 1);
      DecValueLeadingZero(ZeroPad(k - 1) + s);
      assert ZeroPad(k) + s == "0" + (ZeroPad(k - 1) + s);
    }
  }

  /** Printing then parsing is the identity, padded or not, and padding fills the width exactly. */
  lemma {:induction false} FormatRoundTrip(v: int64, digits: nat)
    requires digits > 0 ==> |ToString(v)| <= digits
    ensures var text := FormatSeqValue(v, digits, false);
      && IsIntLiteral(text) && IntValue(text) == v
      && BraceIntOf(text).ok && BraceIntOf(text).value == v
      && |text| == if digits == 0 then |ToString(v)| else digits
  {
    var text := FormatSeqValue(v, digits, false);
    var body := Digits(Abs(v));
    DigitsRoundTrip(Abs(v));
    if digits == 0 {
      PadValue(body, 0);
      PadShape(ToString(v), body, v < 0, |ToString(v)|);
    } else {
      PadValue(body, digits - |ToString(v)|);
      PadShape(ToString(v), body, v < 0, digits);
    }
    BraceIntLiteral(text);
  }

  /** The zeros go between the sign and the digits. */
  lemma PadShape(value: string, body: string, negative: bool, digits: nat)
    requires value == if negative then "-" + body else body
    requires |value| <= digits && body != [] && IsDigit(body[0])
    ensures var text := Pad(value, if negative then 1 else 0, digits);
      && Body(text) == ZeroPad(digits - |value|) + body
      && (Negative(text) <==> negative)
      && |text| == digits
      && (digits == |value| ==> text == value)
  {
  }

  lemma {:induction false} ToStringBetween(lo: int, v: int, hi: int)
    requires lo <= v <= hi
    ensures |ToString(v)| <= |ToString(lo)| || |ToString(v)| <= |ToString(hi)|
  {
    if v >= 0 {
      DigitsMonotone(v, hi);
    } else {
      DigitsMonotone(-v, -lo);
    }
  }

  lemma {:induction false} LiteralWidth(ref: string)
    requires IsIntLiteral(ref) && BraceIntOf(ref).ok
    ensures BraceIntOf(ref).digits > 0 ==> |ToString(BraceIntOf(ref).value)| <= BraceIntOf(ref).digits
  {
    BraceIntLiteral(ref);
    ZerosStripped(Body(ref));
    CanonicalDigits(Body(ref)[Zeros(Body(ref))..]);
  }

  /** A parsed step keeps the range between the two written bounds, whatever its sign. */
  lemma {:induction false} StepBounds(begin: int64, end: int64, digits: nat, kind: Kind, step: string)
    ensures var r := AddStep(begin, end, digits, kind, step);
      && (begin <= r.begin <= end || end <= r.begin <= begin)
      && (begin <= r.end <= end || end <= r.end <= begin)
      && r.step > 0 && r.digits == digits && (!r.HasError() ==> r.kind == kind)
  {
    if step != "" && BraceIntOf(step).ok && INT64_MIN < BraceIntOf(step).value < 0 {
      ReversedBetween(begin, end, -BraceIntOf(step).value);
    }
  }

  lemma {:induction false} ReversedBetween(begin: int64, end: int64, step: int64)
    requires step > 0
    ensures var r := ToReversedBegin(begin, end, step); begin <= r <= end || end <= r <= begin
  {
    var n := Abs(end - begin) / step;
    DivStep(Abs(end - begin), step);
    assert (-n) * step == -(n * step);
    assert n * step >= 0;
  }

  /** A range text that the lexer lets through and the parser accepts. */
  predicate Accepted(ref: string, isChar: bool) {
    && RangeSyntax(ref, isChar)
    && (!isChar ==> IsIntLiteral(Split(ref).0) && IsIntLiteral(Split(ref).1))
    && !ToBraceRange(ref, isChar).HasError()
  }

  /** A value satisfies the formatter's assertion, fills the width when padded, and parses back. */
  predicate PrintsExactly(v: int64, digits: nat) {
    && (digits > 0 ==> |ToString(v)| <= digits)
    && var text := FormatSeqValue(v, digits, false);
       (digits > 0 ==> |text| == digits) && IsIntLiteral(text) && IntValue(text) == v
  }

  /** For every accepted integer range the formatter's assertion holds for every value it lists; each
      prints with exactly the computed width when padded, and the printed text parses back to it. */
  lemma {:induction false} EveryValuePads(ref: string)
    ensures Accepted(ref, false) ==>
      var r := ToBraceRange(ref, false);
      r.Valid() && r.kind == Int && forall v :: v in Values(r) ==> PrintsExactly(v, r.digits)
  {
    if Accepted(ref, false) {
      var r := ToBraceRange(ref, false);
      var (begin, end, step) := Split(ref);
      var b1, b2 := BraceIntOf(begin), BraceIntOf(end);
      StepBounds(b1.value, b2.value, Width(b1, b2), Int, step);
      ValuesBounded(r);
      forall v | v in Values(r) ensures PrintsExactly(v, r.digits) {
        WidthCovers(begin, end, v);
        FormatRoundTrip(v, r.digits);
      }
    }
  }

  /** The width computed from two literals holds every value between them. */
  lemma {:induction false} WidthCovers(begin: string, end: string, v: int)
    requires IsIntLiteral(begin) && IsIntLiteral(end) && BraceIntOf(begin).ok && BraceIntOf(end).ok
    requires var b1, b2 := BraceIntOf(begin).value, BraceIntOf(end).value; b1 <= v <= b2 || b2 <= v <= b1
    ensures var w := Width(BraceIntOf(begin), BraceIntOf(end)); w > 0 ==> |ToString(v)| <= w
  {
    var b1, b2 := BraceIntOf(begin), BraceIntOf(end);
    LiteralWidth(begin);
    LiteralWidth(end);
    if b1.value <= b2.value {
      ToStringBetween(b1.value, v, b2.value);
    } else {
      ToStringBetween(b2.value, v, b1.value);
    }
  }
}
