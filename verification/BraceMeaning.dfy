/** What a sequence brace means, from its written text alone (src/brace.cpp). */
module BraceMeaning {
  import opened Wrappers
  import opened Decimal
  import opened BraceRange

  // ---------------------------------------------------------------- the text

  /** `begin..end`, or `begin..end..step`. */
  function Written(b: string, e: string, s: Option<string>): string {
    b + ".." + e + if s.Some? then ".." + s.value else ""
  }

  lemma {:induction false} DotsAt(x: string, y: string, from: nat)
    requires '.' !in x && from <= |x|
    ensures FindDots(x + ".." + y, from) == Some(|x|)
    decreases |x| - from
  {
    var t := x + ".." + y;
    if from == |x| {
      assert t[from] == '.' && t[from + 1] == '.';
    } else {
      assert t[from] == x[from] && x[from] in x;
      DotsAt(x, y, from + 1);
    }
  }

  lemma {:induction false} NoDots(x: string, from: nat)
    requires '.' !in x
    ensures FindDots(x, from) == None
    decreases |x| - from
  {
    if from + 2 <= |x| {
      assert x[from] in x;
      NoDots(x, from + 1);
    }
  }

  /** Reading finds the three texts that were written. */
  lemma {:induction false} SplitWritten(b: string, e: string, s: Option<string>)
    requires '.' !in b && '.' !in e
    ensures FindDots(Written(b, e, s), 0).Some?
    ensures Split(Written(b, e, s)) == (b, e, if s.Some? then s.value else "")
  {
    var rest := e + if s.Some? then ".." + s.value else "";
    var ref := Written(b, e, s);
    assert ref == b + ".." + rest;
    DotsAt(b, rest, 0);
    assert ref[..|b|] == b && ref[|b| + 2..] == rest;
    if s.Some? {
      assert rest == e + ".." + s.value;
      DotsAt(e, s.value, 0);
      assert rest[..|e|] == e && rest[|e| + 2..] == s.value;
    } else {
      assert rest == e;
      NoDots(e, 0);
    }
  }

  // ---------------------------------------------------------------- the values

  /** From `a` towards `b` in steps of `d`, up to the last term not beyond `b`. */
  function Progression(a: int, b: int, d: int): seq<int>
    requires d > 0
  {
    DivStep(Abs(b - a), d);
    seq(Abs(b - a) / d + 1, j requires 0 <= j => if a <= b then a + j * d else a - j * d)
  }

  /** The step that a written one stands for: 1 when it is absent or 0. */
  function StepSize(s: Option<string>): nat
    requires s.Some? ==> IsIntLiteral(s.value)
  {
    if s.None? || IntValue(s.value) == 0 then 1 else Abs(IntValue(s.value))
  }

  predicate Backwards(s: Option<string>)
    requires s.Some? ==> IsIntLiteral(s.value)
  {
    s.Some? && IntValue(s.value) < 0
  }

  /** The progression between the bounds, reversed when the step is negative. */
  function Listed(a: int, b: int, s: Option<string>): seq<int>
    requires s.Some? ==> IsIntLiteral(s.value)
  {
    var p := Progression(a, b, StepSize(s));
    if Backwards(s) then Reverse(p) else p
  }

  predicate Fits(ref: string)
    requires IsIntLiteral(ref)
  {
    INT64_MIN <= IntValue(ref) <= INT64_MAX
  }

  /** A step fits when its magnitude does, too. */
  predicate StepFits(s: Option<string>)
    requires s.Some? ==> IsIntLiteral(s.value)
  {
    s.Some? ==> INT64_MIN < IntValue(s.value) <= INT64_MAX
  }

  lemma {:induction false} ForwardValues(r: Range)
    requires r.Valid()
    ensures Values(r) == Progression(r.begin, r.end, r.step)
  {
    ValuesExact(r);
  }

  /** What the step does to the range between two bounds. */
  lemma {:induction false} SteppedValues(begin: int64, end: int64, digits: nat, kind: Kind, s: Option<string>)
    requires (kind == Char || kind == Int) && (s.Some? ==> IsIntLiteral(s.value))
    ensures var r := AddStep(begin, end, digits, kind, if s.Some? then s.value else "");
      if StepFits(s) then r.Valid() && r.kind == kind && r.digits == digits && Values(r) == Listed(begin, end, s)
      else r.kind == OutOfRangeStep
  {
    hide Values, Progression, BraceIntOf, IntValue;
    if s.None? {
      ForwardValues(Range(begin, end, 1, digits, kind));
    } else {
      LiteralNotEmpty(s.value);
      BraceIntLiteral(s.value);
      if StepFits(s) {
        var v := IntValue(s.value);
        var d := StepSize(s);
        var forward := WithStep(begin, end, digits, kind, d);
        ForwardValues(forward);
        if v < 0 {
          NegativeStepReverses(begin, end, digits, kind, d);
        }
      }
    }
  }

  lemma LiteralNotEmpty(ref: string)
    requires IsIntLiteral(ref)
    ensures ref != ""
  {
  }

  // ---------------------------------------------------------------- the width

  predicate ZeroPadded(ref: string) {
    |Body(ref)| > 1 && Body(ref)[0] == '0'
  }

  /** As long as it is written (a plus sign is not printed) when padded, as it prints otherwise. */
  function ShownLength(ref: string): nat
    requires IsIntLiteral(ref)
  {
    if ZeroPadded(ref) then |ref| - (if ref[0] == '+' then 1 else 0) else |ToString(IntValue(ref))|
  }

  function WrittenWidth(b: string, e: string): nat
    requires IsIntLiteral(b) && IsIntLiteral(e)
  {
    if !ZeroPadded(b) && !ZeroPadded(e) then 0
    else if ShownLength(b) > ShownLength(e) then ShownLength(b)
    else ShownLength(e)
  }

  lemma {:induction false} WidthWritten(b: string, e: string)
    requires IsIntLiteral(b) && IsIntLiteral(e) && BraceIntOf(b).ok && BraceIntOf(e).ok
    ensures Width(BraceIntOf(b), BraceIntOf(e)) == WrittenWidth(b, e)
  {
    hide BraceIntOf, IntValue, ToString;
    BraceIntLiteral(b);
    BraceIntLiteral(e);
  }

  // ---------------------------------------------------------------- integers

  lemma {:induction false} LiteralHasNoDot(ref: string)
    requires IsIntLiteral(ref)
    ensures '.' !in ref
  {
    forall i | 0 <= i < |ref| ensures ref[i] != '.' {
      var body := Body(ref);
      if body == ref {
        assert IsDigit(body[i]);
      } else if i > 0 {
        assert ref[i] == body[i - 1];
      }
    }
  }

  /** `{b..e}` and `{b..e..s}` list the progression from the value of `b` towards that of `e`, with the
      width of the padded bounds; a bound or a step that does not fit is an error of its own kind. */
  lemma {:induction false} IntegersMean(b: string, e: string, s: Option<string>)
    requires IsIntLiteral(b) && IsIntLiteral(e) && (s.Some? ==> IsIntLiteral(s.value))
    ensures RangeSyntax(Written(b, e, s), false)
    ensures var r := ToBraceRange(Written(b, e, s), false);
      if !Fits(b) || !Fits(e) then r.kind == OutOfRange
      else if !StepFits(s) then r.kind == OutOfRangeStep
      else
        && r.Valid() && r.kind == Int && r.digits == WrittenWidth(b, e)
        && Values(r) == Listed(IntValue(b), IntValue(e), s)
  {
    hide BraceIntOf, IntValue, AddStep, Width, WrittenWidth, Values, Listed, Split, FindDots;
    LiteralHasNoDot(b);
    LiteralHasNoDot(e);
    LiteralNotEmpty(b);
    LiteralNotEmpty(e);
    SplitWritten(b, e, s);
    BraceIntLiteral(b);
    BraceIntLiteral(e);
    if Fits(b) && Fits(e) {
      WidthWritten(b, e);
      SteppedValues(IntValue(b), IntValue(e), WrittenWidth(b, e), Int, s);
    }
  }

  // ---------------------------------------------------------------- characters

  /** `{c..d}` and `{c..d..s}` list the characters from `c` towards `d`, each printed as itself. */
  lemma {:induction false} CharactersMean(c: char, d: char, s: Option<string>)
    requires c != '.' && d != '.' && c as int < 256 && d as int < 256 && (s.Some? ==> IsIntLiteral(s.value))
    ensures RangeSyntax(Written([c], [d], s), true)
    ensures var r := ToBraceRange(Written([c], [d], s), true);
      if !StepFits(s) then r.kind == OutOfRangeStep
      else
        && r.Valid() && r.kind == Char && r.digits == 0
        && Values(r) == Listed(c as int, d as int, s)
  {
    hide BraceIntOf, IntValue, AddStep, Values, Listed, Split, FindDots;
    SplitWritten([c], [d], s);
    SteppedValues(c as int, d as int, 0, Char, s);
  }

  /** A listed character prints as the one character with its code. */
  lemma CharacterPrints(v: int64, digits: nat)
    requires 0 <= v < 256
    ensures |FormatSeqValue(v, digits, true)| == 1 && FormatSeqValue(v, digits, true)[0] as int == v
  {
  }

  /** For instance, `{1..3}` and `{3..1}`. */
  lemma {:induction false} OneToThree()
    ensures RangeSyntax("1..3", false) && ToBraceRange("1..3", false).Valid()
    ensures Values(ToBraceRange("1..3", false)) == [1, 2, 3]
    ensures RangeSyntax("3..1", false) && ToBraceRange("3..1", false).Valid()
    ensures Values(ToBraceRange("3..1", false)) == [3, 2, 1]
  {
    hide ToBraceRange, RangeSyntax, Values;
    assert "1"[..0] == "" && "3"[..0] == "";
    assert IntValue("1") == 1 && IntValue("3") == 3;
    assert Written("1", "3", None) == "1..3" && Written("3", "1", None) == "3..1";
    IntegersMean("1", "3", None);
    IntegersMean("3", "1", None);
    assert Progression(1, 3, 1) == [1, 2, 3] && Progression(3, 1, 1) == [3, 2, 1];
  }
}
