/** Brace expansion as texts: what the listed fragments print to. */
module BraceText {
  import opened BraceRange
  import opened BraceTokens
  import opened BraceSpec
  import opened BraceTree

  predicate AllShowable(ls: seq<Fragments>) {
    forall i, j :: 0 <= i < |ls| && 0 <= j < |ls[i]| ==> Showable(ls[i][j])
  }

  /** What the other tokens of an argument are: texts and wildcards, no numbers. */
  predicate PiecesShowable(w: Word) {
    match w
    case End => true
    case Then(Piece(v), t) => !v.Number? && PiecesShowable(t)
    case Then(Sequence(_), t) => PiecesShowable(t)
    case Then(Braces(f, os), t) => PiecesShowable(f) && OtherPiecesShowable(os) && PiecesShowable(t)
  }

  predicate OtherPiecesShowable(os: Others) {
    match os
    case NoMore => true
    case Or(w, rest) => PiecesShowable(w) && OtherPiecesShowable(rest)
  }

  predicate ListShowable(l: Fragments) {
    forall j :: 0 <= j < |l| ==> Showable(l[j])
  }

  /** The fragments of one list, printed one after the other. */
  function ListText(l: Fragments): string
    requires ListShowable(l)
  {
    if l == [] then "" else Show(l[0]) + ListText(l[1..])
  }

  function Texts(ls: seq<Fragments>): seq<string>
    requires AllShowable(ls)
  {
    if ls == [] then [] else [ListText(ls[0])] + Texts(ls[1..])
  }

  /** Every text of `ys` with `x` in front. */
  function InFront(x: string, ys: seq<string>): seq<string> {
    if ys == [] then [] else [x + ys[0]] + InFront(x, ys[1..])
  }

  /** Every text of `xs`, in order, followed by every text of `ys`. */
  function TextProduct(xs: seq<string>, ys: seq<string>): seq<string> {
    if xs == [] then [] else InFront(xs[0], ys) + TextProduct(xs[1..], ys)
  }

  function Numerals(vs: seq<int64>, r: Range): seq<string>
    requires forall i :: 0 <= i < |vs| ==> Printable(vs[i], r)
  {
    if vs == [] then []
    else
      assert Printable(vs[0], r);
      [FormatSeqValue(vs[0], r.digits, r.kind == Char)] + Numerals(vs[1..], r)
  }

  lemma {:induction false} ValuesPrintable(r: Range)
    requires RangeOk(r)
    ensures var vs := Values(r); forall i :: 0 <= i < |vs| ==> Printable(vs[i], r)
  {
    hide Printable;
    ValuesBounded(r);
    var vs := Values(r);
    forall i | 0 <= i < |vs| ensures Printable(vs[i], r) {
      assert vs[i] in vs && Within(vs[i], r);
    }
  }

  /** The expansion of a word, on texts alone. */
  ghost function ExpandTexts(w: Word): seq<string>
    requires RangesOk(w) && PiecesShowable(w)
  {
    match w
    case End => [""]
    case Then(Piece(v), t) => InFront(Show(v), ExpandTexts(t))
    case Then(Sequence(r), t) =>
      ValuesPrintable(r);
      TextProduct(Numerals(Values(r), r), ExpandTexts(t))
    case Then(Braces(f, os), t) => TextProduct(ExpandTexts(f) + OtherTexts(os), ExpandTexts(t))
  }

  ghost function OtherTexts(os: Others): seq<string>
    requires OtherRangesOk(os) && OtherPiecesShowable(os)
  {
    match os
    case NoMore => []
    case Or(w, rest) => ExpandTexts(w) + OtherTexts(rest)
  }

  // ---------------------------------------------------------------- printing commutes with expanding

  lemma {:induction false} ListTextConcat(a: Fragments, b: Fragments)
    requires ListShowable(a) && ListShowable(b)
    ensures ListShowable(a + b) && ListText(a + b) == ListText(a) + ListText(b)
  {
    hide Show, Showable;
    if a == [] {
      assert a + b == b;
    } else {
      assert (a + b)[1..] == a[1..] + b;
      ListTextConcat(a[1..], b);
    }
  }

  lemma {:induction false} TextsConcat(xs: seq<Fragments>, ys: seq<Fragments>)
    requires AllShowable(xs) && AllShowable(ys)
    ensures AllShowable(xs + ys) && Texts(xs + ys) == Texts(xs) + Texts(ys)
  {
    hide ListText, Showable;
    if xs == [] {
      assert xs + ys == ys;
    } else {
      assert (xs + ys)[1..] == xs[1..] + ys;
      TextsConcat(xs[1..], ys);
    }
  }

  lemma {:induction false} PrependTexts(p: Fragments, ys: seq<Fragments>)
    requires ListShowable(p) && AllShowable(ys)
    ensures AllShowable(Prepend(p, ys)) && Texts(Prepend(p, ys)) == InFront(ListText(p), Texts(ys))
  {
    hide ListText, Showable;
    if ys == [] {
    } else {
      PrependTexts(p, ys[1..]);
      ListTextConcat(p, ys[0]);
      assert Prepend(p, ys)[1..] == Prepend(p, ys[1..]);
    }
  }

  lemma {:induction false} ProductTexts(xs: seq<Fragments>, ys: seq<Fragments>)
    requires AllShowable(xs) && AllShowable(ys)
    ensures AllShowable(Product(xs, ys)) && Texts(Product(xs, ys)) == TextProduct(Texts(xs), Texts(ys))
  {
    hide ListText, Showable, Prepend;
    if xs == [] {
    } else {
      ProductTexts(xs[1..], ys);
      PrependTexts(xs[0], ys);
      TextsConcat(Prepend(xs[0], ys), Product(xs[1..], ys));
    }
  }

  lemma {:induction false} SinglesTexts(vs: seq<int64>, r: Range)
    requires forall i :: 0 <= i < |vs| ==> Printable(vs[i], r)
    ensures AllShowable(Singles(vs, r)) && Texts(Singles(vs, r)) == Numerals(vs, r)
  {
    hide FormatSeqValue, Printable;
    if vs == [] {
    } else {
      SinglesTexts(vs[1..], r);
      OneText(Number(vs[0], r));
      assert Singles(vs, r)[1..] == Singles(vs[1..], r);
    }
  }

  lemma OneText(v: Value)
    requires Showable(v)
    ensures ListText([v]) == Show(v)
  {
  }

  /** Printing what a word expands to is expanding it on texts: the product, left to right, of its pieces,
      its alternatives and its numerals. */
  lemma {:induction false} ExpandPrints(w: Word)
    requires RangesOk(w) && PiecesShowable(w)
    ensures AllShowable(Expand(w)) && Texts(Expand(w)) == ExpandTexts(w)
  {
    hide Show, Product, Singles, Numerals, TextProduct, Values, AllShowable, Texts;
    match w
    case End => EmptyText();
    case Then(Piece(v), t) =>
      ExpandPrints(t);
      PieceTexts(v, Expand(t));
    case Then(Sequence(r), t) =>
      ExpandPrints(t);
      ValuesPrintable(r);
      SinglesTexts(Values(r), r);
      ProductTexts(Singles(Values(r), r), Expand(t));
    case Then(Braces(f, os), t) =>
      ExpandPrints(f);
      OthersPrint(os);
      ExpandPrints(t);
      TextsConcat(Expand(f), ExpandOthers(os));
      ProductTexts(Expand(f) + ExpandOthers(os), Expand(t));
  }

  lemma {:induction false} OthersPrint(os: Others)
    requires OtherRangesOk(os) && OtherPiecesShowable(os)
    ensures AllShowable(ExpandOthers(os)) && Texts(ExpandOthers(os)) == OtherTexts(os)
  {
    hide Texts, Expand, ExpandTexts, AllShowable;
    match os
    case NoMore => NoTexts();
    case Or(w, rest) =>
      ExpandPrints(w);
      OthersPrint(rest);
      TextsConcat(Expand(w), ExpandOthers(rest));
  }

  lemma NoTexts()
    ensures AllShowable([]) && Texts([]) == []
  {
  }

  lemma EmptyText()
    ensures AllShowable([[]]) && Texts([[]]) == [""]
  {
  }

  lemma {:induction false} PieceTexts(v: Value, ys: seq<Fragments>)
    requires !v.Number? && AllShowable(ys)
    ensures AllShowable(Product([[v]], ys)) && Texts(Product([[v]], ys)) == InFront(Show(v), Texts(ys))
  {
    hide Show, Prepend;
    PrependTexts([v], ys);
    OneText(v);
    PieceProduct(v, ys);
  }
}
