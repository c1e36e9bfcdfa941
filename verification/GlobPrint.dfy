/** Writing bracket expressions: every set of ranges and classes can be written down, and reading it back
    (src/glob.cpp) gives the same set. */
module GlobPrint {
  import opened Wrappers
  import opened Utf8
  import opened GlobBracket

  // ---------------------------------------------------------------- writing a code point

  predicate Scalar(cp: int) { 0 <= cp < 0xD800 || 0xE000 <= cp <= 0x10FFFF }

  /** The UTF-8 sequence of a code point (section 3 of RFC 3629). */
  function Encode(cp: int): (r: string)
    requires Scalar(cp)
    ensures 1 <= |r| <= 4
  {
    var a := cp / 64;
    var b := a / 64;
    if cp < 0x80 then [cp as char]
    else if cp < 0x800 then [(0xC0 + a) as char, (0x80 + cp % 64) as char]
    else if cp < 0x10000 then [(0xE0 + b) as char, (0x80 + a % 64) as char, (0x80 + cp % 64) as char]
    else [(0xF0 + b / 64) as char, (0x80 + b % 64) as char, (0x80 + a % 64) as char, (0x80 + cp % 64) as char]
  }

  /** Decoding undoes encoding. */
  lemma {:induction false} EncodeDecodes(cp: int)
    requires Scalar(cp)
    ensures CharSize(Encode(cp), 0) == |Encode(cp)| && CodePoint(Encode(cp), 0) == cp
  {
    var a := cp / 64;
    var b := a / 64;
    assert cp == a * 64 + cp % 64 && a == b * 64 + a % 64 && b == b / 64 * 64 + b % 64;
  }

  /** Encoding undoes decoding: a sequence is valid exactly if it is the encoding of a code point that is no
      surrogate, in its shortest form. */
  lemma {:induction false} DecodeEncodes(s: string, i: nat)
    requires i <= |s|
    ensures CharSize(s, i) > 0 ==>
      Scalar(CodePoint(s, i)) && s[i..i + CharSize(s, i)] == Encode(CodePoint(s, i))
    ensures CharSize(s, i) == 0 ==> forall cp :: Scalar(cp) ==> !Has(s, i, Encode(cp))
  {
    var n := CharSize(s, i);
    if n == 0 {
      forall cp | Scalar(cp) ensures !Has(s, i, Encode(cp)) {
        if Has(s, i, Encode(cp)) {
          EncodedSize(s, i, cp);
        }
      }
    } else {
      DecodedForm(s, i);
    }
  }

  lemma {:induction false} EncodedSize(s: string, i: nat, cp: int)
    requires Scalar(cp) && Has(s, i, Encode(cp))
    ensures CharSize(s, i) > 0
  {
    hide Encode, CharSize;
    EncodeDecodes(cp);
    assert Encode(cp)[0..|Encode(cp)|] == Encode(cp);
    SameChar(Encode(cp), 0, s, i);
  }

  lemma {:induction false} DecodedForm(s: string, i: nat)
    requires i <= |s| && CharSize(s, i) > 0
    ensures Scalar(CodePoint(s, i)) && s[i..i + CharSize(s, i)] == Encode(CodePoint(s, i))
  {
    var n, cp := CharSize(s, i), CodePoint(s, i);
    if n == 2 {
      var a, b := s[i] as int - 0xC0, s[i + 1] as int - 0x80;
      assert cp == a * 64 + b && cp / 64 == a && cp % 64 == b;
    } else if n == 3 {
      var a, b, c := s[i] as int - 0xE0, s[i + 1] as int - 0x80, s[i + 2] as int - 0x80;
      assert cp == (a * 64 + b) * 64 + c && cp / 64 == a * 64 + b && cp % 64 == c;
    } else if n == 4 {
      var a, b, c, d := s[i] as int - 0xF0, s[i + 1] as int - 0x80, s[i + 2] as int - 0x80, s[i + 3] as int - 0x80;
      assert cp == ((a * 64 + b) * 64 + c) * 64 + d && cp / 64 == (a * 64 + b) * 64 + c && cp % 64 == d;
      assert cp / 64 / 64 == a * 64 + b;
    }
  }

  /** The pattern has this text at `p`. */
  predicate Has(pat: string, p: nat, text: string) {
    p + |text| <= |pat| && pat[p..p + |text|] == text
  }

  lemma {:induction false} HasSplit(pat: string, p: nat, a: string, b: string)
    requires Has(pat, p, a + b)
    ensures Has(pat, p, a) && Has(pat, p + |a|, b)
  {
    var t := pat[p..p + |a + b|];
    assert t[..|a|] == a && t[|a|..] == b;
  }

  lemma HasOne(pat: string, p: nat, c: char)
    requires Has(pat, p, [c])
    ensures p < |pat| && pat[p] == c
  {
    assert pat[p..p + 1][0] == c;
  }

  lemma {:induction false} DecodeEncoded(pat: string, p: nat, cp: int)
    requires Scalar(cp) && Has(pat, p, Encode(cp))
    ensures Decode(pat, p) == Part(cp, p + |Encode(cp)|)
    ensures cp != '/' as int ==> !AtEnd(pat, p)
  {
    hide Encode, CharSize, CodePoint;
    EncodeDecodes(cp);
    SameChar(Encode(cp), 0, pat, p);
    assert pat[p..p + |Encode(cp)|][0] == Encode(cp)[0];
    NoSlash(cp);
  }

  lemma NoSlash(cp: int)
    requires Scalar(cp)
    ensures cp != '/' as int ==> Encode(cp)[0] != '/'
  {
  }

  // ---------------------------------------------------------------- writing an expression

  function ClassName(c: CharClass): string {
    match c
    case Alnum => "alnum"
    case Alpha => "alpha"
    case Ascii => "ascii"
    case Blank => "blank"
    case Cntrl => "cntrl"
    case Digit => "digit"
    case Graph => "graph"
    case Lower => "lower"
    case Print => "print"
    case Punct => "punct"
    case Space => "space"
    case Upper => "upper"
    case Word => "word"
    case Xdigit => "xdigit"
  }

  /** A range whose ends can be written: `/` always ends a component. */
  predicate Writable(item: Item) {
    match item
    case Between(lo, hi) => Scalar(lo) && Scalar(hi) && lo <= hi && lo != '/' as int && hi != '/' as int
    case Class(_) => true
  }

  function ItemText(item: Item): (r: string)
    requires Writable(item)
    ensures r != "" && (r[0] == '\\' || r[0] == '[')
  {
    match item
    case Between(lo, hi) => ("\\" + Encode(lo)) + ("-" + ("\\" + Encode(hi)))
    case Class(c) => "[:" + (ClassName(c) + ":]")
  }

  function ItemsText(items: seq<Item>): string
    requires forall i :: 0 <= i < |items| ==> Writable(items[i])
  {
    if items == [] then "" else ItemText(items[0]) + ItemsText(items[1..])
  }

  function BracketText(negate: bool, items: seq<Item>): string
    requires forall i :: 0 <= i < |items| ==> Writable(items[i])
  {
    (if negate then "[!" else "[") + (ItemsText(items) + "]")
  }

  // ---------------------------------------------------------------- reading it back

  lemma {:induction false} PartRead(pat: string, p: nat, cp: int, first: bool)
    requires Scalar(cp) && cp != '/' as int && Has(pat, p, "\\" + Encode(cp))
    ensures p < |pat| && pat[p] == '\\' && ParsePart(pat, p, first) == Part(cp, p + 1 + |Encode(cp)|)
  {
    hide Encode, Decode;
    HasSplit(pat, p, "\\", Encode(cp));
    HasOne(pat, p, '\\');
    DecodeEncoded(pat, p + 1, cp);
  }

  lemma {:induction false} RangeRead(pat: string, p: nat, lo: int, hi: int, first: bool)
    requires Writable(Between(lo, hi)) && Has(pat, p, ItemText(Between(lo, hi)))
    ensures !AtEnd(pat, p) && ParseItem(pat, p, first) == Some((Between(lo, hi), p + |ItemText(Between(lo, hi))|))
  {
    hide Encode, ParsePart, Has, ParseItem;
    var a, b := "\\" + Encode(lo), "\\" + Encode(hi);
    var q := p + |a|;
    HasSplit(pat, p, a, "-" + b);
    HasSplit(pat, q, "-", b);
    PartRead(pat, p, lo, first);
    PartRead(pat, q + 1, hi, false);
    HasOne(pat, q, '-');
    RangeItem(pat, p, lo, q, hi, q + 1 + |b|, first);
  }

  lemma RangeItem(pat: string, p: nat, lo: int, q: nat, hi: int, e: nat, first: bool)
    requires q + 1 < |pat| && p < |pat| && pat[p] == '\\' && pat[q] == '-' && pat[q + 1] == '\\' && lo <= hi
    requires ParsePart(pat, p, first) == Part(lo, q) && ParsePart(pat, q + 1, false) == Part(hi, e)
    ensures ParseItem(pat, p, first) == Some((Between(lo, hi), e))
  {
    hide ParsePart;
  }

  lemma {:induction false} NameSkipped(pat: string, p: nat, name: string)
    requires Has(pat, p, name + ":") && forall i :: 0 <= i < |name| ==> 'a' <= name[i] <= 'z'
    ensures SkipLower(pat, p) == p + |name|
    decreases |name|
  {
    if name == "" {
      HasOne(pat, p, ':');
    } else {
      assert name + ":" == [name[0]] + (name[1..] + ":");
      HasSplit(pat, p, [name[0]], name[1..] + ":");
      HasOne(pat, p, name[0]);
      NameSkipped(pat, p + 1, name[1..]);
    }
  }

  lemma NameKnown(c: CharClass)
    ensures Lookup(ClassName(c)) == Some(c)
    ensures forall i :: 0 <= i < |ClassName(c)| ==> 'a' <= ClassName(c)[i] <= 'z'
  {
  }

  lemma {:induction false} ClassRead(pat: string, p: nat, c: CharClass, first: bool)
    requires Has(pat, p, ItemText(Class(c))) && !Expect(pat, p + |ItemText(Class(c))|, '-')
    ensures !AtEnd(pat, p) && ParseItem(pat, p, first) == Some((Class(c), p + |ItemText(Class(c))|))
  {
    hide Lookup, ClassName, SkipLower, Has, ParseItem, ParseClass;
    var name := ClassName(c);
    var q := p + 2 + |name|;
    HasSplit(pat, p, "[:", name + ":]");
    assert "[:" == "[" + ":" && name + ":]" == name + ":" + "]";
    HasSplit(pat, p, "[", ":");
    HasSplit(pat, p + 2, name + ":", "]");
    HasSplit(pat, p + 2, name, ":");
    HasOne(pat, p, '[');
    HasOne(pat, p + 1, ':');
    HasOne(pat, q, ':');
    HasOne(pat, q + 1, ']');
    NameKnown(c);
    NameSkipped(pat, p + 2, name);
    NameAt(pat, p + 2, name);
    ClassItem(pat, p, c, q, first);
  }

  lemma ClassItem(pat: string, p: nat, c: CharClass, q: nat, first: bool)
    requires p + 2 <= q && q + 1 < |pat| && pat[p] == '[' && pat[p + 1] == ':' && pat[q] == ':' && pat[q + 1] == ']'
    requires SkipLower(pat, p + 2) == q && Lookup(pat[p + 2..q]) == Some(c) && !Expect(pat, q + 2, '-')
    ensures ParseItem(pat, p, first) == Some((Class(c), q + 2))
  {
    hide Lookup, SkipLower, ParseRange;
  }

  lemma NameAt(pat: string, p: nat, name: string)
    requires Has(pat, p, name)
    ensures p + |name| <= |pat| && pat[p..p + |name|] == name
  {
  }

  lemma {:induction false} ItemRead(pat: string, p: nat, item: Item, first: bool)
    requires Writable(item) && Has(pat, p, ItemText(item)) && !Expect(pat, p + |ItemText(item)|, '-')
    ensures !AtEnd(pat, p) && ParseItem(pat, p, first) == Some((item, p + |ItemText(item)|))
  {
    hide ParseItem, ItemText, Has;
    match item
    case Between(lo, hi) => RangeRead(pat, p, lo, hi, first);
    case Class(c) => ClassRead(pat, p, c, first);
  }

  /** Behind an item comes the next one or the closing bracket, never a dash. */
  lemma {:induction false} RestStarts(pat: string, p: nat, items: seq<Item>)
    requires (forall i :: 0 <= i < |items| ==> Writable(items[i])) && Has(pat, p, ItemsText(items) + "]")
    ensures p < |pat| && (items == [] ==> pat[p] == ']') && (items != [] ==> pat[p] == '\\' || pat[p] == '[')
  {
    var t := ItemsText(items) + "]";
    assert pat[p] == pat[p..p + |t|][0] == t[0];
  }

  lemma {:induction false} ItemsRead(pat: string, p: nat, items: seq<Item>)
    requires (forall i :: 0 <= i < |items| ==> Writable(items[i])) && Has(pat, p, ItemsText(items) + "]")
    ensures ParseItems(pat, p) == Some((items, p + |ItemsText(items)| + 1))
    decreases |items|
  {
    hide ItemText, Has, ParseItem;
    RestStarts(pat, p, items);
    if items == [] {
    } else {
      var a, rest := ItemText(items[0]), items[1..];
      assert ItemsText(items) + "]" == a + (ItemsText(rest) + "]");
      HasSplit(pat, p, a, ItemsText(rest) + "]");
      RestStarts(pat, p + |a|, rest);
      ItemRead(pat, p, items[0], false);
      ItemsRead(pat, p + |a|, rest);
      assert [items[0]] + rest == items;
    }
  }

  /** Wherever it stands, a written expression is read as exactly its ranges and classes, complemented or
      not, and ends where its text does. The complement of the empty set cannot be written. */
  lemma {:induction false} BracketRead(pat: string, p: nat, negate: bool, items: seq<Item>)
    requires (forall i :: 0 <= i < |items| ==> Writable(items[i])) && (negate ==> items != [])
    requires Has(pat, p, BracketText(negate, items))
    ensures Expect(pat, p, '[')
    ensures ParseBracket(pat, p) == Some(Bracket(negate, items, p + |BracketText(negate, items)|))
  {
    hide ItemsText, Has, ParseItem, ItemText;
    var tail := ItemsText(items) + "]";
    var q := if negate then p + 2 else p + 1;
    if negate {
      assert "[!" == "[" + "!";
      HasSplit(pat, p, "[!", tail);
      HasSplit(pat, p, "[", "!");
      HasOne(pat, p + 1, '!');
    } else {
      HasSplit(pat, p, "[", tail);
    }
    HasOne(pat, p, '[');
    RestStarts(pat, q, items);
    if items != [] {
      FirstRead(pat, q, items);
    } else {
      NoItems();
    }
  }

  lemma NoItems()
    ensures ItemsText([]) == ""
  {
  }

  lemma {:induction false} FirstRead(pat: string, q: nat, items: seq<Item>)
    requires items != [] && (forall i :: 0 <= i < |items| ==> Writable(items[i])) && Has(pat, q, ItemsText(items) + "]")
    ensures !AtEnd(pat, q)
    ensures AfterItem(pat, ParseItem(pat, q, true), q) == Some((items, q + |ItemsText(items)| + 1))
  {
    hide ItemText, Has, ParseItem, ParseItems;
    var a, rest := ItemText(items[0]), items[1..];
    assert ItemsText(items) + "]" == a + (ItemsText(rest) + "]");
    HasSplit(pat, q, a, ItemsText(rest) + "]");
    RestStarts(pat, q + |a|, rest);
    ItemRead(pat, q, items[0], true);
    ItemsRead(pat, q + |a|, rest);
    assert [items[0]] + rest == items;
  }

  // ---------------------------------------------------------------- nothing else can be read

  lemma {:induction false} DecodedScalar(s: string, i: nat)
    requires i < |s| && s[i] != '/' && CharSize(s, i) > 0
    ensures Scalar(CodePoint(s, i)) && CodePoint(s, i) != '/' as int
  {
  }

  lemma {:induction false} PartScalar(pat: string, p: nat, first: bool)
    requires !AtEnd(pat, p) && ParsePart(pat, p, first).Part?
    ensures Scalar(ParsePart(pat, p, first).cp) && ParsePart(pat, p, first).cp != '/' as int
  {
    hide CharSize, CodePoint, Scalar;
    ScalarMarks();
    var q := if pat[p] == '\\' then p + 1 else p;
    if !AtEnd(pat, q) && CharSize(pat, q) > 0 {
      DecodedScalar(pat, q);
    }
  }

  lemma ScalarMarks()
    ensures Scalar('-' as int) && Scalar(']' as int)
  {
  }

  lemma {:induction false} ItemWritable(pat: string, p: nat, first: bool)
    requires !AtEnd(pat, p) && ParseItem(pat, p, first).Some?
    ensures Writable(ParseItem(pat, p, first).value.0)
  {
    hide ParsePart, Scalar, ParseClass;
    if !ParseItem(pat, p, first).value.0.Class? {
      PartScalar(pat, p, first);
      var q := ParsePart(pat, p, first).next;
      if !AtEnd(pat, q) && pat[q] == '-' && !AtEnd(pat, q + 1) && pat[q + 1] != ']' {
        PartScalar(pat, q + 1, false);
      }
    }
  }

  lemma {:induction false} ItemsWritable(pat: string, p: nat)
    requires p <= |pat| && ParseItems(pat, p).Some?
    ensures var items := ParseItems(pat, p).value.0; forall i :: 0 <= i < |items| ==> Writable(items[i])
    decreases |pat| - p
  {
    hide ParseItem, Writable;
    if pat[p] != ']' {
      ItemWritable(pat, p, false);
      ItemsWritable(pat, ParseItem(pat, p, false).value.1);
    }
  }

  /** Whatever is read can be written: the sets that expressions denote are exactly the writable ones. */
  lemma {:induction false} ReadWritable(pat: string, p: nat)
    requires Expect(pat, p, '[') && ParseBracket(pat, p).Some?
    ensures var b := ParseBracket(pat, p).value;
      (forall i :: 0 <= i < |b.items| ==> Writable(b.items[i])) && (b.negate ==> b.items != [])
  {
    hide ParseItem, ParseItems, Writable;
    if pat[p + 1] != ']' {
      var q := if pat[p + 1] == '!' || pat[p + 1] == '^' then p + 2 else p + 1;
      ItemWritable(pat, q, true);
      ItemsWritable(pat, ParseItem(pat, q, true).value.1);
    }
  }
}
