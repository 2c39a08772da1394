/** kParseValidateEncodingFlag: what is accepted in addition to the grammar is that the whole text is UTF-8. */
module Encodings {
  import opened Bytes
  import opened Json
  import opened Scanner
  import opened Recursive
  import opened Grammar
  import opened Characters
  import opened Soundness
  import Completeness
  import Utf8

  predicate EndsAscii(s: Text) {
    s == [] || s[|s| - 1] < 0x80
  }

  /** At the end of an ASCII byte a text can be cut. */
  lemma {:induction false} Utf8Split(a: Text, b: Text)
    requires EndsAscii(a)
    ensures Utf8.IsUtf8(a + b) <==> Utf8.IsUtf8(a) && Utf8.IsUtf8(b)
    decreases |a|
  {
    hide Utf8.Decode;
    if a == [] {
      assert a + b == b;
    } else {
      assert (a + b)[0..|a|] == a;
      DecodeInside(a + b, 0, a);
      var n := Utf8.Decode(a, 0).next;
      if Utf8.Decode(a, 0).ok {
        HighBytes(a);
        assert (a + b)[n..] == a[n..] + b;
        Utf8Split(a[n..], b);
      } else {
        assert a + b != [];
      }
    }
  }

  lemma {:induction false} BlankUtf8(s: Text)
    requires IsBlank(s)
    ensures Utf8.IsUtf8(s) && IsAscii(s)
  {
    AsciiUtf8(s);
  }

  lemma AsciiUtf8(s: Text)
    requires IsAscii(s)
    ensures Utf8.IsUtf8(s)
  {
    AsciiPrefix(s, []);
    assert s + [] == s;
  }

  /** Blanks and an ASCII mark in front change nothing. */
  lemma MarkPrefix(a: Text, c: Byte, s: Text)
    requires IsAscii(a) && c < 0x80
    ensures Utf8.IsUtf8(a + ([c] + s)) == Utf8.IsUtf8(s) && Utf8.IsUtf8([c] + (a + s)) == Utf8.IsUtf8(s)
  {
    hide Utf8.IsUtf8;
    AsciiPrefix(a, [c] + s);
    AsciiFirst(c, s);
    AsciiFirst(c, a + s);
    AsciiPrefix(a, s);
  }

  function Unchecked(f: Flags): Flags {
    f.(validateEncoding := false)
  }

  lemma NumericAscii(n: Numeric)
    requires ValidNumeric(n)
    ensures NumericText(n) != [] && IsAscii(NumericText(n))
  {
    var x := n.exponent;
    assert IsAscii(FractionText(n.fraction)) && IsAscii(ExponentText(x)) && IsAscii(SignText(n.minus)) &&
           IsAscii(n.integer);
  }

  lemma CharsChecked(f: Flags, cs: seq<Char>)
    requires f.validateEncoding
    ensures CharsTaken(f, cs) <==> CharsTaken(Unchecked(f), cs) && Utf8.IsUtf8(CharsText(cs))
    ensures CharsText(cs) != [] && EndsAscii(CharsText(cs))
  {
    QuoteLast(cs);
  }

  lemma Brackets(open: Byte, blank: Text, close: Byte)
    requires IsBlank(blank) && open < 0x80 && close < 0x80
    ensures Utf8.IsUtf8([open] + (blank + [close])) && EndsAscii([open] + (blank + [close]))
  {
    AsciiUtf8([open] + (blank + [close]));
  }

  /** Checking the strings of the tree is checking its whole text. */
  predicate IsChecked(f: Flags, v: Tree)
    requires ValidTree(v)
  {
    && (TreeTaken(f, v) <==> TreeTaken(Unchecked(f), v) && Utf8.IsUtf8(TreeText(v)))
    && TreeText(v) != [] && EndsAscii(TreeText(v))
  }

  lemma WordChecked(f: Flags, v: Tree)
    requires v.NullWord? || v.TrueWord? || v.FalseWord?
    ensures IsChecked(f, v)
  {
    hide Utf8.IsUtf8;
    AsciiUtf8(NULL_WORD);
    AsciiUtf8(TRUE_WORD);
    AsciiUtf8(FALSE_WORD);
  }

  lemma NumChecked(f: Flags, n: Numeric)
    requires ValidNumeric(n)
    ensures IsChecked(f, Num(n))
  {
    hide NumericTaken, NumericText, Utf8.IsUtf8, ValidNumeric;
    NumericAscii(n);
    AsciiUtf8(NumericText(n));
    NumericUnchecked(f, n);
  }

  lemma StrChecked(f: Flags, cs: seq<Char>)
    requires f.validateEncoding && ValidChars(cs)
    ensures IsChecked(f, Str(cs))
  {
    hide CharsTaken, CharsText, Utf8.IsUtf8, ValidChars;
    CharsChecked(f, cs);
    AsciiFirst(QUOTE, CharsText(cs));
  }

  lemma EndsLater(a: Text, b: Text)
    requires b != [] && EndsAscii(b)
    ensures a + b != [] && EndsAscii(a + b)
  {
  }

  lemma ArrChecked(f: Flags, blank: Text, items: Items)
    requires IsBlank(blank) && ValidItems(items)
    requires ItemsTaken(f, items) <==> ItemsTaken(Unchecked(f), items) && Utf8.IsUtf8(ItemsText(items))
    requires ItemsText(items) != [] && EndsAscii(ItemsText(items))
    ensures IsChecked(f, Arr(blank, items))
  {
    hide Utf8.IsUtf8, ItemsTaken, ItemsText, ValidItems, IsBlank, EndsAscii;
    BlankUtf8(blank);
    MarkPrefix(blank, LBRACKET, ItemsText(items));
    EndsLater(blank, ItemsText(items));
    EndsLater([LBRACKET], blank + ItemsText(items));
  }

  lemma ObjChecked(f: Flags, blank: Text, pairs: Pairs)
    requires IsBlank(blank) && ValidPairs(pairs)
    requires PairsTaken(f, pairs) <==> PairsTaken(Unchecked(f), pairs) && Utf8.IsUtf8(PairsText(pairs))
    requires PairsText(pairs) != [] && EndsAscii(PairsText(pairs))
    ensures IsChecked(f, Obj(blank, pairs))
  {
    hide Utf8.IsUtf8, PairsTaken, PairsText, ValidPairs, IsBlank, EndsAscii;
    BlankUtf8(blank);
    MarkPrefix(blank, LBRACE, PairsText(pairs));
    EndsLater(blank, PairsText(pairs));
    EndsLater([LBRACE], blank + PairsText(pairs));
  }

  lemma EmptyChecked(f: Flags, blank: Text)
    requires IsBlank(blank)
    ensures IsChecked(f, EmptyArray(blank)) && IsChecked(f, EmptyObject(blank))
  {
    hide Utf8.IsUtf8, IsBlank;
    Brackets(LBRACKET, blank, RBRACKET);
    Brackets(LBRACE, blank, RBRACE);
  }

  lemma {:induction false} TreeChecked(f: Flags, v: Tree)
    requires f.validateEncoding && ValidTree(v)
    ensures IsChecked(f, v)
    decreases v
  {
    hide IsChecked, ItemsTaken, ItemsText, PairsTaken, PairsText, ValidNumeric, ValidChars, ValidItems, ValidPairs,
         Utf8.IsUtf8;
    match v
    case Num(n) => NumChecked(f, n);
    case Str(cs) => StrChecked(f, cs);
    case EmptyArray(blank) => EmptyChecked(f, blank);
    case EmptyObject(blank) => EmptyChecked(f, blank);
    case Arr(blank, items) =>
      ItemsChecked(f, items);
      ArrChecked(f, blank, items);
    case Obj(blank, pairs) =>
      PairsChecked(f, pairs);
      ObjChecked(f, blank, pairs);
    case _ => WordChecked(f, v);
  }

  lemma NumericUnchecked(f: Flags, n: Numeric)
    requires ValidNumeric(n)
    ensures NumericTaken(f, n) == NumericTaken(Unchecked(f), n)
  {
  }

  lemma ClosingChecked(comma: Option<Text>, bracket: Byte)
    requires bracket < 0x80 && (comma.Some? ==> IsBlank(comma.value))
    ensures var s := ClosingText(comma, bracket); Utf8.IsUtf8(s) && EndsAscii(s)
  {
    AsciiUtf8(ClosingText(comma, bracket));
  }

  lemma {:induction false} ItemsChecked(f: Flags, items: Items)
    requires f.validateEncoding && ValidItems(items)
    ensures ItemsTaken(f, items) <==> ItemsTaken(Unchecked(f), items) && Utf8.IsUtf8(ItemsText(items))
    ensures ItemsText(items) != [] && EndsAscii(ItemsText(items))
    decreases items
  {
    hide TreeTaken, TreeText, ValidTree, Utf8.IsUtf8, IsBlank;
    TreeChecked(f, items.value);
    BlankUtf8(items.after);
    if items.MoreItems? {
      ItemsChecked(f, items.rest);
      BlankUtf8(items.before);
      var rest := items.before + ItemsText(items.rest);
      MarkPrefix(items.before, COMMA, ItemsText(items.rest));
      MarkPrefix(items.after, COMMA, rest);
      AsciiPrefix(items.before, ItemsText(items.rest));
      Utf8Split(TreeText(items.value), items.after + ([COMMA] + rest));
    } else {
      var close := ClosingText(items.comma, RBRACKET);
      ClosingChecked(items.comma, RBRACKET);
      AsciiPrefix(items.after, close);
      Utf8Split(TreeText(items.value), items.after + close);
    }
  }

  lemma {:induction false} PairChecked(f: Flags, m: Pair)
    requires f.validateEncoding && Completeness.ValidPair(m)
    ensures Completeness.PairTaken(f, m) <==> Completeness.PairTaken(Unchecked(f), m) && Utf8.IsUtf8(PairText(m))
    ensures PairText(m) != [] && EndsAscii(PairText(m))
    decreases m, 0
  {
    hide TreeTaken, TreeText, ValidTree, CharsTaken, CharsText, Utf8.IsUtf8, IsBlank, ValidChars;
    TreeChecked(f, m.value);
    CharsChecked(f, m.name);
    BlankUtf8(m.colonBefore);
    BlankUtf8(m.colonAfter);
    BlankUtf8(m.after);
    var value := TreeText(m.value) + m.after;
    Utf8Split(TreeText(m.value), m.after);
    var tail := m.colonAfter + value;
    AsciiPrefix(m.colonAfter, value);
    MarkPrefix(m.colonBefore, COLON, tail);
    Utf8Split(CharsText(m.name), m.colonBefore + ([COLON] + tail));
    AsciiFirst(QUOTE, CharsText(m.name) + (m.colonBefore + ([COLON] + tail)));
  }

  lemma {:induction false} PairsChecked(f: Flags, pairs: Pairs)
    requires f.validateEncoding && ValidPairs(pairs)
    ensures PairsTaken(f, pairs) <==> PairsTaken(Unchecked(f), pairs) && Utf8.IsUtf8(PairsText(pairs))
    ensures PairsText(pairs) != [] && EndsAscii(PairsText(pairs))
    decreases pairs, 0
  {
    hide TreeTaken, TreeText, ValidTree, CharsTaken, CharsText, Utf8.IsUtf8, IsBlank, ValidChars, PairText;
    PairChecked(f, pairs.pair);
    if pairs.MorePairs? {
      PairsChecked(f, pairs.rest);
      BlankUtf8(pairs.before);
      MarkPrefix(pairs.before, COMMA, PairsText(pairs.rest));
      Utf8Split(PairText(pairs.pair), [COMMA] + (pairs.before + PairsText(pairs.rest)));
    } else {
      ClosingChecked(pairs.comma, RBRACE);
      Utf8Split(PairText(pairs.pair), ClosingText(pairs.comma, RBRACE));
    }
  }

  /** With the flag, exactly those texts are accepted that are accepted without and are UTF-8. */
  lemma ValidatingAccepts(f: Flags, t: Text)
    requires StrictFlags(f) && !f.stopWhenDone && f.validateEncoding && NUL !in t
    ensures Parse(f, t).Ok? <==> Parse(Unchecked(f), t).Ok? && Utf8.IsUtf8(t)
  {
    hide Parse, ValidTree, CommasAllowed, TreeTaken, DocumentText, Utf8.IsUtf8;
    AcceptsExactlyJson(f, t);
    AcceptsExactlyJson(Unchecked(f), t);
    forall d: Document | ValidDocument(d) && DocumentText(d) == t
      ensures TreeTaken(f, d.root) <==> TreeTaken(Unchecked(f), d.root) && Utf8.IsUtf8(t)
      ensures CommasAllowed(f, d.root) <==> CommasAllowed(Unchecked(f), d.root)
    {
      DocumentChecked(f, d);
      SameCommas(f, Unchecked(f), d.root);
    }
  }

  /** Of the flags, trailing commas depend on their own only. */
  lemma {:induction false} SameCommas(f: Flags, g: Flags, v: Tree)
    requires f.trailingCommas == g.trailingCommas
    ensures CommasAllowed(f, v) == CommasAllowed(g, v)
    decreases v
  {
    match v
    case Arr(_, items) => SameItemCommas(f, g, items);
    case Obj(_, pairs) => SamePairCommas(f, g, pairs);
    case _ =>
  }

  lemma {:induction false} SameItemCommas(f: Flags, g: Flags, items: Items)
    requires f.trailingCommas == g.trailingCommas
    ensures ItemCommasAllowed(f, items) == ItemCommasAllowed(g, items)
    decreases items
  {
    SameCommas(f, g, items.value);
    if items.MoreItems? {
      SameItemCommas(f, g, items.rest);
    }
  }

  lemma {:induction false} SamePairCommas(f: Flags, g: Flags, pairs: Pairs)
    requires f.trailingCommas == g.trailingCommas
    ensures PairCommasAllowed(f, pairs) == PairCommasAllowed(g, pairs)
    decreases pairs
  {
    SameCommas(f, g, pairs.pair.value);
    if pairs.MorePairs? {
      SamePairCommas(f, g, pairs.rest);
    }
  }

  lemma DocumentChecked(f: Flags, d: Document)
    requires f.validateEncoding && ValidDocument(d)
    ensures TreeTaken(f, d.root) <==> TreeTaken(Unchecked(f), d.root) && Utf8.IsUtf8(DocumentText(d))
  {
    hide TreeTaken, ValidTree, TreeText, Utf8.IsUtf8, IsBlank;
    TreeChecked(f, d.root);
    BlankUtf8(d.before);
    BlankUtf8(d.after);
    AsciiPrefix(d.before, TreeText(d.root) + d.after);
    Utf8Split(TreeText(d.root), d.after);
  }
}
