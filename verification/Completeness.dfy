/** Every text of the grammar is read to its end, with the events of its value, or refused for one of its numerals or
    strings. */
module Completeness {
  import opened Bytes
  import opened Json
  import opened Scanner
  import opened Recursive
  import opened Grammar
  import opened Characters
  import Utf8

  /** The flags under which the reader reads plain JSON as the grammar does; the remaining flags only add texts. */
  predicate PlainFlags(f: Flags) {
    !f.numbersAsStrings
  }

  /** The only errors on a text of the grammar. */
  predicate IsRefusal(code: ErrorCode) {
    code == NumberTooBig || code == StringUnicodeSurrogateInvalid || code == StringInvalidEncoding
  }

  predicate Agrees(r: Outcome, taken: bool, pos: nat, log: seq<Event>) {
    if taken then r == Ok(pos, log) else r.Err? && IsRefusal(r.code)
  }

  // ---- Blanks ----

  lemma {:induction false} SpacesSkipped(t: Text, p: nat, ws: Text)
    requires At(t, p, ws) && IsBlank(ws) && !IsSpace(Peek(t, p + |ws|))
    ensures SkipSpaces(t, p) == p + |ws|
    decreases |ws|
  {
    if ws != [] {
      assert [ws[0]] + ws[1..] == ws;
      AtConcat(t, p, [ws[0]], ws[1..]);
      AtIndex(t, p, ws, 0);
      SpacesSkipped(t, p + 1, ws[1..]);
    }
  }

  lemma BlanksSkipped(f: Flags, t: Text, p: nat, ws: Text, log: seq<Event>)
    requires At(t, p, ws) && IsBlank(ws)
    requires var c := Peek(t, p + |ws|); !IsSpace(c) && c != SLASH
    ensures p <= |t| && Blanks(f, t, p, log) == Ok(p + |ws|, log)
  {
    SpacesSkipped(t, p, ws);
  }

  // ---- Strings ----

  lemma HexRead(t: Text, p: nat, hex: Text)
    requires At(t, p, hex) && IsHex4(hex)
    ensures HexAt(t, p) && Hex4(t, p) == CodeUnit(hex)
  {
    AtIndex(t, p, hex, 0);
    AtIndex(t, p, hex, 1);
    AtIndex(t, p, hex, 2);
    AtIndex(t, p, hex, 3);
  }

  lemma UnicodeRead(t: Text, p: nat, c: Char)
    requires ValidChar(c) && !IsLead(c) && (c.Unicode? || c.Surrogates?) && At(t, p, CharText(c))
    ensures p + 1 < |t| && t[p] == BACKSLASH && t[p + 1] == LETTER_U
    ensures ScanUnicode(t, p).Got? && ScanUnicode(t, p).pos == p + |CharText(c)|
    ensures Utf8.Encode(ScanUnicode(t, p).value) == CharValue(c)
  {
    hide HexAt, Hex4, CodeUnit, Utf8.Encode, IsHex, At, ScanUnicode;
    AtIndex(t, p, CharText(c), 0);
    AtIndex(t, p, CharText(c), 1);
    match c
    case Unicode(hex) => PlainUnicodeRead(t, p, hex);
    case Surrogates(lead, trail) => PairUnicodeRead(t, p, lead, trail);
  }

  lemma PlainUnicodeRead(t: Text, p: nat, hex: Text)
    requires IsHex4(hex) && !(0xD800 <= CodeUnit(hex) <= 0xDBFF) && At(t, p, [BACKSLASH, LETTER_U] + hex)
    ensures ScanUnicode(t, p) == Got(p + 6, CodeUnit(hex))
  {
    hide HexAt, Hex4, CodeUnit, IsHex, At;
    AtConcat(t, p, [BACKSLASH, LETTER_U], hex);
    HexRead(t, p + 2, hex);
  }

  lemma PairUnicodeRead(t: Text, p: nat, lead: Text, trail: Text)
    requires IsHex4(lead) && 0xD800 <= CodeUnit(lead) <= 0xDBFF && IsHex4(trail) && 0xDC00 <= CodeUnit(trail) <= 0xDFFF
    requires At(t, p, [BACKSLASH, LETTER_U] + lead + [BACKSLASH, LETTER_U] + trail)
    ensures ScanUnicode(t, p) == Got(p + 12, (CodeUnit(lead) - 0xD800) * 0x400 + (CodeUnit(trail) - 0xDC00) + 0x10000)
  {
    hide HexAt, Hex4, CodeUnit, IsHex, At;
    var mark := [BACKSLASH, LETTER_U];
    AtConcat(t, p, mark + lead + mark, trail);
    AtConcat(t, p, mark + lead, mark);
    AtConcat(t, p, mark, lead);
    AtIndex(t, p + 6, mark, 0);
    AtIndex(t, p + 6, mark, 1);
    HexRead(t, p + 2, lead);
    HexRead(t, p + 8, trail);
  }

  lemma CharRead(f: Flags, t: Text, p: nat, c: Char)
    requires ValidChar(c) && !IsLead(c) && At(t, p, CharText(c)) && (c.Literal? ==> !f.validateEncoding || c.b < 0x80)
    ensures Peek(t, p) != QUOTE
    ensures ScanChar(f, t, p) == Got(p + |CharText(c)|, CharValue(c))
  {
    hide ScanUnicode, Utf8.Encode, CodeUnit;
    AtIndex(t, p, CharText(c), 0);
    if c.Escape? {
      AtIndex(t, p, CharText(c), 1);
    } else if !c.Literal? {
      UnicodeRead(t, p, c);
    }
  }

  /** A leading surrogate is refused if what stands behind it is not a trailing one. */
  lemma LeadRefused(f: Flags, t: Text, p: nat, cs: seq<Char>)
    requires ValidChars(cs) && cs != [] && IsLead(cs[0]) && At(t, p, CharsText(cs))
    ensures Peek(t, p) != QUOTE && ScanChar(f, t, p) == Bad(StringUnicodeSurrogateInvalid, p)
  {
    hide HexAt, Hex4, At, IsLead, IsTrail, CharsText, ValidChar, ScanChar;
    LeadLayout(t, p, cs);
    if Peek(t, p + 6) == BACKSLASH && Peek(t, p + 7) == LETTER_U {
      assert forall i :: 0 <= i < |cs[1..]| ==> ValidChar(cs[1..][i]);
      NextUnit(t, p + 6, cs[1..]);
      assert |cs| > 1 && cs[1..][0] == cs[1];
      assert IsLead(cs[1 - 1]);
    }
    LeadScanned(f, t, p);
  }

  lemma LeadScanned(f: Flags, t: Text, p: nat)
    requires Peek(t, p) == BACKSLASH && Peek(t, p + 1) == LETTER_U && HexAt(t, p + 2) &&
             0xD800 <= Hex4(t, p + 2) <= 0xDBFF
    requires Peek(t, p + 6) == BACKSLASH && Peek(t, p + 7) == LETTER_U ==>
               HexAt(t, p + 8) && !(0xDC00 <= Hex4(t, p + 8) <= 0xDFFF)
    ensures ScanChar(f, t, p) == Bad(StringUnicodeSurrogateInvalid, p)
  {
    hide HexAt, Hex4;
  }

  lemma LeadLayout(t: Text, p: nat, cs: seq<Char>)
    requires ValidChars(cs) && cs != [] && IsLead(cs[0]) && At(t, p, CharsText(cs))
    ensures Peek(t, p) == BACKSLASH && Peek(t, p + 1) == LETTER_U && HexAt(t, p + 2)
    ensures 0xD800 <= Hex4(t, p + 2) <= 0xDBFF && At(t, p + 6, CharsText(cs[1..]))
  {
    hide HexAt, Hex4, CodeUnit, IsHex, At;
    var mark, hex, rest := [BACKSLASH, LETTER_U], cs[0].hex, CharsText(cs[1..]);
    AtConcat(t, p, mark + hex, rest);
    AtConcat(t, p, mark, hex);
    AtIndex(t, p, mark, 0);
    AtIndex(t, p, mark, 1);
    HexRead(t, p + 2, hex);
  }

  /** A \u escape inside a string is that of a character; a trailing surrogate is not part of a pair. */
  lemma NextUnit(t: Text, p: nat, cs: seq<Char>)
    requires (forall i :: 0 <= i < |cs| ==> ValidChar(cs[i])) && At(t, p, CharsText(cs))
    requires Peek(t, p) == BACKSLASH && Peek(t, p + 1) == LETTER_U
    ensures cs != [] && HexAt(t, p + 2) && (0xDC00 <= Hex4(t, p + 2) <= 0xDFFF ==> IsTrail(cs[0]))
  {
    AtIndex(t, p, CharsText(cs), 0);
    assert cs != [];
    assert ValidChar(cs[0]);
    hide HexAt, Hex4, CodeUnit, IsHex, At, CharText, ValidChar;
    AtConcat(t, p, CharText(cs[0]), CharsText(cs[1..]));
    UnitOf(t, p, cs[0]);
  }

  lemma UnitOf(t: Text, p: nat, c: Char)
    requires ValidChar(c) && At(t, p, CharText(c)) && Peek(t, p) == BACKSLASH && Peek(t, p + 1) == LETTER_U
    ensures HexAt(t, p + 2) && (0xDC00 <= Hex4(t, p + 2) <= 0xDFFF ==> IsTrail(c))
  {
    hide HexAt, Hex4, CodeUnit, IsHex, At;
    AtIndex(t, p, CharText(c), 0);
    AtIndex(t, p, CharText(c), if c.Literal? then 0 else 1);
    var mark := [BACKSLASH, LETTER_U];
    if c.Unicode? {
      AtConcat(t, p, mark, c.hex);
      HexRead(t, p + 2, c.hex);
    } else if c.Surrogates? {
      AtConcat(t, p, mark + c.lead + mark, c.trail);
      AtConcat(t, p, mark + c.lead, mark);
      AtConcat(t, p, mark, c.lead);
      HexRead(t, p + 2, c.lead);
    }
  }

  /** What one turn of ParseStringToStream makes of the characters from the first on: how many it takes, or an error. */
  lemma CharStep(f: Flags, t: Text, p: nat, cs: seq<Char>, acc: Text) returns (n: nat)
    requires ValidChars(cs) && cs != [] && At(t, p, CharsText(cs))
    ensures Peek(t, p) != QUOTE && n <= |cs|
    ensures n == 0 ==> !CharsTaken(f, cs) && ScanChar(f, t, p).Bad? && IsRefusal(ScanChar(f, t, p).code)
    ensures n > 0 ==> Stepped(f, t, p, cs, acc, n)
  {
    hide CharText, CharValue, ValidChar, CharsText, CharsValue, ScanChar, Utf8.IsUtf8, At, IsLead;
    var c := cs[0];
    if IsLead(c) {
      LeadRefused(f, t, p, cs);
      n := 0;
    } else if c.Literal? && f.validateEncoding && c.b >= 0x80 {
      n := LiteralStep(f, t, p, cs, acc);
    } else {
      PlainStep(f, t, p, cs, acc);
      n := 1;
    }
  }

  predicate Stepped(f: Flags, t: Text, p: nat, cs: seq<Char>, acc: Text, n: nat)
    requires Peek(t, p) != QUOTE && n <= |cs| && ValidChars(cs)
  {
    var rest := cs[n..];
    var c := ScanChar(f, t, p);
    && c.Got? && ValidChars(rest) && At(t, c.pos, CharsText(rest))
    && c.pos + |CharsText(rest)| == p + |CharsText(cs)| && CharsValue(cs, acc) == CharsValue(rest, acc + c.value)
    && CharsTaken(f, cs) == CharsTaken(f, rest)
  }

  lemma FirstChar(cs: seq<Char>, acc: Text)
    requires ValidChars(cs) && cs != []
    ensures ValidChar(cs[0]) && ValidChars(cs[1..]) && CharsText(cs) == CharText(cs[0]) + CharsText(cs[1..])
    ensures CharsValue(cs, acc) == CharsValue(cs[1..], acc + CharValue(cs[0]))
  {
    hide CharText, CharValue, IsLead, IsTrail;
  }

  lemma AsciiChar(c: Char, s: Text)
    requires ValidChar(c) && (c.Literal? ==> c.b < 0x80)
    ensures Utf8.IsUtf8(CharText(c) + s) == Utf8.IsUtf8(s)
  {
    hide Utf8.IsUtf8;
    if c.Literal? {
      AsciiFirst(c.b, s);
    } else {
      EscapeIsAscii(c);
      AsciiPrefix(CharText(c), s);
    }
  }

  lemma PlainStep(f: Flags, t: Text, p: nat, cs: seq<Char>, acc: Text)
    requires ValidChars(cs) && cs != [] && At(t, p, CharsText(cs)) && !IsLead(cs[0])
    requires cs[0].Literal? ==> !f.validateEncoding || cs[0].b < 0x80
    ensures Peek(t, p) != QUOTE && Stepped(f, t, p, cs, acc, 1)
  {
    hide CharText, CharsText, CharValue, CharsValue, ValidChar, ValidChars, ScanChar, Utf8.IsUtf8, At, IsLead;
    var c, rest := cs[0], cs[1..];
    FirstChar(cs, acc);
    AtConcat(t, p, CharText(c), CharsText(rest));
    CharRead(f, t, p, c);
    if f.validateEncoding {
      AsciiChar(c, CharsText(rest));
    }
    PairedRest(cs, 1);
  }

  /** The first characters being no leading surrogates, it depends on the rest. */
  lemma PairedRest(cs: seq<Char>, n: nat)
    requires n <= |cs| && forall i :: 0 <= i < n ==> !IsLead(cs[i])
    ensures LeadsPaired(cs) == LeadsPaired(cs[n..])
  {
    hide IsLead;
    if LeadsPaired(cs[n..]) {
      forall i | 0 <= i < |cs| ensures !IsLead(cs[i]) {
        if i >= n {
          assert cs[i] == cs[n..][i - n];
        }
      }
    }
  }

  /** With kParseValidateEncodingFlag a whole UTF-8 character is taken, whose bytes are literals. */
  lemma LiteralStep(f: Flags, t: Text, p: nat, cs: seq<Char>, acc: Text) returns (n: nat)
    requires ValidChars(cs) && cs != [] && At(t, p, CharsText(cs)) && cs[0].Literal? && cs[0].b >= 0x80 &&
             f.validateEncoding
    ensures Peek(t, p) != QUOTE && n <= |cs|
    ensures n == 0 ==> !CharsTaken(f, cs) && ScanChar(f, t, p) == Bad(StringInvalidEncoding, p)
    ensures n > 0 ==> Stepped(f, t, p, cs, acc, n)
  {
    hide CharText, CharValue, ValidChar, ValidChars, CharsText, CharsValue, ScanChar, Utf8.Decode, At, IsLead, Stepped;
    var s := CharsText(cs);
    LiteralByte(cs);
    QuoteLast(cs);
    HighScanned(f, t, p, s);
    var d := Utf8.Decode(s, 0);
    if !d.ok {
      n := 0;
    } else {
      n := d.next;
      HighBytesLiteral(cs, n);
      AtSlice(t, p, s, n);
      LiteralsStepped(f, t, p, cs, s[..n], acc);
    }
  }

  lemma LiteralByte(cs: seq<Char>)
    requires cs != [] && cs[0].Literal?
    ensures CharsText(cs)[0] == cs[0].b
  {
  }

  lemma HighScanned(f: Flags, t: Text, p: nat, s: Text)
    requires f.validateEncoding && At(t, p, s) && s != [] && s[0] >= 0x80 && s[|s| - 1] < 0x80
    ensures Peek(t, p) != QUOTE
    ensures var d := Utf8.Decode(s, 0);
            if d.ok then 1 < d.next <= |s| && (forall i :: 0 <= i < d.next ==> s[i] >= 0x80) &&
                ScanChar(f, t, p) == Got(p + d.next, s[..d.next])
            else ScanChar(f, t, p) == Bad(StringInvalidEncoding, p)
  {
    hide Utf8.Validate, Utf8.Decode;
    AtIndex(t, p, s, 0);
    DecodeInside(t, p, s);
    Utf8.ValidateAgrees(t, p);
    if Utf8.Decode(s, 0).ok {
      HighBytes(s);
      AtSlice(t, p, s, Utf8.Decode(s, 0).next);
    }
  }

  /** The beginning of a stretch of text. */
  lemma AtSlice(t: Text, p: nat, s: Text, n: nat)
    requires At(t, p, s) && n <= |s|
    ensures p + n <= |t| && t[p..p + n] == s[..n] && At(t, p + n, s[n..])
  {
    assert s == s[..n] + s[n..];
    AtConcat(t, p, s[..n], s[n..]);
  }

  lemma LiteralsStepped(f: Flags, t: Text, p: nat, cs: seq<Char>, s: Text, acc: Text)
    requires |s| <= |cs| && ValidChars(cs) && ValidChars(cs[|s|..]) && Unescaped(s) && cs == Literals(s) + cs[|s|..]
    requires |s| <= |CharsText(cs)| && Utf8.IsUtf8(CharsText(cs)) == Utf8.IsUtf8(CharsText(cs)[|s|..])
    requires Peek(t, p) != QUOTE && ScanChar(f, t, p) == Got(p + |s|, s) && At(t, p + |s|, CharsText(cs)[|s|..])
    ensures Stepped(f, t, p, cs, acc, |s|)
  {
    hide ValidChars, CharsText, CharsValue, ScanChar, At, IsLead, Utf8.IsUtf8;
    var rest := cs[|s|..];
    LiteralsText(s, rest, acc);
    assert CharsText(cs)[|s|..] == CharsText(rest);
    NoLeads(cs, s, |s|);
    PairedRest(cs, |s|);
  }

  lemma AtText(t: Text, p: nat, s: Text)
    requires At(t, p, s)
    ensures p + |s| <= |t| && t[p..p + |s|] == s
  {
  }

  lemma NoLeads(cs: seq<Char>, s: Text, n: nat)
    requires n == |s| && n <= |cs| && cs == Literals(s) + cs[n..]
    ensures forall i :: 0 <= i < n ==> !IsLead(cs[i])
  {
    assert forall i :: 0 <= i < n ==> cs[i] == Literals(s)[i];
  }

  /** The characters of a string are decoded whole if they are taken, and refused otherwise. */
  lemma {:induction false} CharsRead(f: Flags, t: Text, p: nat, cs: seq<Char>, acc: Text)
    requires ValidChars(cs) && At(t, p, CharsText(cs))
    ensures var r := ScanString(f, t, p, acc);
            if CharsTaken(f, cs) then r == Got(p + |CharsText(cs)|, CharsValue(cs, acc))
            else r.Bad? && IsRefusal(r.code)
    decreases |cs|
  {
    if cs == [] {
      AtIndex(t, p, CharsText(cs), 0);
      assert Utf8.IsUtf8([QUOTE]) by {
        AsciiFirst(QUOTE, []);
        assert [QUOTE] + [] == [QUOTE];
      }
    } else {
      hide ScanChar, CharText, CharValue, ValidChar, ValidChars, CharsText, CharsValue, CharsTaken, At;
      var n := CharStep(f, t, p, cs, acc);
      if n > 0 {
        CharsRead(f, t, ScanChar(f, t, p).pos, cs[n..], acc + ScanChar(f, t, p).value);
      }
    }
  }

  // ---- Words ----

  lemma {:induction false} WordRead(t: Text, p: nat, word: Text)
    requires At(t, p, word)
    ensures Matched(t, p, word) == |word|
    decreases |word|
  {
    if word != [] {
      assert [word[0]] + word[1..] == word;
      AtConcat(t, p, [word[0]], word[1..]);
      AtIndex(t, p, word, 0);
      WordRead(t, p + 1, word[1..]);
    }
  }

  // ---- Numbers ----

  /** No character that could continue a number stands at `q`. */
  predicate EndsNumber(c: Byte) {
    !IsDigit(c) && c != DOT && !IsExponentMark(c)
  }

  lemma {:induction false} DigitsRead(t: Text, p: nat, ds: Text)
    requires At(t, p, ds) && AllDigits(ds) && !IsDigit(Peek(t, p + |ds|))
    ensures DigitsEnd(t, p) == p + |ds| && t[p..p + |ds|] == ds
    decreases |ds|
  {
    if ds != [] {
      assert [ds[0]] + ds[1..] == ds;
      AtConcat(t, p, [ds[0]], ds[1..]);
      AtIndex(t, p, ds, 0);
      DigitsRead(t, p + 1, ds[1..]);
    }
  }

  /** Where the parts of a numeral stand: integer, fraction, exponent, end. */
  lemma NumericLayout(t: Text, p: nat, n: Numeric) returns (q: nat, r: nat, s: nat, e: nat)
    requires At(t, p, NumericText(n))
    ensures q == (if n.minus then p + 1 else p) && r == q + |n.integer| && s == r + |FractionText(n.fraction)|
    ensures e == s + |ExponentText(n.exponent)| == p + |NumericText(n)| <= |t|
    ensures n.minus ==> Peek(t, p) == MINUS
    ensures At(t, q, n.integer) && At(t, r, FractionText(n.fraction)) && At(t, s, ExponentText(n.exponent))
    ensures t[p..e] == NumericText(n)
  {
    hide ExponentText, FractionText;
    var sign, fraction, exponent := SignText(n.minus), FractionText(n.fraction), ExponentText(n.exponent);
    AtConcat(t, p, sign, n.integer + (fraction + exponent));
    AtConcat(t, p + |sign|, n.integer, fraction + exponent);
    AtConcat(t, p + |sign| + |n.integer|, fraction, exponent);
    if n.minus {
      AtIndex(t, p, sign, 0);
    }
    q := p + |sign|;
    r := q + |n.integer|;
    s := r + |fraction|;
    e := s + |exponent|;
  }

  predicate ValidExponent(x: Exponent) {
    x.Exponent? ==>
      && IsExponentMark(x.mark) && (x.sign == [] || x.sign == [PLUS] || x.sign == [MINUS])
      && AllDigits(x.digits) && x.digits != []
  }

  lemma ExponentLayout(t: Text, s: nat, x: Exponent)
    requires ValidExponent(x) && x.Exponent? && At(t, s, ExponentText(x))
    ensures var u := s + 1 + |x.sign|;
            && IsExponentMark(Peek(t, s)) && IsDigit(Peek(t, u)) && At(t, u, x.digits) &&
               u + |x.digits| == s + |ExponentText(x)|
            && (x.sign == [] ==> IsDigit(Peek(t, s + 1)))
            && (x.sign != [] ==> x.sign == [Peek(t, s + 1)] && (Peek(t, s + 1) == PLUS || Peek(t, s + 1) == MINUS))
  {
    hide At;
    AtIndex(t, s, ExponentText(x), 0);
    AtConcat(t, s, [x.mark], x.sign + x.digits);
    AtConcat(t, s + 1, x.sign, x.digits);
    AtIndex(t, s + 1 + |x.sign|, x.digits, 0);
    if x.sign != [] {
      AtIndex(t, s + 1, x.sign, 0);
    }
  }

  lemma ExponentRead(f: Flags, t: Text, part: IntegerPart, s: nat, x: Exponent, integral: bool, scale: nat)
    requires ValidExponent(x) && part.start < s && AllDigits(part.digits)
    requires At(t, s, ExponentText(x)) && EndsNumber(Peek(t, s + |ExponentText(x)|))
    ensures var e := s + |ExponentText(x)|;
            ScanExponent(f, t, part, s, integral, scale) ==
            if x.Exponent? && x.sign != [MINUS] && Numeral(x.digits) > 308 + scale then Bad(NumberTooBig, part.start)
            else Got(e, NumberEventAt(f, t, part, e, integral && x.NoExponent?))
  {
    hide Numeral, NumberEventAt, DigitsEnd, ExponentText, AllDigits;
    if x.Exponent? {
      ExponentLayout(t, s, x);
      var u := s + 1 + |x.sign|;
      DigitsRead(t, u, x.digits);
    } else {
      assert |ExponentText(x)| == 0 by { NoExponentText(x); }
    }
  }

  lemma NoExponentText(x: Exponent)
    requires x.NoExponent?
    ensures ExponentText(x) == []
  {
  }

  lemma FractionRead(f: Flags, t: Text, part: IntegerPart, r: nat, fraction: Text, x: Exponent)
    requires ValidExponent(x) && AllDigits(fraction) && part.start < r && AllDigits(part.digits)
    requires At(t, r, FractionText(fraction)) && At(t, r + |FractionText(fraction)|, ExponentText(x))
    requires EndsNumber(Peek(t, r + |FractionText(fraction)| + |ExponentText(x)|))
    ensures var scale := if fraction == [] then 0 else FractionScale(part.minus, part.digits, fraction);
            ScanFraction(f, t, part, r) ==
            if IntegerTooBig(f.arithmetic, part.minus, part.digits) then Bad(NumberTooBig, part.start)
            else ScanExponent(f, t, part, r + |FractionText(fraction)|, fraction == [], scale)
  {
    hide IntegerTooBig, ScanExponent, Numeral, FractionScale, DigitsEnd, At, ExponentText, ValidExponent;
    var s := r + |FractionText(fraction)|;
    ExponentBegins(t, s, x);
    if fraction != [] {
      PointRead(t, r, fraction);
    }
  }

  lemma ExponentBegins(t: Text, s: nat, x: Exponent)
    requires ValidExponent(x) && At(t, s, ExponentText(x)) && EndsNumber(Peek(t, s + |ExponentText(x)|))
    ensures s <= |t| && !IsDigit(Peek(t, s)) && Peek(t, s) != DOT
  {
    if x.Exponent? {
      AtIndex(t, s, ExponentText(x), 0);
    }
  }

  lemma PointRead(t: Text, r: nat, fraction: Text)
    requires AllDigits(fraction) && fraction != [] && At(t, r, FractionText(fraction))
    requires !IsDigit(Peek(t, r + 1 + |fraction|))
    ensures Peek(t, r) == DOT && IsDigit(Peek(t, r + 1)) && DigitsEnd(t, r + 1) == r + 1 + |fraction|
    ensures r + 1 + |fraction| <= |t| && t[r + 1..r + 1 + |fraction|] == fraction
  {
    hide DigitsEnd;
    AtConcat(t, r, [DOT], fraction);
    AtIndex(t, r, FractionText(fraction), 0);
    AtIndex(t, r + 1, fraction, 0);
    DigitsRead(t, r + 1, fraction);
  }

  lemma IntegerRead(f: Flags, t: Text, p: nat, minus: bool, integer: Text)
    requires AllDigits(integer) && integer != [] && (|integer| > 1 ==> integer[0] != ZERO)
    requires minus ==> Peek(t, p) == MINUS
    requires At(t, if minus then p + 1 else p, integer)
    requires !IsDigit(Peek(t, (if minus then p + 1 else p) + |integer|))
    ensures p < |t| && (t[p] == MINUS || IsDigit(t[p]))
    ensures var q := if minus then p + 1 else p;
            ScanNumber(f, t, p) == ScanFraction(f, t, IntegerPart(p, minus, integer, false), q + |integer|)
  {
    hide ScanFraction, DigitsEnd;
    var q := if minus then p + 1 else p;
    AtIndex(t, q, integer, 0);
    if integer[0] == ZERO {
      assert integer == [ZERO];
    } else {
      DigitsRead(t, q, integer);
    }
  }

  /** A numeral of the grammar is scanned whole, or refused as too big. */
  lemma NumericRead(f: Flags, t: Text, p: nat, n: Numeric)
    requires ValidNumeric(n) && !f.numbersAsStrings
    requires At(t, p, NumericText(n)) && EndsNumber(Peek(t, p + |NumericText(n)|))
    ensures p < |t| && (t[p] == MINUS || IsDigit(t[p]))
    ensures ScanNumber(f, t, p) == if NumericTaken(f, n) then Got(p + |NumericText(n)|, NumericEvent(n))
            else Bad(NumberTooBig, p)
  {
    hide ScanFraction, ScanNumber, ScanExponent, IntegerTooBig, Numeral, FractionScale, NumericText, FractionText,
         ExponentText, ValidExponent, EndsNumber, At;
    var q, r, s, e := NumericLayout(t, p, n);
    NumericParts(n);
    ExponentBegins(t, s, n.exponent);
    FractionBegins(t, r, n.fraction);
    var part := IntegerPart(p, n.minus, n.integer, false);
    IntegerRead(f, t, p, n.minus, n.integer);
    FractionRead(f, t, part, r, n.fraction, n.exponent);
    ExponentRead(f, t, part, s, n.exponent, n.fraction == [], if n.fraction == [] then 0
        else FractionScale(n.minus, n.integer, n.fraction));
    NoFractionScale(n);
  }

  lemma NumericParts(n: Numeric)
    requires ValidNumeric(n)
    ensures ValidExponent(n.exponent) && (n.fraction == [] ==> FractionText(n.fraction) == [])
  {
  }

  lemma FractionBegins(t: Text, r: nat, fraction: Text)
    requires At(t, r, FractionText(fraction)) && !IsDigit(Peek(t, r + |FractionText(fraction)|))
    ensures !IsDigit(Peek(t, r))
  {
    if fraction != [] {
      AtIndex(t, r, FractionText(fraction), 0);
    }
  }

  lemma NoFractionScale(n: Numeric)
    requires ValidNumeric(n)
    ensures FractionScale(n.minus, n.integer, []) == 0
  {
  }

  // ---- Values ----

  /** A value begins with a character that is neither blank nor punctuation nor the start of a comment. */
  predicate BeginsValue(c: Byte) {
    !IsSpace(c) && c != SLASH && c != RBRACKET && c != RBRACE && c != COMMA && c != COLON && c != NUL
  }

  lemma TreeBegins(v: Tree)
    requires ValidTree(v)
    ensures TreeText(v) != [] && BeginsValue(TreeText(v)[0])
  {
    if v.Num? {
      var n := v.n;
      assert IsDigit(n.integer[0]);
    }
  }

  lemma TreeBeginsAt(t: Text, p: nat, v: Tree)
    requires ValidTree(v) && At(t, p, TreeText(v))
    ensures p < |t| && BeginsValue(t[p])
  {
    hide TreeText;
    TreeBegins(v);
    AtIndex(t, p, TreeText(v), 0);
  }

  /** Blanks and then `c`: neither continues a number. */
  lemma BlankEndsNumber(t: Text, q: nat, ws: Text)
    requires IsBlank(ws) && At(t, q, ws) && EndsNumber(Peek(t, q + |ws|))
    ensures EndsNumber(Peek(t, q))
  {
    if ws != [] {
      AtIndex(t, q, ws, 0);
    }
  }

  predicate IsRead(f: Flags, t: Text, p: nat, v: Tree, log: seq<Event>)
    requires ValidTree(v)
  {
    p <= |t| && Agrees(ParseValue(f, t, p, log), TreeTaken(f, v), p + |TreeText(v)|, TreeLog(v, log))
  }

  lemma WordTreeRead(f: Flags, t: Text, p: nat, v: Tree, log: seq<Event>)
    requires (v.NullWord? || v.TrueWord? || v.FalseWord?) && At(t, p, TreeText(v))
    ensures IsRead(f, t, p, v, log)
  {
    hide Matched;
    AtIndex(t, p, TreeText(v), 0);
    match v
    case NullWord => WordRead(t, p, NULL_WORD);
    case TrueWord => WordRead(t, p, TRUE_WORD);
    case FalseWord => WordRead(t, p, FALSE_WORD);
  }

  lemma NumTreeRead(f: Flags, t: Text, p: nat, n: Numeric, log: seq<Event>)
    requires PlainFlags(f) && ValidNumeric(n) && At(t, p, NumericText(n)) && EndsNumber(Peek(t, p + |NumericText(n)|))
    ensures IsRead(f, t, p, Num(n), log)
  {
    hide ScanNumber, NumericText, NumericTaken, NumericEvent, ScanString, Matched;
    assert IsDigit(NumericText(n)[0]) || NumericText(n)[0] == MINUS by { NumericBegins(n); }
    AtIndex(t, p, NumericText(n), 0);
    NumericRead(f, t, p, n);
  }

  lemma NumericBegins(n: Numeric)
    requires ValidNumeric(n)
    ensures NumericText(n) != [] && (IsDigit(NumericText(n)[0]) || NumericText(n)[0] == MINUS)
  {
    assert IsDigit(n.integer[0]);
  }

  lemma StrTreeRead(f: Flags, t: Text, p: nat, cs: seq<Char>, log: seq<Event>)
    requires ValidChars(cs) && At(t, p, [QUOTE] + CharsText(cs))
    ensures IsRead(f, t, p, Str(cs), log)
  {
    hide ScanString, CharsText, CharsValue, CharsTaken, ValidChars, Matched, ScanNumber;
    AtIndex(t, p, [QUOTE] + CharsText(cs), 0);
    AtConcat(t, p, [QUOTE], CharsText(cs));
    CharsRead(f, t, p + 1, cs, []);
  }

  lemma EmptyTreeRead(f: Flags, t: Text, p: nat, v: Tree, log: seq<Event>)
    requires (v.EmptyArray? || v.EmptyObject?) && IsBlank(v.blank) && At(t, p, TreeText(v))
    ensures IsRead(f, t, p, v, log)
  {
    hide Blanks, ParseElements, ParseMembers, IsBlank;
    AtIndex(t, p, TreeText(v), 0);
    if v.EmptyArray? {
      EmptyRead(f, t, p, LBRACKET, v.blank, RBRACKET, log + [EStartArray]);
      assert ParseArray(f, t, p, log) == Ok(p + 2 + |v.blank|, log + [EStartArray] + [EEndArray(0)]);
    } else {
      EmptyRead(f, t, p, LBRACE, v.blank, RBRACE, log + [EStartObject]);
      assert ParseObject(f, t, p, log) == Ok(p + 2 + |v.blank|, log + [EStartObject] + [EEndObject(0)]);
    }
  }

  /** A value of the grammar is read whole wherever it stands, or refused for one of its numerals or strings. */
  lemma {:induction false} TreeRead(f: Flags, t: Text, p: nat, v: Tree, log: seq<Event>)
    requires PlainFlags(f) && ValidTree(v) && CommasAllowed(f, v)
    requires At(t, p, TreeText(v)) && EndsNumber(Peek(t, p + |TreeText(v)|))
    ensures IsRead(f, t, p, v, log)
    decreases v
  {
    hide NumericText, CharsText, ItemCommasAllowed, PairCommasAllowed, ItemsText, PairsText, ItemsTaken, PairsTaken,
         ItemsLog, PairsLog, ValidItems, ValidPairs, ValidChars, ValidNumeric, NumericTaken, CharsTaken, NumericEvent,
         CharsValue, IsBlank, At, ParseArray, ParseObject, ParseScalar, EndsNumber;
    match v
    case Num(n) => NumTreeRead(f, t, p, n, log);
    case Str(cs) => StrTreeRead(f, t, p, cs, log);
    case Arr(blank, items) => ArrayRead(f, t, p, blank, items, log);
    case Obj(blank, pairs) => ObjectRead(f, t, p, blank, pairs, log);
    case EmptyArray(_) => EmptyTreeRead(f, t, p, v, log);
    case EmptyObject(_) => EmptyTreeRead(f, t, p, v, log);
    case _ => WordTreeRead(f, t, p, v, log);
  }

  lemma EmptyRead(f: Flags, t: Text, p: nat, open: Byte, blank: Text, close: Byte, log: seq<Event>)
    requires At(t, p, [open] + (blank + [close])) && IsBlank(blank) && !IsSpace(close) && close != SLASH
    ensures p + 1 <= |t| && Blanks(f, t, p + 1, log) == Ok(p + 1 + |blank|, log) && Peek(t, p + 1 + |blank|) == close
  {
    AtConcat(t, p, [open], blank + [close]);
    AtConcat(t, p + 1, blank, [close]);
    AtIndex(t, p + 1 + |blank|, [close], 0);
    BlanksSkipped(f, t, p + 1, blank, log);
  }

  lemma {:induction false} ArrayRead(f: Flags, t: Text, p: nat, blank: Text, items: Items, log: seq<Event>)
    requires PlainFlags(f) && IsBlank(blank) && ValidItems(items) && ItemCommasAllowed(f, items)
    requires At(t, p, [LBRACKET] + (blank + ItemsText(items)))
    ensures p < |t| && t[p] == LBRACKET
    ensures Agrees(ParseArray(f, t, p, log), ItemsTaken(f, items), p + 1 + |blank| + |ItemsText(items)|,
                   ItemsLog(items, log + [EStartArray], 0))
    decreases items, 1
  {
    hide ParseElements, TreeText, Skip, ItemsTaken, ItemsText, ItemsLog, At, Agrees, TreeLog, ItemCommasAllowed;
    AtConcat(t, p, [LBRACKET], blank + ItemsText(items));
    AtConcat(t, p + 1, blank, ItemsText(items));
    AtIndex(t, p, [LBRACKET], 0);
    var q := p + 1 + |blank|;
    ItemLayout(t, q, items);
    TreeBeginsAt(t, q, items.value);
    BlanksSkipped(f, t, p + 1, blank, log + [EStartArray]);
    ItemsRead(f, t, q, items, log + [EStartArray], 0);
  }

  /** Where the parts of an element stand. */
  lemma ItemLayout(t: Text, p: nat, items: Items)
    requires ValidItems(items) && At(t, p, ItemsText(items))
    ensures At(t, p, TreeText(items.value)) && At(t, p + |TreeText(items.value)|, items.after)
    ensures var c := Peek(t, p + |TreeText(items.value)| + |items.after|); c == COMMA || c == RBRACKET
    ensures var r := p + |TreeText(items.value)| + |items.after|;
            && (items.LastItem? ==> && At(t, r, ClosingText(items.comma, RBRACKET))
                                    && Peek(t, r) == ClosingText(items.comma, RBRACKET)[0]
                                    && r + |ClosingText(items.comma, RBRACKET)| == p + |ItemsText(items)|)
            && (items.MoreItems? ==> && Peek(t, r) == COMMA && At(t, r + 1, items.before)
                                     && At(t, r + 1 + |items.before|, ItemsText(items.rest))
                                     && r + 1 + |items.before| + |ItemsText(items.rest)| == p + |ItemsText(items)|)
  {
    hide TreeText, ValidTree, At;
    var q := p + |TreeText(items.value)|;
    var r := q + |items.after|;
    if items.LastItem? {
      var close := ClosingText(items.comma, RBRACKET);
      AtConcat(t, p, TreeText(items.value), items.after + close);
      AtConcat(t, q, items.after, close);
      AtIndex(t, r, close, 0);
    } else {
      var rest := items.before + ItemsText(items.rest);
      AtConcat(t, p, TreeText(items.value), items.after + ([COMMA] + rest));
      AtConcat(t, q, items.after, [COMMA] + rest);
      CommaLayout(t, r, items.before, ItemsText(items.rest));
    }
  }

  /** An element, the blanks behind it, and what the parser does there. */
  lemma ElementStep(f: Flags, t: Text, p: nat, log: seq<Event>, count: nat, q: nat, log1: seq<Event>, r: nat)
    requires p <= q <= r <= |t| && ParseValue(f, t, p, log) == Ok(q, log1) && Blanks(f, t, q, log1) == Ok(r, log1)
    ensures ParseElements(f, t, p, log, count) == ParseElementsTail(f, t, r, log1, count + 1)
  {
    hide ParseValue, Blanks, ParseElementsTail;
  }

  lemma ElementRefused(f: Flags, t: Text, p: nat, log: seq<Event>, count: nat)
    requires p <= |t| && ParseValue(f, t, p, log).Err?
    ensures ParseElements(f, t, p, log, count) == ParseValue(f, t, p, log)
  {
    hide ParseValue;
  }

  lemma ElementsClose(f: Flags, t: Text, p: nat, comma: Option<Text>, log: seq<Event>, count: nat)
    requires At(t, p, ClosingText(comma, RBRACKET)) && (comma.Some? ==> f.trailingCommas && IsBlank(comma.value))
    ensures p <= |t|
    ensures ParseElementsTail(f, t, p, log, count) ==
            Ok(p + |ClosingText(comma, RBRACKET)|, log + [EEndArray(count)])
  {
    hide At, ParseElements, Blanks;
    Closing(f, t, p, comma, RBRACKET, log);
  }

  /** Where a trailing comma and the closing bracket stand. */
  lemma Closing(f: Flags, t: Text, p: nat, comma: Option<Text>, bracket: Byte, log: seq<Event>)
    requires At(t, p, ClosingText(comma, bracket)) && (comma.Some? ==> IsBlank(comma.value))
    requires !IsSpace(bracket) && bracket != SLASH
    ensures p < |t| && t[p] == if comma.None? then bracket else COMMA
    ensures comma.Some? ==>
              var q := p + 1 + |comma.value|;
              Blanks(f, t, p + 1, log) == Ok(q, log) && q < |t| && t[q] == bracket
  {
    hide At, Blanks;
    AtIndex(t, p, ClosingText(comma, bracket), 0);
    if comma.Some? {
      AtConcat(t, p, [COMMA], comma.value + [bracket]);
      AtConcat(t, p + 1, comma.value, [bracket]);
      AtIndex(t, p + 1 + |comma.value|, [bracket], 0);
      BlanksSkipped(f, t, p + 1, comma.value, log);
    }
  }

  lemma MembersClose(f: Flags, t: Text, p: nat, comma: Option<Text>, log: seq<Event>, count: nat)
    requires At(t, p, ClosingText(comma, RBRACE)) && (comma.Some? ==> f.trailingCommas && IsBlank(comma.value))
    ensures p <= |t|
    ensures ParseMembersTail(f, t, p, log, count) == Ok(p + |ClosingText(comma, RBRACE)|, log + [EEndObject(count)])
  {
    hide At, ParseMembers, Blanks;
    Closing(f, t, p, comma, RBRACE, log);
  }

  lemma ElementsContinue(f: Flags, t: Text, p: nat, log: seq<Event>, count: nat, q: nat)
    requires p < q <= |t| && Peek(t, p) == COMMA && Blanks(f, t, p + 1, log) == Ok(q, log) && Peek(t, q) != RBRACKET
    ensures ParseElementsTail(f, t, p, log, count) == ParseElements(f, t, q, log, count)
  {
    hide Blanks, ParseElements;
  }

  lemma MembersContinue(f: Flags, t: Text, p: nat, log: seq<Event>, count: nat, q: nat)
    requires p < q <= |t| && Peek(t, p) == COMMA && Blanks(f, t, p + 1, log) == Ok(q, log) && Peek(t, q) != RBRACE
    ensures ParseMembersTail(f, t, p, log, count) == ParseMembers(f, t, q, log, count)
  {
    hide Blanks, ParseMembers;
  }

  lemma {:induction false} ItemsRead(f: Flags, t: Text, p: nat, items: Items, log: seq<Event>, count: nat)
    requires PlainFlags(f) && ValidItems(items) && ItemCommasAllowed(f, items) && At(t, p, ItemsText(items))
    ensures p <= |t|
    ensures Agrees(ParseElements(f, t, p, log, count), ItemsTaken(f, items), p + |ItemsText(items)|,
            ItemsLog(items, log, count))
    decreases items, 0
  {
    hide ParseValue, TreeText, TreeLog, TreeTaken, Blanks, ItemsText, ParseElements, ParseElementsTail, At, ValidTree,
         CommasAllowed, IsBlank, ClosingText;
    ItemLayout(t, p, items);
    var q := p + |TreeText(items.value)|;
    var r := q + |items.after|;
    BlankEndsNumber(t, q, items.after);
    TreeRead(f, t, p, items.value, log);
    if !TreeTaken(f, items.value) {
      ElementRefused(f, t, p, log, count);
    } else {
      var log1 := TreeLog(items.value, log);
      BlanksSkipped(f, t, q, items.after, log1);
      ElementStep(f, t, p, log, count, q, log1, r);
      if items.MoreItems? {
        var s := r + 1 + |items.before|;
        ItemLayout(t, s, items.rest);
        TreeBeginsAt(t, s, items.rest.value);
        BlanksSkipped(f, t, r + 1, items.before, log1);
        ElementsContinue(f, t, r, log1, count + 1, s);
        ItemsRead(f, t, s, items.rest, log1, count + 1);
      } else {
        ElementsClose(f, t, r, items.comma, log1, count + 1);
      }
    }
  }

  lemma {:induction false} ObjectRead(f: Flags, t: Text, p: nat, blank: Text, pairs: Pairs, log: seq<Event>)
    requires PlainFlags(f) && IsBlank(blank) && ValidPairs(pairs) && PairCommasAllowed(f, pairs)
    requires At(t, p, [LBRACE] + (blank + PairsText(pairs)))
    ensures p < |t| && t[p] == LBRACE
    ensures Agrees(ParseObject(f, t, p, log), PairsTaken(f, pairs), p + 1 + |blank| + |PairsText(pairs)|,
                   PairsLog(pairs, log + [EStartObject], 0))
    decreases pairs, 1
  {
    hide ParseMembers, PairText, Skip, ValidPairs, PairsTaken, PairsText, PairsLog, At, Agrees, TreeText, TreeLog,
         PairCommasAllowed;
    AtConcat(t, p, [LBRACE], blank + PairsText(pairs));
    AtConcat(t, p + 1, blank, PairsText(pairs));
    AtIndex(t, p, [LBRACE], 0);
    var q := p + 1 + |blank|;
    PairsLayout(t, q, pairs);
    BlanksSkipped(f, t, p + 1, blank, log + [EStartObject]);
    PairsRead(f, t, q, pairs, log + [EStartObject], 0);
  }

  lemma PairTextBegins(m: Pair)
    ensures PairText(m) != [] && PairText(m)[0] == QUOTE
  {
  }

  /** Where the first member and the rest of an object stand. */
  lemma PairsLayout(t: Text, p: nat, pairs: Pairs)
    requires At(t, p, PairsText(pairs))
    ensures At(t, p, PairText(pairs.pair)) && Peek(t, p) == QUOTE
    ensures var r := p + |PairText(pairs.pair)|;
            && (pairs.LastPair? ==> && At(t, r, ClosingText(pairs.comma, RBRACE))
                                    && Peek(t, r) == ClosingText(pairs.comma, RBRACE)[0]
                                    && r + |ClosingText(pairs.comma, RBRACE)| == p + |PairsText(pairs)|)
            && (pairs.MorePairs? ==> && Peek(t, r) == COMMA && At(t, r + 1, pairs.before)
                                     && At(t, r + 1 + |pairs.before|, PairsText(pairs.rest))
                                     && r + 1 + |pairs.before| + |PairsText(pairs.rest)| == p + |PairsText(pairs)|)
  {
    hide TreeText, CharsText, At, PairText, ClosingText;
    assert PairText(pairs.pair) != [] && PairText(pairs.pair)[0] == QUOTE by { PairTextBegins(pairs.pair); }
    var m := PairText(pairs.pair);
    var r := p + |m|;
    if pairs.LastPair? {
      var close := ClosingText(pairs.comma, RBRACE);
      AtConcat(t, p, m, close);
      AtIndex(t, r, close, 0);
    } else {
      AtConcat(t, p, m, [COMMA] + (pairs.before + PairsText(pairs.rest)));
      CommaLayout(t, r, pairs.before, PairsText(pairs.rest));
    }
    AtIndex(t, p, m, 0);
  }

  /** Where a comma, the blanks behind it and the rest stand. */
  lemma CommaLayout(t: Text, r: nat, before: Text, rest: Text)
    requires At(t, r, [COMMA] + (before + rest))
    ensures Peek(t, r) == COMMA && At(t, r + 1, before) && At(t, r + 1 + |before|, rest)
  {
    hide At;
    AtConcat(t, r, [COMMA], before + rest);
    AtIndex(t, r, [COMMA], 0);
    AtConcat(t, r + 1, before, rest);
  }

  /** Where the parts of a member stand. */
  lemma PairLayout(t: Text, p: nat, m: Pair)
    requires At(t, p, PairText(m))
    ensures At(t, p + 1, CharsText(m.name))
    ensures var q := p + 1 + |CharsText(m.name)|;
            var r := q + |m.colonBefore|;
            var s := r + 1 + |m.colonAfter|;
            var u := s + |TreeText(m.value)|;
            && At(t, q, m.colonBefore) && Peek(t, r) == COLON && At(t, r + 1, m.colonAfter)
            && At(t, s, TreeText(m.value)) && At(t, u, m.after) && u + |m.after| == p + |PairText(m)|
  {
    hide TreeText, CharsText, At;
    var name, value := CharsText(m.name), TreeText(m.value);
    var q := p + 1 + |name|;
    var r := q + |m.colonBefore|;
    var s := r + 1 + |m.colonAfter|;
    AtConcat(t, p, [QUOTE], name + (m.colonBefore + ([COLON] + (m.colonAfter + (value + m.after)))));
    AtConcat(t, p + 1, name, m.colonBefore + ([COLON] + (m.colonAfter + (value + m.after))));
    AtConcat(t, q, m.colonBefore, [COLON] + (m.colonAfter + (value + m.after)));
    AtConcat(t, r, [COLON], m.colonAfter + (value + m.after));
    AtIndex(t, r, [COLON], 0);
    AtConcat(t, r + 1, m.colonAfter, value + m.after);
    AtConcat(t, s, value, m.after);
  }

  predicate ValidPair(m: Pair) {
    ValidChars(m.name) && IsBlank(m.colonBefore) && IsBlank(m.colonAfter) && ValidTree(m.value) && IsBlank(m.after)
  }

  /** A name, its colon, its value, and what the parser does behind them. */
  lemma MemberStep(f: Flags, t: Text, p: nat, log: seq<Event>, count: nat, q: nat, log0: seq<Event>, r: nat, s: nat,
      u: nat, log1: seq<Event>, e: nat)
    requires p < q <= r < s <= u <= e <= |t| && Peek(t, p) == QUOTE && ParseString(f, t, p, log, true) == Ok(q, log0)
    requires Blanks(f, t, q, log0) == Ok(r, log0) && Peek(t, r) == COLON && Blanks(f, t, r + 1, log0) == Ok(s, log0)
    requires ParseValue(f, t, s, log0) == Ok(u, log1) && Blanks(f, t, u, log1) == Ok(e, log1)
    ensures ParseMembers(f, t, p, log, count) == ParseMembersTail(f, t, e, log1, count + 1)
  {
    hide ParseMemberValue, Blanks, ParseMembersTail, ParseString, ParseValue;
    MemberValueStep(f, t, r + 1, log0, count, s, u, log1, e);
  }

  lemma MemberValueStep(f: Flags, t: Text, p: nat, log: seq<Event>, count: nat, q: nat, r: nat, log1: seq<Event>,
      e: nat)
    requires p <= q <= r <= e <= |t| && Blanks(f, t, p, log) == Ok(q, log)
    requires ParseValue(f, t, q, log) == Ok(r, log1) && Blanks(f, t, r, log1) == Ok(e, log1)
    ensures ParseMemberValue(f, t, p, log, count) == ParseMembersTail(f, t, e, log1, count + 1)
  {
    hide ParseValue, Blanks, ParseMembersTail;
  }

  lemma NameRefused(f: Flags, t: Text, p: nat, log: seq<Event>, count: nat)
    requires p <= |t| && Peek(t, p) == QUOTE && ParseString(f, t, p, log, true).Err?
    ensures ParseMembers(f, t, p, log, count) == ParseString(f, t, p, log, true)
  {
    hide ParseString;
  }

  lemma MemberRefused(f: Flags, t: Text, p: nat, log: seq<Event>, count: nat, q: nat, log0: seq<Event>, r: nat, s: nat)
    requires p < q <= r < s <= |t| && Peek(t, p) == QUOTE && ParseString(f, t, p, log, true) == Ok(q, log0)
    requires Blanks(f, t, q, log0) == Ok(r, log0) && Peek(t, r) == COLON && Blanks(f, t, r + 1, log0) == Ok(s, log0)
    requires ParseValue(f, t, s, log0).Err?
    ensures ParseMembers(f, t, p, log, count) == ParseValue(f, t, s, log0)
  {
    hide ParseValue, Blanks, ParseMembersTail, ParseString;
  }

  predicate PairTaken(f: Flags, m: Pair)
    requires ValidPair(m)
  {
    CharsTaken(f, m.name) && TreeTaken(f, m.value)
  }

  lemma NameRead(f: Flags, t: Text, p: nat, cs: seq<Char>, log: seq<Event>)
    requires ValidChars(cs) && Peek(t, p) == QUOTE && At(t, p + 1, CharsText(cs))
    ensures Agrees(ParseString(f, t, p, log, true), CharsTaken(f, cs), p + 1 + |CharsText(cs)|,
            log + [EKey(CharsValue(cs, []))])
  {
    hide ScanString, CharsText, CharsValue, CharsTaken, ValidChars;
    CharsRead(f, t, p + 1, cs, []);
  }

  /** From a name to behind the blanks after its value. */
  lemma {:induction false} PairRead(f: Flags, t: Text, p: nat, m: Pair, log: seq<Event>, count: nat)
    requires PlainFlags(f) && ValidPair(m) && CommasAllowed(f, m.value) && At(t, p, PairText(m)) && Peek(t, p) == QUOTE
    requires var c := Peek(t, p + |PairText(m)|); c == COMMA || c == RBRACE
    ensures var log1 := TreeLog(m.value, log + [EKey(CharsValue(m.name, []))]);
            var r := ParseMembers(f, t, p, log, count);
            && p + |PairText(m)| <= |t|
            && if PairTaken(f, m) then r == ParseMembersTail(f, t, p + |PairText(m)|, log1, count + 1)
               else r.Err? && IsRefusal(r.code)
    decreases m, 0
  {
    hide ParseValue, ParseString, TreeText, TreeLog, TreeTaken, CharsTaken, Blanks, PairText, CharsText, CharsValue,
         ParseMembers,
         ParseMembersTail, ValidTree, ValidChars, At;
    PairLayout(t, p, m);
    var q := p + 1 + |CharsText(m.name)|;
    var r := q + |m.colonBefore|;
    var s := r + 1 + |m.colonAfter|;
    var u := s + |TreeText(m.value)|;
    var e := u + |m.after|;
    assert e <= |t| by { AtText(t, u, m.after); }
    var log0 := log + [EKey(CharsValue(m.name, []))];
    NameRead(f, t, p, m.name, log);
    if !CharsTaken(f, m.name) {
      NameRefused(f, t, p, log, count);
    } else {
      BlanksSkipped(f, t, q, m.colonBefore, log0);
      TreeBeginsAt(t, s, m.value);
      BlanksSkipped(f, t, r + 1, m.colonAfter, log0);
      BlankEndsNumber(t, u, m.after);
      TreeRead(f, t, s, m.value, log0);
      if TreeTaken(f, m.value) {
        var log1 := TreeLog(m.value, log0);
        BlanksSkipped(f, t, u, m.after, log1);
        MemberStep(f, t, p, log, count, q, log0, r, s, u, log1, e);
      } else {
        MemberRefused(f, t, p, log, count, q, log0, r, s);
      }
    }
  }

  lemma {:induction false} PairsRead(f: Flags, t: Text, p: nat, pairs: Pairs, log: seq<Event>, count: nat)
    requires PlainFlags(f) && ValidPairs(pairs) && PairCommasAllowed(f, pairs) && At(t, p, PairsText(pairs))
    ensures p <= |t|
    ensures Agrees(ParseMembers(f, t, p, log, count), PairsTaken(f, pairs), p + |PairsText(pairs)|,
            PairsLog(pairs, log, count))
    decreases pairs, 0
  {
    hide ParseMembers, ParseMembersTail, PairText, TreeText, TreeLog, TreeTaken, CharsTaken, Blanks, CharsValue,
         ValidTree,
         ValidChars, CommasAllowed,
         PairsText, At,
         CharsText, IsBlank;
    PairsLayout(t, p, pairs);
    PairRead(f, t, p, pairs.pair, log, count);
    if pairs.MorePairs? && PairTaken(f, pairs.pair) {
      var r := p + |PairText(pairs.pair)|;
      var s := r + 1 + |pairs.before|;
      var log1 := TreeLog(pairs.pair.value, log + [EKey(CharsValue(pairs.pair.name, []))]);
      PairsLayout(t, s, pairs.rest);
      BlanksSkipped(f, t, r + 1, pairs.before, log1);
      MembersContinue(f, t, r, log1, count + 1, s);
      PairsRead(f, t, s, pairs.rest, log1, count + 1);
    } else if pairs.LastPair? && PairTaken(f, pairs.pair) {
      var r := p + |PairText(pairs.pair)|;
      var log1 := TreeLog(pairs.pair.value, log + [EKey(CharsValue(pairs.pair.name, []))]);
      MembersClose(f, t, r, pairs.comma, log1, count + 1);
    }
  }

  /** A JSON text is read from where the stream stands, up to the end of the text or, with kParseStopWhenDoneFlag, of
      its value; or it is refused for one of its numerals or strings. */
  lemma DocumentRead(f: Flags, t: Text, p: nat, d: Document, log: seq<Event>)
    requires PlainFlags(f) && ValidDocument(d) && CommasAllowed(f, d.root) && At(t, p, DocumentText(d))
    requires var c := Peek(t, p + |DocumentText(d)|); if f.stopWhenDone then EndsNumber(c) else c == NUL
    ensures p <= |t|
    ensures Agrees(ParseFrom(f, t, p, log), TreeTaken(f, d.root), p + StopsBehind(f, d), TreeLog(d.root, log))
  {
    hide ParseValue, TreeText, TreeLog, TreeTaken, Skip, ValidTree, At;
    var root := TreeText(d.root);
    var q := p + |d.before|;
    var r := q + |root|;
    AtConcat(t, p, d.before, root + d.after);
    AtConcat(t, q, root, d.after);
    TreeBeginsAt(t, q, d.root);
    BlanksSkipped(f, t, p, d.before, log);
    BlankEndsNumber(t, r, d.after);
    TreeRead(f, t, q, d.root, log);
    if !f.stopWhenDone && TreeTaken(f, d.root) {
      BlanksSkipped(f, t, r, d.after, TreeLog(d.root, log));
    }
  }

  function StopsBehind(f: Flags, d: Document): nat {
    if f.stopWhenDone then |d.before| + |TreeText(d.root)| else |DocumentText(d)|
  }

  /** A JSON text is accepted exactly if all its numerals and strings are taken; then to its end, with the events of its
      value. */
  lemma DocumentAccepted(f: Flags, d: Document)
    requires PlainFlags(f) && ValidDocument(d) && CommasAllowed(f, d.root)
    ensures var r := Parse(f, DocumentText(d));
            && (r.Ok? <==> TreeTaken(f, d.root))
            && (r.Ok? ==>
                 r == Ok(StopsBehind(f, d), TreeLog(d.root, [])) && CanonicalAll(r.log) == Events(TreeValue(d.root)))
            && (r.Err? ==> IsRefusal(r.code))
  {
    hide ParseFrom, TreeText, TreeLog, ValidTree, TreeTaken, CanonicalAll, Events, TreeValue, DocumentText;
    var t := DocumentText(d);
    assert t[0..0 + |t|] == t;
    DocumentRead(f, t, 0, d, []);
    TreeLogMeaning(d.root, []);
    NoEvents();
  }

  lemma NoEvents()
    ensures CanonicalAll([]) == []
  {
  }
}
